/**
 * How `write` turns the caller's bytes into a command: it copies all but
 * the last byte (at most 511) into a 512-byte kernel buffer, terminates it
 * with NUL, and compares the resulting C string against the seven command
 * words with `strcmp`.
 */
module Commands {
  import opened GpioTypes

  /** The command words `write` recognises, and everything else. */
  datatype Command =
    | SetOut                  // "out"
    | SetIn                   // "in"
    | Drive(level: Level)     // "1" / "0"
    | Arm(trigger: Trigger)   // "rising" / "falling"
    | DisableIrq              // "disable-irq"
    | Unknown

  /** The copy length exactly as written: `count - 1` is computed on the
      unsigned `size_t` and stored into a 32-bit `unsigned int`, and writes
      of 512 bytes or more are cut to 511. `size_t` is 32 bits on the
      target's 32-bit ARM kernel; the model takes `count` as 64-bit, and
      either width gives 2^32 - 1 in `len` when `count` is 0. */
  function CopyLengthAsWritten(count: u64): (len: u32)
    ensures 0 < count as int <= BUF_SIZE ==> len as int == count as int - 1
    ensures BUF_SIZE <= count as int ==> len as int == BUF_SIZE - 1
  {
    if (count as int) < BUF_SIZE then
      (((count as int - 1) % U64_MODULUS) % U32_MODULUS) as u32
    else
      (BUF_SIZE - 1) as u32
  }

  /** A zero-length write makes the length wrap to 2^32 - 1, so
      `copy_from_user` is asked to write 2^32 - 1 bytes into the 512-byte
      kernel buffer; the NUL store after it is reached only if that copy
      succeeds, which it cannot. */
  lemma EmptyWriteOverrunsBuffer()
    ensures CopyLengthAsWritten(0) as int == U32_MODULUS - 1
    ensures CopyLengthAsWritten(0) as int >= BUF_SIZE
  {
  }

  /** The copy length as evidently intended: the same as written for every
      non-empty write, and nothing at all for an empty one. */
  function CopyLength(count: u64): (len: nat)
    ensures len < BUF_SIZE
    ensures 0 < count ==> len == CopyLengthAsWritten(count) as int
    ensures 0 < count ==> len < count as int
    ensures count == 0 ==> len == 0
  {
    if count == 0 then 0
    else if (count as int) < BUF_SIZE then count as int - 1
    else BUF_SIZE - 1
  }

  /** The C string held by a NUL-terminated buffer: everything before the
      first NUL byte. */
  function CString(s: seq<char>): (r: seq<char>)
    ensures r <= s
    ensures '\0' !in r
    ensures |r| < |s| ==> s[|r|] == '\0'
  {
    if s == [] || s[0] == '\0' then [] else [s[0]] + CString(s[1..])
  }

  /** The text `write` compares, or None when `copy_from_user` faults
      because fewer than the bytes to copy are readable at `buf`. */
  function Request(buf: seq<char>, count: u64): (r: Option<seq<char>>)
    ensures r.None? <==> |buf| < CopyLength(count)
    ensures r.Some? ==> |r.value| <= CopyLength(count) && r.value <= buf
    ensures r.Some? ==> '\0' !in r.value
    ensures r.Some? ==> |r.value| == CopyLength(count) || buf[|r.value|] == '\0'
  {
    var len := CopyLength(count);
    if |buf| < len then None else Some(CString(buf[..len]))
  }

  /** The word for each recognised command. */
  function Text(c: Command): (s: seq<char>)
    requires !c.Unknown?
    ensures 0 < |s| < BUF_SIZE - 1 && '\0' !in s
  {
    match c
    case SetOut => "out"
    case SetIn => "in"
    case Drive(l) => if l == High then "1" else "0"
    case Arm(t) => if t == Rising then "rising" else "falling"
    case DisableIrq => "disable-irq"
  }

  /** The `strcmp` chain of `write`. */
  function Parse(s: seq<char>): (c: Command)
    ensures !c.Unknown? ==> Text(c) == s
  {
    if s == "out" then SetOut
    else if s == "in" then SetIn
    else if s == "1" then Drive(High)
    else if s == "0" then Drive(Low)
    else if s == "rising" then Arm(Rising)
    else if s == "falling" then Arm(Falling)
    else if s == "disable-irq" then DisableIrq
    else Unknown
  }

  /** Every command word is recognised as its own command. */
  lemma ParseText(c: Command)
    requires !c.Unknown?
    ensures Parse(Text(c)) == c
  {
  }

  /** A text without NUL bytes, followed by one more byte (the newline
      `echo` adds, or a terminating NUL), is read as exactly that text: the
      last byte of every write is dropped. */
  lemma {:induction false} TrailingByteDropped(t: seq<char>, x: char)
    requires '\0' !in t && |t| < BUF_SIZE
    ensures Request(t + [x], (|t| + 1) as u64) == Some(t)
  {
    var count := (|t| + 1) as u64;
    assert CopyLength(count) == |t|;
    assert (t + [x])[..|t|] == t;
    var r := CString(t);
    assert |r| == |t| && r <= t;
    assert r == t[..|r|] == t;
    assert Request(t + [x], count) == Some(r);
  }

  /** Without that extra byte the word loses its last letter and is not
      recognised at all. */
  lemma NoTrailingByteRejected(c: Command)
    requires !c.Unknown?
    ensures Request(Text(c), |Text(c)| as u64).Some?
    ensures Parse(Request(Text(c), |Text(c)| as u64).value) == Unknown
  {
    var t := Text(c);
    var r := Request(t, |t| as u64).value;
    assert |r| <= |t| - 1 && r <= t;
  }

  /** The two buffers the user-space utility writes, four bytes each:
      "out\0" and, after overwriting it, "1\0t\0" (or "0\0t\0"). */
  lemma UtilityWrites(l: Level)
    ensures Request("out\0", 4).Some? && Parse(Request("out\0", 4).value) == SetOut
    ensures var b := [Digit(l), '\0', 't', '\0'];
      Request(b, 4).Some? && Parse(Request(b, 4).value) == Drive(l)
  {
    assert "out\0"[..3] == "out";
    assert CString("out") == "out" by {
      assert "out"[1..] == "ut" && "ut"[1..] == "t" && "t"[1..] == [];
    }
    var b := [Digit(l), '\0', 't', '\0'];
    assert b[..3] == [Digit(l), '\0', 't'];
    assert CString(b[..3]) == [Digit(l)] by {
      assert b[..3][1..] == ['\0', 't'];
    }
  }
}
