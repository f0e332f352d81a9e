/**
 * The per-pin state machine: what `write`, `open` and `release` do to one
 * record, and which interrupt calls they issue. The driver class applies
 * these to its array of records in place; the lemmas here are about
 * single operations and about whole sessions of them on one pin.
 */
module PinMachine {
  import opened GpioTypes
  import opened Commands

  /** The record `init` gives every managed pin. */
  const InitialRecord := PinRecord(Low, Out, false, Rising, 0)

  /** Effect of one decoded write command on the record of pin `gpio`.
      `ret` is 0 when the command was carried out. */
  function Interpret(gpio: nat, r: PinRecord, c: Command): (s: Step)
    ensures s.rec.irqCounter == r.irqCounter
    ensures s.ret == 0 || s.ret == -EPERM || s.ret == -EINVAL
    ensures s.ret == -EINVAL <==> c.Unknown?
    ensures s.ret == -EPERM <==> c.Drive? && r.dir == In
    ensures s.ret != 0 ==> s.rec == r && s.calls == []
    ensures forall k :: 0 <= k < |s.calls| ==>
      s.calls[k].gpio == gpio && !s.calls[k].RequestIrq? && !s.calls[k].FreeIrq?
  {
    match c
    case SetOut =>
      if r.dir != Out then Step(r.(dir := Out, state := Low), [DirectionOutput(gpio, Low)], 0)
      else Step(r, [], 0)
    case SetIn =>
      if r.dir != In then Step(r.(dir := In), [DirectionInput(gpio)], 0)
      else Step(r, [], 0)
    case Drive(l) =>
      if r.dir == In then Step(r, [], -EPERM)
      else Step(r.(state := l), [SetValue(gpio, l)], 0)
    case Arm(t) =>
      Step(r.(dir := In, irqPerm := true, irqFlag := t), [DirectionInput(gpio)], 0)
    case DisableIrq =>
      Step(r.(irqPerm := false), [], 0)
    case Unknown =>
      Step(r, [], -EINVAL)
  }

  /** Effect of `open` on the record of pin `gpio`; `requestResult` is what
      `request_irq` returns if it is called (0 or a negative errno). */
  function OpenStep(gpio: nat, r: PinRecord, requestResult: int): (s: Step)
    requires requestResult <= 0
    ensures s.rec == r.(irqCounter := s.rec.irqCounter)
    ensures s.rec.irqCounter != r.irqCounter <==> r.irqPerm && r.dir == In
    ensures s.rec.irqCounter != r.irqCounter ==> s.rec.irqCounter == Inc32(r.irqCounter)
    ensures s.calls != [] <==> r.irqPerm && r.dir == In && r.irqCounter == 0
    ensures s.calls != [] ==> s.calls == [RequestIrq(gpio, r.irqFlag, requestResult)]
    ensures s.ret == (if s.calls == [] then 0 else requestResult)
  {
    if r.irqPerm && r.dir == In then
      var armed := r.(irqCounter := Inc32(r.irqCounter));
      if r.irqCounter == 0 then Step(armed, [RequestIrq(gpio, r.irqFlag, requestResult)], requestResult)
      else Step(armed, [], 0)
    else
      Step(r, [], 0)
  }

  /** Effect of `release` on the record of pin `gpio`. */
  function ReleaseStep(gpio: nat, r: PinRecord): (s: Step)
    ensures s.rec == r.(irqCounter := s.rec.irqCounter)
    ensures s.ret == 0
    ensures s.rec.irqCounter <= r.irqCounter
    ensures r.irqPerm && r.irqCounter > 0 ==> s.rec.irqCounter as int == r.irqCounter as int - 1
    ensures !r.irqPerm ==> s.rec.irqCounter == 0
    ensures s.calls != [] <==> r.irqCounter > 0 && s.rec.irqCounter == 0
    ensures s.calls != [] ==> s.calls == [FreeIrq(gpio)]
  {
    if r.irqPerm && r.irqCounter > 0 then
      var c := r.irqCounter - 1;
      Step(r.(irqCounter := c), if c == 0 then [FreeIrq(gpio)] else [], 0)
    else if !r.irqPerm && r.irqCounter > 0 then
      Step(r.(irqCounter := 0), [FreeIrq(gpio)], 0)
    else
      Step(r, [], 0)
  }

  /** Writing "1" or "0" to an output sets its level and nothing else, and
      drives the line; on an input it is refused and changes nothing. */
  lemma DriveRespectsDirection(gpio: nat, r: PinRecord, l: Level)
    ensures r.dir == Out ==> Interpret(gpio, r, Drive(l)) == Step(r.(state := l), [SetValue(gpio, l)], 0)
    ensures r.dir == In ==> Interpret(gpio, r, Drive(l)) == Step(r, [], -EPERM)
  {
  }

  /** "out" switches an input to an output driven low, with one
      `gpio_direction_output(gpio, low)`, and keeps every other field; on an
      output it does nothing at all, so a second "out" is a no-op. */
  lemma OutIsIdempotent(gpio: nat, r: PinRecord)
    ensures Interpret(gpio, r, SetOut) ==
      if r.dir == Out then Step(r, [], 0)
      else Step(r.(dir := Out, state := Low), [DirectionOutput(gpio, Low)], 0)
    ensures var s := Interpret(gpio, r, SetOut);
      Interpret(gpio, s.rec, SetOut) == Step(s.rec, [], 0)
  {
  }

  /** "in" switches an output to an input, with one `gpio_direction_input`,
      and leaves the remembered level and every other field alone; on an
      input it does nothing. */
  lemma InKeepsLevel(gpio: nat, r: PinRecord)
    ensures Interpret(gpio, r, SetIn) ==
      if r.dir == In then Step(r, [], 0)
      else Step(r.(dir := In), [DirectionInput(gpio)], 0)
  {
  }

  /** "rising"/"falling" make the pin an input with interrupts permitted on
      that edge, without installing anything; "disable-irq" clears only the
      permission. Neither touches the interrupt counter. */
  lemma ArmAndDisable(gpio: nat, r: PinRecord, t: Trigger)
    ensures Interpret(gpio, r, Arm(t)).rec == r.(dir := In, irqPerm := true, irqFlag := t)
    ensures Interpret(gpio, r, Arm(t)).calls == [DirectionInput(gpio)]
    ensures Interpret(gpio, r, DisableIrq) == Step(r.(irqPerm := false), [], 0)
  {
  }

  /** Writing "rising" and then "disable-irq" leaves the pin an input with
      interrupts no longer permitted; "in" followed by "1" is refused and
      leaves the pin an input; "out" then "1" leaves it high. */
  lemma CommandSequences(gpio: nat, r: PinRecord)
    ensures var a := Interpret(gpio, r, Arm(Rising)).rec;
      var d := Interpret(gpio, a, DisableIrq).rec;
      d.dir == In && !d.irqPerm && d.irqCounter == r.irqCounter
    ensures var i := Interpret(gpio, r, SetIn).rec;
      Interpret(gpio, i, Drive(High)).ret == -EPERM && Interpret(gpio, i, Drive(High)).rec.dir == In
    ensures var o := Interpret(gpio, r, SetOut).rec;
      Interpret(gpio, o, Drive(High)).rec.state == High &&
      Interpret(gpio, Interpret(gpio, o, Drive(High)).rec, Drive(Low)).rec.state == Low
  {
  }

  /** An `open` followed by its `release` on a pin with interrupts permitted
      restores the record; the handler is requested and freed only around
      the first user. */
  lemma OpenReleaseRoundTrip(gpio: nat, r: PinRecord)
    requires r.irqPerm && r.dir == In && r.irqCounter < 0xFFFF_FFFF
    ensures var o := OpenStep(gpio, r, 0);
      var c := ReleaseStep(gpio, o.rec);
      c.rec == r && o.ret == 0 &&
      o.calls + c.calls == (if r.irqCounter == 0 then [RequestIrq(gpio, r.irqFlag, 0), FreeIrq(gpio)] else [])
  {
  }

  // ---------------------------------------------------------------------
  // Sessions: many clients' operations on one pin, in some order.

  /** One file operation on the pin. */
  datatype Event = Open(requestResult: int) | Close | Write(cmd: Command)

  predicate WellFormed(evs: seq<Event>)
  {
    forall k :: 0 <= k < |evs| ==> (evs[k].Open? ==> evs[k].requestResult <= 0)
  }

  /** Every `request_irq` in the session succeeds. */
  predicate RequestsSucceed(evs: seq<Event>)
  {
    forall k :: 0 <= k < |evs| ==> (evs[k].Open? ==> evs[k].requestResult == 0)
  }

  function Apply(gpio: nat, r: PinRecord, e: Event): Step
    requires e.Open? ==> e.requestResult <= 0
  {
    match e
    case Open(res) => OpenStep(gpio, r, res)
    case Close => ReleaseStep(gpio, r)
    case Write(c) => Interpret(gpio, r, c)
  }

  /** The record after a session and every hardware call made during it. */
  function Run(gpio: nat, r: PinRecord, evs: seq<Event>): (t: (PinRecord, seq<HwCall>))
    requires WellFormed(evs)
    decreases |evs|
  {
    if evs == [] then (r, [])
    else
      var s := Apply(gpio, r, evs[0]);
      var t := Run(gpio, s.rec, evs[1..]);
      (t.0, s.calls + t.1)
  }

  /** Whether an interrupt handler is installed after one call. */
  function After(installed: bool, c: HwCall): bool
  {
    match c
    case RequestIrq(_, _, res) => installed || res == 0
    case FreeIrq(_) => false
    case _ => installed
  }

  /** Whether an interrupt handler is installed after `calls`. */
  function Installed(installed: bool, calls: seq<HwCall>): bool
    decreases |calls|
  {
    if calls == [] then installed else Installed(After(installed, calls[0]), calls[1..])
  }

  /** `calls` never frees a handler that is not installed and never
      requests one while one is installed. */
  predicate Balanced(installed: bool, calls: seq<HwCall>)
    decreases |calls|
  {
    calls == [] ||
    ((calls[0].FreeIrq? ==> installed) && (calls[0].RequestIrq? ==> !installed) &&
     Balanced(After(installed, calls[0]), calls[1..]))
  }

  lemma {:induction false} InstalledAppend(i: bool, a: seq<HwCall>, b: seq<HwCall>)
    ensures Installed(i, a + b) == Installed(Installed(i, a), b)
    ensures Balanced(i, a + b) <==> Balanced(i, a) && Balanced(Installed(i, a), b)
    decreases |a|
  {
    if a != [] {
      assert (a + b)[0] == a[0] && (a + b)[1..] == a[1..] + b;
      InstalledAppend(After(i, a[0]), a[1..], b);
    } else {
      assert a + b == b;
    }
  }

  /** While every request succeeds, a single operation keeps "a handler is
      installed" equal to "the counter is positive", and frees and requests
      only when it should. */
  lemma StepKeepsHandlerInSync(gpio: nat, r: PinRecord, e: Event)
    requires e.Open? ==> e.requestResult == 0
    requires r.irqCounter < 0xFFFF_FFFF
    ensures var s := Apply(gpio, r, e);
      Balanced(r.irqCounter > 0, s.calls) &&
      Installed(r.irqCounter > 0, s.calls) == (s.rec.irqCounter > 0)
  {
  }

  /** Whatever the clients do on a pin, as long as every `request_irq`
      succeeds and the counter does not wrap, the driver never frees a
      handler that is not installed, never requests a second one, and a
      handler is installed exactly when the counter is positive. */
  lemma {:induction false} HandlerMatchesCounter(gpio: nat, r: PinRecord, evs: seq<Event>)
    requires WellFormed(evs) && RequestsSucceed(evs)
    requires r.irqCounter as int + |evs| < 0xFFFF_FFFF
    ensures Balanced(r.irqCounter > 0, Run(gpio, r, evs).1)
    ensures Installed(r.irqCounter > 0, Run(gpio, r, evs).1) == (Run(gpio, r, evs).0.irqCounter > 0)
    decreases |evs|
  {
    if evs != [] {
      var s := Apply(gpio, r, evs[0]);
      StepKeepsHandlerInSync(gpio, r, evs[0]);
      assert WellFormed(evs[1..]) && RequestsSucceed(evs[1..]) by {
        forall k | 0 <= k < |evs[1..]| ensures evs[1..][k] == evs[k + 1] { }
      }
      assert s.rec.irqCounter as int <= r.irqCounter as int + 1;
      HandlerMatchesCounter(gpio, s.rec, evs[1..]);
      var t := Run(gpio, s.rec, evs[1..]);
      InstalledAppend(r.irqCounter > 0, s.calls, t.1);
    }
  }

  /** `irq_counter` counts per pin, not per open file: a `release` always
      gives back a unit, also for a file opened before interrupts were
      permitted, which never took one. Opened before "rising", a first file
      that closes frees the handler a second file, still open, requested. */
  lemma CloseOfEarlierOpenFreesHandler(gpio: nat, r: PinRecord, t: Trigger)
    requires r.irqCounter == 0 && !(r.irqPerm && r.dir == In)
    ensures var evs := [Open(0), Write(Arm(t)), Open(0), Close];
      WellFormed(evs) &&
      Run(gpio, r, evs) ==
        (r.(dir := In, irqPerm := true, irqFlag := t),
         [DirectionInput(gpio), RequestIrq(gpio, t, 0), FreeIrq(gpio)])
  {
    var evs := [Open(0), Write(Arm(t)), Open(0), Close];
    var armed := r.(dir := In, irqPerm := true, irqFlag := t);
    var free, request, input := [FreeIrq(gpio)], [RequestIrq(gpio, t, 0)], [DirectionInput(gpio)];
    assert WellFormed(evs) && evs[1..][1..][1..][1..] == [];
    // the last close gives back the only unit and frees the handler
    assert Run(gpio, armed.(irqCounter := 1), evs[3..]) == (armed, free + []);
    // the second open takes the first unit and requests the handler
    assert evs[2..][1..] == evs[3..];
    assert Run(gpio, armed, evs[2..]) == (armed, request + (free + []));
    // "rising"/"falling" switches the line to input; the first open took nothing
    assert evs[1..][1..] == evs[2..];
    assert Run(gpio, r, evs[1..]) == (armed, input + (request + (free + [])));
    assert [] + (input + (request + (free + []))) == [DirectionInput(gpio), RequestIrq(gpio, t, 0), FreeIrq(gpio)];
  }

  /** As written, a failed `request_irq` leaves the counter at 1 with no
      handler installed. A later `open` then succeeds without requesting
      anything, and after "disable-irq" a `release` frees the handler that
      was never installed. */
  lemma FailedRequestStrandsCounter(gpio: nat, r: PinRecord, err: int)
    requires r.irqPerm && r.dir == In && r.irqCounter == 0 && err < 0
    ensures var s1 := OpenStep(gpio, r, err);
      s1.ret == err && s1.rec.irqCounter == 1 && !Installed(false, s1.calls)
    ensures var s1 := OpenStep(gpio, r, err);
      var s2 := OpenStep(gpio, s1.rec, 0);
      s2.ret == 0 && s2.calls == [] && s2.rec.irqCounter == 2
    ensures var s1 := OpenStep(gpio, r, err);
      var d := Interpret(gpio, s1.rec, DisableIrq);
      var s3 := ReleaseStep(gpio, d.rec);
      s3.calls == [FreeIrq(gpio)] && !Balanced(false, s1.calls + d.calls + s3.calls)
  {
  }
}
