/**
 * The driver itself: the array of per-pin records, the shared debounce
 * timestamp and the file operations that update them in place. Hardware
 * calls are appended to `calls`; what the hardware answers (the result of
 * `request_irq`, sampled levels, the wall clock, how much of a user buffer
 * is accessible) comes in as parameters.
 */
module Raspi2Gpio {
  import opened GpioTypes
  import opened Clock
  import opened Debounce
  import opened Commands
  import opened PinMachine
  import opened Registry

  class GpioDriver {
    /** `raspi2_gpio_devp`: the record of pin p sits at index p - 2. */
    var devs: array<PinRecord>
    /** The pin number (device minor) each record's device was added under. */
    var minors: seq<nat>
    /** `last_interrupt_time`, shared by every pin. */
    var lastInterruptTime: u32
    /** `epochMilli`: the wall clock, in milliseconds, when the driver loaded. */
    var epochMilli: u64
    /** Every GPIO and interrupt call the driver has made, in order. */
    var calls: seq<HwCall>
    /** IRQ numbers of the edges the handler let through, in order. */
    var delivered: seq<int>

    ghost predicate Valid()
      reads this
    {
      devs.Length == NUM_GPIO_PINS && |minors| == NUM_GPIO_PINS &&
      forall k :: 0 <= k < NUM_GPIO_PINS ==> minors[k] == PinAt(k)
    }

    /** `raspi2_gpio_init`, without its failure paths: claims every managed
        pin as an output driven low and gives it a fresh record. */
    constructor Init(sec: nat, usec: nat)
      ensures Valid() && fresh(devs)
      ensures forall k :: 0 <= k < NUM_GPIO_PINS ==> devs[k] == InitialRecord
      ensures |calls| == NUM_GPIO_PINS
      ensures forall k :: 0 <= k < NUM_GPIO_PINS ==> calls[k] == GpioRequestOne(PinAt(k))
      ensures lastInterruptTime == 0 && delivered == []
      ensures epochMilli == TimeNow64(sec, usec)
    {
      var records := new PinRecord[NUM_GPIO_PINS];
      var ms: seq<nat> := [];
      var cs: seq<HwCall> := [];
      var i, index := 0, 0;
      while i < MAX_GPIO_NUMBER
        invariant 0 <= i <= MAX_GPIO_NUMBER
        invariant index == ManagedBelow(i) && index <= NUM_GPIO_PINS
        invariant |ms| == index && |cs| == index
        invariant forall k :: 0 <= k < index ==> ms[k] == PinAt(k)
        invariant forall k :: 0 <= k < index ==> cs[k] == GpioRequestOne(PinAt(k))
        invariant forall k :: 0 <= k < index ==> records[k] == InitialRecord
      {
        ManagedBelowCount(i);
        if i != 0 && i != 1 {
          cs := cs + [GpioRequestOne(i)];
          records[index] := InitialRecord;
          ms := ms + [i];
          index := index + 1;
        }
        i := i + 1;
      }
      ManagedBelowCount(i);
      devs := records;
      minors := ms;
      calls := cs;
      lastInterruptTime := 0;
      delivered := [];
      epochMilli := TimeNow64(sec, usec);
    }

    /** `raspi2_gpio_open` on the device of `pin`. */
    method Open(pin: nat, requestResult: int) returns (ret: int)
      requires Valid() && IsManaged(pin) && requestResult <= 0
      modifies devs, this`calls
      ensures Valid()
      ensures var s := OpenStep(pin, old(devs[IndexOf(pin)]), requestResult);
        devs[IndexOf(pin)] == s.rec && calls == old(calls) + s.calls && ret == s.ret
      ensures forall k :: 0 <= k < devs.Length && k != IndexOf(pin) ==> devs[k] == old(devs[k])
    {
      var k := IndexOf(pin);
      var d := devs[k];
      if d.irqPerm && d.dir == In {
        devs[k] := d.(irqCounter := Inc32(d.irqCounter));
        if d.irqCounter == 0 {
          calls := calls + [RequestIrq(pin, d.irqFlag, requestResult)];
          if requestResult != 0 {
            return requestResult;
          }
        }
      }
      ret := 0;
    }

    /** `raspi2_gpio_write` of `count` bytes at `buf` (of which the first
        |buf| are readable) to the device of `pin`, at file position `fPos`.
        Returns the value handed back to the caller and the new position. */
    method Write(pin: nat, buf: seq<char>, count: u64, fPos: int) returns (ret: int, newPos: int)
      requires Valid() && IsManaged(pin)
      modifies devs, this`calls
      ensures Valid()
      ensures forall k :: 0 <= k < devs.Length && k != IndexOf(pin) ==> devs[k] == old(devs[k])
      ensures Request(buf, count).None? ==>
        ret == -EFAULT && newPos == fPos && devs[IndexOf(pin)] == old(devs[IndexOf(pin)]) && calls == old(calls)
      ensures Request(buf, count).Some? ==>
        var s := Interpret(pin, old(devs[IndexOf(pin)]), Parse(Request(buf, count).value));
        devs[IndexOf(pin)] == s.rec && calls == old(calls) + s.calls &&
        ret == (if s.ret == 0 then count as int else s.ret) &&
        newPos == fPos + (if s.ret == 0 then count as int else 0)
    {
      var k := IndexOf(pin);
      var len := CopyLength(count);
      if |buf| < len {
        return -EFAULT, fPos;
      }
      var kbuf := CString(buf[..len]);
      var d := devs[k];
      match Parse(kbuf) {
      case SetOut =>
        if d.dir != Out {
          calls := calls + [DirectionOutput(pin, Low)];
          devs[k] := d.(dir := Out, state := Low);
        }
      case SetIn =>
        if d.dir != In {
          calls := calls + [DirectionInput(pin)];
          devs[k] := d.(dir := In);
        }
      case Drive(l) =>
        if d.dir == In {
          return -EPERM, fPos;
        }
        calls := calls + [SetValue(pin, l)];
        devs[k] := d.(state := l);
      case Arm(t) =>
        calls := calls + [DirectionInput(pin)];
        devs[k] := d.(dir := In, irqPerm := true, irqFlag := t);
      case DisableIrq =>
        devs[k] := d.(irqPerm := false);
      case Unknown =>
        return -EINVAL, fPos;
      }
      newPos := fPos + count as int;
      ret := count as int;
    }

    /** `raspi2_gpio_release` on the device of `pin`. */
    method Release(pin: nat) returns (ret: int)
      requires Valid() && IsManaged(pin)
      modifies devs, this`calls
      ensures Valid()
      ensures var s := ReleaseStep(pin, old(devs[IndexOf(pin)]));
        devs[IndexOf(pin)] == s.rec && calls == old(calls) + s.calls && ret == s.ret
      ensures forall k :: 0 <= k < devs.Length && k != IndexOf(pin) ==> devs[k] == old(devs[k])
    {
      var k := IndexOf(pin);
      if devs[k].irqPerm {
        if devs[k].irqCounter > 0 {
          devs[k] := devs[k].(irqCounter := devs[k].irqCounter - 1);
          if devs[k].irqCounter == 0 {
            calls := calls + [FreeIrq(pin)];
          }
        }
      }
      if !devs[k].irqPerm && devs[k].irqCounter > 0 {
        calls := calls + [FreeIrq(pin)];
        devs[k] := devs[k].(irqCounter := 0);
      }
      ret := 0;
    }

    /** `raspi2_gpio_read` of `count` bytes. `samples[i]` is the level the
        hardware reports on the i-th sampling; `put_user` faults from byte
        `writable` of the user buffer on. Returns the byte count and the
        bytes stored into the user buffer. */
    method Read(count: u64, samples: seq<Level>, writable: nat) returns (n: nat, data: seq<char>)
      requires |samples| >= count as int
      ensures n == if writable < count as int then writable else count as int
      ensures |data| == n
      ensures forall i :: 0 <= i < n ==> data[i] == Digit(samples[i])
    {
      n := 0;
      data := [];
      while n < count as int
        invariant n <= count as int && n <= writable
        invariant |data| == n
        invariant forall i :: 0 <= i < n ==> data[i] == Digit(samples[i])
      {
        var byte := Digit(samples[n]);
        if n >= writable {
          break;
        }
        data := data + [byte];
        n := n + 1;
      }
    }

    /** `irq_handler` for an edge on interrupt line `irq`, with the wall
        clock reading `sec`, `usec`. */
    method IrqHandler(irq: int, sec: nat, usec: nat) returns (accepted: bool)
      modifies this`lastInterruptTime, this`delivered
      ensures var now := Millis(sec, usec, epochMilli);
        accepted == Accepts(now, old(lastInterruptTime)) &&
        lastInterruptTime == (if accepted then now else old(lastInterruptTime)) &&
        delivered == old(delivered) + (if accepted then [irq] else [])
    {
      var interruptTime := Millis(sec, usec, epochMilli);
      if Sub32(interruptTime, lastInterruptTime) < 200 {
        return false;
      }
      lastInterruptTime := interruptTime;
      delivered := delivered + [irq];
      accepted := true;
    }

    /** `raspi2_gpio_exit`: drives every managed pin low as an output and
        releases it. Interrupt handlers still installed are not freed. */
    method Exit()
      requires Valid()
      modifies this`calls
      ensures |calls| == |old(calls)| + 2 * NUM_GPIO_PINS
      ensures calls[..|old(calls)|] == old(calls)
      ensures forall k :: 0 <= k < NUM_GPIO_PINS ==>
        calls[|old(calls)| + 2 * k] == DirectionOutput(PinAt(k), Low) &&
        calls[|old(calls)| + 2 * k + 1] == GpioFree(PinAt(k))
    {
      var i, index := 0, 0;
      while i < MAX_GPIO_NUMBER
        invariant 0 <= i <= MAX_GPIO_NUMBER
        invariant index == ManagedBelow(i) && index <= NUM_GPIO_PINS
        invariant |calls| == |old(calls)| + 2 * index
        invariant calls[..|old(calls)|] == old(calls)
        invariant forall k :: 0 <= k < index ==>
          calls[|old(calls)| + 2 * k] == DirectionOutput(PinAt(k), Low) &&
          calls[|old(calls)| + 2 * k + 1] == GpioFree(PinAt(k))
      {
        ManagedBelowCount(i);
        if i != 0 && i != 1 {
          calls := calls + [DirectionOutput(i, Low), GpioFree(i)];
          index := index + 1;
        }
        i := i + 1;
      }
      ManagedBelowCount(i);
    }
  }
}
