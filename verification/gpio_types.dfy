/**
 * Shared vocabulary of the Raspberry Pi GPIO character-device driver:
 * its constants, the fixed-width integers it computes with, the per-pin
 * record and the hardware calls the driver issues.
 */
module GpioTypes {

  /** Number of managed pins (records) and the first pin number not scanned. */
  const NUM_GPIO_PINS: nat := 26
  const MAX_GPIO_NUMBER: nat := 28
  /** Size of the kernel buffer a write request is copied into. */
  const BUF_SIZE: nat := 512

  /** errno values; the driver returns them negated. */
  const EPERM: int := 1
  const EFAULT: int := 14
  const EINVAL: int := 22

  const U32_MODULUS: int := 0x1_0000_0000
  const U64_MODULUS: int := 0x1_0000_0000_0000_0000

  /** C `unsigned int` (32 bits on the target). */
  newtype u32 = x: int | 0 <= x < 0x1_0000_0000
  /** C `uint64_t`; also the width the model gives write counts (`size_t`,
      which is 32 bits on the target, so every count the kernel can pass
      fits). */
  newtype u64 = x: int | 0 <= x < 0x1_0000_0000_0000_0000

  /** Unsigned 32-bit increment, wrapping at 2^32 as `irq_counter++` does. */
  function Inc32(x: u32): (r: u32)
    ensures r as int == (x as int + 1) % U32_MODULUS
    ensures r != x
  {
    if x == 0xFFFF_FFFF then 0 else x + 1
  }

  datatype Option<T> = None | Some(value: T)

  /** `enum state {low, high}` */
  datatype Level = Low | High
  /** `enum direction {in, out}` */
  datatype Direction = In | Out
  /** The two values ever stored in `irq_flag`. */
  datatype Trigger = Rising | Falling

  /** Per-pin record (`struct raspi2_gpio_dev` without its cdev, gpio and lock). */
  datatype PinRecord = PinRecord(
    state: Level,
    dir: Direction,
    irqPerm: bool,
    irqFlag: Trigger,
    irqCounter: u32)

  /** A call from the driver into the kernel's GPIO and interrupt services. */
  datatype HwCall =
    | GpioRequestOne(gpio: nat)               // claim the line as an output driven low
    | DirectionOutput(gpio: nat, level: Level)
    | DirectionInput(gpio: nat)
    | SetValue(gpio: nat, level: Level)
    | RequestIrq(gpio: nat, trigger: Trigger, result: int)
    | FreeIrq(gpio: nat)
    | GpioFree(gpio: nat)

  /** What one file operation does to one record: its new value, the
      hardware calls issued, in order, and the value returned to the caller. */
  datatype Step = Step(rec: PinRecord, calls: seq<HwCall>, ret: int)

  /** The ASCII digit `'0' + level` that `read` hands to user space. */
  function Digit(l: Level): (c: char)
    ensures c == '0' || c == '1'
    ensures (c == '1') <==> l == High
  {
    if l == High then '1' else '0'
  }
}
