# Raspberry Pi GPIO character-device driver, modelled in Dafny

This project models the core of `raspi2_gpio_dev.c`, a Linux kernel module that exposes
GPIO pins 2 to 27 of a Raspberry Pi as character devices `raspi2GPIO<n>`. It has four parts.

- **Registry.** `init` fills a fixed array of 26 per-pin records. It walks pins 0 to 27,
  skips the reserved pins 0 and 1, and gives each other pin the next dense index.
  Pin `p` therefore sits at index `p - 2`. Every record starts as an output driven low.
  Its interrupt permission is off, its trigger is "rising" and its interrupt counter is 0.
- **Command interpreter.** `write` copies all but the last byte of the caller's buffer,
  at most 511 bytes, into a kernel buffer and terminates it with NUL.
  The resulting C string is one of `out`, `in`, `1`, `0`, `rising`, `falling` and `disable-irq`.
  Each updates the record fields `dir`, `state`, `irq_perm` and `irq_flag`.
  Any other text gets `-EINVAL`. Driving a level on an input gets `-EPERM`.
- **Interrupt reference count.** `open` increments `irq_counter` when interrupts are
  permitted on an input. It requests the handler on the step from 0 to 1.
  `release` decrements the counter and frees the handler when it reaches 0.
  If the permission was withdrawn, `release` frees the handler and resets the counter instead.
- **Debounce gate.** The interrupt handler compares a 32-bit millisecond timestamp with a single
  `last_interrupt_time` shared by all pins. It drops an edge that comes less than 200 ms after
  the last accepted one.

`read` returns one ASCII digit per hardware sample of the pin.

## Structure

| file | module | contents |
|---|---|---|
| gpio_types.dfy | `GpioTypes` | constants, `u32`/`u64`, the record `PinRecord`, the hardware calls `HwCall` |
| registry.dfy | `Registry` | which pins are managed and at which index |
| clock.dfy | `Clock` | `millis()` with its 64-bit and 32-bit truncations |
| debounce.dfy | `Debounce` | the gate, and the gate applied to a sequence of edges |
| commands.dfy | `Commands` | copy length, C-string extraction, the command words |
| pin_machine.dfy | `PinMachine` | what `write`, `open` and `release` do to one record, and sessions of them |
| driver.dfy | `Raspi2Gpio` | class `GpioDriver`: the record array, the debounce timestamp and the file operations as methods |

The driver is imperative, and so is the model. `GpioDriver` holds the records in an `array<PinRecord>`.
Its methods update one array element in place. Every call that claims, configures or releases a line
or an interrupt is appended to the field `calls`, in order; the reads of `gpio_get_value` are not logged.
The postconditions of `Open`, `Write`, `Release` and `IrqHandler` tie the new record, the new calls and
the return value to a function in `PinMachine` or `Debounce`, and the lemmas state what the driver
promises about those functions. `Init`, `Read` and `Exit` are stated in closed form.
What the hardware answers comes in as parameters: the result of `request_irq`, the answers of
`gpio_get_value` (the `samples` of `Read`), the wall clock, and how much of a user buffer is accessible.

Behaviours of the code that the model keeps, although a tidier design would not have them:

- "out" does not clear `irq_perm`, and "disable-irq" leaves a positive counter positive.
  So "counter positive implies interrupts permitted" and "output implies not armed" are not invariants
  (`OutIsIdempotent`, `ArmAndDisable`).
- "rising"/"falling" only record the permission and trigger. The handler is installed at the next `open`.
  A later `open` with a different trigger does not change the installed handler (`OpenStep`).
- `release` never clears `irq_perm`.
- `irq_counter` counts per pin, not per open file. `release` gives back a unit on every close with
  interrupts permitted, also for a file opened before they were, which never took one.
  So with one file opened before "rising" and one after, closing the first frees the handler
  while the second, which requested it, is still open (`CloseOfEarlierOpenFreesHandler`).
- `open` does not undo its increment when `request_irq` fails. The counter is left positive with no
  handler installed. Later opens then succeed without requesting one, and a `release` after "disable-irq"
  frees a handler that was never installed (`FailedRequestStrandsCounter`).
  As long as every request succeeds, the bookkeeping is sound (`HandlerMatchesCounter`).
- `read` samples the hardware each time. It does not consult the `state` field and never signals end of file.
- `exit` drives every pin low and releases it. It does not free interrupt handlers still installed.

## Model

| member | source | states |
|---|---|---|
| `GpioTypes.Inc32` | raspi2_gpio_dev.c:118 | `irq_counter++` on an `unsigned int` is the successor modulo 2^32, and never leaves the counter unchanged |
| `GpioTypes.Digit` | raspi2_gpio_dev.c:149 | a sampled level becomes `'0'` or `'1'`, `'1'` exactly for high |
| `Registry.ManagedBelowCount` | raspi2_gpio_dev.c:278-279 | the running index of the init loop at pin `n` is `n - 2` from pin 2 on |
| `Registry.IndexOf` | raspi2_gpio_dev.c:278-324 | a managed pin's record index is the number of managed pins below it, and lies below `NUM_GPIO_PINS` |
| `Registry.PinAt` | raspi2_gpio_dev.c:304 | the pin whose record is at index `k` is managed and maps back to `k` |
| `Registry.RegistryLayout` | raspi2_gpio_dev.c:21-22 | exactly pins 2..27 are managed, the mapping is a bijection, and there are `NUM_GPIO_PINS` = 26 of them |
| `Raspi2Gpio.GpioDriver.Init` | raspi2_gpio_dev.c:278-331 | every one of the 26 records is output/low/no permission/rising/counter 0; the pins are claimed in order 2..27; the debounce time is 0 and the epoch is the load-time clock |
| `Clock.TimeNow64` | raspi2_gpio_dev.c:85 | the 64-bit millisecond clock equals the exact wall-clock milliseconds modulo 2^64 |
| `Clock.Sub32` | raspi2_gpio_dev.c:94 | unsigned 32-bit subtraction is the exact difference modulo 2^32, with and without borrow |
| `Clock.Millis` | raspi2_gpio_dev.c:80-88 | `millis()`, `(uint32_t)(timeNow - epochMilli)` with the subtraction in 64 bits: the 64-bit wrap of the subtraction is lost in the truncation, so the result is the difference of the two 64-bit values modulo 2^32 (its meaning in wall-clock time is `MillisIsElapsedMod32`) |
| `Clock.MillisIsElapsedMod32` | raspi2_gpio_dev.c:80-88 | `millis()` is the exact time since the epoch modulo 2^32, despite the 64-bit wrap-arounds |
| `Clock.ElapsedIsRealTime` | raspi2_gpio_dev.c:90-98 | two `millis()` readings less than 2^32 ms apart differ, in 32-bit arithmetic, by exactly the real time between them |
| `Debounce.Accepts` | raspi2_gpio_dev.c:94 | the unsigned `interrupt_time - last_interrupt_time < 200` test, negated: without wrap-around an edge passes exactly when it comes at least 200 ms after `last`, and never at the same millisecond |
| `Debounce.AcceptsIffElapsedMod32` | raspi2_gpio_dev.c:94 | an edge is accepted if and only if `(t - last) mod 2^32 >= 200` |
| `Debounce.Filter` | raspi2_gpio_dev.c:90-98 | over a sequence of edges, the accepted ones are an in-order selection of them (some dropped, the rest kept in order), and the final `last_interrupt_time` is the last accepted edge, or unchanged if none was accepted |
| `Debounce.FilterSnoc` | raspi2_gpio_dev.c:90-98 | handling one more edge after a sequence: it is accepted exactly when it passes the gate against the timestamp left by the sequence, and is then appended to the accepted edges and becomes the timestamp; otherwise nothing changes |
| `Debounce.FilterSpacing` | raspi2_gpio_dev.c:90-98 | every accepted edge is at least 200 ms (mod 2^32) after the previously accepted one, whatever pin raised it |
| `Debounce.TwoEdges` | raspi2_gpio_dev.c:94-98 | of two edges less than 200 ms apart only the first is delivered; 200 ms or more apart, both are |
| `Raspi2Gpio.GpioDriver.IrqHandler` | raspi2_gpio_dev.c:90-104 | the handler accepts exactly when the gate does, then records the new time and delivers the edge; a dropped edge changes nothing |
| `Commands.CopyLengthAsWritten` | raspi2_gpio_dev.c:163 | for writes of 1..512 bytes, the copy length is `count - 1`; for 512 bytes or more it is `BUF_SIZE - 1` = 511 |
| `Commands.EmptyWriteOverrunsBuffer` | raspi2_gpio_dev.c:163-166 | for `count == 0` the length as written wraps to 2^32 - 1, far past the 512-byte buffer the copy writes into |
| `Commands.CopyLength` | raspi2_gpio_dev.c:163 | the copy length is below `BUF_SIZE`, is 0 for an empty write, equals the written formula otherwise, and always drops the last byte |
| `Commands.CString` | raspi2_gpio_dev.c:166-170 | what `strcmp` sees is the longest NUL-free prefix of the buffer |
| `Commands.Request` | raspi2_gpio_dev.c:163-166 | the copy faults exactly when fewer bytes than the copy length are readable; otherwise the command text is the NUL-free prefix of the buffer that ends at the first NUL or at the copy length, whichever comes first |
| `Commands.Text` | raspi2_gpio_dev.c:170-218 | each command word is non-empty, NUL-free and fits the kernel buffer |
| `Commands.Parse` | raspi2_gpio_dev.c:170-225 | a recognised command is recognised only from its own word |
| `Commands.ParseText` | raspi2_gpio_dev.c:170-218 | every command word is recognised as its command (with `Parse`: a bijection between words and commands) |
| `Commands.TrailingByteDropped` | raspi2_gpio_dev.c:163-166 | any NUL-free text followed by one extra byte (a newline or a NUL) is read as exactly that text |
| `Commands.NoTrailingByteRejected` | raspi2_gpio_dev.c:163-166 | a command word written without an extra byte loses its last letter and is not recognised |
| `Commands.UtilityWrites` | raspi2_app.c:29-47 | the utility's 4-byte buffers `"out\0"` and `"1\0t\0"`/`"0\0t\0"` are read as `out` and as driving that level |
| `PinMachine.Interpret` | raspi2_gpio_dev.c:170-225 | a write never touches `irq_counter` or requests or frees interrupts; it fails with `-EINVAL` exactly on an unknown command and with `-EPERM` exactly on "1"/"0" to an input, and a failure changes nothing |
| `PinMachine.DriveRespectsDirection` | raspi2_gpio_dev.c:187-206 | "1"/"0" on an output sets `state` and drives the line, nothing else; on an input it returns `-EPERM` with no change |
| `PinMachine.OutIsIdempotent` | raspi2_gpio_dev.c:170-178 | "out" on an input makes it an output driven low with one `gpio_direction_output(gpio, low)` and keeps every other field (`irq_perm`, `irq_flag`, the counter); on an output it does nothing, so a second "out" is a no-op |
| `PinMachine.InKeepsLevel` | raspi2_gpio_dev.c:179-186 | "in" on an output makes it an input with one `gpio_direction_input` and changes nothing else, the level included; on an input it does nothing |
| `PinMachine.ArmAndDisable` | raspi2_gpio_dev.c:208-221 | "rising"/"falling" set input, permission and trigger and switch the line to input; "disable-irq" clears only `irq_perm` |
| `PinMachine.CommandSequences` | raspi2_gpio_dev.c:170-221 | "rising" then "disable-irq" leaves an input without permission; "in" then "1" is refused and stays input; "out", "1", "0" leaves the level high then low |
| `Raspi2Gpio.GpioDriver.Write` | raspi2_gpio_dev.c:155-228 | an unreadable buffer gives `-EFAULT`; otherwise the pin's record and the calls follow `Interpret` of the decoded text, success returns `count` and advances the position by `count`, failure leaves the position; other pins are untouched |
| `PinMachine.OpenStep` | raspi2_gpio_dev.c:117-139 | only the counter changes, and it is incremented iff permission is on and the pin is an input; the handler is requested, with the stored trigger, iff the counter was 0; a failed request is returned and the increment is kept |
| `Raspi2Gpio.GpioDriver.Open` | raspi2_gpio_dev.c:106-140 | the pin's record, the calls and the result follow `OpenStep`; other pins are untouched |
| `PinMachine.ReleaseStep` | raspi2_gpio_dev.c:239-257 | only the counter changes and it never grows; with permission on it drops by one, without it it goes to 0; the handler is freed iff the counter goes from positive to 0 |
| `Raspi2Gpio.GpioDriver.Release` | raspi2_gpio_dev.c:229-260 | the pin's record, the calls and the result follow `ReleaseStep`; other pins are untouched |
| `PinMachine.OpenReleaseRoundTrip` | raspi2_gpio_dev.c:117-248 | with interrupts permitted on an input, `release` undoes `open`; the handler is requested and freed only around the first user |
| `PinMachine.StepKeepsHandlerInSync` | raspi2_gpio_dev.c:117-257 | while requests succeed, any single operation keeps "handler installed" equal to "counter positive" and never double-requests or frees a missing handler |
| `PinMachine.HandlerMatchesCounter` | raspi2_gpio_dev.c:117-257 | over any session of opens, closes and writes on a pin in which every request succeeds, frees and requests are balanced and a handler is installed exactly when the counter is positive |
| `PinMachine.CloseOfEarlierOpenFreesHandler` | raspi2_gpio_dev.c:117-245 | a file opened before "rising"/"falling" took no unit, yet its close gives one back: after open, arm, open, close, the handler the still-open second file requested is freed and the counter is 0 |
| `PinMachine.FailedRequestStrandsCounter` | raspi2_gpio_dev.c:118-135 | a failed request leaves the counter at 1 with no handler; a later open succeeds without requesting; "disable-irq" then `release` frees a handler never installed |
| `Raspi2Gpio.GpioDriver.Read` | raspi2_gpio_dev.c:141-154 | returns `count` bytes, or as many as fit before the first `put_user` fault, and byte `i` is the digit of the `i`-th hardware sample |
| `Raspi2Gpio.GpioDriver.Exit` | raspi2_gpio_dev.c:334-354 | every managed pin, in order, is driven low as an output and then released; nothing else is called, so no interrupt handler is freed |

## Findings

| source | as written | input that shows it | evidently intended | confidence | as-written member | corrected member |
|---|---|---|---|---|---|---|
| raspi2_gpio_dev.c:163 | the copy length for writes shorter than 512 bytes is `count - 1`, computed in unsigned arithmetic | a `write` with `count == 0` | nothing to copy: an empty command, rejected with `-EINVAL`; as written the length wraps to 2^32 - 1, so `copy_from_user` at :164 is asked to write 2^32 - 1 bytes into the 512-byte `kbuf`; the NUL store at :166 is reached only if that copy succeeds, which it cannot | high; not executed | `Commands.EmptyWriteOverrunsBuffer` | `Commands.CopyLength` |

`GpioDriver.Write` uses `CopyLength`. For every `count >= 1` it agrees with the code as written.

## Left out

- Character-device plumbing is not modelled: the chrdev region, the class, `cdev_init`/`cdev_add`, `device_create`/`device_destroy`, `kmalloc`/`kfree`, `container_of` and `private_data`. A file operation names its pin. The record is found at `IndexOf(pin)`.
- Pins outside 2..27 have no device node, so the operations require a managed pin. The failure for other minors comes from the VFS, not from this driver.
- `gpio_to_irq` is not modelled; `RequestIrq`/`FreeIrq` carry the pin number instead of the IRQ number.
- Spinlocks, `local_irq_save` and the unlocked re-check of `irq_perm` in `release` are not modelled. Each operation is atomic and operations run one after another.
- `printk` output is not modelled; only the handler's "triggered" message is kept, as the `delivered` log.
- `do_gettimeofday` is not modelled: the wall clock is a pair of parameters. Negative `tv_sec` values are not modelled.
- `IRQF_SHARED` is not modelled: other drivers sharing the same interrupt line are outside the model.
- Raspi2Gpio.GpioDriver.Init: the failure paths of `init` are not modelled. These are `alloc_chrdev_region`, `class_create`, `kmalloc`, `gpio_request_one`, `cdev_add` and `device_create`, with the partial cleanup at lines 306-314. The model assumes every kernel call at load time succeeds.
- Raspi2Gpio.GpioDriver.Read: the sample taken in the iteration whose `put_user` faults is not returned. `read` ignores `f_pos`, as the code does.
- Raspi2Gpio.GpioDriver.Write: `count` is returned as a mathematical integer. The conversion of counts above the `ssize_t` range is not modelled; the kernel caps write sizes far below it. `f_pos` is an unbounded integer, so `loff_t` overflow is not modelled.
- Raspi2Gpio.GpioDriver.Exit: freeing the records with `kfree` is not modelled.
- User bytes are modelled as Dafny `char` values.
- The camera capture program (`picam_v4l2_ctrl.cpp`, `picam_v4l2_ctrl.h`, `grab.cpp`) is not part of this model. It shares no state with the driver.
- The command-line utility `raspi2_app.c` is not modelled as a program. Only its two writes appear, in `UtilityWrites`.
