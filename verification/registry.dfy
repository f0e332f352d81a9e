/**
 * The registry of managed pins: `init` walks pins 0 to 27, skips the two
 * reserved pins 0 and 1, and gives every other pin the next dense index
 * into the record array.
 */
module Registry {
  import opened GpioTypes

  /** A pin the driver creates a device for. */
  predicate IsManaged(pin: int)
  {
    0 <= pin < MAX_GPIO_NUMBER && pin != 0 && pin != 1
  }

  /** How many managed pins lie below `n`: the value of `init`'s running
      `index` when its loop reaches pin `n`. */
  function ManagedBelow(n: nat): nat
  {
    if n == 0 then 0 else ManagedBelow(n - 1) + (if IsManaged(n - 1) then 1 else 0)
  }

  lemma {:induction false} ManagedBelowCount(n: nat)
    requires n <= MAX_GPIO_NUMBER
    ensures ManagedBelow(n) == if n < 2 then 0 else n - 2
  {
    if n > 0 {
      ManagedBelowCount(n - 1);
    }
  }

  /** The record index of a managed pin: the number of managed pins below it. */
  function IndexOf(pin: int): (k: nat)
    requires IsManaged(pin)
    ensures k == ManagedBelow(pin) && k < NUM_GPIO_PINS
  {
    ManagedBelowCount(pin);
    pin - 2
  }

  /** The pin whose record sits at index `k`. */
  function PinAt(k: nat): (pin: nat)
    requires k < NUM_GPIO_PINS
    ensures IsManaged(pin) && IndexOf(pin) == k
  {
    k + 2
  }

  /** Exactly pins 2 to 27 are managed, NUM_GPIO_PINS of them, and the
      index assignment is a bijection onto the record array. */
  lemma RegistryLayout(pin: int)
    ensures IsManaged(pin) <==> 2 <= pin <= 27
    ensures IsManaged(pin) ==> PinAt(IndexOf(pin)) == pin
    ensures ManagedBelow(MAX_GPIO_NUMBER) == NUM_GPIO_PINS
  {
    ManagedBelowCount(MAX_GPIO_NUMBER);
  }
}
