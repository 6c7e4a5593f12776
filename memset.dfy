/** The kernel's physical memory window and the two validated wrappers (src/memset.rs). */
module Memset {
  import opened Words

  const KERNEL_BASE_ADDRESS: Usize := 0x8000_0000
  /** 128 MiB above the base. Declaring it a `Usize` is the proof that the sum fits a word,
      as Rust's constant evaluation would reject an overflowing one. */
  const PHYSICAL_MEMORY_LIMIT: Usize := KERNEL_BASE_ADDRESS + 128 * 1024 * 1024

  /** `Result<Self, &'static str>`. */
  datatype Result<T> = Ok(value: T) | Err(error: string)

  /** The half-open window `[KERNEL_BASE_ADDRESS, PHYSICAL_MEMORY_LIMIT)`. */
  predicate InKernelWindow(addr: int) {
    KERNEL_BASE_ADDRESS <= addr < PHYSICAL_MEMORY_LIMIT
  }

  /** A word known to lie in the kernel window. Its field is private in the source and
      `NewValidAddress` is the only way to build one, so the range is a type invariant. */
  newtype ValidAddress = addr: int | InKernelWindow(addr)
    witness KERNEL_BASE_ADDRESS

  /** A timer-compare value; its range check spans the whole word. */
  newtype TimerCompareValue = val: int | 0 <= val <= USIZE_MAX

  /** `ValidAddress::new`: accepts exactly the addresses inside the window. */
  function NewValidAddress(addr: Usize): (r: Result<ValidAddress>)
    ensures r.Ok? <==> InKernelWindow(addr)
    ensures r.Ok? ==> GetAddress(r.value) == addr
    ensures r.Err? ==> r.error == "Invalid memory address"
  {
    if addr >= KERNEL_BASE_ADDRESS && addr < PHYSICAL_MEMORY_LIMIT then
      Ok(addr as ValidAddress)
    else
      Err("Invalid memory address")
  }

  /** `ValidAddress::get`: every address it hands out lies in the window. */
  function GetAddress(a: ValidAddress): (r: Usize)
    ensures InKernelWindow(r)
  {
    assert InKernelWindow(a as int);
    a as int
  }

  /** `TimerCompareValue::new`: its check `val <= usize::MAX` holds for every word. */
  function NewTimerCompareValue(val: Usize): (r: Result<TimerCompareValue>)
    ensures r.Ok?
    ensures r.value as int == val
  {
    if val <= USIZE_MAX then
      Ok(val as TimerCompareValue)
    else
      Err("Invalid timer compare value")
  }

  /** `TimerCompareValue::get`: re-validating the value it returns gives back the same wrapper. */
  function GetTimerValue(t: TimerCompareValue): (r: Usize)
    ensures NewTimerCompareValue(r) == Ok(t)
  {
    t as int
  }

  /** The other half of the timer round trip: `get` after `new` is the identity on words. */
  lemma NewThenGetTimer(val: Usize)
    ensures GetTimerValue(NewTimerCompareValue(val).value) == val
  {
  }

  /** The other half of the round trip: re-validating what `get` returns gives back the
      same wrapper, so `new` and `get` are inverse on the window. */
  lemma GetThenNew(a: ValidAddress)
    ensures NewValidAddress(GetAddress(a)) == Ok(a)
  {
  }

  /** The window's edges: the base is the first accepted address, the limit is the first
      rejected one above it, and everything below the base (0 included) is rejected. */
  lemma WindowBoundaries()
    ensures PHYSICAL_MEMORY_LIMIT == 0x8800_0000
    ensures NewValidAddress(0x8000_0000) == Ok(0x8000_0000 as ValidAddress)
    ensures GetAddress(NewValidAddress(0x8000_0000).value) == 0x8000_0000
    ensures NewValidAddress(0x7FFF_FFFF).Err?
    ensures NewValidAddress(PHYSICAL_MEMORY_LIMIT).Err?
    ensures NewValidAddress(PHYSICAL_MEMORY_LIMIT - 1).Ok?
    ensures NewValidAddress(0).Err?
  {
  }
}
