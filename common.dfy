/** Small shared vocabulary: optional values and the machine's word types. */
module Common {

  /** A value that may be absent (a NULL pointer, a failed search). */
  datatype Option<T> = None | Some(value: T)

  /** The kernel runs on a 32-bit machine: `unsigned long` is 32 bits wide. */
  const WORD_LIMIT: int := 0x1_0000_0000

  type u32 = x: int | 0 <= x < WORD_LIMIT

  /** Unsigned 32-bit addition, as `unsigned long` arithmetic wraps. */
  function Add32(a: u32, b: u32): (r: u32)
    ensures a + b < WORD_LIMIT ==> r == a + b
    ensures a + b >= WORD_LIMIT ==> r == a + b - WORD_LIMIT
  {
    (a + b) % WORD_LIMIT
  }

  /** `int x = n` for an `unsigned int` n: values from 2^31 on turn negative. */
  function AsInt32(n: u32): (r: int)
    ensures n < 0x8000_0000 ==> r == n
    ensures n >= 0x8000_0000 ==> r < 0
  {
    if n < 0x8000_0000 then n else n - WORD_LIMIT
  }

  type byte = bv8
}
