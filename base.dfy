/** Option and Result, in the shape Rust's own types have. */
module Wrappers {

  datatype Option<+T> = None | Some(value: T)

  datatype Result<+T, +E> = Ok(value: T) | Err(error: E)

  /** What a call ends in: it returns a result, or it panics (the process
      stops with `message`). */
  datatype Outcome<+T, +E> = Returned(result: Result<T, E>) | Panicked(message: string)
}

/** Fixed-width integers of the wire format, as ranges of `int`. */
module Ints {

  type byte = b: int | 0 <= b < 0x100

  type u32 = n: int | 0 <= n < 0x1_0000_0000

  type i32 = n: int | -0x8000_0000 <= n < 0x8000_0000

  const U32_MODULUS: int := 0x1_0000_0000

  /** Rust's `n as u32` for a non-negative `usize`: keeps the low 32 bits. */
  function AsU32(n: nat): (r: u32)
    ensures n < U32_MODULUS ==> r == n
  {
    n % U32_MODULUS
  }
}
