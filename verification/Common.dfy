/** Types and notation shared by the whole model. */
module Common {

  datatype Option<+T> = None | Some(value: T)

  /** A Rust `Result`: `Err` stands for every error value of the source. */
  datatype Result<+T> = Ok(value: T) | Err

  const U32: nat := 0x1_0000_0000
  const U64: nat := 0x1_0000_0000_0000_0000

  function Bit(b: bool): nat { if b then 1 else 0 }

  type byte = b: int | 0 <= b < 256
  type u16 = n: int | 0 <= n < 0x1_0000
  type u32 = n: int | 0 <= n < 0x1_0000_0000
}
