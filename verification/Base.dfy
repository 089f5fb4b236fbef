/** Types shared by the models of the command line interpreter and of the core. */
module Base {

  datatype Option<+T> = None | Some(value: T)

  /** The `otError` values that the modelled code produces itself; any other code is `Other`. */
  datatype Error =
    | NoError
    | Failed
    | InvalidArgs
    | InvalidCommand
    | Busy
    | Pending
    | Parse
    | NotFound
    | NoBufs
    | Other(code: nat)

  datatype Result<+T> = Ok(value: T) | Err(error: Error)

  type Byte = b: int | 0 <= b < 0x100
  type Uint16 = x: int | 0 <= x < 0x1_0000
  type Uint32 = x: int | 0 <= x < 0x1_0000_0000

  const UINT32_MODULUS: int := 0x1_0000_0000

  /** The value an unsigned 32-bit variable holds after being assigned `x`. */
  function Wrap32(x: int): (w: Uint32)
    ensures 0 <= x < UINT32_MODULUS ==> w == x
  {
    x % UINT32_MODULUS
  }
}
