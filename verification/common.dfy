/** Types shared by every part of the model: optional values, fallible
    results, entity handles and the fixed-width integers the game uses. */
module Common {

  /** Rust's `Option<T>`. */
  datatype Option<+T> = None | Some(value: T)

  /** Rust's `Result<T, E>`. */
  datatype Result<+T, +E> = Ok(value: T) | Err(error: E)

  /** An opaque entity handle handed out by the engine. Only identity matters. */
  type Entity = nat

  const U32_MAX: nat := 0xFFFF_FFFF
  const U64_MAX: nat := 0xFFFF_FFFF_FFFF_FFFF

  type u32 = x: nat | x <= U32_MAX
  type u64 = x: nat | x <= U64_MAX

  function Abs(x: real): (r: real)
    ensures r >= 0.0
    ensures r == x || r == -x
  {
    if x < 0.0 then -x else x
  }
}
