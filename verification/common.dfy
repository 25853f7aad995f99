/** Basic values shared by every part of the model: bytes, fixed-width byte strings,
    and the Option/Result wrappers that stand in for Rust's `Option` and `Result`. */
module Common {

  /** An unsigned 8-bit byte, as Rust's `u8`. */
  newtype u8 = x: int | 0 <= x < 256

  /** `n` zero bytes, as Rust's `[0; n]`. */
  function Zeros(n: nat): (z: seq<u8>)
    ensures |z| == n
    ensures forall i :: 0 <= i < n ==> z[i] == 0
  {
    seq(n, _ => 0)
  }

  /** A 32-byte array `[u8; 32]`: public keys, Curve25519 keys and session keys. */
  type Bytes32 = s: seq<u8> | |s| == 32 witness Zeros(32)

  datatype Option<+T> = None | Some(value: T)

  datatype Result<+T, +E> = Ok(value: T) | Err(error: E)
}
