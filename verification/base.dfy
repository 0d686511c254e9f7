/** Small shared vocabulary: bytes, the nullable references of the Java code,
    and the exceptions an operation may throw.
 */
module Base {

  /** One octet as Java's streams deliver it through `read()`: 0..255. */
  type Byte = x: int | 0 <= x < 256

  /** A Java reference that may be `null`. */
  datatype Option<+T> = None | Some(value: T)

  /** The outcome of a Java call: a returned value or a thrown exception. */
  datatype Result<+T, +E> = Ok(value: T) | Err(error: E)

  /** `n` zero bytes: the contents of a freshly allocated Java `byte[n]`. */
  function Zeros(n: nat): (z: seq<Byte>)
    ensures |z| == n
    ensures forall i :: 0 <= i < n ==> z[i] == 0
  {
    seq(n, _ => 0)
  }
}
