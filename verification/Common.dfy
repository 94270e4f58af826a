/** Types shared by the models of the byte-level code. */
module Common {

  type Byte = b: int | 0 <= b < 256

  type Bytes = seq<Byte>

  datatype Option<+T> = None | Some(value: T)

  /** The outcome of an operation that the source lets fail with an error value. */
  datatype Result<+T, +E> = Ok(value: T) | Err(error: E)

  lemma {:induction false} Associate<T>(a: seq<T>, b: seq<T>, c: seq<T>)
    ensures (a + b) + c == a + (b + c)
  {
  }
}
