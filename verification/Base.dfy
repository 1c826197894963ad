/** Bytes, integer widths and the result type shared by the whole model. */
module Base {

  type Byte = b: int | 0 <= b < 256

  type Bytes = seq<Byte>

  const U32_BOUND: nat := 0x1_0000_0000
  const U64_BOUND: nat := 0x1_0000_0000_0000_0000

  datatype Option<+T> = None | Some(value: T) {
    predicate IsFailure() {
      None?
    }

    function PropagateFailure<U>(): Option<U>
      requires None?
    {
      None
    }

    function Extract(): T
      requires Some?
    {
      value
    }
  }

  /** The decoder's error, without the message text. */
  datatype DecodeError =
    | Io
    | InvalidInput
    | ChecksumMismatch(expected: nat, actual: nat)
    | Unsupported

  datatype Result<+T> = Ok(value: T) | Err(error: DecodeError) {
    predicate IsFailure() {
      Err?
    }

    function PropagateFailure<U>(): Result<U>
      requires Err?
    {
      Err(error)
    }

    function Extract(): T
      requires Ok?
    {
      value
    }
  }

  /** The shortest match and the shortest run worth an instruction. */
  const MIN_MATCH := 4
  const MIN_RUN := 8

  function Min(a: nat, b: nat): nat {
    if a <= b then a else b
  }

  /** `n` copies of one byte. */
  function Fill(b: Byte, n: nat): (s: Bytes)
    ensures |s| == n
    ensures forall k :: 0 <= k < n ==> s[k] == b
  {
    seq(n, _ => b)
  }
}
