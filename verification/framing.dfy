/** What the decoders of the protocol have in common: `io::Error`, the outcome of one `decode`
    call, and text that fits on one line. */
module Framing {
  import opened Results

  datatype ErrorKind = InvalidData

  /** An `io::Error`: its kind and its message. */
  datatype IoError = IoError(kind: ErrorKind, message: string)

  /** The outcome of one `decode` call, with the buffer left after it. */
  datatype Decoded<+T> = Decoded(result: Result<Option<T>, IoError>, remaining: string)

  /** Text without a line feed. */
  predicate NoNewline(s: string)
  {
    forall i | 0 <= i < |s| :: s[i] != '\n'
  }

  lemma NoNewlineConcat(a: string, b: string)
    requires NoNewline(a) && NoNewline(b)
    ensures NoNewline(a + b)
  {
    assert forall i | 0 <= i < |a + b| :: (a + b)[i] == if i < |a| then a[i] else b[i - |a|];
  }
}
