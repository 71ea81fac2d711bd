/**
  The input stream as seen through a peekable reader.

  The bytes still to be read are a value `seq<byte>`. Peeking is a function
  of that value: it cannot move a read position, so whatever is later handed
  to a decoder is the very same sequence, starting at its first byte.
*/
module Stream {
  import opened Wrappers

  /** Go's `byte`. */
  type byte = b: int | 0 <= b < 256

  /** Why a peek came back short; bufio reports the reader's end of input. */
  datatype PeekError = ErrEOF

  /** Go's `([]byte, error)` pair returned by `Peek`. */
  datatype Peeked = Peeked(bytes: seq<byte>, err: Option<PeekError>)

  /**
    `Peek(n)` of a buffered reader: the next `n` bytes without advancing, or,
    when fewer than `n` remain, all that remain together with an error.
  */
  function Peek(s: seq<byte>, n: nat): (r: Peeked)
    ensures r.err.None? <==> n <= |s|
    ensures r.bytes <= s
    ensures |r.bytes| == if n <= |s| then n else |s|
  {
    if n <= |s| then Peeked(s[..n], None) else Peeked(s, Some(ErrEOF))
  }
}
