/**
  Magic-string matching: a magic string is compared byte by byte with a
  slice of the same length, the byte `?` standing for any one byte.
*/
module Magic {
  import opened Stream

  /** The ASCII `?` byte, the one-byte wildcard of a magic string. */
  const Wildcard: byte := 0x3F

  /** Position `i` of `b` is accepted by position `i` of `magic`. */
  predicate AcceptsAt(magic: seq<byte>, b: seq<byte>, i: nat)
    requires i < |magic| && i < |b|
  {
    magic[i] == Wildcard || magic[i] == b[i]
  }

  /** The meaning of `match(magic, b)`. */
  predicate Matches(magic: seq<byte>, b: seq<byte>)
  {
    |magic| == |b| && forall i :: 0 <= i < |magic| ==> AcceptsAt(magic, b, i)
  }

  /** `match`: the length test first, then a scan with an early exit. */
  method Match(magic: seq<byte>, b: seq<byte>) returns (ok: bool)
    ensures ok <==> Matches(magic, b)
  {
    if |magic| != |b| {
      return false;
    }
    for i := 0 to |b|
      invariant forall j :: 0 <= j < i ==> AcceptsAt(magic, b, j)
    {
      if magic[i] != b[i] && magic[i] != Wildcard {
        assert !AcceptsAt(magic, b, i);
        return false;
      }
    }
    return true;
  }

  /** A slice of another length never matches; it is not an error either. */
  lemma LengthMismatchNeverMatches(magic: seq<byte>, b: seq<byte>)
    requires |magic| != |b|
    ensures !Matches(magic, b)
  {
  }

  /** Replacing the byte under a wildcard never changes the outcome. */
  lemma WildcardByteIrrelevant(magic: seq<byte>, b: seq<byte>, i: nat, x: byte)
    requires i < |magic| == |b| && magic[i] == Wildcard
    ensures Matches(magic, b[i := x]) <==> Matches(magic, b)
  {
    var c := b[i := x];
    if Matches(magic, b) {
      forall j | 0 <= j < |magic| ensures AcceptsAt(magic, c, j) {
        assert AcceptsAt(magic, b, j);
      }
    }
    if Matches(magic, c) {
      forall j | 0 <= j < |magic| ensures AcceptsAt(magic, b, j) {
        assert AcceptsAt(magic, c, j);
      }
    }
  }

  /** Under a fixed (non-wildcard) byte, any other value makes the match fail. */
  lemma FixedByteDecides(magic: seq<byte>, b: seq<byte>, i: nat, x: byte)
    requires i < |magic| == |b| && magic[i] != Wildcard && x != magic[i]
    ensures !Matches(magic, b[i := x])
  {
    assert !AcceptsAt(magic, b[i := x], i);
  }

  /**
    The slice obtained by copying `magic` and filling each wildcard position
    with the corresponding byte of `fill`.
  */
  function Instantiate(magic: seq<byte>, fill: seq<byte>): (b: seq<byte>)
    requires |fill| == |magic|
  {
    seq(|magic|, i requires 0 <= i < |magic| => if magic[i] == Wildcard then fill[i] else magic[i])
  }

  /**
    The slices a magic string matches are exactly its instantiations: every
    way `fill` of filling the wildcards matches, and a matching slice is the
    magic string with its own bytes filled in.
  */
  lemma MatchesExactlyInstantiations(magic: seq<byte>, fill: seq<byte>, b: seq<byte>)
    requires |fill| == |magic|
    ensures Matches(magic, Instantiate(magic, fill))
    ensures Matches(magic, b) <==> |b| == |magic| && b == Instantiate(magic, b)
  {
    if |b| == |magic| {
      var inst := Instantiate(magic, b);
      if Matches(magic, b) {
        forall i | 0 <= i < |b| ensures inst[i] == b[i] {
          assert AcceptsAt(magic, b, i);
        }
      }
      if b == inst {
        forall i | 0 <= i < |b| ensures AcceptsAt(magic, b, i) {
          assert inst[i] == b[i];
        }
      }
    }
  }
}
