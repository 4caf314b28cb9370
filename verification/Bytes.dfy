/** Octets, as the C code's `unsigned char` sees them, and writing them into a buffer. */
module Bytes {
  type Byte = b: int | 0 <= b < 256

  /** `bytes` have been written at `at`, behind what stood there, and nothing after them changed. */
  predicate Wrote(before: seq<Byte>, after: seq<Byte>, at: nat, bytes: seq<Byte>) {
    && at + |bytes| <= |before| == |after|
    && after[..at + |bytes|] == before[..at] + bytes
    && after[at + |bytes|..] == before[at + |bytes|..]
  }

  lemma SliceOf(data: seq<Byte>, at: nat, body: seq<Byte>, i: nat, j: nat)
    requires at + |body| <= |data| && data[at..at + |body|] == body && i <= j <= |body|
    ensures data[at + i..at + j] == body[i..j]
  {
    assert forall k | 0 <= k < |body| :: body[k] == data[at + k];
  }

  lemma WroteBoth(b0: seq<Byte>, b1: seq<Byte>, b2: seq<Byte>, at: nat, x: seq<Byte>, y: seq<Byte>)
    requires Wrote(b0, b1, at, x) && Wrote(b1, b2, at + |x|, y)
    ensures Wrote(b0, b2, at, x + y)
  {
    var n := at + |x| + |y|;
    assert b1[at + |x|..][|y|..] == b1[n..] && b0[at + |x|..][|y|..] == b0[n..];
    assert b0[..at] + x + y == b0[..at] + (x + y);
  }

  lemma Slices(data: seq<Byte>, i: nat, j: nat, k: nat)
    requires i <= j <= k <= |data|
    ensures data[i..k] == data[i..j] + data[j..k]
  {
  }
}
