/** Bytes, as integers in range, and the checksums the field protocols use. */
module Bytes {
  import opened Sequences

  type byte = b: int | 0 <= b < 256

  type bytes = seq<byte>

  /** The sum of the bytes, modulo 256. */
  function Checksum(s: bytes): (r: byte) {
    if s == [] then 0 else (Checksum(s[..|s| - 1]) + s[|s| - 1]) % 256
  }

  /** The concatenation of chunks. */
  function Concat(chunks: seq<bytes>): (r: bytes) {
    if chunks == [] then [] else Concat(chunks[..|chunks| - 1]) + chunks[|chunks| - 1]
  }

  lemma ConcatPush(chunks: seq<bytes>, chunk: bytes)
    ensures Concat(chunks + [chunk]) == Concat(chunks) + chunk
  {
    assert (chunks + [chunk])[..|chunks|] == chunks;
  }

  lemma {:induction false} ConcatTwo(a: seq<bytes>, b: seq<bytes>)
    ensures Concat(a + b) == Concat(a) + Concat(b)
  {
    if b == [] {
      assert a + b == a;
    } else {
      hide Concat;
      var front, last := b[..|b| - 1], b[|b| - 1];
      assert b == front + [last] && a + b == (a + front) + [last];
      ConcatPush(front, last);
      ConcatPush(a + front, last);
      ConcatTwo(a, front);
      Associate(Concat(a), Concat(front), last);
    }
  }
}
