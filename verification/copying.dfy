/** Copies within an output buffer, eight bytes at a time (hwzip/shrink.c, lines 376-389, and
    hwzip/lz77.h, lines 45-74). */
module Copying {
  import opened Bits
  import opened Bitstream

  /** memcpy() of the 8 bytes at `from` to `to` by way of a 64-bit temporary. */
  method CopyWord(a: array<byte>, from: nat, to: nat)
    requires from + 8 <= a.Length && to + 8 <= a.Length
    modifies a
    ensures var d := old(a[..]); a[..] == d[..to] + d[from..from + 8] + d[to + 8..]
  {
    var tmp := a[from..from + 8];
    CopyBytes(a, to, tmp);
  }

  /** The copy under way: i bytes are in place, the source is as it was, and the one byte in which
      source and destination may overlap is in place from the start. */
  ghost predicate Partial(d: seq<byte>, prevPos: nat, dstPos: nat, i: nat, w: seq<byte>) {
    && dstPos + |w| <= |d| && w != []
    && prevPos < dstPos && prevPos + |w| <= dstPos + 1
    && d[dstPos..dstPos + Min(i, |w|)] == w[..Min(i, |w|)]
    && (forall k :: 0 <= k < |w| ==> d[prevPos + k] == w[k])
    && (prevPos + |w| == dstPos + 1 ==> w[0] == w[|w| - 1])
  }

  lemma PartialStep(d: seq<byte>, d': seq<byte>, prevPos: nat, dstPos: nat, i: nat, w: seq<byte>)
    requires Partial(d, prevPos, dstPos, i, w) && i < |w| && dstPos + i + 8 <= |d|
    requires d' == d[..dstPos + i] + d[prevPos + i..prevPos + i + 8] + d[dstPos + i + 8..]
    ensures Partial(d', prevPos, dstPos, i + 8, w) && d'[..dstPos] == d[..dstPos]
  {
    forall k | 0 <= k < Min(i + 8, |w|)
      ensures d'[dstPos + k] == w[k]
    {
      if k < i {
        assert d'[dstPos + k] == d[dstPos..dstPos + i][k];
      }
    }
    assert d'[dstPos..dstPos + Min(i + 8, |w|)] == w[..Min(i + 8, |w|)];
  }

  /** One turn of the loop. */
  method CopyStep(dst: array<byte>, prevPos: nat, dstPos: nat, i: nat, ghost w: seq<byte>)
    requires Partial(dst[..], prevPos, dstPos, i, w) && i < |w| && dstPos + i + 8 <= dst.Length
    modifies dst
    ensures Partial(dst[..], prevPos, dstPos, i + 8, w) && dst[..][..dstPos] == old(dst[..])[..dstPos]
  {
    ghost var d := dst[..];
    CopyWord(dst, prevPos + i, dstPos + i);
    PartialStep(d, dst[..], prevPos, dstPos, i, w);
  }

  lemma PartialStart(d: seq<byte>, prevPos: nat, dstPos: nat, len: nat)
    requires prevPos < dstPos && 0 < len && dstPos + len <= |d|
    requires prevPos + len <= dstPos || (prevPos + len == dstPos + 1 && d[prevPos] == d[dstPos])
    ensures Partial(d, prevPos, dstPos, 0, d[prevPos..prevPos + len])
  {
  }

  /** The loop that copies words until len bytes are in place; it may run over by up to 7 bytes. */
  method SloppyCopy(dst: array<byte>, prevPos: nat, dstPos: nat, len: nat)
    requires prevPos < dstPos && 0 < len && dstPos + RoundUp8(len) <= dst.Length
    requires prevPos + len <= dstPos || (prevPos + len == dstPos + 1 && dst[prevPos] == dst[dstPos])
    modifies dst
    ensures dst[..dstPos] == old(dst[..dstPos])
    ensures dst[dstPos..dstPos + len] == old(dst[prevPos..prevPos + len])
  {
    ghost var before := dst[..];
    ghost var w := before[prevPos..prevPos + len];
    assert w == dst[prevPos..prevPos + len];
    PartialStart(before, prevPos, dstPos, len);
    var i := 0;
    while i < len
      invariant i % 8 == 0 && i < len + 8
      invariant dst[..][..dstPos] == before[..dstPos]
      invariant Partial(dst[..], prevPos, dstPos, i, w)
      decreases len + 8 - i
    {
      CopyStep(dst, prevPos, dstPos, i, w);
      i := i + 8;
    }
    assert dst[..][..dstPos] == dst[..dstPos];
    assert dst[..][dstPos..dstPos + len] == dst[dstPos..dstPos + len];
  }
}
