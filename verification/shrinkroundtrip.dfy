/** Shrink and Unshrink together, as hwzip/shrink_fuzzer.c puts them. */
module ShrinkRoundTrip {
  import opened Bits
  import opened Lzw
  import opened Outcome
  import opened ShrinkCodec
  import opened UnshrinkCodec

  /** The bytes hwshrink() reports as used are decompressed to the source, and to the last of them. */
  lemma RoundTripOfBytes(src: seq<byte>, data: seq<byte>, cap: nat)
    requires |data| == RoundUp8(|Shrink(src)|) / 8 && |src| <= cap
    requires BytesToBits(data)[..|Shrink(src)|] == Shrink(src)
    ensures var o := Unshrink(BytesToBits(data), cap);
            o.Ok? && o.value.out == src && |o.value.rest| < 8
  {
    var tail := BytesToBits(data)[|Shrink(src)|..];
    assert BytesToBits(data) == Shrink(src) + tail;
    RoundTrip(src, cap, tail);
  }

  /** Compresses src into buf, decompresses what was written into dst, and gets src back, having read all
      that was written; the only way to fail is that the compressed bits do not fit in buf. */
  method ShrinkThenUnshrink(src: seq<byte>, buf: array<byte>, dst: array<byte>)
    returns (ok: bool, written: nat, read: nat, produced: nat)
    requires buf != dst && |src| <= dst.Length
    modifies buf, dst
    ensures ok <==> |Shrink(src)| <= 8 * buf.Length
    ensures ok ==> dst[..|src|] == src && produced == |src| && read == written <= buf.Length
  {
    read, produced := 0, 0;
    ok, written := HwShrink(src, buf);
    if ok {
      var data := buf[..written];
      BytesToBitsSplit(buf[..], written);
      assert buf[..][..written] == data;
      assert BytesToBits(data)[..|Shrink(src)|] == Shrink(src);
      RoundTripOfBytes(src, data, dst.Length);
      var result := HwUnshrink(data, dst);
      read, produced := result.value.0, result.value.1;
      assert dst[..][..|src|] == dst[..|src|];
    }
  }
}
