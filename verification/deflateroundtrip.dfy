/** Deflate and Inflate together, as hwzip/deflate_fuzzer.c puts them. */
module DeflateRoundTrip {
  import opened Bits
  import opened Outcome
  import opened DeflateFormat
  import opened DeflateCodec
  import opened InflateCodec
  import Lz77Codec

  /** Compresses src into buf, decompresses what was written into dst, and gets src back, having read all
      that was written; it cannot fail if buf is large enough. */
  method DeflateThenInflate(src: seq<byte>, buf: array<byte>, dst: array<byte>)
    returns (ok: bool, written: nat, read: nat, produced: nat)
    requires buf != dst && |src| <= dst.Length && |src| <= Lz77Codec.NO_POS
    modifies buf, dst
    ensures !TooSmall(buf.Length, |src|) ==> ok
    ensures ok ==> dst[..|src|] == src && produced == |src| && read == written <= buf.Length
  {
    hide Inflate, TooSmall, BytesToBits, LeastCostBlocks, BitsOf, DeflatedFits;
    read, produced := 0, 0;
    ghost var blocks;
    ok, written, blocks := HwDeflate(src, buf);
    if ok {
      var data := buf[..written];
      var result := HwInflate(data, dst);
      WholeInput(written, Inflate(BytesToBits(data), [], dst.Length));
      read, produced := result.value.0, result.value.1;
      assert dst[..][..|src|] == dst[..|src|];
    }
  }

  lemma WholeInput(used: nat, o: Status<Output>)
    requires o.Ok? && |o.value.rest| < 8 && |o.value.rest| <= 8 * used
    ensures RoundUp8(8 * used - |o.value.rest|) / 8 == used
  {
  }
}
