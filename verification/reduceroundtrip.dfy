/** Reduce and Expand together, as hwzip/reduce_fuzzer.c puts them. */
module ReduceRoundTrip {
  import opened Bits
  import opened Outcome
  import opened Lz77
  import opened ReduceFormat
  import opened Followers
  import opened ReduceCodec
  import opened ExpandCodec
  import Lz77Codec

  /** The compressed form of a source is read back as the source, with any factor and whatever follows. */
  lemma RoundTrip(src: seq<byte>, factor: nat, rest: seq<bool>)
    requires 1 <= factor <= 4
    ensures Expanded(factor, Reduced(src, factor) + rest, |src|) == Ok(Output(src, rest))
  {
    hide Expanded, ChosenSets, Tokens, Expand, TokensBytes, SetsBits, BytesBits, Head;
    SourceTokensOk(src, factor);
    TokensExpand(src, Limits(factor));
    ReducedReads(factor, ChosenSets(Head(SourceBytes(src, factor))), Tokens(src, Limits(factor)), src, rest);
  }

  /** For a source whose bytes all fit in the raw buffer, the compressed size is what was computed when the
      sets were chosen, and with no other sets would it be smaller. */
  lemma SizeIsLeast(src: seq<byte>, factor: nat, sets: Sets)
    requires 1 <= factor <= 4 && |SourceBytes(src, factor)| <= RAW_BYTES_SZ && SetsOk(sets)
    ensures |Reduced(src, factor)| == 256 * 6 + ChosenCosts(SourceBytes(src, factor), 256)
    ensures |Reduced(src, factor)| <= |SetsBits(sets, 256)| + |BytesBits(sets, 0, SourceBytes(src, factor))|
  {
    hide ChosenSets, SetsBits, BytesBits, ChosenCosts, SourceBytes, SetsOk;
    CostConserved(SourceBytes(src, factor));
    ChosenSetsAreBest(SourceBytes(src, factor), sets);
  }

  /** Compresses src into buf, decompresses what was written into dst, and gets src back, having read all
      that was written; it fails only if the compressed form does not fit in buf. */
  method ReduceThenExpand(src: seq<byte>, factor: nat, buf: array<byte>, dst: array<byte>)
    returns (ok: bool, written: nat, read: nat)
    requires 1 <= factor <= 4 && buf != dst && |src| <= dst.Length && |src| <= Lz77Codec.NO_POS
    modifies buf, dst
    ensures ok <==> |Reduced(src, factor)| <= 8 * buf.Length
    ensures ok ==> dst[..|src|] == src && read == written <= buf.Length
  {
    hide Expanded, Reduced, BytesToBits;
    read := 0;
    ok, written := HwReduce(src, factor, buf);
    if ok {
      var data := buf[..written];
      ghost var bits := Reduced(src, factor);
      BytesToBitsSplit(buf[..], written);
      assert buf[..][..written] == data;
      assert BytesToBits(data)[..|bits|] == bits;
      ghost var rest := BytesToBits(data)[|bits|..];
      assert BytesToBits(data) == bits + rest;
      RoundTrip(src, factor, rest);
      var result := HwExpand(data, |src|, factor, dst);
      read := result.value;
    }
  }
}
