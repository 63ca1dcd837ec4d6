/** hwdeflate() and its helpers (hwzip/deflate.c, lines 421-467 and 656-1073). */
module DeflateCodec {
  import opened Bits
  import opened Bitstream
  import opened Huffman
  import opened HuffmanEncoder
  import opened HuffmanLengths
  import opened Lz77
  import opened DeflateTables
  import opened CodeLengths
  import opened DeflateFormat
  import opened DeflateCost
  import opened EncodeLengths
  import opened DeflateDynamic
  import opened DeflateBlocks
  import opened Outcome
  import Lz77Codec
  import InflateCodec

  // ---------------------------------------------------------------- Huffman blocks

  /** Writes a back reference: length, distance and their extra bits in one piece. */
  method WriteBackref(os: OStream, s: Sym, litlenEnc: Encoder, distEnc: Encoder, ghost litlen: seq<nat>, ghost dist: seq<nat>)
    returns (ok: bool)
    requires os.Valid() && litlenEnc.For(litlen) && distEnc.For(dist) && HasCode(litlen, dist, s) && s.distance > 0
    modifies os, os.dst
    ensures os.Valid() && ok == (|old(os.written)| + |SymBits(litlen, dist, s)| <= 8 * os.dst.Length)
    ensures os.written == if ok then old(os.written) + SymBits(litlen, dist, s) else old(os.written)
  {
    hide Fits, CodewordsOk, Codeword, ToBits, Pow2, Shl, Encoder.For, LenCode, DistCode, OStream.Valid;
    var lenCode, distSym := LenCode(s.value), DistCode(s.distance);
    var litlenSym := LITLEN_TBL_OFFSET + lenCode;
    LenInRange(s.value);
    DistInRange(s.distance);
    LenTop(lenCode);
    DistTop(distSym);
    EncoderAt(litlenEnc, litlen, litlenSym);
    EncoderAt(distEnc, dist, distSym);
    var bits, nbits := litlenEnc.codewords[litlenSym], litlenEnc.lengths[litlenSym];
    var ebits := s.value - BASE_LEN[lenCode];
    JoinBits(bits, nbits, ebits, LEN_EBITS[lenCode]);
    bits, nbits := bits + Shl(ebits, nbits), nbits + LEN_EBITS[lenCode];
    JoinBits(bits, nbits, distEnc.codewords[distSym], distEnc.lengths[distSym]);
    bits, nbits := bits + Shl(distEnc.codewords[distSym], nbits), nbits + distEnc.lengths[distSym];
    ebits := s.distance - BASE_DIST[distSym];
    JoinBits(bits, nbits, ebits, DIST_EBITS[distSym]);
    bits, nbits := bits + Shl(ebits, nbits), nbits + DIST_EBITS[distSym];
    assert SymBits(litlen, dist, s) == ToBits(bits, nbits);
    ok := os.Write(bits, nbits);
  }

  /** One turn of the loop of write_huffman_block(). */
  method WriteSym(os: OStream, s: Sym, litlenEnc: Encoder, distEnc: Encoder, ghost litlen: seq<nat>, ghost dist: seq<nat>)
    returns (ok: bool)
    requires os.Valid() && litlenEnc.For(litlen) && distEnc.For(dist) && HasCode(litlen, dist, s)
    modifies os, os.dst
    ensures os.Valid() && ok == (|old(os.written)| + |SymBits(litlen, dist, s)| <= 8 * os.dst.Length)
    ensures os.written == if ok then old(os.written) + SymBits(litlen, dist, s) else old(os.written)
  {
    hide Fits, CodewordsOk, Codeword, ToBits, Pow2, Encoder.For, LenCode, DistCode;
    if s.distance == 0 {
      EncoderAt(litlenEnc, litlen, s.value);
      ok := os.Write(litlenEnc.codewords[s.value], litlenEnc.lengths[s.value]);
    } else {
      ok := WriteBackref(os, s, litlenEnc, distEnc, litlen, dist);
    }
  }

  lemma BodyNext(litlen: seq<nat>, dist: seq<nat>, syms: seq<Sym>, i: nat)
    requires HaveCode(litlen, dist, syms) && i < |syms|
    ensures HaveCode(litlen, dist, syms[..i]) && HaveCode(litlen, dist, syms[..i + 1]) && HasCode(litlen, dist, syms[i])
    ensures BodyBits(litlen, dist, syms[..i + 1]) == BodyBits(litlen, dist, syms[..i]) + SymBits(litlen, dist, syms[i])
  {
    hide HasCode, SymBits;
    assert syms[..i + 1][..i] == syms[..i];
  }

  lemma {:induction false} BodyPrefix(litlen: seq<nat>, dist: seq<nat>, syms: seq<Sym>, i: nat)
    requires HaveCode(litlen, dist, syms) && i <= |syms|
    ensures HaveCode(litlen, dist, syms[..i]) && |BodyBits(litlen, dist, syms[..i])| <= |BodyBits(litlen, dist, syms)|
    decreases |syms| - i
  {
    hide HasCode, SymBits;
    if i < |syms| {
      BodyNext(litlen, dist, syms, i);
      BodyPrefix(litlen, dist, syms, i + 1);
    } else {
      assert syms[..i] == syms;
    }
  }

  /** write_huffman_block(): appends the bits of the block, or fails if there is no room for them. */
  method WriteHuffmanBlock(os: OStream, block: seq<Sym>, litlenEnc: Encoder, distEnc: Encoder,
                           ghost litlen: seq<nat>, ghost dist: seq<nat>) returns (ok: bool)
    requires os.Valid() && litlenEnc.For(litlen) && distEnc.For(dist) && HaveCode(litlen, dist, block)
    requires litlenEnc.Avoids(os.dst) && distEnc.Avoids(os.dst)
    modifies os, os.dst
    ensures os.Valid() && ok == (|old(os.written)| + |BodyBits(litlen, dist, block)| <= 8 * os.dst.Length)
    ensures ok ==> os.written == old(os.written) + BodyBits(litlen, dist, block)
  {
    hide Encoder.For, HasCode, SymBits, BodyBits, HaveCode, OStream.Valid;
    os.InRoom();
    ghost var before := os.written;
    BodyPrefix(litlen, dist, block, 0);
    BodyNone(litlen, dist);
    assert block[..0] == [];
    var i := 0;
    while i < |block|
      invariant i <= |block| && os.Valid() && |os.written| <= 8 * os.dst.Length && litlenEnc.For(litlen) && distEnc.For(dist)
      invariant HaveCode(litlen, dist, block[..i]) && os.written == before + BodyBits(litlen, dist, block[..i])
    {
      BodyNext(litlen, dist, block, i);
      ok := WriteSym(os, block[i], litlenEnc, distEnc, litlen, dist);
      if !ok {
        BodyPrefix(litlen, dist, block, i + 1);
        return;
      }
      i := i + 1;
    }
    assert block[..i] == block;
    ok := true;
  }

  // ---------------------------------------------------------------- the three kinds of blocks

  /** The header of a block in one write. */
  method WriteHeader(os: OStream, final: bool, kind: nat) returns (ok: bool)
    requires os.Valid() && kind < 4
    modifies os, os.dst
    ensures os.Valid() && ok == (|old(os.written)| + 3 <= 8 * os.dst.Length)
    ensures os.written == if ok then old(os.written) + BlockHeader(final, kind) else old(os.written)
  {
    HeaderValue(final, kind);
    ok := os.Write(2 * kind + BitValue(final), 3);
  }

  lemma HeaderValue(final: bool, kind: nat)
    requires kind < 4
    ensures 2 * kind + BitValue(final) < Pow2(3) && ToBits(2 * kind + BitValue(final), 3) == BlockHeader(final, kind)
  {
    assert Pow2(3) == 8;
    assert (2 * kind + BitValue(final)) / 2 == kind;
  }

  /** write_static_block() */
  method WriteStaticBlock(os: OStream, final: bool, block: seq<Sym>) returns (ok: bool)
    requires os.Valid() && HaveCode(FixedLitlenLengths(), FixedDistLengths(), block)
    modifies os, os.dst
    ensures os.Valid()
    ensures var body := BodyBits(FixedLitlenLengths(), FixedDistLengths(), block);
            && ok == (|old(os.written)| + 3 + |body| <= 8 * os.dst.Length)
            && (ok ==> os.written == old(os.written) + (BlockHeader(final, 1) + body))
  {
    hide FixedLitlenLengths, FixedDistLengths, HaveCode, BodyBits, BlockHeader, Fits, Encoder.For;
    var litlen, dist := FixedLitlenLengths(), FixedDistLengths();
    ghost var before, body := os.written, BodyBits(litlen, dist, block);
    ok := WriteHeader(os, final, 1);
    if !ok {
      return;
    }
    FixedCodes();
    var litlenEnc := new Encoder();
    var distEnc := new Encoder();
    litlenEnc.InitFromLengths(litlen);
    distEnc.InitFromLengths(dist);
    ok := WriteHuffmanBlock(os, block, litlenEnc, distEnc, litlen, dist);
    assert before + BlockHeader(final, 1) + body == before + (BlockHeader(final, 1) + body);
  }

  lemma FixedCodes()
    ensures Codes(FixedLitlenLengths(), FixedDistLengths())
  {
    InflateCodec.FixedFit();
  }

  /** uncomp_block_len(): header, padding, lengths and contents. */
  function UncompBlockLen(bitPos: nat, lenBytes: nat): nat {
    var pos := bitPos + 3;
    3 + (RoundUp8(pos) - pos) + 2 * 16 + lenBytes * 8
  }

  /** The length of a stored block and its complement. */
  function LenNlen(len: nat): (s: seq<byte>)
    requires len < 0x1_0000
    ensures |s| == 4
  {
    [len % 256, len / 256, 255 - len % 256, 255 - len / 256]
  }

  lemma LenNlenBits(len: nat)
    requires len < 0x1_0000
    ensures BytesToBits(LenNlen(len)) == ToBits(len, 16) + ToBits(0xFFFF - len, 16)
  {
    hide LeBytes, ToBits, BytesToBits;
    var lo, hi := LeBytes(len, 2), LeBytes(0xFFFF - len, 2);
    LeBytesBits(len, 2);
    LeBytesBits(0xFFFF - len, 2);
    TwoBytes(len);
    TwoBytes(0xFFFF - len);
    assert LenNlen(len) == lo + hi;
    BytesToBitsConcat(lo, hi);
  }

  lemma TwoBytes(x: nat)
    requires x < 0x1_0000
    ensures LeBytes(x, 2) == [x % 256, x / 256]
  {
    assert LeBytes(x / 256, 1) == [x / 256 % 256] + LeBytes(x / 256 / 256, 0);
  }

  /** write_uncomp_block(): the block ends at a byte boundary. */
  method WriteUncompBlock(os: OStream, final: bool, data: seq<byte>) returns (ok: bool, ghost pad: seq<bool>)
    requires os.Valid() && |data| < 0x1_0000
    modifies os, os.dst
    ensures os.Valid() && ok == (|old(os.written)| + UncompBlockLen(|old(os.written)|, |data|) <= 8 * os.dst.Length)
    ensures ok ==> |pad| < 8 && os.written == old(os.written) + (BlockHeader(final, 0) + (pad + StoredBits(data)))
                   && |os.written| == |old(os.written)| + UncompBlockLen(|old(os.written)|, |data|)
                   && |os.written| % 8 == 0
  {
    hide BlockHeader, LenNlen, ToBits, BytesToBits;
    ghost var before := os.written;
    pad := [];
    ok := WriteHeader(os, final, 0);
    if !ok {
      return;
    }
    ok, pad := os.WriteBytesAligned(LenNlen(|data|));
    if !ok {
      return;
    }
    ghost var none;
    ok, none := os.WriteBytesAligned(data);
    if !ok {
      return;
    }
    LenNlenBits(|data|);
    assert none == [];
    StoredConcat(before, BlockHeader(final, 0), pad, ToBits(|data|, 16), ToBits(0xFFFF - |data|, 16), none, BytesToBits(data));
  }

  lemma StoredConcat(a: seq<bool>, b: seq<bool>, c: seq<bool>, d: seq<bool>, e: seq<bool>, none: seq<bool>, f: seq<bool>)
    requires none == []
    ensures a + b + c + (d + e) + none + f == a + (b + (c + (d + e + f)))
  {
  }

  /** The first 17 bits of a dynamic block: header and numbers of lengths. */
  function NumberBits(final: bool, c: DynamicCodes): (b: seq<bool>)
    requires MIN_LITLEN_LENS <= c.numLitlen && MIN_DIST_LENS <= c.numDist && MIN_CODELEN_LENS <= c.numCodelens
    ensures |b| == 17
  {
    BlockHeader(final, 2) + ToBits(c.numLitlen - MIN_LITLEN_LENS, 5) + ToBits(c.numDist - MIN_DIST_LENS, 5)
    + ToBits(c.numCodelens - MIN_CODELEN_LENS, 4)
  }

  method WriteNumbers(os: OStream, final: bool, c: DynamicCodes) returns (ok: bool)
    requires os.Valid() && HeaderOk(c)
    modifies os, os.dst
    ensures os.Valid() && ok == (|old(os.written)| + 17 <= 8 * os.dst.Length)
    ensures os.written == if ok then old(os.written) + NumberBits(final, c) else old(os.written)
  {
    hide BlockHeader, ToBits, Codes, ItemsOk, ExpandItems, HaveCodes, Fits, ZeroFrom, Pow2, Shl, OStream.Valid;
    HeaderValue(final, 2);
    SmallPowers();
    assert c.numCodelens <= MAX_CODELEN_LENS;
    var bits: nat := 4 + BitValue(final);
    var hlit: nat, hdist: nat, hclen: nat := c.numLitlen - MIN_LITLEN_LENS, c.numDist - MIN_DIST_LENS, c.numCodelens - MIN_CODELEN_LENS;
    JoinBits(bits, 3, hlit, 5);
    bits := bits + Shl(hlit, 3);
    JoinBits(bits, 8, hdist, 5);
    bits := bits + Shl(hdist, 8);
    JoinBits(bits, 13, hclen, 4);
    bits := bits + Shl(hclen, 13);
    ok := os.Write(bits, 17);
  }

  /** The symbol at place i of the order of the format. */
  function OrderAt(i: nat): (s: nat)
    requires i < MAX_CODELEN_LENS
    ensures s < MAX_CODELEN_LENS
  {
    PlaceInverse(i);
    ORDER[i]
  }

  /** Writes the lengths of the code for codeword lengths. */
  method WriteCodelens(os: OStream, c: DynamicCodes, codelenEnc: Encoder) returns (ok: bool)
    requires os.Valid() && HeaderOk(c) && codelenEnc.For(c.codelens) && codelenEnc.Avoids(os.dst)
    modifies os, os.dst
    ensures os.Valid() && ok == (|old(os.written)| + 3 * c.numCodelens <= 8 * os.dst.Length)
    ensures ok ==> os.written == old(os.written) + CodelenBits(c.codelens, c.numCodelens)
  {
    hide ToBits, HeaderOk, Encoder.For, CodelenBits, Pow2, OrderAt, OStream.Valid;
    os.InRoom();
    ghost var before := os.written;
    HeaderSizes(c);
    NoCodelens(c.codelens);
    var i := 0;
    while i < c.numCodelens
      invariant i <= c.numCodelens && os.Valid() && |os.written| <= 8 * os.dst.Length && codelenEnc.For(c.codelens)
      invariant os.written == before + CodelenBits(c.codelens, i)
    {
      CodelenNext(c, i);
      EncodeLengths.LengthsAre(codelenEnc, c.codelens);
      var codelen := codelenEnc.lengths[OrderAt(i)];
      ok := os.Write(codelen, 3);
      if !ok {
        return;
      }
      i := i + 1;
    }
    ok := true;
  }

  lemma NoCodelens(codelens: seq<nat>)
    requires |codelens| == MAX_CODELEN_LENS
    ensures CodelenBits(codelens, 0) == []
  {
  }

  lemma CodelenNext(c: DynamicCodes, i: nat)
    requires HeaderOk(c) && i < c.numCodelens
    ensures i < MAX_CODELEN_LENS && |c.codelens| == MAX_CODELEN_LENS
    ensures c.codelens[OrderAt(i)] < Pow2(3)
    ensures CodelenBits(c.codelens, i + 1) == CodelenBits(c.codelens, i) + ToBits(c.codelens[OrderAt(i)], 3)
  {
    PlaceInverse(i);
    assert Pow2(3) == 8;
  }

  /** Writes an item: its codeword and count in one piece. */
  method WriteItem(os: OStream, t: Item, codelenEnc: Encoder, ghost codelens: seq<nat>, ghost lens: seq<nat>) returns (ok: bool)
    requires os.Valid() && codelenEnc.For(codelens) && |codelens| == MAX_CODELEN_LENS && ItemOk(lens, t) && codelens[t.sym] > 0
    modifies os, os.dst
    ensures os.Valid() && ok == (|old(os.written)| + |ItemBits(codelens, t)| <= 8 * os.dst.Length)
    ensures os.written == if ok then old(os.written) + ItemBits(codelens, t) else old(os.written)
  {
    hide Encoder.For, ToBits, Codeword, Pow2, Shl;
    EncoderAt(codelenEnc, codelens, t.sym);
    var bits, nbits := codelenEnc.codewords[t.sym], codelenEnc.lengths[t.sym];
    if t.sym > CODELEN_MAX_LIT {
      var extra: nat := t.count - MinCount(t.sym);
      ExtraFits(t);
      JoinBits(bits, nbits, extra, ExtraBits(t.sym));
      bits, nbits := bits + Shl(extra, nbits), nbits + ExtraBits(t.sym);
    }
    ok := os.Write(bits, nbits);
  }

  lemma ExtraFits(t: Item)
    requires CODELEN_MAX_LIT < t.sym < MAX_CODELEN_LENS && MinCount(t.sym) <= t.count <= MaxCount(t.sym)
    ensures t.count - MinCount(t.sym) < Pow2(ExtraBits(t.sym)) && ExtraBits(t.sym) <= 7
  {
    assert Pow2(2) == 4 && Pow2(3) == 8 && Pow2(7) == 128;
  }

  /** The bits of the first i items. */
  ghost function ItemsUpTo(codelens: seq<nat>, items: seq<Item>, i: nat): seq<bool>
    requires |codelens| == MAX_CODELEN_LENS && ItemsOk([], items) && i <= |items|
  {
    ItemsTakeAny(items, i);
    ItemsBits(codelens, [], items[..i])
  }

  lemma ItemsTakeAny(items: seq<Item>, i: nat)
    requires ItemsOk([], items) && i <= |items|
    ensures ItemsOk([], items[..i])
  {
    if i < |items| {
      ItemsTake([], items, i);
    } else {
      assert items[..i] == items;
    }
  }

  lemma ItemsUpToNext(codelens: seq<nat>, items: seq<Item>, i: nat)
    requires |codelens| == MAX_CODELEN_LENS && ItemsOk([], items) && i < |items|
    ensures ItemsOk([], items[..i]) && ItemOk(ExpandItems([], items[..i]), items[i])
    ensures ItemsUpTo(codelens, items, i + 1) == ItemsUpTo(codelens, items, i) + ItemBits(codelens, items[i])
  {
    hide ItemBits, ItemOk, ExpandItems, ItemsOk;
    ItemsTake([], items, i);
    assert items[..i + 1] == items[..i] + [items[i]];
    ItemsBitsSnoc(codelens, [], items[..i], items[i]);
  }

  lemma ItemsUpToEnds(codelens: seq<nat>, items: seq<Item>)
    requires |codelens| == MAX_CODELEN_LENS && ItemsOk([], items)
    ensures ItemsUpTo(codelens, items, 0) == [] && ItemsUpTo(codelens, items, |items|) == ItemsBits(codelens, [], items)
  {
    assert items[..|items|] == items;
  }

  lemma {:induction false} ItemsUpToGrow(codelens: seq<nat>, items: seq<Item>, i: nat)
    requires |codelens| == MAX_CODELEN_LENS && ItemsOk([], items) && i <= |items|
    ensures |ItemsUpTo(codelens, items, i)| <= |ItemsBits(codelens, [], items)|
    decreases |items| - i
  {
    hide ItemsOk, ItemBits;
    if i < |items| {
      ItemsUpToNext(codelens, items, i);
      ItemsUpToGrow(codelens, items, i + 1);
    } else {
      ItemsUpToEnds(codelens, items);
    }
  }

  lemma HeaderItems(c: DynamicCodes)
    requires HeaderOk(c)
    ensures |c.codelens| == MAX_CODELEN_LENS && ItemsOk([], c.items) && HaveCodes(c.codelens, c.items)
  {
  }

  /** What there is to know about item i before it is written. */
  lemma ItemStep(codelens: seq<nat>, items: seq<Item>, i: nat)
    requires |codelens| == MAX_CODELEN_LENS && ItemsOk([], items) && HaveCodes(codelens, items) && i < |items|
    ensures ItemsOk([], items[..i]) && ItemOk(ExpandItems([], items[..i]), items[i]) && codelens[items[i].sym] > 0
    ensures ItemsUpTo(codelens, items, i + 1) == ItemsUpTo(codelens, items, i) + ItemBits(codelens, items[i])
    ensures |ItemsUpTo(codelens, items, i + 1)| <= |ItemsBits(codelens, [], items)|
  {
    hide ItemsOk, ItemsBits, ItemBits, ItemOk, ExpandItems, ItemsUpTo;
    ItemsUpToNext(codelens, items, i);
    ItemsUpToGrow(codelens, items, i + 1);
    assert items[i] in items;
  }

  method WriteItems(os: OStream, c: DynamicCodes, codelenEnc: Encoder) returns (ok: bool)
    requires os.Valid() && HeaderOk(c) && codelenEnc.For(c.codelens) && codelenEnc.Avoids(os.dst)
    modifies os, os.dst
    ensures os.Valid() && ok == (|old(os.written)| + |ItemsBits(c.codelens, [], c.items)| <= 8 * os.dst.Length)
    ensures ok ==> os.written == old(os.written) + ItemsBits(c.codelens, [], c.items)
  {
    hide HeaderOk, ItemsOk, ItemsBits, ItemBits, ExpandItems, Encoder.For, ItemsUpTo, ItemOk, HaveCodes, OStream.Valid;
    os.InRoom();
    ghost var before := os.written;
    HeaderItems(c);
    ItemsUpToEnds(c.codelens, c.items);
    var i := 0;
    while i < |c.items|
      invariant i <= |c.items| && os.Valid() && |os.written| <= 8 * os.dst.Length && codelenEnc.For(c.codelens)
      invariant os.written == before + ItemsUpTo(c.codelens, c.items, i)
    {
      ItemStep(c.codelens, c.items, i);
      ok := WriteItem(os, c.items[i], codelenEnc, c.codelens, ExpandItems([], c.items[..i]));
      if !ok {
        return;
      }
      i := i + 1;
    }
    ok := true;
  }

  lemma DynamicConcat(before: seq<bool>, final: bool, c: DynamicCodes, block: seq<Sym>)
    requires HeaderOk(c) && HaveCode(c.litlen, c.dist, block)
    ensures before + NumberBits(final, c) + CodelenBits(c.codelens, c.numCodelens) + ItemsBits(c.codelens, [], c.items)
            + BodyBits(c.litlen, c.dist, block)
         == before + DynamicBits(final, c, block)
  {
    hide BlockHeader, ToBits, CodelenBits, ItemsBits, BodyBits, Codes, ItemsOk, ExpandItems, HaveCodes, Fits, ZeroFrom;
  }

  /** write_dynamic_block() */
  method WriteDynamicBlock(os: OStream, final: bool, block: seq<Sym>, c: DynamicCodes,
                           litlenEnc: Encoder, distEnc: Encoder, codelenEnc: Encoder) returns (ok: bool)
    requires os.Valid() && HeaderOk(c) && HaveCode(c.litlen, c.dist, block)
    requires litlenEnc.For(c.litlen) && distEnc.For(c.dist) && codelenEnc.For(c.codelens)
    requires litlenEnc.Avoids(os.dst) && distEnc.Avoids(os.dst) && codelenEnc.Avoids(os.dst)
    modifies os, os.dst
    ensures os.Valid() && ok == (|old(os.written)| + |DynamicBits(final, c, block)| <= 8 * os.dst.Length)
    ensures ok ==> os.written == old(os.written) + DynamicBits(final, c, block)
  {
    hide HeaderOk, HaveCode, BodyBits, Encoder.For, NumberBits, CodelenBits, ItemsBits, DynamicBits;
    ghost var before := os.written;
    DynamicConcat(before, final, c, block);
    HeaderSizes(c);
    ok := WriteNumbers(os, final, c);
    if !ok {
      return;
    }
    ok := WriteCodelens(os, c, codelenEnc);
    if !ok {
      return;
    }
    ok := WriteItems(os, c, codelenEnc);
    if !ok {
      return;
    }
    ok := WriteHuffmanBlock(os, block, litlenEnc, distEnc, c.litlen, c.dist);
  }

  lemma HeaderSizes(c: DynamicCodes)
    requires HeaderOk(c)
    ensures |c.codelens| == MAX_CODELEN_LENS && MIN_CODELEN_LENS <= c.numCodelens <= MAX_CODELEN_LENS && ItemsOk([], c.items)
    ensures MIN_LITLEN_LENS <= c.numLitlen && MIN_DIST_LENS <= c.numDist
  {
  }

  // ---------------------------------------------------------------- choosing the kind

  const MAX_BLOCK_LEN_BYTES: nat := 65534

  /** How many bits each kind of block takes. */
  datatype Costs = Costs(stored: nat, fixed: nat, dynamic: nat) {
    function Least(): nat {
      Min(stored, Min(fixed, dynamic))
    }
  }

  ghost predicate CostsAre(k: Costs, bitPos: nat, lenBytes: nat, final: bool, block: seq<Sym>, c: DynamicCodes) {
    && SymsInRange(block) && HeaderOk(c) && HaveCode(c.litlen, c.dist, block)
    && HaveCode(FixedLitlenLengths(), FixedDistLengths(), block)
    && k.stored == UncompBlockLen(bitPos, lenBytes)
    && k.fixed == 3 + |BodyBits(FixedLitlenLengths(), FixedDistLengths(), block)|
    && k.dynamic == |DynamicBits(final, c, block)|
  }

  /** The bits of a block are those of the kind that takes the fewest; of equals a stored block comes first, and
      then one in the fixed codes. */
  ghost predicate BitsAre(b: seq<bool>, k: Costs, final: bool, block: seq<Sym>, c: DynamicCodes, data: seq<byte>) {
    && HaveCode(FixedLitlenLengths(), FixedDistLengths(), block) && HeaderOk(c) && HaveCode(c.litlen, c.dist, block)
    && |data| < 0x1_0000
    && if k.stored <= k.dynamic && k.stored <= k.fixed then
         exists pad: seq<bool> :: |pad| < 8 && b == BlockHeader(final, 0) + (pad + StoredBits(data))
       else if k.fixed <= k.dynamic then b == BlockHeader(final, 1) + BodyBits(FixedLitlenLengths(), FixedDistLengths(), block)
       else b == DynamicBits(final, c, block)
  }

  /** The block that has been written. */
  ghost predicate BlockWritten(b: seq<bool>, total: nat, final: bool, src: seq<byte>, from: nat, bytes: nat) {
    from + bytes <= |src| && BlockReads(b, total, final, src[..from], src[..from + bytes])
  }

  /** Writes a stored block; its bits are what they are whether or not they fit. */
  method WriteStored(os: OStream, final: bool, data: seq<byte>, ghost out: seq<byte>) returns (ok: bool, ghost b: seq<bool>)
    requires os.Valid() && |data| < 0x1_0000
    modifies os, os.dst
    ensures os.Valid() && ok == (|old(os.written)| + |b| <= 8 * os.dst.Length)
    ensures |b| == UncompBlockLen(|old(os.written)|, |data|) && BlockReads(b, |old(os.written)| + |b|, final, out, out + data)
    ensures exists pad: seq<bool> :: |pad| < 8 && b == BlockHeader(final, 0) + (pad + StoredBits(data))
    ensures ok ==> os.written == old(os.written) + b
  {
    hide BlockReads, BlockHeader, StoredBits, UncompBlockLen, OStream.Valid;
    ghost var pos, pad := |os.written|, [];
    ok, pad := WriteUncompBlock(os, final, data);
    StoredPad(pos, |data|);
    if !ok {
      pad := Zeros(UncompBlockLen(pos, |data|) - 35 - 8 * |data|);
    }
    b := BlockHeader(final, 0) + (pad + StoredBits(data));
    StoredSize(data);
    StoredBlockReads(final, pad, data, out, pos + |b|);
  }

  /** The second part of write_block(): writes the block in the way that takes the fewest bits. */
  method WriteCheapest(os: OStream, final: bool, block: seq<Sym>, c: DynamicCodes, litlenEnc: Encoder, distEnc: Encoder,
                       codelenEnc: Encoder, k: Costs, src: seq<byte>, from: nat, bytes: nat, ghost ts: seq<Token>)
    returns (ok: bool, ghost b: seq<bool>)
    requires os.Valid() && CostsAre(k, os.bitpos, bytes, final, block, c) && block == ToSyms(ts) + [EOB]
    requires BlockOk(src, from, bytes, ts) && bytes <= MAX_BLOCK_LEN_BYTES
    requires litlenEnc.For(c.litlen) && distEnc.For(c.dist) && codelenEnc.For(c.codelens)
    requires litlenEnc.Avoids(os.dst) && distEnc.Avoids(os.dst) && codelenEnc.Avoids(os.dst)
    modifies os, os.dst
    ensures os.Valid() && ok == (|old(os.written)| + k.Least() <= 8 * os.dst.Length)
    ensures |b| == k.Least() && BlockWritten(b, |old(os.written)| + |b|, final, src, from, bytes)
    ensures from + bytes <= |src| && BitsAre(b, k, final, block, c, src[from..from + bytes])
    ensures ok ==> os.written == old(os.written) + b
  {
    hide HaveCode, BodyBits, HeaderOk, DynamicBits, Encoder.For, BlockHeader, FixedLitlenLengths, FixedDistLengths, UncompBlockLen,
         ToSyms, SymsInRange, BlockOk, BlockWritten, BlockReads, OStream.Valid, StoredBits;
    os.InRoom();
    BlockInside(src, from, bytes, ts);
    ghost var pos := |os.written|;
    if k.stored <= k.dynamic && k.stored <= k.fixed {
      ok, b := WriteStored(os, final, src[from..from + bytes], src[..from]);
      StoredWritten(b, pos + |b|, final, src, from, bytes);
    } else if k.fixed <= k.dynamic {
      ok := WriteStaticBlock(os, final, block);
      b := BlockHeader(final, 1) + BodyBits(FixedLitlenLengths(), FixedDistLengths(), block);
      FixedWritten(final, block, src, from, bytes, ts, pos + |b|);
    } else {
      ok := WriteDynamicBlock(os, final, block, c, litlenEnc, distEnc, codelenEnc);
      b := DynamicBits(final, c, block);
      DynamicWritten(final, block, c, src, from, bytes, ts, pos + |b|);
    }
  }

  lemma StoredWritten(b: seq<bool>, total: nat, final: bool, src: seq<byte>, from: nat, bytes: nat)
    requires from + bytes <= |src| && BlockReads(b, total, final, src[..from], src[..from] + src[from..from + bytes])
    ensures BlockWritten(b, total, final, src, from, bytes)
  {
    hide BlockReads;
    assert src[..from] + src[from..from + bytes] == src[..from + bytes];
  }

  lemma FixedWritten(final: bool, block: seq<Sym>, src: seq<byte>, from: nat, bytes: nat, ts: seq<Token>, total: nat)
    requires BlockOk(src, from, bytes, ts) && block == ToSyms(ts) + [EOB] && HaveCode(FixedLitlenLengths(), FixedDistLengths(), block)
    ensures BlockWritten(BlockHeader(final, 1) + BodyBits(FixedLitlenLengths(), FixedDistLengths(), block), total, final, src, from, bytes)
  {
    hide HaveCode, BodyBits, BlockReads, BlockHeader, FixedLitlenLengths, FixedDistLengths, TokensFit, TokensLen, Expand, ToSyms;
    FixedCodes();
    FixedBlockReads(final, ts, src[..from], total);
  }

  lemma DynamicWritten(final: bool, block: seq<Sym>, c: DynamicCodes, src: seq<byte>, from: nat, bytes: nat, ts: seq<Token>, total: nat)
    requires BlockOk(src, from, bytes, ts) && block == ToSyms(ts) + [EOB] && HeaderOk(c) && HaveCode(c.litlen, c.dist, block)
    ensures BlockWritten(DynamicBits(final, c, block), total, final, src, from, bytes)
  {
    hide HaveCode, HeaderOk, DynamicBits, BlockReads, TokensFit, TokensLen, Expand, ToSyms;
    DynamicReads(final, c, ts, src[..from], total);
  }

  /** A stored block has less than a byte of padding, and ends at a byte boundary. */
  lemma StoredPad(bitPos: nat, lenBytes: nat)
    ensures 35 + 8 * lenBytes <= UncompBlockLen(bitPos, lenBytes) < 43 + 8 * lenBytes
    ensures (bitPos + UncompBlockLen(bitPos, lenBytes)) % 8 == 0
  {
  }

  // ---------------------------------------------------------------- blocks of least cost

  /** The limits that hwdeflate() sets for LZ77. */
  const LIMITS: Params := Params(MAX_DISTANCE, MAX_MATCH, true)

  /** A block as it is written: the bytes it stands for as tokens, its costs and its bits. */
  datatype Block = Block(tokens: seq<Token>, bytes: nat, codes: DynamicCodes, costs: Costs, bits: seq<bool>)

  function BitsOf(bs: seq<Block>): seq<bool> {
    if bs == [] then [] else BitsOf(bs[..|bs| - 1]) + bs[|bs| - 1].bits
  }

  function BytesOf(bs: seq<Block>): nat {
    if bs == [] then 0 else BytesOf(bs[..|bs| - 1]) + bs[|bs| - 1].bytes
  }

  function TokensOf(bs: seq<Block>): seq<Token> {
    if bs == [] then [] else TokensOf(bs[..|bs| - 1]) + bs[|bs| - 1].tokens
  }

  /** The block b for the tokens from n on, which stand for the source from `from` on, after bitPos bits.  It is in the
      kind that takes the fewest bits, with the codes that are made for it, and takes in as many tokens as it may. */
  ghost predicate LeastCostBlock(b: Block, src: seq<byte>, all: seq<Token>, n: nat, bitPos: nat, from: nat, final: bool) {
    && n + |b.tokens| <= |all| && b.tokens == all[n..n + |b.tokens|]
    && BlockOk(src, from, b.bytes, b.tokens) && b.bytes <= MAX_BLOCK_LEN_BYTES
    && (if final then n + |b.tokens| == |all|
        else n + |b.tokens| < |all| && b.bytes + TokenLen(all[n + |b.tokens|]) > MAX_BLOCK_LEN_BYTES)
    && CostsAre(b.costs, bitPos, b.bytes, final, ToSyms(b.tokens) + [EOB], b.codes)
    && MadeFor(b.codes, ToSyms(b.tokens) + [EOB])
    && BitsAre(b.bits, b.costs, final, ToSyms(b.tokens) + [EOB], b.codes, src[from..from + b.bytes])
    && |b.bits| == b.costs.Least() && BlockWritten(b.bits, bitPos + |b.bits|, final, src, from, b.bytes)
  }

  /** The blocks from the first token on; the last is the final one if the stream is ended. */
  ghost predicate LeastCostBlocks(bs: seq<Block>, src: seq<byte>, all: seq<Token>, ended: bool) {
    if bs == [] then !ended
    else
      var before := bs[..|bs| - 1];
      && LeastCostBlocks(before, src, all, false)
      && LeastCostBlock(bs[|bs| - 1], src, all, |TokensOf(before)|, |BitsOf(before)|, BytesOf(before), ended)
  }

  lemma BlocksSnoc(bs: seq<Block>, b: Block)
    ensures BitsOf(bs + [b]) == BitsOf(bs) + b.bits && BytesOf(bs + [b]) == BytesOf(bs) + b.bytes
    ensures TokensOf(bs + [b]) == TokensOf(bs) + b.tokens
  {
    assert (bs + [b])[..|bs|] == bs;
  }

  lemma BlocksNext(bs: seq<Block>, b: Block, src: seq<byte>, all: seq<Token>, final: bool)
    requires LeastCostBlocks(bs, src, all, false) && LeastCostBlock(b, src, all, |TokensOf(bs)|, |BitsOf(bs)|, BytesOf(bs), final)
    ensures LeastCostBlocks(bs + [b], src, all, final)
  {
    hide LeastCostBlock;
    assert (bs + [b])[..|bs|] == bs;
  }

  /** No block takes more bits than a stored one, and all but the last stand for many bytes. */
  lemma {:induction false} BlocksSize(bs: seq<Block>, src: seq<byte>, all: seq<Token>, ended: bool)
    requires LeastCostBlocks(bs, src, all, ended) && forall t :: t in all ==> TokenLen(t) <= MAX_MATCH
    ensures |BitsOf(bs)| <= 8 * BytesOf(bs) + 42 * |bs| && BytesOf(bs) <= |src|
    ensures !ended ==> 65277 * |bs| <= BytesOf(bs)
    ensures ended ==> 65277 * (|bs| - 1) <= BytesOf(bs)
  {
    hide CostsAre, MadeFor, BitsAre, BlockWritten, Costs.Least, TokenLen;
    if bs != [] {
      var n := |bs| - 1;
      BlocksSize(bs[..n], src, all, false);
      assert LeastCostBlock(bs[n], src, all, |TokensOf(bs[..n])|, |BitsOf(bs[..n])|, BytesOf(bs[..n]), ended);
      LeastCost(bs[n].costs, |BitsOf(bs[..n])|, bs[n].bytes, ended, ToSyms(bs[n].tokens) + [EOB], bs[n].codes);
    }
  }

  // ---------------------------------------------------------------- the blocks are determined

  lemma {:induction false} MoreTokens(ts: seq<Token>, i: nat)
    requires i < |ts|
    ensures TokensLen(ts[..i]) + TokenLen(ts[i]) <= TokensLen(ts)
    decreases i
  {
    hide TokenLen;
    if i > 0 {
      MoreTokens(ts[1..], i - 1);
      assert ts[..i][1..] == ts[1..][..i - 1];
    }
  }

  /** A block takes in as many tokens as it may. */
  lemma SameTokens(b: Block, d: Block, src: seq<byte>, all: seq<Token>, n: nat, bitPos: nat, from: nat, final: bool, final': bool)
    requires LeastCostBlock(b, src, all, n, bitPos, from, final) && LeastCostBlock(d, src, all, n, bitPos, from, final')
    ensures |b.tokens| >= |d.tokens|
  {
    hide CostsAre, MadeFor, BitsAre, BlockWritten, Costs.Least, TokenLen, TokensFit, Expand;
    if |b.tokens| < |d.tokens| {
      assert d.tokens[..|b.tokens|] == b.tokens;
      MoreTokens(d.tokens, |b.tokens|);
    }
  }

  lemma SameCosts(k: Costs, l: Costs, bitPos: nat, lenBytes: nat, final: bool, block: seq<Sym>, c: DynamicCodes)
    requires CostsAre(k, bitPos, lenBytes, final, block, c) && CostsAre(l, bitPos, lenBytes, final, block, c)
    ensures k == l
  {
  }

  lemma SameBlock(b: Block, d: Block, src: seq<byte>, all: seq<Token>, n: nat, bitPos: nat, from: nat, final: bool, final': bool)
    requires LeastCostBlock(b, src, all, n, bitPos, from, final) && LeastCostBlock(d, src, all, n, bitPos, from, final')
    ensures b.tokens == d.tokens && b.bytes == d.bytes && |b.bits| == |d.bits| && final == final'
  {
    hide CostsAre, MadeFor, BitsAre, BlockWritten, Costs.Least, TokenLen, TokensFit, TokensLen, Expand, ToSyms;
    SameTokens(b, d, src, all, n, bitPos, from, final, final');
    SameTokens(d, b, src, all, n, bitPos, from, final', final);
    MadeUnique(b.codes, d.codes, ToSyms(b.tokens) + [EOB]);
    SameCosts(b.costs, d.costs, bitPos, b.bytes, final, ToSyms(b.tokens) + [EOB], b.codes);
  }

  lemma {:induction false} BlocksTake(bs: seq<Block>, src: seq<byte>, all: seq<Token>, ended: bool, k: nat)
    requires LeastCostBlocks(bs, src, all, ended) && k < |bs|
    ensures LeastCostBlocks(bs[..k], src, all, false)
    ensures LeastCostBlock(bs[k], src, all, |TokensOf(bs[..k])|, |BitsOf(bs[..k])|, BytesOf(bs[..k]), ended && k == |bs| - 1)
  {
    hide LeastCostBlock;
    if k < |bs| - 1 {
      BlocksTake(bs[..|bs| - 1], src, all, false, k);
      assert bs[..|bs| - 1][..k] == bs[..k];
    }
  }

  /** Blocks for the same tokens take as many bits, as far as there are blocks on both sides. */
  lemma {:induction false} SameBlocks(bs: seq<Block>, ds: seq<Block>, src: seq<byte>, all: seq<Token>, ended: bool, ended': bool, k: nat)
    requires LeastCostBlocks(bs, src, all, ended) && LeastCostBlocks(ds, src, all, ended') && k <= |bs| && k <= |ds|
    ensures |BitsOf(bs[..k])| == |BitsOf(ds[..k])| && BytesOf(bs[..k]) == BytesOf(ds[..k]) && |TokensOf(bs[..k])| == |TokensOf(ds[..k])|
    ensures k > 0 ==> (ended && k == |bs| <==> ended' && k == |ds|)
  {
    hide LeastCostBlocks, LeastCostBlock;
    if k > 0 {
      SameBlocks(bs, ds, src, all, ended, ended', k - 1);
      BlocksTake(bs, src, all, ended, k - 1);
      BlocksTake(ds, src, all, ended', k - 1);
      SameBlock(bs[k - 1], ds[k - 1], src, all, |TokensOf(bs[..k - 1])|, |BitsOf(bs[..k - 1])|, BytesOf(bs[..k - 1]),
                ended && k == |bs|, ended' && k == |ds|);
      BlocksStep(bs, k - 1);
      BlocksStep(ds, k - 1);
    }
  }

  lemma BlocksStep(bs: seq<Block>, k: nat)
    requires k < |bs|
    ensures BitsOf(bs[..k + 1]) == BitsOf(bs[..k]) + bs[k].bits && BytesOf(bs[..k + 1]) == BytesOf(bs[..k]) + bs[k].bytes
    ensures TokensOf(bs[..k + 1]) == TokensOf(bs[..k]) + bs[k].tokens
  {
    assert bs[..k + 1][..k] == bs[..k];
  }

  lemma {:induction false} BitsGrow(bs: seq<Block>, k: nat)
    requires k <= |bs|
    ensures |BitsOf(bs[..k])| <= |BitsOf(bs)|
  {
    if k < |bs| {
      BitsGrow(bs[..|bs| - 1], k);
      assert bs[..|bs| - 1][..k] == bs[..k];
    } else {
      assert bs[..k] == bs;
    }
  }

  /** No beginning of the blocks takes more bits than all of them. */
  lemma NotLonger(bs: seq<Block>, ds: seq<Block>, src: seq<byte>, all: seq<Token>, ended: bool)
    requires LeastCostBlocks(bs, src, all, ended) && LeastCostBlocks(ds, src, all, true)
    ensures |BitsOf(bs)| <= |BitsOf(ds)|
  {
    hide LeastCostBlock, BitsOf, BytesOf, TokensOf;
    if |bs| > |ds| {
      SameBlocks(bs, ds, src, all, ended, true, |ds|);
    } else {
      SameBlocks(bs, ds, src, all, ended, true, |bs|);
      BitsGrow(ds, |bs|);
      assert bs[..|bs|] == bs;
    }
  }

  /** The blocks for the tokens of the source fit. */
  ghost predicate DeflatedFits(src: seq<byte>, cap: nat) {
    exists bs :: LeastCostBlocks(bs, src, Tokens(src, LIMITS), true) && |BitsOf(bs)| <= 8 * cap
  }

  lemma BlocksDoNotFit(bs: seq<Block>, src: seq<byte>, ended: bool, cap: nat)
    requires LeastCostBlocks(bs, src, Tokens(src, LIMITS), ended) && |BitsOf(bs)| > 8 * cap
    ensures !DeflatedFits(src, cap)
  {
    hide LeastCostBlocks, BitsOf, Tokens;
    forall ds | LeastCostBlocks(ds, src, Tokens(src, LIMITS), true)
      ensures |BitsOf(ds)| > 8 * cap
    {
      NotLonger(bs, ds, src, Tokens(src, LIMITS), ended);
    }
  }

  // ---------------------------------------------------------------- the state

  /** deflate_state_t */
  class Deflater {
    const os: OStream
    const src: seq<byte>
    /** All tokens that the callbacks are called with. */
    ghost const all: seq<Token>
    /** Where the block begins in the source. */
    var blockSrc: nat
    var block: seq<Sym>
    var blockLenBytes: nat
    var litlenFreqs: seq<nat>
    var distFreqs: seq<nat>
    /** The tokens of the block, and the blocks before it. */
    ghost var tokens: seq<Token>
    ghost var blocks: seq<Block>

    ghost predicate Valid()
      reads this, os, os.dst
    {
      && os.Valid() && Collected()
      && StreamReads(os.written, src[..blockSrc])
      && LeastCostBlocks(blocks, src, all, false) && os.written == BitsOf(blocks) && blockSrc == BytesOf(blocks)
      && Taken() <= all
    }

    /** The tokens taken so far. */
    ghost function Taken(): seq<Token>
      reads this
    {
      TokensOf(blocks) + tokens
    }

    /** What has been collected for the block. */
    ghost predicate Collected()
      reads this
    {
      && BlockOk(src, blockSrc, blockLenBytes, tokens) && blockLenBytes <= MAX_BLOCK_LEN_BYTES
      && Counted(tokens, block, litlenFreqs, distFreqs)
    }

    constructor (src: seq<byte>, dst: array<byte>, ghost all: seq<Token>)
      ensures Valid() && this.src == src && this.all == all && os.dst == dst && blockSrc == 0 && blockLenBytes == 0 && Taken() == [] && fresh(os)
    {
      hide StreamReads, BlockOk, Counted;
      os := new OStream(dst);
      this.src, this.all := src, all;
      blockSrc, blockLenBytes, block, tokens, blocks := 0, 0, [], [], [];
      litlenFreqs, distFreqs := NoFreqs(LITLEN_SYMS), NoFreqs(DIST_SYMS);
      StreamStart();
      NoTokens(src, 0);
      CountedNone();
      assert src[..0] == [];
    }

    /** reset_block(), and moving on in the source. */
    method ResetBlock()
      requires blockSrc + blockLenBytes <= |src|
      modifies this
      ensures Collected() && blockSrc == old(blockSrc + blockLenBytes) && blockLenBytes == 0 && blocks == old(blocks) && tokens == []
    {
      hide BlockOk, Counted;
      blockSrc := blockSrc + blockLenBytes;
      block, blockLenBytes, tokens := [], 0, [];
      litlenFreqs, distFreqs := NoFreqs(LITLEN_SYMS), NoFreqs(DIST_SYMS);
      NoTokens(src, blockSrc);
      CountedNone();
    }

    /** There are no more tokens, or the next does not fit in the block. */
    ghost predicate EndsBlock(final: bool)
      reads this
    {
      && Taken() <= all
      && if final then Taken() == all
         else |Taken()| < |all| && blockLenBytes + TokenLen(all[|Taken()|]) > MAX_BLOCK_LEN_BYTES
    }

    /** write_block(): the bits written are those of the cheapest of the three kinds, as predicted, and
        are read as the part of the source that the block stands for; it fails exactly if they do not fit. */
    method WriteBlock(final: bool) returns (ok: bool, ghost b: Block)
      requires os.Valid() && Collected() && EndsBlock(final)
      modifies this`block, this`litlenFreqs, os, os.dst
      ensures os.Valid() && b.tokens == tokens && b.bytes == blockLenBytes
      ensures LeastCostBlock(b, src, all, |TokensOf(blocks)|, |old(os.written)|, blockSrc, final)
      ensures ok == (|old(os.written)| + b.costs.Least() <= 8 * os.dst.Length)
      ensures ok ==> os.written == old(os.written) + b.bits
    {
      hide BlockOk, Counted, LitlenFreqs, DistFreqs, ItemFreqs, HeaderOk, HaveCode, BodyBits, DynamicBits, BlockWritten, SymsInRange,
           Encoder.For, FixedLitlenLengths, FixedDistLengths, UncompBlockLen, BodyCost, MadeFor, BitsAre;
      EobAdded(tokens, block, litlenFreqs, distFreqs);
      BlockSize(src, blockSrc, blockLenBytes, tokens, block, litlenFreqs, distFreqs);
      block := block + [EOB];
      litlenFreqs := litlenFreqs[LITLEN_EOB := 1];
      var uncompLen := UncompBlockLen(os.bitpos, blockLenBytes);
      FixedHaveCode(block);
      FixedSizes();
      var staticLen := HuffmanBlockBodyLen(litlenFreqs, distFreqs, FixedLitlenLengths(), FixedDistLengths());
      staticLen := 3 + staticLen;
      BodyCostIsBits(FixedLitlenLengths(), FixedDistLengths(), block);
      var codes, codelenFreqs, litlenEnc, distEnc, codelenEnc := MakeCodes(litlenFreqs, distFreqs, block);
      var dynamicLen := DynBlockLen(codes, codelenFreqs, litlenFreqs, distFreqs, block);
      var costs := Costs(uncompLen, staticLen, dynamicLen);
      ghost var bits;
      ok, bits := WriteCheapest(os, final, block, codes, litlenEnc, distEnc, codelenEnc, costs, src, blockSrc, blockLenBytes, tokens);
      b := Block(tokens, blockLenBytes, codes, costs, bits);
    }

    /** The block has been written, or does not fit: either way it comes after those before it. */
    method NextBlock(final: bool) returns (ok: bool)
      requires Valid() && EndsBlock(final)
      modifies this`block, this`litlenFreqs, this`blocks, os, os.dst
      ensures os.Valid() && LeastCostBlocks(blocks, src, all, final) && TokensOf(blocks) == old(Taken())
      ensures BytesOf(blocks) == blockSrc + blockLenBytes <= |src|
      ensures ok == (|BitsOf(blocks)| <= 8 * os.dst.Length) && (ok ==> os.written == BitsOf(blocks))
      ensures ok && final ==> StreamEnds(os.written, src[..blockSrc + blockLenBytes])
      ensures ok && !final ==> StreamReads(os.written, src[..blockSrc + blockLenBytes])
    {
      hide BlockOk, Counted, StreamReads, StreamEnds, LeastCostBlocks, LeastCostBlock, BitsOf, BytesOf, TokensOf, Costs.Least,
           BlockWritten, EndsBlock, TokenLen;
      ghost var w := os.written;
      BlockInside(src, blockSrc, blockLenBytes, tokens);
      ghost var b;
      ok, b := WriteBlock(final);
      BlocksSnoc(blocks, b);
      BlocksNext(blocks, b, src, all, final);
      LeastCostIs(b, src, all, |TokensOf(blocks)|, |w|, blockSrc, final);
      BlockAppended(w, b.bits, src, blockSrc, blockLenBytes, final);
      blocks := blocks + [b];
    }

    /** What the callbacks do when the next token does not fit in the block: write it and begin another. */
    method Flush() returns (ok: bool)
      requires Valid() && EndsBlock(false)
      modifies this, os, os.dst
      ensures ok ==> Valid() && blockLenBytes == 0 && blockSrc == old(blockSrc + blockLenBytes) && Taken() == old(Taken())
      ensures !ok ==> LeastCostBlocks(blocks, src, all, false) && |BitsOf(blocks)| > 8 * os.dst.Length
    {
      hide BlockOk, Counted, StreamReads, LeastCostBlocks, BitsOf, BytesOf, TokensOf;
      ok := NextBlock(false);
      if ok {
        ResetBlock();
      }
    }

    /** Adds a token to the block. */
    method Append(t: Token)
      requires Valid() && blockLenBytes + TokenLen(t) <= MAX_BLOCK_LEN_BYTES && NextToken(src, blockSrc + blockLenBytes, t)
      requires Taken() + [t] <= all
      modifies this
      ensures Valid() && blockSrc == old(blockSrc) && blockLenBytes == old(blockLenBytes) + TokenLen(t)
      ensures Taken() == old(Taken()) + [t]
    {
      hide BlockOk, Counted, StreamReads, ToSym, LitlenOf, DistCode, NextToken, TokenLen, TokenFits, LeastCostBlocks, BitsOf, BytesOf, TokensOf;
      BlockNext(src, blockSrc, blockLenBytes, tokens, t);
      assert TokenFits(blockSrc + blockLenBytes, t) by { NextFits(src, blockSrc + blockLenBytes, t); }
      CountedNext(tokens, block, litlenFreqs, distFreqs, t, blockSrc + blockLenBytes);
      block := block + [ToSym(t)];
      blockLenBytes := blockLenBytes + TokenLen(t);
      litlenFreqs := Bump(litlenFreqs, LitlenOf(ToSym(t)));
      if t.Ref? {
        distFreqs := Bump(distFreqs, DistCode(t.dist));
      }
      tokens := tokens + [t];
    }

    static lemma NextFits(src: seq<byte>, pos: nat, t: Token)
      requires NextToken(src, pos, t)
      ensures TokenFits(pos, t)
    {
    }

    /** lit_callback() and backref_callback() */
    method Callback(t: Token) returns (ok: bool)
      requires Valid() && NextToken(src, blockSrc + blockLenBytes, t) && Taken() + [t] <= all
      modifies this, os, os.dst
      ensures ok ==> Valid() && blockSrc + blockLenBytes == old(blockSrc + blockLenBytes) + TokenLen(t)
                     && Taken() == old(Taken()) + [t]
      ensures !ok ==> LeastCostBlocks(blocks, src, all, false) && |BitsOf(blocks)| > 8 * os.dst.Length
    {
      hide Valid, NextToken, TokenLen, BlockOk, Counted, StreamReads, TokenFits, LeastCostBlocks, BitsOf, TokensOf, Taken;
      NextLen(src, blockSrc + blockLenBytes, t);
      var len := TokenLen(t);
      ok := true;
      if blockLenBytes + len > MAX_BLOCK_LEN_BYTES {
        NextTaken(Taken(), t, all);
        ok := Flush();
        if !ok {
          return;
        }
      }
      Append(t);
    }

    static lemma NextLen(src: seq<byte>, pos: nat, t: Token)
      requires NextToken(src, pos, t)
      ensures 1 <= TokenLen(t) <= MAX_MATCH
    {
    }

    static lemma NextTaken(taken: seq<Token>, t: Token, all: seq<Token>)
      requires taken + [t] <= all
      ensures taken <= all && |taken| < |all| && all[|taken|] == t
    {
      assert all[|taken|] == (taken + [t])[|taken|];
    }

    /** Calls the callbacks with all tokens, and writes the final block. */
    method TakeAll(tokens: seq<Token>) returns (ok: bool)
      requires Valid() && blockSrc + blockLenBytes == 0 && Taken() == [] && tokens == all && Covers(src, LIMITS, 0, all)
      modifies this, os, os.dst
      ensures LeastCostBlocks(blocks, src, all, true) || (!ok && LeastCostBlocks(blocks, src, all, false))
      ensures ok == (|BitsOf(blocks)| <= 8 * os.dst.Length)
      ensures ok ==> os.Valid() && os.written == BitsOf(blocks) && StreamEnds(os.written, src)
    {
      hide Valid, Covers, StreamReads, StreamEnds, BlockOk, Counted, NextToken, LeastCostBlocks, BitsOf, BytesOf, TokensOf, Taken, TokenLen;
      var i := 0;
      assert all[0..] == all && all[..0] == [];
      while i < |tokens|
        invariant i <= |all| && Valid() && Covers(src, LIMITS, blockSrc + blockLenBytes, all[i..]) && Taken() == all[..i]
      {
        CoversNext(src, LIMITS, blockSrc + blockLenBytes, all[i..]);
        assert all[i..][1..] == all[i + 1..] && all[..i + 1] == all[..i] + [all[i]];
        ok := Callback(tokens[i]);
        if !ok {
          return;
        }
        i := i + 1;
      }
      NothingLeft(src, LIMITS, blockSrc + blockLenBytes, all[i..]);
      assert all[..i] == all && src[..|src|] == src;
      ok := NextBlock(true);
    }

    static lemma FixedSizes()
      ensures |FixedLitlenLengths()| >= LITLEN_SYMS && |FixedDistLengths()| >= DIST_SYMS
    {
    }

    /** The block has room for the end-of-block symbol, and frequencies fit in 16 bits. */
    static lemma BlockSize(src: seq<byte>, from: nat, bytes: nat, ts: seq<Token>, block: seq<Sym>,
                           litlenFreqs: seq<nat>, distFreqs: seq<nat>)
      requires BlockOk(src, from, bytes, ts) && bytes <= MAX_BLOCK_LEN_BYTES && Counted(ts, block, litlenFreqs, distFreqs)
      ensures |block + [EOB]| < 0x1_0000 && EOB in block + [EOB] && block == ToSyms(ts)
    {
      FewTokens(from, ts);
    }
  }

  /** The output buffer is smaller than what always suffices. */
  ghost predicate TooSmall(cap: nat, srcLen: nat) {
    cap < srcLen + 6 * (srcLen / 65277 + 1)
  }

  /** What such blocks take is bounded. */
  lemma BlocksRoom(bs: seq<Block>, src: seq<byte>, all: seq<Token>, ended: bool)
    requires LeastCostBlocks(bs, src, all, ended) && forall t :: t in all ==> TokenLen(t) <= MAX_MATCH
    ensures RoundUp8(|BitsOf(bs)|) / 8 <= |src| + 6 * (|src| / 65277 + 1)
    ensures forall cap: nat :: |BitsOf(bs)| > 8 * cap ==> TooSmall(cap, |src|)
  {
    hide LeastCostBlocks, BitsOf, BytesOf, TokenLen;
    BlocksSize(bs, src, all, ended);
    assert |bs| <= |src| / 65277 + 1;
  }

  lemma LeastCostIs(b: Block, src: seq<byte>, all: seq<Token>, n: nat, bitPos: nat, from: nat, final: bool)
    requires LeastCostBlock(b, src, all, n, bitPos, from, final)
    ensures |b.bits| == b.costs.Least() && BlockWritten(b.bits, bitPos + |b.bits|, final, src, from, b.bytes)
  {
  }

  /** A block takes no more than a stored one. */
  lemma LeastCost(k: Costs, bitPos: nat, lenBytes: nat, final: bool, block: seq<Sym>, c: DynamicCodes)
    requires CostsAre(k, bitPos, lenBytes, final, block, c)
    ensures k.Least() <= 8 * lenBytes + 42
  {
  }

  lemma BlockInside(src: seq<byte>, from: nat, bytes: nat, ts: seq<Token>)
    requires BlockOk(src, from, bytes, ts)
    ensures from + bytes <= |src|
  {
  }

  lemma BlockAppended(w: seq<bool>, b: seq<bool>, src: seq<byte>, from: nat, bytes: nat, final: bool)
    requires from + bytes <= |src| && StreamReads(w, src[..from]) && BlockWritten(b, |w + b|, final, src, from, bytes)
    ensures final ==> StreamEnds(w + b, src[..from + bytes])
    ensures !final ==> StreamReads(w + b, src[..from + bytes])
  {
    hide StreamReads, BlockReads, StreamEnds;
    StreamNext(w, b, src[..from], src[..from + bytes], final);
  }

  /** What hwdeflate() writes is read back as the source, and no byte of it is left over. */
  ghost predicate DeflatesTo(data: seq<byte>, src: seq<byte>) {
    forall cap: nat :: |src| <= cap ==>
      var r := Inflate(BytesToBits(data), [], cap);
      r.Ok? && r.value.out == src && |r.value.rest| < 8
  }

  lemma BytesRead(dst: seq<byte>, w: seq<bool>, used: nat, src: seq<byte>)
    requires |w| <= 8 * |dst| && BytesToBits(dst)[..|w|] == w && used == RoundUp8(|w|) / 8 && StreamEnds(w, src)
    ensures used <= |dst| && DeflatesTo(dst[..used], src)
  {
    hide Inflate, BytesToBits;
    BytesToBitsSplit(dst, used);
    var bits := BytesToBits(dst[..used]);
    assert bits[..|w|] == w;
    var rest := bits[|w|..];
    assert bits == w + rest;
    forall cap: nat | |src| <= cap
      ensures Inflate(bits, [], cap) == Ok(Output(src, rest))
    {
      assert (|w| + |rest|) % 8 == 0;
    }
  }

  /** hwdeflate(): what is written is read back as the source.  It is the sequence of blocks of least cost for the
      tokens of the source, and takes no more room than the source and 6 bytes for each 65277 bytes, begun or
      complete; it succeeds if and only if they fit. */
  method HwDeflate(src: seq<byte>, dst: array<byte>) returns (ok: bool, used: nat, ghost bs: seq<Block>)
    requires |src| <= Lz77Codec.NO_POS
    modifies dst
    ensures ok == DeflatedFits(src, dst.Length) && (!ok ==> TooSmall(dst.Length, |src|))
    ensures ok ==> LeastCostBlocks(bs, src, Tokens(src, LIMITS), true) && |BitsOf(bs)| <= 8 * dst.Length
    ensures ok ==> used == RoundUp8(|BitsOf(bs)|) / 8 <= dst.Length && BytesToBits(dst[..])[..|BitsOf(bs)|] == BitsOf(bs)
    ensures ok ==> used <= |src| + 6 * (|src| / 65277 + 1) && DeflatesTo(dst[..used], src)
  {
    hide Lz77Codec.Called, Tokens, Covers, StreamEnds, DeflatesTo, TooSmall, LeastCostBlocks, BitsOf, TokensOf, Deflater.Taken,
         Deflater.Valid, BytesToBits, DeflatedFits;
    used := 0;
    var s := new Deflater(src, dst, Tokens(src, LIMITS));
    var tokens;
    // The callbacks do not change what the matcher does, so all tokens are collected first, and the
    // callbacks called on them afterwards, in the same order and up to the first that fails.
    ok, tokens := Lz77Codec.Lz77Compress(src, LIMITS, _ => true);
    Lz77Codec.AlwaysAccepted(ok, tokens, Tokens(src, LIMITS));
    TokensExpand(src, LIMITS);
    ok := s.TakeAll(tokens);
    bs := s.blocks;
    BlocksFit(bs, src, dst.Length);
    if ok {
      used := s.os.BytesWritten();
      BytesRead(dst[..], s.os.written, used, src);
      assert dst[..][..used] == dst[..used];
    }
  }

  lemma BlocksFit(bs: seq<Block>, src: seq<byte>, cap: nat)
    requires LeastCostBlocks(bs, src, Tokens(src, LIMITS), true)
             || (LeastCostBlocks(bs, src, Tokens(src, LIMITS), false) && |BitsOf(bs)| > 8 * cap)
    ensures DeflatedFits(src, cap) == (|BitsOf(bs)| <= 8 * cap)
    ensures RoundUp8(|BitsOf(bs)|) / 8 <= |src| + 6 * (|src| / 65277 + 1) && (|BitsOf(bs)| > 8 * cap ==> TooSmall(cap, |src|))
  {
    hide LeastCostBlocks, BitsOf, TooSmall, Tokens, TokenLen;
    var all := Tokens(src, LIMITS);
    ShortTokens(src);
    BlocksRoom(bs, src, all, LeastCostBlocks(bs, src, all, true));
    if |BitsOf(bs)| > 8 * cap {
      BlocksDoNotFit(bs, src, LeastCostBlocks(bs, src, all, true), cap);
    }
  }

  lemma ShortTokens(src: seq<byte>)
    ensures forall t :: t in Tokens(src, LIMITS) ==> TokenLen(t) <= MAX_MATCH
  {
    hide Tokens;
    TokensExpand(src, LIMITS);
    forall t | t in Tokens(src, LIMITS)
      ensures TokenLen(t) <= MAX_MATCH
    {
      assert Lz77.TokenOk(LIMITS, t);
    }
  }

  lemma NothingLeft(src: seq<byte>, p: Params, pos: nat, ts: seq<Token>)
    requires Covers(src, p, pos, ts) && ts == []
    ensures pos == |src|
  {
  }
}
