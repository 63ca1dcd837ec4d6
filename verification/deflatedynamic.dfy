/** Dynamic blocks: building their codes, predicting their cost and writing them
    (hwzip/deflate.c, lines 683-717, 807-877 and 949-977). */
module DeflateDynamic {
  import opened Bits
  import opened Huffman
  import opened HuffmanEncoder
  import opened HuffmanLengths
  import opened Lz77
  import opened DeflateTables
  import opened CodeLengths
  import opened DeflateFormat
  import opened DeflateCost
  import opened EncodeLengths

  /** The codes of a dynamic block, and how they are encoded. */
  datatype DynamicCodes = DynamicCodes(litlen: seq<nat>, dist: seq<nat>, numLitlen: nat, numDist: nat,
                           codelens: seq<nat>, numCodelens: nat, items: seq<Item>)

  ghost predicate HeaderOk(c: DynamicCodes) {
    && MIN_LITLEN_LENS <= c.numLitlen <= LITLEN_SYMS && MIN_DIST_LENS <= c.numDist <= DIST_SYMS
    && |c.litlen| == LITLEN_SYMS && ZeroFrom(c.litlen, c.numLitlen) && |c.dist| == DIST_SYMS && ZeroFrom(c.dist, c.numDist)
    && Codes(c.litlen, c.dist)
    && Trimmed(c.codelens, c.numCodelens) && Fits(c.codelens)
    && ItemsOk([], c.items) && HaveCodes(c.codelens, c.items)
    && ExpandItems([], c.items) == c.litlen[..c.numLitlen] + c.dist[..c.numDist]
  }

  function CodesBits(c: DynamicCodes): seq<bool>
    requires HeaderOk(c)
  {
    HeaderBits(c.numLitlen, c.numDist, c.codelens, c.numCodelens, c.items)
  }

  function DynamicBits(final: bool, c: DynamicCodes, syms: seq<Sym>): seq<bool>
    requires HeaderOk(c) && HaveCode(c.litlen, c.dist, syms)
  {
    BlockHeader(final, 2) + (CodesBits(c) + BodyBits(c.litlen, c.dist, syms))
  }

  // ---------------------------------------------------------------- reading the block back

  lemma SymTrim(litlen: seq<nat>, dist: seq<nat>, n: nat, m: nat, s: Sym)
    requires ZeroFrom(litlen, n) && ZeroFrom(dist, m) && HasCode(litlen, dist, s)
    ensures HasCode(litlen[..n], dist[..m], s) && SymBits(litlen[..n], dist[..m], s) == SymBits(litlen, dist, s)
  {
    hide Codeword, LenCode, DistCode, LenExtra, DistExtra;
    TrimmedCode(litlen, n, LitlenOf(s));
    if s.distance > 0 {
      TrimmedCode(dist, m, DistCode(s.distance));
    }
  }

  lemma {:induction false} BodyTrim(litlen: seq<nat>, dist: seq<nat>, n: nat, m: nat, syms: seq<Sym>)
    requires ZeroFrom(litlen, n) && ZeroFrom(dist, m) && HaveCode(litlen, dist, syms)
    ensures HaveCode(litlen[..n], dist[..m], syms) && BodyBits(litlen[..n], dist[..m], syms) == BodyBits(litlen, dist, syms)
  {
    hide SymBits, HasCode;
    forall s | s in syms
      ensures HasCode(litlen[..n], dist[..m], s)
    {
      SymTrim(litlen, dist, n, m, s);
    }
    if syms != [] {
      BodyTrim(litlen, dist, n, m, syms[..|syms| - 1]);
      SymTrim(litlen, dist, n, m, syms[|syms| - 1]);
    }
  }

  lemma CodesTrim(litlen: seq<nat>, dist: seq<nat>, n: nat, m: nat)
    requires ZeroFrom(litlen, n) && ZeroFrom(dist, m) && Codes(litlen, dist)
    ensures Codes(litlen[..n], dist[..m])
  {
    TrimmedUsed(litlen, n, MAX_BITS);
    TrimmedUsed(dist, m, MAX_BITS);
  }

  /** A dynamic block is read as its tokens, whatever the codes. */
  lemma DynamicReads(final: bool, c: DynamicCodes, ts: seq<Token>, out: seq<byte>, total: nat)
    requires HeaderOk(c) && HaveCode(c.litlen, c.dist, ToSyms(ts) + [EOB]) && TokensFit(|out|, ts)
    ensures BlockReads(DynamicBits(final, c, ToSyms(ts) + [EOB]), total, final, out, Expand(out, ts))
  {
    hide HaveCode, BodyBits, Codes, BlockReads, HeaderBits, ReadHeader, ItemsOk, ExpandItems, HaveCodes, Trimmed, Fits, ZeroFrom;
    var l, d := c.litlen[..c.numLitlen], c.dist[..c.numDist];
    BodyTrim(c.litlen, c.dist, c.numLitlen, c.numDist, ToSyms(ts) + [EOB]);
    CodesTrim(c.litlen, c.dist, c.numLitlen, c.numDist);
    assert Fits(l) && Fits(d) by { CodesFit(l, d); }
    forall rest
      ensures ReadHeader(CodesBits(c) + rest) == Header(l, d, rest)
    {
      ReadHeaderBits(l, d, c.codelens, c.numCodelens, c.items, rest);
    }
    DynamicBlockReads(final, CodesBits(c), l, d, ts, out, total);
  }

  lemma CodesFit(l: seq<nat>, d: seq<nat>)
    requires Codes(l, d)
    ensures Fits(l) && Fits(d)
  {
  }

  // ---------------------------------------------------------------- cost

  ghost predicate ItemsInRange(items: seq<Item>) {
    forall t :: t in items ==> t.sym < MAX_CODELEN_LENS
  }

  /** How often each symbol of the code for codeword lengths occurs. */
  function ItemFreqs(items: seq<Item>): (f: seq<nat>)
    requires ItemsInRange(items)
    ensures |f| == MAX_CODELEN_LENS
  {
    if items == [] then NoFreqs(MAX_CODELEN_LENS)
    else Bump(ItemFreqs(items[..|items| - 1]), items[|items| - 1].sym)
  }

  lemma {:induction false} SumOfItemFreqs(items: seq<Item>)
    requires ItemsInRange(items)
    ensures HuffmanLengths.Sum(ItemFreqs(items)) == |items|
  {
    hide HuffmanLengths.Sum, Bump, NoFreqs;
    if items == [] {
      SumOfNone(MAX_CODELEN_LENS);
    } else {
      SumOfItemFreqs(items[..|items| - 1]);
      SumOfBump(ItemFreqs(items[..|items| - 1]), items[|items| - 1].sym);
    }
  }

  lemma {:induction false} ItemOccurs(items: seq<Item>, t: Item)
    requires ItemsInRange(items) && t in items
    ensures ItemFreqs(items)[t.sym] > 0
  {
    var n := |items| - 1;
    assert items == items[..n] + [items[n]];
    if t != items[n] {
      ItemOccurs(items[..n], t);
    }
  }

  function ItemCosts(codelens: seq<nat>): (c: seq<nat>)
    requires |codelens| == MAX_CODELEN_LENS
    ensures |c| == MAX_CODELEN_LENS
  {
    seq(MAX_CODELEN_LENS, i requires 0 <= i < MAX_CODELEN_LENS => codelens[i] + ExtraBits(i))
  }

  lemma ItemCostAt(codelens: seq<nat>, i: nat)
    requires |codelens| == MAX_CODELEN_LENS && i < MAX_CODELEN_LENS
    ensures ItemCosts(codelens)[i] == codelens[i] + ExtraBits(i)
  {
  }

  lemma {:induction false} ItemsCost(codelens: seq<nat>, items: seq<Item>)
    requires |codelens| == MAX_CODELEN_LENS && ItemsOk([], items) && ItemsInRange(items)
    ensures |ItemsBits(codelens, [], items)| == Products(ItemFreqs(items), ItemCosts(codelens), MAX_CODELEN_LENS)
  {
    hide ItemBits, Products, Bump, ItemOk, ItemsOk, ExpandItems, ItemCosts, NoFreqs;
    if items == [] {
      ProductsOfNone(ItemCosts(codelens), MAX_CODELEN_LENS, MAX_CODELEN_LENS);
    } else {
      var n := |items| - 1;
      var most, t := items[..n], items[n];
      assert items == most + [t];
      ItemsTake([], items, n);
      ItemsCost(codelens, most);
      ItemsBitsSnoc(codelens, [], most, t);
      ProductsOfBump(ItemFreqs(most), ItemCosts(codelens), MAX_CODELEN_LENS, t.sym);
      ItemCost(codelens, ExpandItems([], most), t);
    }
  }

  lemma ItemCost(codelens: seq<nat>, lens: seq<nat>, t: Item)
    requires |codelens| == MAX_CODELEN_LENS && ItemOk(lens, t)
    ensures |ItemBits(codelens, t)| == ItemCosts(codelens)[t.sym]
  {
  }

  /** dyn_block_len(): the number of bits that the block takes. */
  method DynBlockLen(c: DynamicCodes, codelenFreqs: seq<nat>, litlenFreqs: seq<nat>, distFreqs: seq<nat>, ghost block: seq<Sym>)
    returns (len: nat)
    requires HeaderOk(c) && ItemsInRange(c.items) && codelenFreqs == ItemFreqs(c.items)
    requires HaveCode(c.litlen, c.dist, block) && SymsInRange(block)
    requires litlenFreqs == LitlenFreqs(block) && distFreqs == DistFreqs(block)
    ensures forall final :: |DynamicBits(final, c, block)| == len
  {
    hide LitlenFreqs, DistFreqs, ItemFreqs, BodyBits, HaveCode, ItemsBits, BodyCost, ItemCosts;
    len := 3;
    len := len + 5 + 5 + 4;
    len := len + 3 * c.numCodelens;
    var i := 0;
    ghost var first := len;
    while i < MAX_CODELEN_LENS
      invariant i <= MAX_CODELEN_LENS && len == first + Products(codelenFreqs, ItemCosts(c.codelens), i)
    {
      var freq := codelenFreqs[i];
      ItemCostAt(c.codelens, i);
      Distribute(freq, c.codelens[i], ExtraBits(i));
      len := len + freq * c.codelens[i];
      if i == CODELEN_COPY {
        len := len + freq * 2;
      } else if i == CODELEN_ZEROS {
        len := len + freq * 3;
      } else if i == CODELEN_ZEROS2 {
        len := len + freq * 7;
      }
      i := i + 1;
    }
    ItemsCost(c.codelens, c.items);
    BodyCostIsBits(c.litlen, c.dist, block);
    var body := HuffmanBlockBodyLen(litlenFreqs, distFreqs, c.litlen, c.dist);
    len := len + body;
  }

  // ---------------------------------------------------------------- building the codes

  lemma FreqsGood(block: seq<Sym>)
    requires SymsInRange(block) && |block| < 0x1_0000
    ensures FreqsOk(LitlenFreqs(block)) && FreqsOk(DistFreqs(block))
    ensures |LitlenFreqs(block)| <= Pow2(15) && |DistFreqs(block)| <= Pow2(15)
  {
    hide LitlenFreqs, DistFreqs;
    SumOfFreqs(block);
    Pow2Word();
  }

  lemma {:induction false} TwoOccur(freqs: seq<nat>, lens: seq<nat>, n: nat)
    requires ForUsed(freqs, lens) && n <= |freqs|
    ensures UsedBefore(freqs, n) >= 1 ==> exists i :: 0 <= i < n && lens[i] > 0
    ensures UsedBefore(freqs, n) >= 2 ==> exists i, j :: 0 <= i < j < n && lens[i] > 0 && lens[j] > 0
  {
    if n > 0 {
      TwoOccur(freqs, lens, n - 1);
      if UsedBefore(freqs, n) >= 1 && freqs[n - 1] > 0 {
        assert lens[n - 1] > 0;
      }
    }
  }

  /** The codes have codewords for everything that occurs. */
  lemma BlockHasCodes(block: seq<Sym>, litlen: seq<nat>, dist: seq<nat>)
    requires SymsInRange(block) && |litlen| == LITLEN_SYMS && |dist| == DIST_SYMS
    requires forall i :: 0 <= i < LITLEN_SYMS && LitlenFreqs(block)[i] > 0 ==> litlen[i] > 0
    requires forall i :: 0 <= i < DIST_SYMS && DistFreqs(block)[i] > 0 ==> dist[i] > 0
    ensures HaveCode(litlen, dist, block)
  {
    hide LitlenFreqs, DistFreqs, LitlenOf, DistCode;
    forall s | s in block
      ensures HasCode(litlen, dist, s)
    {
      OccursIff(block, s);
    }
  }

  /** The encoder for the literals and lengths of a block. */
  method MakeLitlen(freqs: seq<nat>, ghost block: seq<Sym>) returns (e: Encoder, lens: seq<nat>)
    requires SymsInRange(block) && EOB in block && |block| < 0x1_0000 && freqs == LitlenFreqs(block)
    ensures fresh(e.codewords) && fresh(e.lengths) && e.For(lens) && |lens| == LITLEN_SYMS && AtMost15(lens) && lens[256] != 0
    ensures CodeFor(freqs, lens, 15)
    ensures forall i :: 0 <= i < LITLEN_SYMS && freqs[i] > 0 ==> lens[i] > 0
  {
    hide LitlenFreqs, DistFreqs, GoodLengths, UsedBefore, FreqsOk, Pow2, CodewordsOk, Fits;
    FreqsGood(block);
    e := new Encoder();
    ghost var l, cap := InitFromFrequencies(e, freqs, 15);
    lens := e.lengths[..LITLEN_SYMS];
    OccursIff(block, EOB);
  }

  /** The encoder for the distances of a block, with two codewords at least. */
  method MakeDist(freqs: seq<nat>, ghost block: seq<Sym>) returns (e: Encoder, lens: seq<nat>)
    requires SymsInRange(block) && |block| < 0x1_0000 && freqs == DistFreqs(block)
    ensures fresh(e.codewords) && fresh(e.lengths) && e.For(lens) && |lens| == DIST_SYMS && AtMost15(lens)
    ensures exists l :: CodeFor(freqs, l, 15) && |l| == DIST_SYMS && lens == Tweak(l)
    ensures forall i :: 0 <= i < DIST_SYMS && freqs[i] > 0 ==> lens[i] > 0
  {
    hide LitlenFreqs, DistFreqs, GoodLengths, UsedBefore, FreqsOk, Pow2, CodewordsOk, Fits, TwoUsed;
    FreqsGood(block);
    e := new Encoder();
    ghost var l, cap := InitFromFrequencies(e, freqs, 15);
    TwoOccur(freqs, l, |freqs|);
    assert UsedBefore(freqs, |freqs|) >= 2 ==> TwoUsed(l) by { TwoUsedIs(l); }
    ghost var now := TweakDistEncoder(e, l);
    lens := e.lengths[..DIST_SYMS];
    TweakedSmall(l, now);
  }

  lemma TwoUsedIs(l: seq<nat>)
    ensures TwoUsed(l) <==> exists i, j :: 0 <= i < j < |l| && l[i] > 0 && l[j] > 0
  {
  }

  lemma TweakedSmall(was: seq<nat>, now: seq<nat>)
    requires Tweaked(was, now) && forall k :: 0 <= k < |was| ==> was[k] <= 15
    ensures AtMost15(now) && forall k :: 0 <= k < |was| && was[k] > 0 ==> now[k] > 0
  {
    if !TwoUsed(was) {
      var i, j :| JustTwo(now, i, j);
    }
  }

  lemma {:induction false} ItemsAreInRange(lens: seq<nat>, items: seq<Item>)
    requires ItemsOk(lens, items)
    ensures ItemsInRange(items)
    decreases |items|
  {
    hide Extended;
    if items != [] {
      ItemsAreInRange(Extended(lens, items[0]), items[1..]);
      assert items == [items[0]] + items[1..];
    }
  }

  /** The frequencies of the symbols of the items. */
  method CountItems(items: seq<Item>) returns (freqs: seq<nat>)
    requires ItemsInRange(items)
    ensures freqs == ItemFreqs(items)
  {
    hide ItemFreqs;
    freqs := seq(MAX_CODELEN_LENS, _ => 0);
    var i := 0;
    FreqsOfNone();
    assert items[..0] == [];
    while i < |items|
      invariant i <= |items| && ItemsInRange(items[..i]) && freqs == ItemFreqs(items[..i])
    {
      FreqsOfNext(items, i);
      freqs := freqs[items[i].sym := freqs[items[i].sym] + 1];
      i := i + 1;
    }
    assert items[..i] == items;
  }

  lemma FreqsOfNone()
    ensures ItemFreqs([]) == NoFreqs(MAX_CODELEN_LENS)
  {
  }

  lemma FreqsOfNext(items: seq<Item>, i: nat)
    requires ItemsInRange(items) && i < |items|
    ensures ItemsInRange(items[..i]) && ItemsInRange(items[..i + 1]) && items[i].sym < MAX_CODELEN_LENS
    ensures ItemFreqs(items[..i + 1]) == Bump(ItemFreqs(items[..i]), items[i].sym)
  {
    assert items[..i + 1][..i] == items[..i];
  }

  /** There is an item for a length that is not zero. */
  lemma SomeLength(items: seq<Item>, lens: seq<nat>, k: nat) returns (t: Item)
    requires ItemsOk([], items) && ExpandItems([], items) == lens && k < |lens| && lens[k] != 0
    ensures t in items && 1 <= t.sym <= CODELEN_MAX_LIT
  {
    if forall x :: x in items ==> x.sym == 0 || x.sym > CODELEN_MAX_LIT {
      OnlyZeros([], items);
    }
    t :| t in items && t.sym != 0 && t.sym <= CODELEN_MAX_LIT;
  }

  /** The encoder for codeword lengths. */
  method MakeCodelens(items: seq<Item>, freqs: seq<nat>, ghost t: Item) returns (e: Encoder, lens: seq<nat>, n: nat)
    requires ItemsInRange(items) && freqs == ItemFreqs(items) && |items| < 0x1_0000
    requires t in items && 1 <= t.sym <= CODELEN_MAX_LIT
    ensures fresh(e.codewords) && fresh(e.lengths) && e.For(lens) && Trimmed(lens, n) && Fits(lens) && HaveCodes(lens, items)
    ensures CodeFor(freqs, lens, 7) && ORDER[n - 1] < |lens| && lens[ORDER[n - 1]] != 0
  {
    hide ItemFreqs, GoodLengths, UsedBefore, CodewordsOk, Trimmed, Place;
    SumOfItemFreqs(items);
    assert MAX_CODELEN_LENS <= Pow2(7) by { SmallPowers(); }
    hide Pow2, Fits;
    e := new Encoder();
    ghost var l, cap := InitFromFrequencies(e, freqs, 7);
    lens := e.lengths[..MAX_CODELEN_LENS];
    forall x | x in items
      ensures x.sym < |lens| && lens[x.sym] > 0
    {
      ItemOccurs(items, x);
    }
    assert lens[t.sym] > 0;
    n := CountCodelenLens(lens);
  }

  /** The codes of a dynamic block are those that are made for what occurs in the block, with two distances at least,
      and for what occurs in the run-length code of their lengths; nothing that can be left out is written. */
  ghost predicate MadeFor(c: DynamicCodes, block: seq<Sym>) {
    && HeaderOk(c) && SymsInRange(block) && ItemsInRange(c.items)
    && CodeFor(LitlenFreqs(block), c.litlen, 15)
    && (exists l :: CodeFor(DistFreqs(block), l, 15) && |l| == DIST_SYMS && c.dist == Tweak(l))
    && c.litlen[c.numLitlen - 1] != 0 && (c.dist[c.numDist - 1] != 0 || c.numDist == MIN_DIST_LENS)
    && c.items == ItemsFor(c.litlen[..c.numLitlen] + c.dist[..c.numDist])
    && CodeFor(ItemFreqs(c.items), c.codelens, 7)
    && ORDER[c.numCodelens - 1] < |c.codelens| && c.codelens[ORDER[c.numCodelens - 1]] != 0
  }

  lemma LastUsed(lens: seq<nat>, m: nat, n: nat, least: nat)
    requires ZeroFrom(lens, m) && ZeroFrom(lens, n) && 1 <= least <= m && least <= n
    requires (lens[m - 1] != 0 || m == least) && (lens[n - 1] != 0 || n == least)
    ensures m == n
  {
  }

  lemma LastPlace(codelens: seq<nat>, m: nat, n: nat)
    requires Trimmed(codelens, m) && Trimmed(codelens, n) && ORDER[m - 1] < |codelens| && ORDER[n - 1] < |codelens|
    requires codelens[ORDER[m - 1]] != 0 && codelens[ORDER[n - 1]] != 0
    ensures m == n
  {
    hide Place;
    PlaceInverse(m - 1);
    PlaceInverse(n - 1);
  }

  lemma SameDist(c: DynamicCodes, d: DynamicCodes, block: seq<Sym>)
    requires MadeFor(c, block) && MadeFor(d, block)
    ensures c.dist == d.dist
  {
    hide CodeFor, ItemsFor, HeaderOk, LitlenFreqs, DistFreqs, ItemFreqs, SymsInRange, ItemsInRange, Tweak;
    var l :| CodeFor(DistFreqs(block), l, 15) && |l| == DIST_SYMS && c.dist == Tweak(l);
    var m :| CodeFor(DistFreqs(block), m, 15) && |m| == DIST_SYMS && d.dist == Tweak(m);
    CodeForUnique(DistFreqs(block), l, m, 15);
  }

  /** A block determines its codes. */
  lemma MadeUnique(c: DynamicCodes, d: DynamicCodes, block: seq<Sym>)
    requires MadeFor(c, block) && MadeFor(d, block)
    ensures c == d
  {
    hide CodeFor, ItemsFor, ItemsOk, ExpandItems, HaveCodes, Codes, Fits, Trimmed, LitlenFreqs, DistFreqs, ItemFreqs, SymsInRange,
         ItemsInRange, Tweak, ZeroFrom;
    CodeForUnique(LitlenFreqs(block), c.litlen, d.litlen, 15);
    SameDist(c, d, block);
    LastUsed(c.litlen, c.numLitlen, d.numLitlen, MIN_LITLEN_LENS);
    LastUsed(c.dist, c.numDist, d.numDist, MIN_DIST_LENS);
    CodeForUnique(ItemFreqs(c.items), c.codelens, d.codelens, 7);
    LastPlace(c.codelens, c.numCodelens, d.numCodelens);
  }

  /** Computes the codes of a dynamic block, and encodes them. */
  method MakeCodes(litlenFreqs: seq<nat>, distFreqs: seq<nat>, ghost block: seq<Sym>)
    returns (c: DynamicCodes, codelenFreqs: seq<nat>, litlenEnc: Encoder, distEnc: Encoder, codelenEnc: Encoder)
    requires SymsInRange(block) && EOB in block && |block| < 0x1_0000
    requires litlenFreqs == LitlenFreqs(block) && distFreqs == DistFreqs(block)
    ensures fresh(litlenEnc.codewords) && fresh(litlenEnc.lengths) && fresh(distEnc.codewords) && fresh(distEnc.lengths)
    ensures fresh(codelenEnc.codewords) && fresh(codelenEnc.lengths)
    ensures HeaderOk(c) && ItemsInRange(c.items) && codelenFreqs == ItemFreqs(c.items) && HaveCode(c.litlen, c.dist, block)
    ensures litlenEnc.For(c.litlen) && distEnc.For(c.dist) && codelenEnc.For(c.codelens)
    ensures MadeFor(c, block)
  {
    hide CodeFor, Tweak, ItemsFor, LitlenFreqs, DistFreqs, ItemFreqs, Encoder.For, HaveCode, Trimmed, Fits, HaveCodes, ItemsOk, ExpandItems, ItemsInRange, Codes, ZeroFrom;
    var litlen, dist, items, numLitlen, numDist, codelens, n;
    litlenEnc, litlen := MakeLitlen(litlenFreqs, block);
    distEnc, dist := MakeDist(distFreqs, block);
    BlockHasCodes(block, litlen, dist);
    items, numLitlen, numDist := EncodeDistLitlenLens(litlen, dist);
    ItemsAreInRange([], items);
    ghost var t := SomeLength(items, litlen[..numLitlen] + dist[..numDist], 256);
    codelenFreqs := CountItems(items);
    assert |items| < 0x1_0000 by { assert |items| <= |ExpandItems([], items)|; }
    codelenEnc, codelens, n := MakeCodelens(items, codelenFreqs, t);
    assert Codes(litlen, dist) by { EncodersFit(litlenEnc, litlen, distEnc, dist); }
    c := DynamicCodes(litlen, dist, numLitlen, numDist, codelens, n, items);
  }

  lemma EncodersFit(e: Encoder, litlen: seq<nat>, f: Encoder, dist: seq<nat>)
    requires e.For(litlen) && f.For(dist)
    ensures Codes(litlen, dist)
  {
  }
}
