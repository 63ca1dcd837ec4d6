/** The code of the codeword lengths in a dynamic block (section 3.2.7 of RFC 1951): how the reader of
    hwzip/deflate.c (lines 176-299) understands it, and that it inverts run-length coding. */
module CodeLengths {
  import opened Bits
  import opened Huffman

  const MAX_CODELEN_LENS: nat := 19
  const MIN_LITLEN_LENS: nat := 257
  const MIN_DIST_LENS: nat := 1
  const MIN_CODELEN_LENS: nat := 4
  const CODELEN_MAX_LIT: nat := 15
  const CODELEN_COPY: nat := 16
  const CODELEN_ZEROS: nat := 17
  const CODELEN_ZEROS2: nat := 18

  /** No codeword is longer than Deflate allows. */
  ghost predicate AtMost15(lengths: seq<nat>) {
    forall s :: 0 <= s < |lengths| ==> lengths[s] <= CODELEN_MAX_LIT
  }

  // ---------------------------------------------------------------- runs

  /** An element of the run-length code; the count is for symbols 16, 17 and 18. */
  datatype Item = Item(sym: nat, count: nat)

  function ExtraBits(sym: nat): nat {
    if sym == CODELEN_COPY then 2 else if sym == CODELEN_ZEROS then 3 else if sym == CODELEN_ZEROS2 then 7 else 0
  }

  function MinCount(sym: nat): nat {
    if sym == CODELEN_COPY || sym == CODELEN_ZEROS then 3 else if sym == CODELEN_ZEROS2 then 11 else 0
  }

  function MaxCount(sym: nat): nat {
    if sym == CODELEN_COPY then 6 else if sym == CODELEN_ZEROS then 10 else if sym == CODELEN_ZEROS2 then 138 else 0
  }

  /** An item that may follow the lengths lens. */
  predicate ItemOk(lens: seq<nat>, t: Item) {
    && t.sym < MAX_CODELEN_LENS
    && (t.sym > CODELEN_MAX_LIT ==> MinCount(t.sym) <= t.count <= MaxCount(t.sym))
    && (t.sym == CODELEN_COPY ==> lens != [])
  }

  /** The lengths after an item. */
  function Extended(lens: seq<nat>, t: Item): (r: seq<nat>)
    requires ItemOk(lens, t)
    ensures lens <= r && |lens| < |r|
  {
    if t.sym <= CODELEN_MAX_LIT then lens + [t.sym]
    else if t.sym == CODELEN_COPY then lens + Repeat(lens[|lens| - 1], t.count)
    else lens + Repeat(0, t.count)
  }

  ghost predicate ItemsOk(lens: seq<nat>, items: seq<Item>)
    decreases |items|
  {
    items != [] ==> ItemOk(lens, items[0]) && ItemsOk(Extended(lens, items[0]), items[1..])
  }

  /** The lengths after a sequence of items. */
  function ExpandItems(lens: seq<nat>, items: seq<Item>): (r: seq<nat>)
    requires ItemsOk(lens, items)
    ensures lens <= r && |lens| + |items| <= |r|
    decreases |items|
  {
    if items == [] then lens else ExpandItems(Extended(lens, items[0]), items[1..])
  }

  lemma {:induction false} ItemsSnoc(lens: seq<nat>, items: seq<Item>, t: Item)
    requires ItemsOk(lens, items) && ItemOk(ExpandItems(lens, items), t)
    ensures ItemsOk(lens, items + [t]) && ExpandItems(lens, items + [t]) == Extended(ExpandItems(lens, items), t)
    decreases |items|
  {
    hide ItemOk, Extended;
    if items == [] {
      assert ([] + [t])[1..] == [];
    } else {
      ItemsSnoc(Extended(lens, items[0]), items[1..], t);
      assert (items + [t])[1..] == items[1..] + [t];
    }
  }

  // ---------------------------------------------------------------- reading

  datatype Lens = NoLens | Lens(lens: seq<nat>, rest: seq<bool>)

  /** Reads the count of a run, in n extra bits. */
  function ReadCount(sym: nat, bits: seq<bool>): nat
    requires ExtraBits(sym) <= |bits|
  {
    FromBits(bits[..ExtraBits(sym)]) + MinCount(sym)
  }

  /** Reads codeword lengths until there are `total`. */
  function ReadLens(codelens: seq<nat>, bits: seq<bool>, lens: seq<nat>, total: nat): (r: Lens)
    requires |codelens| == MAX_CODELEN_LENS && |lens| <= total
    ensures r.Lens? ==> |r.lens| == total && |r.rest| <= |bits|
    decreases |bits|
  {
    if |lens| == total then Lens(lens, bits)
    else
      match Decode(codelens, bits)
      case NoSymbol => NoLens
      case Symbol(sym, rest) =>
        if sym <= CODELEN_MAX_LIT then ReadLens(codelens, rest, lens + [sym], total)
        else if |rest| < ExtraBits(sym) || (sym == CODELEN_COPY && lens == []) then NoLens
        else
          var n, rest' := ReadCount(sym, rest), rest[ExtraBits(sym)..];
          if |lens| + n > total then NoLens
          else ReadLens(codelens, rest', lens + Repeat(if sym == CODELEN_COPY then lens[|lens| - 1] else 0, n), total)
  }

  // ---------------------------------------------------------------- writing

  function ItemBits(codelens: seq<nat>, t: Item): seq<bool>
    requires |codelens| == MAX_CODELEN_LENS && t.sym < MAX_CODELEN_LENS
    requires t.sym > CODELEN_MAX_LIT ==> MinCount(t.sym) <= t.count
  {
    if t.sym <= CODELEN_MAX_LIT then Codeword(codelens, t.sym)
    else Codeword(codelens, t.sym) + ToBits(t.count - MinCount(t.sym), ExtraBits(t.sym))
  }

  function ItemsBits(codelens: seq<nat>, lens: seq<nat>, items: seq<Item>): seq<bool>
    requires |codelens| == MAX_CODELEN_LENS && ItemsOk(lens, items)
    decreases |items|
  {
    if items == [] then [] else ItemBits(codelens, items[0]) + ItemsBits(codelens, Extended(lens, items[0]), items[1..])
  }

  lemma {:induction false} ItemsBitsSnoc(codelens: seq<nat>, lens: seq<nat>, items: seq<Item>, t: Item)
    requires |codelens| == MAX_CODELEN_LENS && ItemsOk(lens, items) && ItemOk(ExpandItems(lens, items), t)
    ensures ItemsOk(lens, items + [t])
    ensures ItemsBits(codelens, lens, items + [t]) == ItemsBits(codelens, lens, items) + ItemBits(codelens, t)
    decreases |items|
  {
    hide ItemBits, Extended;
    ItemsSnoc(lens, items, t);
    if items == [] {
      assert [] + [t] == [t] && [t][1..] == [];
      assert ItemBits(codelens, t) + [] == ItemBits(codelens, t) == [] + ItemBits(codelens, t);
    } else {
      var next := Extended(lens, items[0]);
      ItemsBitsSnoc(codelens, next, items[1..], t);
      assert (items + [t])[1..] == items[1..] + [t];
      var a, b, c := ItemBits(codelens, items[0]), ItemsBits(codelens, next, items[1..]), ItemBits(codelens, t);
      assert a + (b + c) == a + b + c;
    }
  }

  /** A beginning of the items. */
  lemma {:induction false} ItemsTake(lens: seq<nat>, items: seq<Item>, n: nat)
    requires ItemsOk(lens, items) && n < |items|
    ensures ItemsOk(lens, items[..n]) && ItemOk(ExpandItems(lens, items[..n]), items[n])
    decreases |items|
  {
    hide ItemOk, Extended;
    if n > 0 {
      ItemsTake(Extended(lens, items[0]), items[1..], n - 1);
      assert items[..n][1..] == items[1..][..n - 1];
    }
  }

  ghost predicate HaveCodes(codelens: seq<nat>, items: seq<Item>) {
    forall t :: t in items ==> t.sym < |codelens| && codelens[t.sym] > 0
  }

  lemma CountRound(t: Item, rest: seq<bool>)
    requires t.sym < MAX_CODELEN_LENS && t.sym > CODELEN_MAX_LIT && MinCount(t.sym) <= t.count <= MaxCount(t.sym)
    ensures var b := ToBits(t.count - MinCount(t.sym), ExtraBits(t.sym)) + rest;
            ReadCount(t.sym, b) == t.count && b[ExtraBits(t.sym)..] == rest
  {
    var v, n := t.count - MinCount(t.sym), ExtraBits(t.sym);
    assert v < Pow2(n) by {
      assert Pow2(2) == 4 && Pow2(3) == 8 && Pow2(7) == 128;
    }
    FromToBits(v, n);
    assert (ToBits(v, n) + rest)[..n] == ToBits(v, n);
  }

  /** Reading an item extends the lengths as the item says. */
  lemma ReadItem(codelens: seq<nat>, lens: seq<nat>, t: Item, rest: seq<bool>, total: nat)
    requires |codelens| == MAX_CODELEN_LENS && LengthsOk(codelens) && Fits(codelens)
    requires ItemOk(lens, t) && codelens[t.sym] > 0 && |Extended(lens, t)| <= total
    ensures ReadLens(codelens, ItemBits(codelens, t) + rest, lens, total) == ReadLens(codelens, rest, Extended(lens, t), total)
  {
    hide Codeword, Fits, LengthsOk;
    if t.sym <= CODELEN_MAX_LIT {
      DecodeCodeword(codelens, t.sym, rest);
    } else {
      var extra := ToBits(t.count - MinCount(t.sym), ExtraBits(t.sym));
      assert ItemBits(codelens, t) + rest == Codeword(codelens, t.sym) + (extra + rest);
      DecodeCodeword(codelens, t.sym, extra + rest);
      CountRound(t, rest);
    }
  }

  /** Reading inverts run-length coding, also when runs cross from one alphabet to the other. */
  lemma {:induction false} ReadItems(codelens: seq<nat>, lens: seq<nat>, items: seq<Item>, rest: seq<bool>)
    requires |codelens| == MAX_CODELEN_LENS && LengthsOk(codelens) && Fits(codelens)
    requires ItemsOk(lens, items) && HaveCodes(codelens, items)
    ensures ReadLens(codelens, ItemsBits(codelens, lens, items) + rest, lens, |ExpandItems(lens, items)|)
         == Lens(ExpandItems(lens, items), rest)
    decreases |items|
  {
    hide ItemBits, Fits, LengthsOk, Extended;
    var total := |ExpandItems(lens, items)|;
    if items == [] {
      assert [] + rest == rest;
    } else {
      var lens' := Extended(lens, items[0]);
      var more := ItemsBits(codelens, lens', items[1..]);
      assert ItemsBits(codelens, lens, items) + rest == ItemBits(codelens, items[0]) + (more + rest);
      assert items[0] in items;
      ReadItem(codelens, lens, items[0], more + rest, total);
      ReadItems(codelens, lens', items[1..], rest);
    }
  }

  // ---------------------------------------------------------------- the header

  /** codelen_lengths_order */
  const ORDER: seq<nat> := [16, 17, 18, 0, 8, 7, 9, 6, 10, 5, 11, 4, 12, 3, 13, 2, 14, 1, 15]

  /** Where a symbol is in that order. */
  function Place(sym: nat): (i: nat)
    requires sym < MAX_CODELEN_LENS
    ensures i < MAX_CODELEN_LENS
  {
    if sym >= 16 then sym - 16 else if sym == 0 then 3 else if sym >= 8 then 2 * sym - 12 else 19 - 2 * sym
  }

  lemma PlaceInverse(i: nat)
    requires i < MAX_CODELEN_LENS
    ensures ORDER[i] < MAX_CODELEN_LENS && Place(ORDER[i]) == i && ORDER[Place(i)] == i
  {
  }

  /** The n lengths of the code for codeword lengths that are given by bits; the others are zero. */
  function Codelens(bits: seq<bool>, n: nat): (c: seq<nat>)
    requires 3 * n <= |bits|
    ensures |c| == MAX_CODELEN_LENS && forall s :: 0 <= s < |c| ==> c[s] < 8
  {
    seq(MAX_CODELEN_LENS, s requires 0 <= s < MAX_CODELEN_LENS =>
      var i := Place(s);
      if i < n then ThreeBits(bits, i) else 0)
  }

  function ThreeBits(bits: seq<bool>, i: nat): (v: nat)
    requires 3 * i + 3 <= |bits|
    ensures v < 8
  {
    FromBitsBound(bits[3 * i..3 * i + 3]);
    assert Pow2(3) == 8;
    FromBits(bits[3 * i..3 * i + 3])
  }

  datatype Header = NoHeader | Header(litlen: seq<nat>, dist: seq<nat>, rest: seq<bool>)

  /** Reads the lengths of the two codes, which must be those of prefix codes. */
  function ReadCodes(codelens: seq<nat>, bits: seq<bool>, hlit: nat, hdist: nat): (h: Header)
    requires |codelens| == MAX_CODELEN_LENS
    ensures h.Header? ==> |h.rest| <= |bits| && |h.litlen| == hlit && |h.dist| == hdist
  {
    if Used(codelens, MAX_BITS) > Pow2(MAX_BITS) then NoHeader
    else
      match ReadLens(codelens, bits, [], hlit + hdist)
      case NoLens => NoHeader
      case Lens(lens, rest) => BothCodes(lens, hlit, rest)
  }

  /** The lengths are those of the two codes one after the other. */
  function BothCodes(lens: seq<nat>, hlit: nat, rest: seq<bool>): Header
    requires hlit <= |lens|
  {
    if Used(lens[..hlit], MAX_BITS) > Pow2(MAX_BITS) || Used(lens[hlit..], MAX_BITS) > Pow2(MAX_BITS) then NoHeader
    else Header(lens[..hlit], lens[hlit..], rest)
  }

  /** Reads the two codes of a dynamic block. */
  function ReadHeader(bits: seq<bool>): (h: Header)
    ensures h.Header? ==> |h.rest| <= |bits|
  {
    if |bits| < 14 then NoHeader
    else
      var hlit, hdist, hclen := FromBits(bits[..5]) + MIN_LITLEN_LENS, FromBits(bits[5..10]) + MIN_DIST_LENS, FromBits(bits[10..14]) + MIN_CODELEN_LENS;
      if |bits| < 14 + 3 * hclen then NoHeader
      else ReadCodes(Codelens(bits[14..], hclen), bits[14 + 3 * hclen..], hlit, hdist)
  }

  // ---------------------------------------------------------------- writing the header

  /** The codeword lengths that are written: those of symbols before place n of the order. */
  ghost predicate Trimmed(codelens: seq<nat>, n: nat) {
    && |codelens| == MAX_CODELEN_LENS && MIN_CODELEN_LENS <= n <= MAX_CODELEN_LENS
    && (forall s :: 0 <= s < |codelens| ==> codelens[s] < 8)
    && (forall s :: 0 <= s < |codelens| && Place(s) >= n ==> codelens[s] == 0)
  }

  /** The first n lengths of the code for codeword lengths, in the order of the format. */
  function CodelenBits(codelens: seq<nat>, n: nat): (b: seq<bool>)
    requires |codelens| == MAX_CODELEN_LENS && n <= MAX_CODELEN_LENS
    ensures |b| == 3 * n
  {
    if n == 0 then [] else CodelenBits(codelens, n - 1) + ToBits(codelens[ORDER[n - 1]], 3)
  }

  lemma CodelenBitsNext(codelens: seq<nat>, n: nat)
    requires |codelens| == MAX_CODELEN_LENS && n < MAX_CODELEN_LENS && ORDER[n] < MAX_CODELEN_LENS
    ensures CodelenBits(codelens, n + 1) == CodelenBits(codelens, n) + ToBits(codelens[ORDER[n]], 3)
  {
  }

  lemma ThreeBitsRound(before: seq<bool>, v: nat, rest: seq<bool>, i: nat)
    requires |before| == 3 * i && v < 8
    ensures ThreeBits(before + (ToBits(v, 3) + rest), i) == v
  {
    hide FromBits, ToBits, Pow2;
    assert (before + (ToBits(v, 3) + rest))[3 * i..3 * i + 3] == ToBits(v, 3);
    Pow2Small();
    FromToBits(v, 3);
  }

  lemma {:induction false} CodelenAt(codelens: seq<nat>, n: nat, i: nat, rest: seq<bool>)
    requires |codelens| == MAX_CODELEN_LENS && i < n <= MAX_CODELEN_LENS
    requires forall s :: 0 <= s < |codelens| ==> codelens[s] < 8
    ensures ORDER[i] < MAX_CODELEN_LENS
    ensures ThreeBits(CodelenBits(codelens, n) + rest, i) == codelens[ORDER[i]]
  {
    hide ToBits, FromBits, Pow2, CodelenBits, ThreeBits, Place;
    PlaceInverse(n - 1);
    CodelenBitsNext(codelens, n - 1);
    var s := ORDER[n - 1];
    var bits, last := CodelenBits(codelens, n - 1), ToBits(codelens[s], 3);
    assert CodelenBits(codelens, n) + rest == bits + (last + rest);
    if i < n - 1 {
      CodelenAt(codelens, n - 1, i, last + rest);
    } else {
      ThreeBitsRound(bits, codelens[s], rest, i);
    }
  }

  lemma CodelensRound(codelens: seq<nat>, n: nat, rest: seq<bool>)
    requires Trimmed(codelens, n)
    ensures Codelens(CodelenBits(codelens, n) + rest, n) == codelens
  {
    hide ThreeBits, CodelenBits;
    var bits := CodelenBits(codelens, n) + rest;
    var read := Codelens(bits, n);
    forall s | 0 <= s < MAX_CODELEN_LENS
      ensures read[s] == codelens[s]
    {
      PlaceInverse(s);
      SymbolPlace(s);
      if Place(s) < n {
        CodelenAt(codelens, n, Place(s), rest);
      }
    }
  }

  lemma SymbolPlace(s: nat)
    requires s < MAX_CODELEN_LENS
    ensures ORDER[Place(s)] == s
  {
  }

  /** The bits of a header. */
  function HeaderBits(hlit: nat, hdist: nat, codelens: seq<nat>, hclen: nat, items: seq<Item>): seq<bool>
    requires |codelens| == MAX_CODELEN_LENS && MIN_LITLEN_LENS <= hlit && MIN_DIST_LENS <= hdist
    requires MIN_CODELEN_LENS <= hclen <= MAX_CODELEN_LENS && ItemsOk([], items)
  {
    ToBits(hlit - MIN_LITLEN_LENS, 5) + ToBits(hdist - MIN_DIST_LENS, 5) + ToBits(hclen - MIN_CODELEN_LENS, 4)
    + CodelenBits(codelens, hclen) + ItemsBits(codelens, [], items)
  }

  /** The parts of a header that is followed by the rest of the stream. */
  lemma HeaderParts(a: seq<bool>, b: seq<bool>, c: seq<bool>, d: seq<bool>, e: seq<bool>, rest: seq<bool>)
    requires |a| == 5 && |b| == 5 && |c| == 4
    ensures var bits := a + b + c + d + e + rest;
            && bits[..5] == a && bits[5..10] == b && bits[10..14] == c
            && bits[14..] == d + (e + rest) && bits[14 + |d|..] == e + rest
  {
    var bits := a + b + c + d + e + rest;
    assert bits == a + b + c + (d + (e + rest));
  }

  lemma ReadCodesBits(litlen: seq<nat>, dist: seq<nat>, codelens: seq<nat>, items: seq<Item>, rest: seq<bool>)
    requires |codelens| == MAX_CODELEN_LENS && LengthsOk(codelens) && Fits(codelens)
    requires ItemsOk([], items) && HaveCodes(codelens, items) && ExpandItems([], items) == litlen + dist
    requires Fits(litlen) && Fits(dist)
    ensures ReadCodes(codelens, ItemsBits(codelens, [], items) + rest, |litlen|, |dist|) == Header(litlen, dist, rest)
  {
    hide ItemsBits, ReadLens, Used, Pow2, ItemsOk, ExpandItems, HaveCodes, LengthsOk;
    ReadItems(codelens, [], items, rest);
    assert (litlen + dist)[..|litlen|] == litlen && (litlen + dist)[|litlen|..] == dist;
  }

  /** Reading a header recovers the two codes. */
  lemma ReadHeaderBits(litlen: seq<nat>, dist: seq<nat>, codelens: seq<nat>, hclen: nat, items: seq<Item>, rest: seq<bool>)
    requires MIN_LITLEN_LENS <= |litlen| <= 288 && MIN_DIST_LENS <= |dist| <= 32 && Trimmed(codelens, hclen) && Fits(codelens)
    requires ItemsOk([], items) && HaveCodes(codelens, items) && ExpandItems([], items) == litlen + dist
    requires Fits(litlen) && Fits(dist)
    ensures ReadHeader(HeaderBits(|litlen|, |dist|, codelens, hclen, items) + rest) == Header(litlen, dist, rest)
  {
    hide ItemsBits, CodelenBits, Codelens, ReadCodes, Fits, ItemsOk, ExpandItems, HaveCodes, Trimmed, ToBits, FromBits;
    CodelensOk(codelens, hclen);
    var a, b, c := ToBits(|litlen| - MIN_LITLEN_LENS, 5), ToBits(|dist| - MIN_DIST_LENS, 5), ToBits(hclen - MIN_CODELEN_LENS, 4);
    var d, e := CodelenBits(codelens, hclen), ItemsBits(codelens, [], items);
    HeaderParts(a, b, c, d, e, rest);
    HeaderNumbers(|litlen|, |dist|, hclen);
    CodelensRound(codelens, hclen, e + rest);
    ReadCodesBits(litlen, dist, codelens, items, rest);
  }

  lemma HeaderNumbers(hlit: nat, hdist: nat, hclen: nat)
    requires MIN_LITLEN_LENS <= hlit <= 288 && MIN_DIST_LENS <= hdist <= 32 && MIN_CODELEN_LENS <= hclen <= MAX_CODELEN_LENS
    ensures FromBits(ToBits(hlit - MIN_LITLEN_LENS, 5)) + MIN_LITLEN_LENS == hlit
    ensures FromBits(ToBits(hdist - MIN_DIST_LENS, 5)) + MIN_DIST_LENS == hdist
    ensures FromBits(ToBits(hclen - MIN_CODELEN_LENS, 4)) + MIN_CODELEN_LENS == hclen
  {
    assert Pow2(4) == 16 && Pow2(5) == 32;
    FromToBits(hlit - MIN_LITLEN_LENS, 5);
    FromToBits(hdist - MIN_DIST_LENS, 5);
    FromToBits(hclen - MIN_CODELEN_LENS, 4);
  }

  lemma CodelensOk(codelens: seq<nat>, n: nat)
    requires Trimmed(codelens, n)
    ensures |codelens| == MAX_CODELEN_LENS && MIN_CODELEN_LENS <= n <= MAX_CODELEN_LENS && LengthsOk(codelens)
  {
  }
}
