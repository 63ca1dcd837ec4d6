/** The header of a dynamic block in numbers (section 3.2.7 of RFC 1951), and a stream with such a block. */
module DynamicSamples {
  import opened Bits
  import opened Outcome
  import opened Huffman
  import opened Reversal
  import opened CodeLengths
  import opened DeflateFormat
  import opened Samples
  import DeflateSamples
  import DeflateCost
  import DeflateDynamic
  import EncodeLengths
  import HuffmanLengths
  import HuffmanSamples
  import OptimalCodes

  // ---------------------------------------------------------------- the header

  /** The numbers of lengths: 257 and more, 1 and more, and 4 and more, in 5, 5 and 4 bits; then 3 bits for each
      length of the code for lengths. */
  lemma HeaderReads(hlit: nat, hdist: nat, hclen: nat, rest: seq<bool>)
    requires hlit < 32 && hdist < 32 && hclen < 16
    ensures var n := 3 * (4 + hclen);
            ReadHeader(ToBits(hlit, 5) + (ToBits(hdist, 5) + (ToBits(hclen, 4) + rest)))
            == if |rest| < n then NoHeader else ReadCodes(Codelens(rest, 4 + hclen), rest[n..], 257 + hlit, 1 + hdist)
  {
    hide ToBits, FromBits, Pow2, Codelens, ReadCodes;
    PowersOfTwo();
    FieldFirst(hlit, 5, ToBits(hdist, 5) + (ToBits(hclen, 4) + rest));
    FieldFirst(hdist, 5, ToBits(hclen, 4) + rest);
    FieldFirst(hclen, 4, rest);
    var bits := ToBits(hlit, 5) + (ToBits(hdist, 5) + (ToBits(hclen, 4) + rest));
    assert bits[5..10] == bits[5..][..5] && bits[10..14] == bits[5..][5..][..4] && bits[14..] == bits[5..][5..][4..];
    if |rest| >= 3 * (4 + hclen) {
      assert bits[14 + 3 * (4 + hclen)..] == rest[3 * (4 + hclen)..];
    }
  }

  /** The lengths of the code for lengths come in the order that the format prescribes. */
  lemma OrderReads(bits: seq<bool>, n: nat, i: nat)
    requires n <= 19 && 3 * n <= |bits| && i < 19
    ensures var symbol: nat := [16, 17, 18, 0, 8, 7, 9, 6, 10, 5, 11, 4, 12, 3, 13, 2, 14, 1, 15][i];
            symbol < 19 && Codelens(bits, n)[symbol] == if i < n then FromBits(bits[3 * i..3 * i + 3]) else 0
  {
    hide FromBits;
  }

  ghost predicate CodelenCode(codelens: seq<nat>) {
    |codelens| == 19 && LengthsOk(codelens) && Fits(codelens)
  }

  /** The symbols up to 15 are lengths. */
  lemma LengthItem(codelens: seq<nat>, s: nat, rest: seq<bool>, lens: seq<nat>, total: nat)
    requires CodelenCode(codelens) && s <= 15 && codelens[s] > 0 && |lens| < total
    ensures ReadLens(codelens, Codeword(codelens, s) + rest, lens, total) == ReadLens(codelens, rest, lens + [s], total)
  {
    hide Fits, LengthsOk, Codeword, Decode;
    DecodeCodeword(codelens, s, rest);
  }

  /** The symbol 16 repeats the last length 3 to 6 times, as 2 more bits say; 17 stands for 3 to 10 zeros, with
      3 more bits, and 18 for 11 to 138 zeros, with 7 more bits.  There must not be more lengths than are to be
      read, and there must be a last length to repeat. */
  lemma RunItem(codelens: seq<nat>, s: nat, x: nat, width: nat, run: seq<nat>, rest: seq<bool>, lens: seq<nat>, total: nat)
    requires CodelenCode(codelens) && 16 <= s <= 18 && codelens[s] > 0 && |lens| < total
    requires width == (if s == 16 then 2 else if s == 17 then 3 else 7) && x < Pow2(width)
    requires |run| == (if s == 18 then 11 else 3) + x
    requires forall i :: 0 <= i < |run| ==> run[i] == if s == 16 && lens != [] then lens[|lens| - 1] else 0
    ensures ReadLens(codelens, Codeword(codelens, s) + (ToBits(x, width) + rest), lens, total)
         == if |lens| + |run| > total || (s == 16 && lens == []) then NoLens
            else ReadLens(codelens, rest, lens + run, total)
  {
    hide Fits, LengthsOk, Codeword, Decode, ToBits, FromBits, Pow2;
    DecodeCodeword(codelens, s, ToBits(x, width) + rest);
    FieldFirst(x, width, rest);
    assert run == Repeat(if s == 16 && lens != [] then lens[|lens| - 1] else 0, |run|);
  }

  /** Both codes are read together, and must be prefix codes, as must be the code for their lengths. */
  lemma CodesRead(codelens: seq<nat>, bits: seq<bool>, litlen: seq<nat>, dist: seq<nat>, rest: seq<bool>)
    requires |codelens| == 19 && ReadLens(codelens, bits, [], |litlen| + |dist|) == Lens(litlen + dist, rest)
    ensures ReadCodes(codelens, bits, |litlen|, |dist|)
         == if Fits(codelens) && Fits(litlen) && Fits(dist) then Header(litlen, dist, rest) else NoHeader
  {
    hide Used, Pow2, ReadLens;
    assert (litlen + dist)[..|litlen|] == litlen && (litlen + dist)[|litlen|..] == dist;
  }

  // ---------------------------------------------------------------- a stream

  /** 257 lengths, all 0 but those of the symbols 97 and 256. */
  function TwoSymbols(): (l: seq<nat>)
    ensures |l| == 257
  {
    seq(257, i => if i == 97 || i == 256 then 1 else 0)
  }

  /** Codewords of 2, 2 and 1 bits for the symbols 0, 1 and 18. */
  function ThreeSymbols(): seq<nat> {
    [2, 2, 0, 0, 0, 0, 0, 0, 0, 0, 0, 0, 0, 0, 0, 0, 0, 0, 1]
  }

  lemma ThreeCounts(l: nat)
    requires l > 0
    ensures Count(ThreeSymbols(), l) == if l == 1 then 1 else if l == 2 then 2 else 0
    ensures LengthsOk(ThreeSymbols()) && OptimalCodes.AtMost(ThreeSymbols(), 2) && |ThreeSymbols()| == 19
  {
    hide Count;
    HuffmanSamples.FourRuns(ThreeSymbols(), 2, 18, 19, 2, 0, 1, 0, l);
  }

  lemma ThreeFit()
    ensures CodelenCode(ThreeSymbols())
    ensures First(ThreeSymbols(), 1) == 0 && First(ThreeSymbols(), 2) == 2
  {
    hide Count, ThreeSymbols;
    var l := ThreeSymbols();
    ThreeCounts(1);
    ThreeCounts(2);
    assert Used(l, 0) == 0 && Used(l, 1) == 1 && Used(l, 2) == 4;
    assert Pow2(2) == 4;
    HuffmanLengths.FullAbove(l, 2, 16);
  }

  lemma ThreeCodewords()
    ensures var l := ThreeSymbols();
            Codeword(l, 18) == [false] && Codeword(l, 0) == [true, false] && Codeword(l, 1) == [true, true]
  {
    hide Count, First, MsbBits;
    var l := ThreeSymbols();
    ThreeFit();
    HuffmanSamples.CountSegment(l, 1, 0, 2, 2);
    HuffmanSamples.CountSegment(l, 1, 2, 18, 0);
    HuffmanSamples.CountSegment(l, 2, 0, 1, 2);
    assert l[..0] == [] && Count([], 1) == 0 && Count([], 2) == 0 by {
      CountNone([], 1);
      CountNone([], 2);
    }
    HuffmanSamples.OneBit(false);
    HuffmanSamples.TwoBits(2, true, false);
    HuffmanSamples.TwoBits(3, true, true);
  }

  /** 97 zeros, a one, 138 and 20 zeros and a one for literals and lengths, and a zero for distances. */
  function Items(rest: seq<bool>): seq<bool> {
    [false] + (ToBits(86, 7) + ([true, true] + ([false] + (ToBits(127, 7) + ([false] + (ToBits(9, 7) + ([true, true] + ([true, false] + rest))))))))
  }

  lemma ItemsRead(rest: seq<bool>)
    ensures ReadLens(ThreeSymbols(), Items(rest), [], 258) == Lens(TwoSymbols() + [0], rest)
  {
    hide ToBits, FromBits, Pow2, ReadLens, Codeword, CodelenCode;
    var c := ThreeSymbols();
    ThreeFit();
    ThreeCodewords();
    PowersOfTwo();
    var last := [true, true] + ([true, false] + rest);
    var more := [false] + (ToBits(127, 7) + ([false] + (ToBits(9, 7) + last)));
    var l1 := Repeat(0, 97);
    RunItem(c, 18, 86, 7, Repeat(0, 97), [true, true] + more, [], 258);
    assert [] + Repeat(0, 97) == l1;
    LengthItem(c, 1, more, l1, 258);
    var l2 := l1 + [1];
    RunItem(c, 18, 127, 7, Repeat(0, 138), [false] + (ToBits(9, 7) + last), l2, 258);
    var l3 := l2 + Repeat(0, 138);
    RunItem(c, 18, 9, 7, Repeat(0, 20), last, l3, 258);
    var l4 := l3 + Repeat(0, 20);
    LengthItem(c, 1, [true, false] + rest, l4, 258);
    LengthItem(c, 0, rest, l4 + [1], 258);
    assert l4 + [1] == TwoSymbols();
    LensDone(c, rest, TwoSymbols() + [0]);
  }

  lemma LensDone(codelens: seq<nat>, rest: seq<bool>, lens: seq<nat>)
    requires |codelens| == 19
    ensures ReadLens(codelens, rest, lens, |lens|) == Lens(lens, rest)
  {
  }

  /** 18 lengths of 3 bits: for 16 and 17 none, for 18 a one, for 0 a two, then none up to a two for 1. */
  function Lengths18(rest: seq<bool>): seq<bool> {
    ToBits(0, 6) + (ToBits(1, 3) + (ToBits(2, 3) + (ToBits(0, 39) + (ToBits(2, 3) + rest))))
  }

  lemma {:induction false} ZeroBits(n: nat, j: nat)
    requires j < n
    ensures !ToBits(0, n)[j]
  {
    if j > 0 {
      ZeroBits(n - 1, j - 1);
    }
  }

  lemma Lengths18At(rest: seq<bool>, j: nat)
    requires j < 54
    ensures |Lengths18(rest)| == 54 + |rest| && Lengths18(rest)[54..] == rest
    ensures Lengths18(rest)[j] == (j == 6 || j == 10 || j == 52)
  {
    assert ToBits(1, 3) == [true, false, false] && ToBits(2, 3) == [false, true, false];
    hide ToBits;
    if j < 6 {
      ZeroBits(6, j);
    }
    if 12 <= j < 51 {
      ZeroBits(39, j - 12);
    }
  }

  lemma Threes(b: seq<bool>)
    requires |b| == 3
    ensures FromBits(b) == BitValue(b[0]) + 2 * BitValue(b[1]) + 4 * BitValue(b[2])
  {
    assert FromBits(b) == BitValue(b[0]) + 2 * FromBits(b[1..]);
    assert FromBits(b[1..]) == BitValue(b[1]) + 2 * FromBits(b[2..]);
    assert FromBits(b[2..]) == BitValue(b[2]) + 2 * FromBits(b[3..]);
    assert b[3..] == [];
  }

  lemma Lengths18Place(rest: seq<bool>, i: nat)
    requires i < 19
    ensures |Lengths18(rest)| == 54 + |rest| && ORDER[i] < 19
    ensures Codelens(Lengths18(rest), 18)[ORDER[i]] == ThreeSymbols()[ORDER[i]]
  {
    hide Lengths18, FromBits, Codelens;
    var bits := Lengths18(rest);
    Lengths18At(rest, 0);
    OrderReads(bits, 18, i);
    if i < 18 {
      Threes(bits[3 * i..3 * i + 3]);
      Lengths18At(rest, 3 * i);
      Lengths18At(rest, 3 * i + 1);
      Lengths18At(rest, 3 * i + 2);
    }
  }

  lemma Lengths18Read(rest: seq<bool>)
    ensures |Lengths18(rest)| == 54 + |rest| && Lengths18(rest)[54..] == rest && Codelens(Lengths18(rest), 18) == ThreeSymbols()
  {
    hide Lengths18, Codelens;
    Lengths18At(rest, 0);
    forall s: nat | s < 19
      ensures Codelens(Lengths18(rest), 18)[s] == ThreeSymbols()[s]
    {
      SymbolPlace(s);
      Lengths18Place(rest, Place(s));
    }
    assert |ThreeSymbols()| == 19;
  }

  /** The codes are read from the header. */
  lemma DynamicHeader(body: seq<bool>)
    ensures ReadHeader(ToBits(0, 5) + (ToBits(0, 5) + (ToBits(14, 4) + Lengths18(Items(body))))) == Header(TwoSymbols(), [0], body)
  {
    hide ToBits, Codelens, Lengths18, Items, Codeword, ReadLens, ReadCodes, Fits, LengthsOk, TwoSymbols, ThreeSymbols, ReadHeader, First;
    TwoFit();
    Lengths18Read(Items(body));
    ItemsRead(body);
    CodesRead(ThreeSymbols(), Items(body), TwoSymbols(), [0], body);
    ThreeFit();
    HeaderReads(0, 0, 14, Lengths18(Items(body)));
  }

  lemma DynamicBody(pad: seq<bool>)
    ensures InfBlock([false] + ([false] + ([true] + pad)), [], 2, TwoSymbols(), [0]) == Ok(Output([97, 97], pad))
  {
    hide InfBlock, Codeword, Fits;
    var l, d: seq<nat> := TwoSymbols(), [0];
    TwoFit();
    DeflateSamples.SymbolReads(l, d, 97, [false] + ([true] + pad), [], 2);
    DeflateSamples.SymbolReads(l, d, 97, [true] + pad, [97], 2);
    DeflateSamples.SymbolReads(l, d, 256, pad, [97, 97], 2);
    assert [] + [97] == [97] && [97] + [97] == [97, 97];
  }

  /** A last block with codes of its own, of one bit each for the byte 97 and the end: two bytes 97. */
  lemma DynamicStream(pad: seq<bool>)
    ensures Inflate([true] + ToBits(2, 2) + (ToBits(0, 5) + (ToBits(0, 5) + (ToBits(14, 4)
                    + Lengths18(Items([false] + ([false] + ([true] + pad))))))), [], 2)
         == Ok(Output([97, 97], pad))
  {
    hide ToBits, Inflate, Lengths18, Items, InfBlock, ReadHeader, TwoSymbols;
    var body := [false] + ([false] + ([true] + pad));
    DynamicHeader(body);
    DynamicBody(pad);
    DeflateSamples.KindReads(true, 2, ToBits(0, 5) + (ToBits(0, 5) + (ToBits(14, 4) + Lengths18(Items(body)))), [], 2);
  }

  lemma TwoFit()
    ensures DeflateFormat.Codes(TwoSymbols(), [0])
    ensures Codeword(TwoSymbols(), 97) == [false] && Codeword(TwoSymbols(), 256) == [true]
  {
    hide Codeword, Fits;
    EncodeLengths.CodesOfTwo(TwoSymbols(), 97, 256);
    assert ToBits(0, 1) == [false] && ToBits(1, 1) == [true];
    NoneFit();
  }

  lemma NoneFit()
    ensures Fits([0])
  {
    NothingUsed(16);
  }

  lemma {:induction false} NothingUsed(l: nat)
    ensures Used([0], l) == 0
  {
    if l > 0 {
      NothingUsed(l - 1);
      CountNone([0], l);
    }
  }

  // ---------------------------------------------------------------- the compressor

  /** A run of zeros that is not followed by one, or is as long as can be, 138: up to two are written one by one, up
      to 10 as an item 17, and more as an item 18. */
  lemma ZeroRuns(n: nat, rest: seq<nat>)
    requires 1 <= n <= 138 && (n == 138 || rest == [] || rest[0] != 0)
    ensures EncodeLengths.ItemsFor(Repeat(0, n) + rest)
         == if n < 3 then [Item(0, 0)] + EncodeLengths.ItemsFor(Repeat(0, n - 1) + rest)
            else [Item(if n <= 10 then 17 else 18, n)] + EncodeLengths.ItemsFor(rest)
  {
    hide EncodeLengths.RunLen;
    var lens := Repeat(0, n) + rest;
    assert lens[..n] == Repeat(0, n) && lens[n..] == rest && lens[1..] == Repeat(0, n - 1) + rest;
    EncodeLengths.RunLenIs(lens, 0, 138, n);
  }

  /** A length that is not zero, and a run of the same that ends there or is as long as can be, 6: up to two more are
      written one by one, and three to 6 as an item 16. */
  lemma SameRuns(v: nat, n: nat, rest: seq<nat>)
    requires v > 0 && n <= 6 && (n == 6 || rest == [] || rest[0] != v)
    ensures EncodeLengths.ItemsFor([v] + (Repeat(v, n) + rest))
         == if n < 3 then [Item(v, 0)] + EncodeLengths.ItemsFor(Repeat(v, n) + rest)
            else [Item(v, 0), Item(16, n)] + EncodeLengths.ItemsFor(rest)
  {
    hide EncodeLengths.RunLen;
    var lens := [v] + (Repeat(v, n) + rest);
    assert lens[1..] == Repeat(v, n) + rest && lens[1..][..n] == Repeat(v, n) && lens[1 + n..] == rest;
    EncodeLengths.RunLenIs(lens[1..], v, 6, n);
  }

  /** The codes of a block are made for 286 literals and lengths and 30 distances with codewords of at most 15 bits,
      and the code for their lengths with codewords of at most 7 bits. */
  lemma CodesMade(c: DeflateDynamic.DynamicCodes, block: seq<Sym>)
    requires DeflateDynamic.MadeFor(c, block)
    ensures |DeflateCost.LitlenFreqs(block)| == 286 && |DeflateCost.DistFreqs(block)| == 30
    ensures HuffmanLengths.CodeFor(DeflateCost.LitlenFreqs(block), c.litlen, 15)
    ensures exists l :: HuffmanLengths.CodeFor(DeflateCost.DistFreqs(block), l, 15) && |l| == 30 && c.dist == EncodeLengths.Tweak(l)
    ensures HuffmanLengths.CodeFor(DeflateDynamic.ItemFreqs(c.items), c.codelens, 7)
  {
    hide HuffmanLengths.CodeFor, EncodeLengths.Tweak;
  }
}
