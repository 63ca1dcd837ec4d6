/** The numbers of the Implode format (APPNOTE section 5.3), and what a stream stands for in two readings. */
module ImplodeSamples {
  import opened Bits
  import opened Outcome
  import opened Huffman
  import opened Lz77
  import opened ImplodeFormat
  import opened Reversal
  import opened Samples
  import HuffmanLengths
  import ImplodeCodec
  import HuffmanSamples

  // ---------------------------------------------------------------- codes

  /** A code begins with the number of its bytes less one, each of which has the length of codewords less one in
      its low half and the number of symbols with this length, less one, in its high half. */
  lemma CodeBegins(n: nat, rest: seq<bool>, num: nat)
    requires 1 <= n <= 256
    ensures ReadCode(ToBits(n - 1, 8) + rest, num) == ReadRuns(rest, n, num, [])
  {
    hide ToBits, FromBits, ReadRuns;
    ByteReads(n - 1, rest);
  }

  lemma RunReads(l: nat, k: nat, run: seq<nat>, rest: seq<bool>, n: nat, num: nat, lens: seq<nat>)
    requires 1 <= l <= 16 && 1 <= k <= 16 && |run| == k && forall i :: 0 <= i < k ==> run[i] == l
    ensures ReadRuns(ToBits(l - 1, 4) + (ToBits(k - 1, 4) + rest), n + 1, num, lens)
         == if |lens| + k > num then Nothing else ReadRuns(rest, n, num, lens + run)
  {
    hide ToBits, FromBits, Used, Pow2;
    Powers();
    FieldFirst(l - 1, 4, ToBits(k - 1, 4) + rest);
    FieldFirst(k - 1, 4, rest);
    var bits := ToBits(l - 1, 4) + (ToBits(k - 1, 4) + rest);
    assert bits[4..8] == bits[4..][..4] && bits[8..] == bits[4..][4..];
    assert run == Repeat(l, k);
  }

  /** There must be a length for every symbol, and codewords must be used up. */
  lemma CodeEnds(rest: seq<bool>, num: nat, lens: seq<nat>)
    ensures ReadRuns(rest, 0, num, lens) == if |lens| == num && Used(lens, 16) == 0x1_0000 then Got(lens, rest) else Nothing
  {
    hide Used, Pow2;
    Pow2Word();
  }

  /** There is a code for 256 literals if the mode says so, then one for 64 lengths and one for 64 distances. */
  lemma CodesRead(mode: Mode, bits: seq<bool>, lit: seq<nat>, afterLit: seq<bool>, len: seq<nat>, afterLen: seq<bool>,
                  dist: seq<nat>, rest: seq<bool>)
    requires if mode.litTree then ReadCode(bits, 256) == Got(lit, afterLit) else lit == [] && afterLit == bits
    requires ReadCode(afterLit, 64) == Got(len, afterLen) && ReadCode(afterLen, 64) == Got(dist, rest)
    ensures ReadCodes(mode, bits) == Got(Codes(lit, len, dist), rest)
  {
    hide ReadCode;
  }

  /** The bits of codewords are the opposite of what they are in the canonical code. */
  lemma Opposite(lens: seq<nat>, s: nat, i: nat)
    requires s < |lens| && i < lens[s]
    ensures FlippedCodeword(lens, s)[i] == !Codeword(lens, s)[i]
  {
  }

  // ---------------------------------------------------------------- tokens

  /** After a one there is a literal: a byte, or its codeword if there is a code for literals. */
  lemma LiteralReads(mode: Mode, least: nat, c: Codes, b: byte, rest: seq<bool>, out: seq<byte>, total: nat)
    requires FullCodes(mode, c) && |out| < total
    ensures ExplodeFrom(mode, least, c, [true] + ((if mode.litTree then FlippedCodeword(c.lit, b) else ToBits(b, 8)) + rest), out, total)
         == ExplodeFrom(mode, least, c, rest, out + [b], total)
  {
    hide FullCodes, ReadLit, FlippedCodeword, ToBits;
    var bits := LitBits(mode, c, b) + rest;
    assert ([true] + bits)[1..] == bits;
    LitReads(mode, c, b, rest);
  }

  lemma ExtraByteReads(s: nat, least: nat, dist: nat, extra: nat, rest: seq<bool>)
    requires s < 64 && extra < 256
    ensures ReadExtra(s, least, dist, (if s == 63 then ToBits(extra, 8) else []) + rest)
         == Got(Ref(dist, s + (if s == 63 then extra else 0) + least), rest)
  {
    hide ToBits, FromBits;
    if s == 63 {
      ByteReads(extra, rest);
    } else {
      assert [] + rest == rest;
    }
  }

  lemma Sizes(mode: Mode, c: Codes)
    requires FullCodes(mode, c)
    ensures |c.len| == 64 && |c.dist| == 64
  {
  }

  /** The distance, the length, and in between where they come from. */
  lemma PartsRead(mode: Mode, least: nat, c: Codes, low: nat, d: nat, s: nat, extra: nat, rest: seq<bool>)
    requires FullCodes(mode, c) && d < 64 && s < 64 && extra < 256
    requires low < if mode.largeWnd then 128 else 64
    ensures ReadRef(mode, least, c, ToBits(low, if mode.largeWnd then 7 else 6)
                                    + (FlippedCodeword(c.dist, d) + (FlippedCodeword(c.len, s)
                                       + ((if s == 63 then ToBits(extra, 8) else []) + rest))))
         == Got(Ref(low + (if mode.largeWnd then 128 * d else 64 * d) + 1, s + (if s == 63 then extra else 0) + least), rest)
  {
    hide DecodeFlipped, FlippedCodeword, ToBits, FromBits, FullCode, ReadExtra, Pow2;
    Powers();
    FullAt(c.dist, 64, d);
    FullAt(c.len, 64, s);
    var tail := (if s == 63 then ToBits(extra, 8) else []) + rest;
    FieldFirst(low, mode.DistBits(), FlippedCodeword(c.dist, d) + (FlippedCodeword(c.len, s) + tail));
    FlippedReads(c.dist, d, FlippedCodeword(c.len, s) + tail);
    FlippedReads(c.len, s, tail);
    ExtraByteReads(s, least, low + (if mode.largeWnd then 128 * d else 64 * d) + 1, extra, rest);
  }

  /** After a zero there are the low bits of the distance, 7 with the large window and 6 with the small one, the
      codewords for its high bits and for the length, and after the length symbol 63 a byte.  The least length
      is 3 with a code for literals and 2 without; in the second attempt, for the files of old versions, it is 3
      with the large window and 2 with the small one. */
  lemma ReferenceReads(mode: Mode, second: bool, c: Codes, low: nat, d: nat, s: nat, extra: nat, rest: seq<bool>,
                       out: seq<byte>, total: nat)
    requires FullCodes(mode, c) && |out| < total && d < 64 && s < 64 && extra < 256
    requires low < if mode.largeWnd then 128 else 64
    ensures var dist := low + (if mode.largeWnd then 128 * d else 64 * d) + 1;
            var len := s + (if s == 63 then extra else 0)
                       + if second then (if mode.largeWnd then 3 else 2) else if mode.litTree then 3 else 2;
            ExplodeFrom(mode, LeastLen(mode, second), c,
                        [false] + (ToBits(low, if mode.largeWnd then 7 else 6)
                                   + (FlippedCodeword(c.dist, d) + (FlippedCodeword(c.len, s)
                                      + ((if s == 63 then ToBits(extra, 8) else []) + rest)))), out, total)
            == if |out| + len > total then Err
               else ExplodeFrom(mode, LeastLen(mode, second), c, rest, CopyBack(out, dist, len), total)
  {
    hide FullCodes, ReadRef, FlippedCodeword, ToBits, CopyBack;
    Sizes(mode, c);
    var bits := ToBits(low, if mode.largeWnd then 7 else 6)
                + (FlippedCodeword(c.dist, d) + (FlippedCodeword(c.len, s) + ((if s == 63 then ToBits(extra, 8) else []) + rest)));
    assert ([false] + bits)[1..] == bits;
    PartsRead(mode, LeastLen(mode, second), c, low, d, s, extra, rest);
  }

  // ---------------------------------------------------------------- a stream

  /** 64 codewords of 6 bits. */
  function Flat(): (l: seq<nat>)
    ensures |l| == 64 && forall s :: 0 <= s < 64 ==> l[s] == 6
  {
    Repeat(6, 64)
  }

  lemma FlatFull()
    ensures FullCode(Flat(), 64) && Used(Flat(), 16) == 0x1_0000 && First(Flat(), 6) == 0
  {
    hide Count, Flat;
    var l := Flat();
    forall k: nat
      ensures Count(l, k) == if k == 6 then 64 else 0
    {
      HuffmanSamples.FourRuns(l, 64, 64, 64, 6, 0, 0, 0, k);
    }
    assert Used(l, 0) == Used(l, 1) == Used(l, 2) == Used(l, 3) == 0;
    assert Used(l, 4) == Used(l, 5) == 0 && Used(l, 6) == 64;
    Powers();
    HuffmanLengths.FullAbove(l, 6, 16);
    Pow2Word();
  }

  lemma FlatCodeword()
    ensures Codeword(Flat(), 0) == [false, false, false, false, false, false]
  {
    hide MsbBits, First, Count, Flat;
    FlatFull();
    assert Flat()[..0] == [];
    CountNone([], 6);
    HuffmanSamples.TwoBits(0, false, false);
    HuffmanSamples.FourMore(0, 2, false, false, false, false);
  }

  /** The first codeword, with its bits flipped. */
  lemma FlatFirst()
    ensures FlippedCodeword(Flat(), 0) == [true, true, true, true, true, true]
  {
    hide Codeword, Flat;
    FlatCodeword();
  }

  lemma FlatRun(rest: seq<byte>)
    ensures BytesToBits([0xF5] + rest) == ToBits(5, 4) + (ToBits(15, 4) + BytesToBits(rest))
  {
    hide ToBits;
    BytesInOrder(0xF5, rest);
    Powers();
    ToBitsSplit(5, 15, 4, 4);
  }

  /** The code in five bytes: four runs of 16 lengths of 6. */
  function FlatBytes(rest: seq<byte>): seq<byte> {
    [0x03] + ([0xF5] + ([0xF5] + ([0xF5] + ([0xF5] + rest))))
  }

  lemma FlatReads(rest: seq<byte>, more: seq<bool>)
    ensures ReadCode(BytesToBits(FlatBytes(rest)) + more, 64) == Got(Flat(), BytesToBits(rest) + more)
  {
    hide ToBits, BytesToBits, ReadRuns, ReadCode;
    var r1: seq<byte> := [0xF5] + rest;
    var r2: seq<byte> := [0xF5] + r1;
    var r3: seq<byte> := [0xF5] + r2;
    var r4: seq<byte> := [0xF5] + r3;
    BytesInOrder(0x03, r4);
    FlatRun(rest);
    FlatRun(r1);
    FlatRun(r2);
    FlatRun(r3);
    assert ToBits(3, 8) + BytesToBits(r4) + more == ToBits(3, 8) + (BytesToBits(r4) + more);
    CodeBegins(4, BytesToBits(r4) + more, 64);
    assert Repeat(6, 0) == [];
    FlatStep(r4, r3, more, 3, 0);
    FlatStep(r3, r2, more, 2, 16);
    FlatStep(r2, r1, more, 1, 32);
    FlatStep(r1, rest, more, 0, 48);
    FlatEnds(BytesToBits(rest) + more);
  }

  lemma FlatEnds(rest: seq<bool>)
    ensures ReadRuns(rest, 0, 64, Repeat(6, 64)) == Got(Flat(), rest)
  {
    hide Used;
    FlatFull();
    CodeEnds(rest, 64, Repeat(6, 64));
  }

  lemma FlatStep(r: seq<byte>, r': seq<byte>, more: seq<bool>, n: nat, k: nat)
    requires BytesToBits(r) == ToBits(5, 4) + (ToBits(15, 4) + BytesToBits(r')) && k <= 48
    ensures ReadRuns(BytesToBits(r) + more, n + 1, 64, Repeat(6, k)) == ReadRuns(BytesToBits(r') + more, n, 64, Repeat(6, k + 16))
  {
    hide ToBits, BytesToBits, ReadRuns;
    RunReads(6, 16, Repeat(6, 16), BytesToBits(r') + more, n, 64, Repeat(6, k));
    assert BytesToBits(r) + more == ToBits(5, 4) + (ToBits(15, 4) + (BytesToBits(r') + more));
    assert Repeat(6, k) + Repeat(6, 16) == Repeat(6, k + 16);
  }

  /** Two codes, without one for literals. */
  function TwoCodes(tokens: seq<bool>): seq<bool> {
    BytesToBits(FlatBytes(FlatBytes([]))) + tokens
  }

  lemma TwoCodesRead(largeWnd: bool, tokens: seq<bool>)
    ensures ReadCodes(Mode(largeWnd, false), TwoCodes(tokens)) == Got(Codes([], Flat(), Flat()), tokens)
  {
    hide BytesToBits, ReadCode, Flat, FlatBytes;
    var bits := TwoCodes(tokens);
    FlatReads(FlatBytes([]), tokens);
    FlatReads([], tokens);
    NoBytes();
    assert [] + tokens == tokens;
    CodesRead(Mode(largeWnd, false), bits, [], bits, Flat(), BytesToBits(FlatBytes([])) + tokens, Flat(), tokens);
  }

  lemma TokensRead(second: bool, ref: seq<bool>, total: nat)
    requires FullCodes(Mode(true, false), Codes([], Flat(), Flat())) && total >= 4
    ensures var mode, c := Mode(true, false), Codes([], Flat(), Flat());
            ExplodeFrom(mode, LeastLen(mode, second), c, [true] + (ToBits(97, 8) + ([true] + (ToBits(98, 8) + ([false] + ref)))), [], total)
            == ExplodeFrom(mode, LeastLen(mode, second), c, [false] + ref, [97, 98], total)
  {
    hide ToBits, ExplodeFrom, FullCode, Flat;
    var mode, c := Mode(true, false), Codes([], Flat(), Flat());
    LiteralReads(mode, LeastLen(mode, second), c, 97, [true] + (ToBits(98, 8) + ([false] + ref)), [], total);
    LiteralReads(mode, LeastLen(mode, second), c, 98, [false] + ref, [97], total);
    assert [] + [97] == [97] && [97] + [98] == [97, 98];
  }

  lemma CopiesTwo()
    ensures CopyBack([97, 98], 2, 2) == [97, 98, 97, 98] && CopyBack([97, 98], 2, 3) == [97, 98, 97, 98, 97]
  {
    assert CopyBack([97, 98, 97, 98], 2, 0) == [97, 98, 97, 98];
    assert CopyBack([97, 98, 97], 2, 1) == CopyBack([97, 98, 97] + [98], 2, 0);
    assert CopyBack([97, 98, 97, 98], 2, 1) == CopyBack([97, 98, 97, 98] + [97], 2, 0);
    assert CopyBack([97, 98, 97], 2, 2) == CopyBack([97, 98, 97] + [98], 2, 1);
  }

  lemma ExplodeEnds(mode: Mode, least: nat, c: Codes, rest: seq<bool>, out: seq<byte>, total: nat)
    requires FullCodes(mode, c) && |out| >= total
    ensures ExplodeFrom(mode, least, c, rest, out, total) == Ok(Output(out, rest))
  {
  }

  lemma LastRead(second: bool, pad: seq<bool>, total: nat)
    requires FullCodes(Mode(true, false), Codes([], Flat(), Flat())) && total == if second then 5 else 4
    ensures var mode, c := Mode(true, false), Codes([], Flat(), Flat());
            ExplodeFrom(mode, LeastLen(mode, second), c,
                        [false] + (ToBits(1, 7) + ([true, true, true, true, true, true] + ([true, true, true, true, true, true] + pad))),
                        [97, 98], total)
            == Ok(Output(if second then [97, 98, 97, 98, 97] else [97, 98, 97, 98], pad))
  {
    hide ToBits, ExplodeFrom, FullCode, Flat, CopyBack, FlippedCodeword;
    var mode, c := Mode(true, false), Codes([], Flat(), Flat());
    FlatFirst();
    assert [] + pad == pad;
    ReferenceReads(mode, second, c, 1, 0, 0, 0, pad, [97, 98], total);
    CopiesTwo();
    ExplodeEnds(mode, LeastLen(mode, second), c, pad, if second then [97, 98, 97, 98, 97] else [97, 98, 97, 98], total);
  }

  /** With the large window: the two codes, the bytes 97 and 98, and a reference with the low bits 1 and the first
      symbols for distance and length.  This is "abab", or "ababa" in the second attempt. */
  lemma StreamReads(second: bool, pad: seq<bool>, total: nat)
    requires total == if second then 5 else 4
    ensures Exploded(Mode(true, false), LeastLen(Mode(true, false), second),
                     TwoCodes([true] + (ToBits(97, 8) + ([true] + (ToBits(98, 8)
                              + ([false] + (ToBits(1, 7) + ([true, true, true, true, true, true]
                                 + ([true, true, true, true, true, true] + pad)))))))), total)
         == Ok(Output(if second then [97, 98, 97, 98, 97] else [97, 98, 97, 98], pad))
  {
    hide ToBits, ReadCodes, TwoCodes, ExplodeFrom, FullCodes, Flat;
    var ref := ToBits(1, 7) + ([true, true, true, true, true, true] + ([true, true, true, true, true, true] + pad));
    TwoCodesRead(true, [true] + (ToBits(97, 8) + ([true] + (ToBits(98, 8) + ([false] + ref)))));
    FlatCodes();
    TokensRead(second, ref, total);
    LastRead(second, pad, total);
  }

  lemma FlatCodes()
    ensures FullCodes(Mode(true, false), Codes([], Flat(), Flat()))
  {
    hide FullCode;
    FlatFull();
  }

  // ---------------------------------------------------------------- the compressor

  /** References are as far and as long as the mode allows, and may overlap; the codes are made for the first 32768
      tokens. */
  lemma CompressorLimits(mode: Mode, all: seq<Token>)
    ensures ImplodeCodec.Limits(mode)
         == Params(if mode.largeWnd then 8192 else 4096, (if mode.litTree then 3 else 2) + 63 + 255, true)
    ensures ImplodeCodec.Head(all) == all[..Min(|all|, 32768)]
  {
  }

  /** The factor for frequencies is the greatest with which all of them, those that are zero counting as one, add up
      to 65535 at most. */
  lemma GreatestFactor(freqs: seq<nat>, k: nat)
    requires freqs != []
    ensures k <= ImplodeCodec.Factor(freqs) <==> k * (HuffmanLengths.Sum(freqs) + ImplodeCodec.ZeroCount(freqs)) <= 65535
  {
    hide HuffmanLengths.Sum, ImplodeCodec.ZeroCount;
    ImplodeCodec.SomeCounted(freqs);
    AtMostQuotient(65535, HuffmanLengths.Sum(freqs) + ImplodeCodec.ZeroCount(freqs), k);
  }

  lemma AtMostQuotient(n: nat, d: nat, k: nat)
    requires d > 0
    ensures k <= n / d <==> k * d <= n
  {
    var q := n / d;
    assert q * d <= n < q * d + d;
    if k <= q {
      assert k * d <= q * d;
    } else {
      assert (q + 1) * d <= k * d;
    }
  }

  /** Runs are of at most 16, and a run of less is followed by another length. */
  ghost predicate LongRuns(runs: seq<Run>) {
    && (forall i :: 0 <= i < |runs| ==> 1 <= runs[i].num <= 16)
    && (forall i :: 0 <= i < |runs| - 1 ==> runs[i].len != runs[i + 1].len || runs[i].num == 16)
  }

  /** Runs of codeword lengths are as long as they may be. */
  lemma {:induction false} RunsAreLong(lens: seq<nat>)
    ensures LongRuns(RunsOf(lens))
    decreases |lens|
  {
    hide LongRuns, AddLength;
    if lens == [] {
      NoRuns();
    } else {
      var n := |lens| - 1;
      RunsAreLong(lens[..n]);
      LongerRuns(RunsOf(lens[..n]), lens[n]);
    }
  }

  lemma NoRuns()
    ensures LongRuns([])
  {
  }

  lemma LongerRuns(runs: seq<Run>, l: nat)
    requires LongRuns(runs)
    ensures LongRuns(AddLength(runs, l))
  {
  }

  /** A code is made for scaled frequencies, with codewords of at most 16 bits. */
  lemma CodeMade(freqs: seq<nat>, lens: seq<nat>)
    requires ImplodeCodec.GoodCode(freqs, lens)
    ensures exists cap: nat :: HuffmanLengths.GoodLengths(ImplodeCodec.Scaled(freqs), lens, 16, cap)
  {
    hide HuffmanLengths.GoodLengths;
  }
}
