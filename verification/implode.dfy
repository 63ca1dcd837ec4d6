/** hwimplode() and its helpers (hwzip/implode.c, lines 10-338), updated in place. */
module ImplodeCodec {
  import opened Bits
  import opened Bitstream
  import opened Huffman
  import opened HuffmanEncoder
  import opened HuffmanLengths
  import opened Lz77
  import opened ImplodeFormat
  import opened DeflateCost
  import HuffmanDecoder
  import ExplodeCodec
  import Lz77Codec

  const BUFFER_CAP: nat := 32768

  /** The tokens that the codes are computed from. */
  function Head(all: seq<Token>): seq<Token> {
    if |all| <= BUFFER_CAP then all else all[..BUFFER_CAP]
  }

  // ---------------------------------------------------------------- frequencies

  /** The three codes. */
  datatype Kind = Lits | Lens | Dists

  function Size(k: Kind): nat {
    if k == Lits then LIT_SYMS else SYMS
  }

  /** The symbol of a code that a token is written with, or none. */
  function SymOf(k: Kind, mode: Mode, t: Token): (s: int)
    requires ImplodeFormat.TokenOk(mode, t)
    ensures -1 <= s < Size(k)
  {
    match t
    case Lit(b) => if k == Lits then b else -1
    case Ref(dist, len) => if k == Lits then -1 else if k == Lens then LenSym(mode, len) else DistSym(mode, dist)
  }

  /** How often each symbol occurs. */
  function Freqs(k: Kind, mode: Mode, ts: seq<Token>): (f: seq<nat>)
    requires TokensOk(mode, ts)
    ensures |f| == Size(k)
  {
    if ts == [] then NoFreqs(Size(k))
    else
      var f, s := Freqs(k, mode, ts[..|ts| - 1]), SymOf(k, mode, ts[|ts| - 1]);
      if s < 0 then f else Bump(f, s)
  }

  lemma OccurrencesNext(k: Kind, mode: Mode, ts: seq<Token>, t: Token)
    requires TokensOk(mode, ts) && ImplodeFormat.TokenOk(mode, t)
    ensures TokensOk(mode, ts + [t])
    ensures var f, s := Freqs(k, mode, ts), SymOf(k, mode, t);
            Freqs(k, mode, ts + [t]) == if s < 0 then f else Bump(f, s)
  {
    hide SymOf, Bump, ImplodeFormat.TokenOk;
    assert (ts + [t])[..|ts|] == ts;
  }

  /** There are no more occurrences than tokens. */
  lemma {:induction false} SumOfOccurrences(k: Kind, mode: Mode, ts: seq<Token>)
    requires TokensOk(mode, ts)
    ensures Sum(Freqs(k, mode, ts)) <= |ts|
  {
    hide Sum, Bump, NoFreqs, SymOf, ImplodeFormat.TokenOk;
    if ts == [] {
      SumOfNone(Size(k));
    } else {
      var n := |ts| - 1;
      SumOfOccurrences(k, mode, ts[..n]);
      if SymOf(k, mode, ts[n]) >= 0 {
        SumOfBump(Freqs(k, mode, ts[..n]), SymOf(k, mode, ts[n]));
      }
    }
  }

  function ZeroCount(freqs: seq<nat>): (n: nat)
    ensures n <= |freqs|
  {
    if freqs == [] then 0 else ZeroCount(freqs[..|freqs| - 1]) + if freqs[|freqs| - 1] == 0 then 1 else 0
  }

  /** The frequencies times a factor, those that are zero being 1. */
  function Times(freqs: seq<nat>, factor: nat): (f: seq<nat>)
    ensures |f| == |freqs|
  {
    seq(|freqs|, i requires 0 <= i < |freqs| => if freqs[i] == 0 then 1 else freqs[i] * factor)
  }

  lemma SomeCounted(freqs: seq<nat>)
    requires freqs != []
    ensures Sum(freqs) + ZeroCount(freqs) > 0
  {
  }

  /** The greatest factor with which the sum fits in 16 bits. */
  function Factor(freqs: seq<nat>): nat
    requires freqs != []
  {
    SomeCounted(freqs);
    0xFFFF / (Sum(freqs) + ZeroCount(freqs))
  }

  /** The frequencies that the code is made for. */
  function Scaled(freqs: seq<nat>): (f: seq<nat>)
    requires freqs != []
    ensures |f| == |freqs|
  {
    Times(freqs, Factor(freqs))
  }

  lemma {:induction false} SumOfTimes(freqs: seq<nat>, factor: nat)
    ensures Sum(Times(freqs, factor)) == factor * Sum(freqs) + ZeroCount(freqs)
  {
    if freqs != [] {
      var n := |freqs| - 1;
      SumOfTimes(freqs[..n], factor);
      assert Times(freqs, factor)[..n] == Times(freqs[..n], factor);
      Distribute(factor, Sum(freqs[..n]), freqs[n]);
    }
  }

  /** Scaled frequencies never exceed 16 bits in total, and none is zero. */
  lemma ScaledFit(freqs: seq<nat>)
    requires freqs != [] && |freqs| <= LIT_SYMS && Sum(freqs) <= BUFFER_CAP
    ensures Factor(freqs) >= 1 && Sum(Scaled(freqs)) <= 0xFFFF
    ensures forall i :: 0 <= i < |freqs| ==> Scaled(freqs)[i] >= 1
    ensures FreqsOk(Scaled(freqs))
  {
    hide Sum, ZeroCount;
    SomeCounted(freqs);
    var n, k := Sum(freqs) + ZeroCount(freqs), Factor(freqs);
    DivBack(0xFFFF, n);
    SumOfTimes(freqs, k);
    Distribute(k, Sum(freqs), ZeroCount(freqs));
    AtLeast(k, ZeroCount(freqs));
    forall i | 0 <= i < |freqs|
      ensures Scaled(freqs)[i] >= 1
    {
      AtLeast(k, freqs[i]);
    }
  }

  lemma DivBack(a: nat, n: nat)
    requires 0 < n <= a
    ensures a / n >= 1 && a / n * n <= a
  {
  }

  lemma AtLeast(k: nat, a: nat)
    requires k >= 1
    ensures a <= k * a && a * k == k * a
  {
  }

  // ---------------------------------------------------------------- codes

  /** A full code that no other prefix code betters for the scaled frequencies, under the first of the
      caps that leaves no codeword longer than 16 bits. */
  ghost predicate GoodCode(freqs: seq<nat>, lens: seq<nat>) {
    && freqs != [] && FullCode(lens, |freqs|)
    && exists cap: nat :: GoodLengths(Scaled(freqs), lens, MAX_BITS, cap)
  }

  lemma {:induction false} AllUsed(freqs: seq<nat>, i: nat)
    requires i <= |freqs| && forall k :: 0 <= k < |freqs| ==> freqs[k] > 0
    ensures UsedBefore(freqs, i) == i
  {
    if i > 0 {
      AllUsed(freqs, i - 1);
    }
  }

  lemma LengthsAreGood(freqs: seq<nat>, lens: seq<nat>, cap: nat)
    requires 2 <= |freqs| <= LIT_SYMS && forall i :: 0 <= i < |freqs| ==> Scaled(freqs)[i] >= 1
    requires UsedBefore(Scaled(freqs), |freqs|) >= 2 ==> GoodLengths(Scaled(freqs), lens, MAX_BITS, cap)
    ensures GoodCode(freqs, lens)
  {
    hide Optimal, Used, Scaled, Pow2, GoodLengths, UsedBefore, FullCode;
    AllUsed(Scaled(freqs), |freqs|);
    AllHaveCodewords(Scaled(freqs), lens, cap);
  }

  lemma AllHaveCodewords(f: seq<nat>, lens: seq<nat>, cap: nat)
    requires GoodLengths(f, lens, MAX_BITS, cap) && |f| <= LIT_SYMS && forall i :: 0 <= i < |f| ==> f[i] >= 1
    ensures FullCode(lens, |f|)
  {
    hide Optimal, Used, Pow2, Tried, Depths, Spread, Capped;
  }

  /** The encoder writes codewords with all bits flipped. */
  ghost predicate FlippedOk(codewords: seq<nat>, lens: seq<nat>, n: nat) {
    && n <= |lens| <= |codewords|
    && forall s :: 0 <= s < n ==>
         codewords[s] < Pow2(lens[s]) && ToBits(codewords[s], lens[s]) == FlippedCodeword(lens, s)
  }

  ghost predicate FlippedFor(e: Encoder, lens: seq<nat>)
    reads e.codewords, e.lengths
  {
    e.Shape() && |lens| <= MAX_SYMBOLS && e.lengths[..|lens|] == lens && FlippedOk(e.codewords[..], lens, |lens|)
  }

  /** Flipping the low bits of a number. */
  lemma FlipLow(x: nat, l: nat)
    requires l <= MAX_BITS && x < Pow2(l)
    ensures x <= 0xFFFF && Lsb(0xFFFF - x, l) < Pow2(l)
    ensures ToBits(Lsb(0xFFFF - x, l), l) == Flip(ToBits(x, l))
  {
    hide Flip, ToBits, Lsb, Pow2;
    Pow2Mono(l, MAX_BITS);
    Pow2Word();
    ExplodeCodec.FlipNumber(x, MAX_BITS);
    HuffmanDecoder.ToBitsPrefix(x, l, MAX_BITS);
    HuffmanDecoder.ToBitsPrefix(0xFFFF - x, l, MAX_BITS);
    ExplodeCodec.FlipTake(ToBits(x, MAX_BITS), l);
    SplitNumber(0xFFFF - x, l);
    LsbBits(0xFFFF - x, l);
    ToFromBits(ToBits(0xFFFF - x, l));
  }

  /** Half of the codewords have been flipped. */
  ghost predicate HalfFlipped(codewords: seq<nat>, lens: seq<nat>, i: nat) {
    && FlippedOk(codewords, lens, i)
    && forall s :: i <= s < |lens| ==> codewords[s] < Pow2(lens[s]) && ToBits(codewords[s], lens[s]) == Codeword(lens, s)
  }

  lemma FlipNext(codewords: seq<nat>, lens: seq<nat>, i: nat)
    requires HalfFlipped(codewords, lens, i) && i < |lens| && lens[i] <= MAX_BITS
    ensures i < |codewords| && codewords[i] <= 0xFFFF
    ensures HalfFlipped(codewords[i := Lsb(0xFFFF - codewords[i], lens[i])], lens, i + 1)
  {
    hide Codeword, Flip, Lsb, Pow2, ToBits;
    FlipLow(codewords[i], lens[i]);
  }

  lemma NoneFlipped(codewords: seq<nat>, lens: seq<nat>)
    requires CodewordsOk(codewords, lens, |lens|) && forall s :: 0 <= s < |lens| ==> lens[s] > 0
    ensures HalfFlipped(codewords, lens, 0)
  {
    hide Codeword, Flip;
  }

  /** init_encoder(): no symbol is left without a codeword, and all codewords are used. */
  method InitEncoder(e: Encoder, freqs: seq<nat>) returns (ghost lens: seq<nat>)
    requires e.Shape() && 2 <= |freqs| <= LIT_SYMS && Sum(freqs) <= BUFFER_CAP
    modifies e.codewords, e.lengths
    ensures FlippedFor(e, lens) && GoodCode(freqs, lens)
  {
    hide Sum, ZeroCount, GoodCode, GoodLengths, UsedBefore, FreqsOk, HalfFlipped, CodewordsOk, Codeword, Fits, Pow2, Optimal,
         Depths, Scaled, Factor;
    ScaledFit(freqs);
    var f := ScaleFreqs(freqs);
    assert |f| <= Pow2(16) by { Pow2Word(); }
    ghost var cap;
    lens, cap := InitFromFrequencies(e, f, 16);
    LengthsAreGood(freqs, lens, cap);
    GoodIsFull(freqs, lens);
    NoneFlipped(e.codewords[..], lens);
    var i := 0;
    while i < |freqs|
      invariant i <= |freqs| && e.Shape() && e.lengths[..|lens|] == lens && HalfFlipped(e.codewords[..], lens, i)
    {
      FlipNext(e.codewords[..], lens, i);
      assert e.lengths[i] == e.lengths[..|lens|][i];
      e.codewords[i] := Lsb(0xFFFF - e.codewords[i], e.lengths[i]);
      i := i + 1;
    }
    AllFlipped(e.codewords[..], lens);
  }

  lemma AllFlipped(codewords: seq<nat>, lens: seq<nat>)
    requires HalfFlipped(codewords, lens, |lens|)
    ensures FlippedOk(codewords, lens, |lens|)
  {
  }

  lemma GoodIsFull(freqs: seq<nat>, lens: seq<nat>)
    requires GoodCode(freqs, lens)
    ensures FullCode(lens, |freqs|) && |lens| == |freqs| && forall s :: 0 <= s < |lens| ==> 1 <= lens[s] <= MAX_BITS
  {
    hide Used, Optimal, GoodLengths;
  }

  lemma SumsNext(freqs: seq<nat>, i: nat)
    requires i < |freqs|
    ensures Sum(freqs[..i + 1]) == Sum(freqs[..i]) + freqs[i]
    ensures ZeroCount(freqs[..i + 1]) == ZeroCount(freqs[..i]) + if freqs[i] == 0 then 1 else 0
  {
    assert freqs[..i + 1][..i] == freqs[..i];
  }

  /** The first loop of init_encoder(). */
  method AddFreqs(freqs: seq<nat>) returns (freqSum: nat, zeroFreqs: nat)
    ensures freqSum == Sum(freqs) && zeroFreqs == ZeroCount(freqs)
  {
    assert freqs[..0] == [];
    freqSum, zeroFreqs := 0, 0;
    var i := 0;
    while i < |freqs|
      invariant i <= |freqs| && freqSum == Sum(freqs[..i]) && zeroFreqs == ZeroCount(freqs[..i])
    {
      SumsNext(freqs, i);
      freqSum := freqSum + freqs[i];
      if freqs[i] == 0 {
        zeroFreqs := zeroFreqs + 1;
      }
      i := i + 1;
    }
    assert freqs[..i] == freqs;
  }

  /** The second loop of init_encoder(). */
  method ScaleFreqs(freqs: seq<nat>) returns (f: seq<nat>)
    requires 2 <= |freqs| <= LIT_SYMS && Sum(freqs) <= BUFFER_CAP
    ensures f == Scaled(freqs)
  {
    hide Sum, ZeroCount, Times;
    var freqSum, zeroFreqs := AddFreqs(freqs);
    SomeCounted(freqs);
    var scaleFactor := 0xFFFF / (freqSum + zeroFreqs);
    f := freqs;
    var i := 0;
    while i < |freqs|
      invariant i <= |freqs| == |f|
      invariant forall k :: 0 <= k < i ==> f[k] == Times(freqs, scaleFactor)[k]
      invariant forall k :: i <= k < |freqs| ==> f[k] == freqs[k]
    {
      TimesAt(freqs, scaleFactor, i);
      f := f[i := if f[i] == 0 then 1 else f[i] * scaleFactor];
      i := i + 1;
    }
  }

  lemma TimesAt(freqs: seq<nat>, factor: nat, i: nat)
    requires i < |freqs|
    ensures Times(freqs, factor)[i] == if freqs[i] == 0 then 1 else freqs[i] * factor
  {
  }

  // ---------------------------------------------------------------- writing

  /** Writes the next of the bits that are to be written, all of which together are `total`. */
  method Put(os: OStream, v: nat, n: nat, ghost rest: seq<bool>, ghost total: seq<bool>) returns (ok: bool)
    requires os.Valid() && n <= 57 && v < Pow2(n) && os.written + (ToBits(v, n) + rest) == total
    modifies os, os.dst
    ensures os.Valid() && (ok ==> os.written + rest == total)
    ensures !ok ==> |total| > 8 * os.dst.Length
  {
    hide ToBits, Pow2;
    assert os.written + (ToBits(v, n) + rest) == os.written + ToBits(v, n) + rest;
    ok := os.Write(v, n);
  }

  /** Run-length encodes codeword lengths. */
  method MakeRuns(lens: seq<nat>) returns (rle: seq<Run>)
    requires lens != []
    ensures rle == RunsOf(lens)
  {
    rle := [Run(lens[0], 1)];
    assert lens[..1][..0] == [];
    var i := 1;
    while i < |lens|
      invariant 1 <= i <= |lens| && rle == RunsOf(lens[..i])
    {
      assert lens[..i + 1][..i] == lens[..i];
      var n := |rle| - 1;
      if rle[n].len == lens[i] && rle[n].num < 16 {
        rle := rle[n := Run(lens[i], rle[n].num + 1)];
      } else {
        rle := rle + [Run(lens[i], 1)];
      }
      i := i + 1;
    }
    assert lens[..i] == lens;
  }

  lemma RunsNext(runs: seq<Run>, i: nat)
    requires RunsOk(runs) && i < |runs|
    ensures RunsOk(runs[i..]) && RunsOk(runs[i + 1..]) && 1 <= runs[i].len <= 16 && 1 <= runs[i].num <= 16
    ensures RunsBits(runs[i..]) == ToBits(runs[i].len - 1, 4) + (ToBits(runs[i].num - 1, 4) + RunsBits(runs[i + 1..]))
  {
    hide ToBits;
    assert runs[i..][1..] == runs[i + 1..];
    assert runs[i] in runs;
    var a, b, c := ToBits(runs[i].len - 1, 4), ToBits(runs[i].num - 1, 4), RunsBits(runs[i + 1..]);
    assert a + b + c == a + (b + c);
  }

  lemma NoRuns(runs: seq<Run>, i: nat)
    requires i == |runs|
    ensures RunsOk(runs[i..]) && RunsBits(runs[i..]) == []
  {
  }

  /** write_huffman_code(); rest is what is to be written after it. */
  method WriteHuffmanCode(os: OStream, codewordLengths: seq<nat>, ghost rest: seq<bool>, ghost total: seq<bool>) returns (ok: bool)
    requires os.Valid() && 0 < |codewordLengths| <= LIT_SYMS
    requires forall s :: 0 <= s < |codewordLengths| ==> 1 <= codewordLengths[s] <= 16
    requires os.written + (CodeBits(codewordLengths) + rest) == total
    modifies os, os.dst
    ensures os.Valid() && (ok ==> os.written + rest == total)
    ensures !ok ==> |total| > 8 * os.dst.Length
  {
    hide ToBits, Pow2, RunsBits, RunsOf, RunsOk;
    RunsRound(codewordLengths);
    var rle := MakeRuns(codewordLengths);
    assert rle[0..] == rle;
    CodeIs(codewordLengths, rle, rest);
    Powers();
    ok := Put(os, |rle| - 1, 8, RunsBits(rle) + rest, total);
    if !ok {
      return;
    }
    var i := 0;
    while i < |rle|
      invariant i <= |rle| && os.Valid() && RunsOk(rle) && RunsOk(rle[i..]) && os.written + (RunsBits(rle[i..]) + rest) == total
    {
      RunsNext(rle, i);
      ghost var a, b, c := ToBits(rle[i].len - 1, 4), ToBits(rle[i].num - 1, 4), RunsBits(rle[i + 1..]);
      assert a + (b + c) + rest == a + (b + (c + rest));
      ok := Put(os, rle[i].len - 1, 4, b + (c + rest), total);
      if !ok {
        return;
      }
      ok := Put(os, rle[i].num - 1, 4, c + rest, total);
      if !ok {
        return;
      }
      i := i + 1;
    }
    NoRuns(rle, i);
    assert [] + rest == rest;
    ok := true;
  }

  lemma CodeIs(lens: seq<nat>, rle: seq<Run>, rest: seq<bool>)
    requires rle == RunsOf(lens) && lens != [] && forall s :: 0 <= s < |lens| ==> 1 <= lens[s] <= 16
    ensures RunsOk(rle) && CodeBits(lens) + rest == ToBits(|rle| - 1, 8) + (RunsBits(rle) + rest)
  {
    hide ToBits, RunsBits, RunsOf;
    RunsRound(lens);
  }

  // ---------------------------------------------------------------- what is chosen

  lemma HeadOk(mode: Mode, all: seq<Token>)
    requires TokensOk(mode, all)
    ensures TokensOk(mode, Head(all)) && |Head(all)| <= BUFFER_CAP
  {
  }

  /** The codes made so far are good ones for these tokens; a code that has not been made has no lengths. */
  ghost predicate Begun(mode: Mode, head: seq<Token>, c: Codes)
    requires TokensOk(mode, head)
  {
    && InRange(c) && (!mode.litTree ==> c.lit == [])
    && (c.lit != [] ==> GoodCode(Freqs(Lits, mode, head), c.lit))
    && (c.len != [] ==> GoodCode(Freqs(Lens, mode, head), c.len))
    && (c.dist != [] ==> GoodCode(Freqs(Dists, mode, head), c.dist))
  }

  /** The codes that tokens are written with. */
  ghost predicate Chosen(mode: Mode, all: seq<Token>, c: Codes)
    requires TokensOk(mode, all)
  {
    HeadOk(mode, all);
    FullCodes(mode, c) && Begun(mode, Head(all), c)
  }

  /** The codes, or they and the tokens, take more room than there is. */
  ghost predicate TooLong(mode: Mode, all: seq<Token>, c: Codes, cap: nat)
    requires TokensOk(mode, all)
  {
    HeadOk(mode, all);
    && Begun(mode, Head(all), c)
    && (|CodesBits(c)| > 8 * cap || (FullCodes(mode, c) && |ImplodedBits(mode, c, all)| > 8 * cap))
  }

  lemma OneCode(lit: seq<nat>, len: seq<nat>, dist: seq<nat>)
    requires InRange(Codes(lit, len, dist))
    ensures InRange(Codes(lit, [], [])) && InRange(Codes(lit, len, []))
    ensures CodesBits(Codes([], [], [])) == []
    ensures CodesBits(Codes(lit, [], [])) == CodeBits(lit)
    ensures CodesBits(Codes(lit, len, [])) == CodeBits(lit) + CodeBits(len)
    ensures CodesBits(Codes(lit, len, dist)) == CodeBits(lit) + CodeBits(len) + CodeBits(dist)
  {
    hide CodeBits;
    NoCode();
    assert CodeBits(lit) + ([] + []) == CodeBits(lit);
    assert CodeBits(lit) + (CodeBits(len) + []) == CodeBits(lit) + CodeBits(len);
  }

  // ---------------------------------------------------------------- the state

  /** An element of the buffer: a literal if the distance is 0, else a back reference and its length. */
  datatype Slot = Slot(dist: nat, litlen: nat)

  function SlotOf(t: Token): Slot {
    match t
    case Lit(b) => Slot(0, b)
    case Ref(dist, len) => Slot(dist, len)
  }

  ghost predicate Apart(a: Encoder, b: Encoder) {
    a.codewords != b.codewords && a.codewords != b.lengths && a.lengths != b.codewords && a.lengths != b.lengths
  }

  /** implode_state_t */
  class Imploder {
    const os: OStream
    const mode: Mode
    const buffer: array<Slot>
    var bufferSize: nat
    var bufferFlushed: bool
    var litFreqs: seq<nat>
    var distSymFreqs: seq<nat>
    var lenSymFreqs: seq<nat>
    const litEncoder: Encoder
    const lenEncoder: Encoder
    const distEncoder: Encoder
    /** All tokens to be written, how many have been written or buffered, and the codes once they are made. */
    ghost const all: seq<Token>
    ghost var pos: nat
    ghost var codes: Codes

    ghost predicate Shape() {
      && buffer.Length == BUFFER_CAP && TokensOk(mode, all)
      && litEncoder.Shape() && lenEncoder.Shape() && distEncoder.Shape()
      && Apart(litEncoder, lenEncoder) && Apart(litEncoder, distEncoder) && Apart(lenEncoder, distEncoder)
      && Outside(litEncoder) && Outside(lenEncoder) && Outside(distEncoder)
      && (os as object) != buffer && (os.dst as object) != buffer
    }

    ghost predicate Outside(e: Encoder) {
      e.Avoids(os) && e.Avoids(os.dst) && e.Avoids(buffer) && e.Avoids(this)
    }

    /** The encoders are for the codes. */
    ghost predicate Encoders(c: Codes)
      reads litEncoder.codewords, litEncoder.lengths, lenEncoder.codewords, lenEncoder.lengths,
            distEncoder.codewords, distEncoder.lengths
    {
      && FullCodes(mode, c) && (mode.litTree ==> FlippedFor(litEncoder, c.lit))
      && FlippedFor(lenEncoder, c.len) && FlippedFor(distEncoder, c.dist)
    }

    /** What has been written, and after it the tokens from k on, is all that is to be written. */
    ghost predicate Written(k: nat)
      requires Shape()
      reads this, os, os.dst, litEncoder.codewords, litEncoder.lengths, lenEncoder.codewords, lenEncoder.lengths,
            distEncoder.codewords, distEncoder.lengths
    {
      && os.Valid() && Encoders(codes) && Chosen(mode, all, codes) && k <= |all| && TokensOk(mode, all[k..])
      && os.written + TokensBits(mode, codes, all[k..]) == ImplodedBits(mode, codes, all)
    }

    /** The buffer and the frequencies are those of the first tokens. */
    ghost predicate Collected()
      requires Shape()
      reads this, buffer
    {
      && pos == bufferSize <= BUFFER_CAP && pos <= |all| && TokensOk(mode, all[..pos])
      && (forall i :: 0 <= i < pos ==> buffer[i] == SlotOf(all[i]))
      && litFreqs == Freqs(Lits, mode, all[..pos]) && distSymFreqs == Freqs(Dists, mode, all[..pos])
      && lenSymFreqs == Freqs(Lens, mode, all[..pos])
    }

    ghost predicate Buffered()
      requires Shape()
      reads this, os, os.dst, buffer
    {
      os.Valid() && os.written == [] && Collected() && pos < BUFFER_CAP
    }

    ghost predicate Valid()
      reads this, os, os.dst, buffer, litEncoder.codewords, litEncoder.lengths, lenEncoder.codewords, lenEncoder.lengths,
            distEncoder.codewords, distEncoder.lengths
    {
      Shape() && if bufferFlushed then Written(pos) else Buffered()
    }

    constructor (dst: array<byte>, mode: Mode, ghost all: seq<Token>)
      requires TokensOk(mode, all)
      ensures Valid() && os.dst == dst && this.mode == mode && this.all == all && pos == 0 && !bufferFlushed
      ensures fresh(os) && fresh(buffer) && fresh(litEncoder.codewords) && fresh(litEncoder.lengths)
      ensures fresh(lenEncoder.codewords) && fresh(lenEncoder.lengths)
      ensures fresh(distEncoder.codewords) && fresh(distEncoder.lengths)
    {
      hide NoFreqs;
      os := new OStream(dst);
      this.mode, this.all := mode, all;
      buffer := new Slot[BUFFER_CAP];
      bufferSize, bufferFlushed, pos, codes := 0, false, 0, Codes([], [], []);
      litFreqs, distSymFreqs, lenSymFreqs := NoFreqs(LIT_SYMS), NoFreqs(SYMS), NoFreqs(SYMS);
      litEncoder := new Encoder();
      lenEncoder := new Encoder();
      distEncoder := new Encoder();
      new;
      assert all[..0] == [];
    }

    // ------------------------------------------------------------ codes

    /** Makes a code and writes it. */
    method MakeCode(e: Encoder, freqs: seq<nat>) returns (ok: bool, ghost lens: seq<nat>)
      requires os.Valid() && e.Shape() && Outside(e) && 2 <= |freqs| <= LIT_SYMS && Sum(freqs) <= BUFFER_CAP
      modifies e.codewords, e.lengths, os, os.dst
      ensures FlippedFor(e, lens) && GoodCode(freqs, lens) && os.Valid()
      ensures ok == (|old(os.written)| + |CodeBits(lens)| <= 8 * os.dst.Length)
      ensures ok ==> os.written == old(os.written) + CodeBits(lens)
    {
      hide FlippedOk, GoodCode, CodeBits;
      lens := InitEncoder(e, freqs);
      GoodIsFull(freqs, lens);
      ghost var w := os.written;
      assert w + (CodeBits(lens) + []) == w + CodeBits(lens);
      ok := WriteHuffmanCode(os, e.lengths[..|freqs|], [], w + CodeBits(lens));
      assert os.written + [] == os.written;
    }

    static lemma FewOccurrences(mode: Mode, all: seq<Token>)
      requires TokensOk(mode, all)
      ensures TokensOk(mode, Head(all)) && forall k :: Sum(Freqs(k, mode, Head(all))) <= BUFFER_CAP
    {
      hide Sum, Freqs;
      HeadOk(mode, all);
      forall k: Kind
        ensures Sum(Freqs(k, mode, Head(all))) <= BUFFER_CAP
      {
        SumOfOccurrences(k, mode, Head(all));
      }
    }

    static lemma CodesBegun(mode: Mode, head: seq<Token>, lit: seq<nat>, len: seq<nat>, dist: seq<nat>)
      requires TokensOk(mode, head)
      requires mode.litTree ==> GoodCode(Freqs(Lits, mode, head), lit)
      requires !mode.litTree ==> lit == []
      requires len != [] ==> GoodCode(Freqs(Lens, mode, head), len)
      requires dist != [] ==> GoodCode(Freqs(Dists, mode, head), dist)
      ensures InRange(Codes(lit, len, dist)) && Begun(mode, head, Codes(lit, len, dist))
      ensures len != [] && dist != [] ==> FullCodes(mode, Codes(lit, len, dist))
    {
      hide Freqs, GoodCode, FullCode;
      if mode.litTree {
        GoodIsFull(Freqs(Lits, mode, head), lit);
      }
      if len != [] {
        GoodIsFull(Freqs(Lens, mode, head), len);
      }
      if dist != [] {
        GoodIsFull(Freqs(Dists, mode, head), dist);
      }
    }

    static lemma Decided(mode: Mode, all: seq<Token>, c: Codes, cap: nat)
      requires TokensOk(mode, all) && TokensOk(mode, Head(all)) && InRange(c) && Begun(mode, Head(all), c)
      ensures FullCodes(mode, c) ==> Chosen(mode, all, c)
      ensures |CodesBits(c)| > 8 * cap ==> TooLong(mode, all, c, cap)
    {
      hide Begun, InRange, CodesBits, FullCodes;
    }

    /** The first part of flush_buffer(): the codes. */
    method WriteCodes() returns (ok: bool, ghost c: Codes)
      requires Shape() && os.Valid() && os.written == [] && Collected() && all[..pos] == Head(all)
      modifies os, os.dst, litEncoder.codewords, litEncoder.lengths, lenEncoder.codewords, lenEncoder.lengths,
               distEncoder.codewords, distEncoder.lengths
      ensures os.Valid()
      ensures ok ==> Encoders(c) && Chosen(mode, all, c) && os.written == CodesBits(c)
      ensures !ok ==> TooLong(mode, all, c, os.dst.Length)
    {
      hide FlippedFor, GoodCode, CodeBits, Freqs, FullCode, Sum, Head, InRange, CodesBits, Chosen, TooLong;
      FewOccurrences(mode, all);
      ghost var lit := [];
      NoCode();
      assert [] + CodeBits([]) == [];
      ok := true;
      if mode.litTree {
        ok, lit := MakeCode(litEncoder, litFreqs);
      }
      c := Codes(lit, [], []);
      CodesBegun(mode, Head(all), lit, [], []);
      OneCode(lit, [], []);
      Decided(mode, all, c, os.dst.Length);
      if !ok {
        return;
      }
      ok, c := WriteLenDist(lit);
    }

    /** The codes for lengths and distances, after that for literals. */
    method WriteLenDist(ghost lit: seq<nat>) returns (ok: bool, ghost c: Codes)
      requires Shape() && os.Valid() && Collected() && all[..pos] == Head(all) && TokensOk(mode, Head(all))
      requires mode.litTree ==> GoodCode(Freqs(Lits, mode, Head(all)), lit) && FlippedFor(litEncoder, lit)
      requires !mode.litTree ==> lit == []
      requires InRange(Codes(lit, [], [])) && os.written == CodesBits(Codes(lit, [], []))
      modifies os, os.dst, lenEncoder.codewords, lenEncoder.lengths, distEncoder.codewords, distEncoder.lengths
      ensures os.Valid()
      ensures ok ==> Encoders(c) && Chosen(mode, all, c) && os.written == CodesBits(c)
      ensures !ok ==> TooLong(mode, all, c, os.dst.Length)
    {
      hide FlippedFor, GoodCode, CodeBits, Freqs, FullCodes, Sum, Head, InRange, CodesBits, Chosen, TooLong;
      FewOccurrences(mode, all);
      ghost var len, dist;
      ok, len := MakeCode(lenEncoder, lenSymFreqs);
      c := Codes(lit, len, []);
      CodesBegun(mode, Head(all), lit, len, []);
      OneCode(lit, len, []);
      Decided(mode, all, c, os.dst.Length);
      if !ok {
        return;
      }
      ok, dist := MakeCode(distEncoder, distSymFreqs);
      c := Codes(lit, len, dist);
      CodesBegun(mode, Head(all), lit, len, dist);
      OneCode(lit, len, dist);
      Decided(mode, all, c, os.dst.Length);
      NotEmpty(Freqs(Lens, mode, Head(all)), len);
      NotEmpty(Freqs(Dists, mode, Head(all)), dist);
    }

    static lemma NotEmpty(freqs: seq<nat>, lens: seq<nat>)
      requires GoodCode(freqs, lens)
      ensures lens != []
    {
    }

    // ------------------------------------------------------------ tokens

    /** write_lit(); rest is what is to be written after it. */
    method WriteLit(lit: byte, ghost rest: seq<bool>, ghost total: seq<bool>) returns (ok: bool)
      requires Shape() && Encoders(codes) && os.Valid() && os.written + (TokenBits(mode, codes, Lit(lit)) + rest) == total
      modifies os, os.dst
      ensures os.Valid() && (ok ==> os.written + rest == total)
      ensures !ok ==> |total| > 8 * os.dst.Length
    {
      hide FlippedFor, FlippedCodeword, ToBits, FullCode;
      ghost var b := LitBits(mode, codes, lit);
      LitIs(mode, codes, lit, rest);
      Powers();
      assert Pow2(1) == 2;
      hide Pow2, LitBits, TokenBits;
      ok := Put(os, 1, 1, b + rest, total);
      if !ok {
        return;
      }
      if mode.litTree {
        FlippedAt(litEncoder, codes.lit, LIT_SYMS, lit);
        ok := Put(os, litEncoder.codewords[lit], litEncoder.lengths[lit], rest, total);
      } else {
        ok := Put(os, lit, 8, rest, total);
      }
    }

    static lemma LitIs(mode: Mode, c: Codes, lit: byte, rest: seq<bool>)
      requires FullCodes(mode, c)
      ensures TokenBits(mode, c, Lit(lit)) + rest == ToBits(1, 1) + (LitBits(mode, c, lit) + rest)
      ensures LitBits(mode, c, lit) == if mode.litTree then FlippedCodeword(c.lit, lit) else ToBits(lit, 8)
    {
      hide FlippedCodeword, FullCodes;
      assert ToBits(1, 1) == [true];
      hide ToBits, LitBits;
      assert [true] + LitBits(mode, c, lit) + rest == [true] + (LitBits(mode, c, lit) + rest);
    }

    static lemma FlippedAt(e: Encoder, lens: seq<nat>, n: nat, s: nat)
      requires FlippedFor(e, lens) && FullCode(lens, n) && s < n
      ensures s < |lens| && s < e.codewords.Length && s < e.lengths.Length && e.lengths[s] == lens[s] <= MAX_BITS
      ensures e.codewords[s] < Pow2(lens[s]) && ToBits(e.codewords[s], lens[s]) == FlippedCodeword(lens, s)
    {
      hide FlippedCodeword, Used;
      assert e.lengths[..|lens|][s] == lens[s];
      assert e.codewords[..][s] == e.codewords[s];
    }

    /** The parts of a reference, in the order in which they are written. */
    static lemma RefIs(mode: Mode, c: Codes, dist: nat, len: nat, rest: seq<bool>)
      requires FullCodes(mode, c) && ImplodeFormat.TokenOk(mode, Ref(dist, len))
      ensures |c.dist| == |c.len| == SYMS
      ensures var k, d, l := mode.DistBits(), DistSym(mode, dist), LenSym(mode, len);
              TokenBits(mode, c, Ref(dist, len)) + rest
              == ToBits(0, 1) + (ToBits(Lsb(dist - 1, k), k) + (FlippedCodeword(c.dist, d)
                 + (FlippedCodeword(c.len, l) + (ExtraBits(mode, len) + rest))))
    {
      hide FlippedCodeword, Lsb, ExtraBits, DistSym, LenSym;
      var k, d, l := mode.DistBits(), DistSym(mode, dist), LenSym(mode, len);
      assert ToBits(0, 1) == [false];
      hide ToBits;
      Concats(ToBits(Lsb(dist - 1, k), k), FlippedCodeword(c.dist, d), FlippedCodeword(c.len, l), ExtraBits(mode, len), rest);
    }

    static lemma Concats(a: seq<bool>, b: seq<bool>, c: seq<bool>, d: seq<bool>, e: seq<bool>)
      ensures [false] + (a + (b + (c + d))) + e == [false] + (a + (b + (c + (d + e))))
    {
    }

    /** write_backref() */
    method WriteBackref(dist: nat, len: nat, ghost rest: seq<bool>, ghost total: seq<bool>) returns (ok: bool)
      requires Shape() && Encoders(codes) && os.Valid() && ImplodeFormat.TokenOk(mode, Ref(dist, len))
      requires os.written + (TokenBits(mode, codes, Ref(dist, len)) + rest) == total
      modifies os, os.dst
      ensures os.Valid() && (ok ==> os.written + rest == total)
      ensures !ok ==> |total| > 8 * os.dst.Length
    {
      hide FlippedFor, FlippedCodeword, ToBits, FullCode, Pow2, TokenBits, Lsb, ExtraBits, DistSym, LenSym;
      var d, l := DistSym(mode, dist), LenSym(mode, len);
      var numDistBits := mode.DistBits();
      RefIs(mode, codes, dist, len, rest);
      ghost var low, dw, lw, e := ToBits(Lsb(dist - 1, numDistBits), numDistBits), FlippedCodeword(codes.dist, d),
                                  FlippedCodeword(codes.len, l), ExtraBits(mode, len);
      assert Pow2(1) == 2 by { PowOne(); }
      ok := Put(os, 0, 1, low + (dw + (lw + (e + rest))), total);
      if !ok {
        return;
      }
      SplitNumber(dist - 1, numDistBits);
      ok := Put(os, Lsb(dist - 1, numDistBits), numDistBits, dw + (lw + (e + rest)), total);
      if !ok {
        return;
      }
      FlippedAt(distEncoder, codes.dist, SYMS, d);
      ok := Put(os, distEncoder.codewords[d], distEncoder.lengths[d], lw + (e + rest), total);
      if !ok {
        return;
      }
      FlippedAt(lenEncoder, codes.len, SYMS, l);
      ok := Put(os, lenEncoder.codewords[l], lenEncoder.lengths[l], e + rest, total);
      if !ok {
        return;
      }
      ExtraIs(mode, len, rest);
      if l == 63 {
        var extraLen: nat := len - 63 - mode.MinLen();
        ok := Put(os, extraLen, 8, rest, total);
      }
    }

    static lemma PowOne()
      ensures Pow2(1) == 2
    {
    }

    static lemma ExtraIs(mode: Mode, len: nat, rest: seq<bool>)
      requires mode.MinLen() <= len <= mode.MaxLen()
      ensures LenSym(mode, len) == 63 ==> 0 <= len - 63 - mode.MinLen() < Pow2(8)
      ensures LenSym(mode, len) == 63 ==> ExtraBits(mode, len) == ToBits(len - 63 - mode.MinLen(), 8)
      ensures LenSym(mode, len) != 63 ==> ExtraBits(mode, len) + rest == rest
    {
      hide ToBits;
      Powers();
    }

    static lemma TokensNext(mode: Mode, c: Codes, all: seq<Token>, k: nat)
      requires FullCodes(mode, c) && TokensOk(mode, all) && k < |all|
      ensures TokensOk(mode, all[k..]) && TokensOk(mode, all[k + 1..]) && ImplodeFormat.TokenOk(mode, all[k])
      ensures TokensBits(mode, c, all[k..]) == TokenBits(mode, c, all[k]) + TokensBits(mode, c, all[k + 1..])
    {
      hide FullCodes, TokenBits, ImplodeFormat.TokenOk;
      assert all[k..][1..] == all[k + 1..];
      assert forall t :: t in all[k..] ==> t in all;
      assert forall t :: t in all[k + 1..] ==> t in all;
    }

    /** Writes the next token. */
    method WriteNext(dist: nat, litlen: nat, ghost k: nat) returns (ok: bool)
      requires Shape() && Written(k) && k < |all| && Slot(dist, litlen) == SlotOf(all[k])
      modifies os, os.dst
      ensures os.Valid() && (ok ==> Written(k + 1))
      ensures !ok ==> TooLong(mode, all, codes, os.dst.Length)
    {
      hide FullCode, TokenBits, TokensBits, TokensOk, FlippedFor, ImplodedBits, Begun, InRange, Head, GoodCode;
      TokensNext(mode, codes, all, k);
      ChosenInRange(mode, all, codes);
      ghost var rest, total := TokensBits(mode, codes, all[k + 1..]), ImplodedBits(mode, codes, all);
      if dist == 0 {
        ok := WriteLit(litlen, rest, total);
      } else {
        ok := WriteBackref(dist, litlen, rest, total);
      }
    }

    /** flush_buffer() */
    method FlushBuffer() returns (ok: bool)
      requires Shape() && os.Valid() && os.written == [] && Collected() && all[..pos] == Head(all)
      modifies this`codes, this`bufferFlushed, os, os.dst, litEncoder.codewords, litEncoder.lengths,
               lenEncoder.codewords, lenEncoder.lengths, distEncoder.codewords, distEncoder.lengths
      ensures os.Valid() && (ok ==> Valid() && bufferFlushed)
      ensures !ok ==> TooLong(mode, all, codes, os.dst.Length)
    {
      hide FlippedFor, TokensBits, TokensOk, ImplodedBits, Begun, InRange, Head, FullCode, Freqs, CodesBits, Chosen, TooLong;
      ok, codes := WriteCodes();
      if !ok {
        return;
      }
      StartWritten(mode, all, codes);
      assert all[0..] == all;
      var i := 0;
      while i < bufferSize
        invariant i <= bufferSize && Shape() && Written(i) && Collected()
      {
        ok := WriteNext(buffer[i].dist, buffer[i].litlen, i);
        if !ok {
          return;
        }
        i := i + 1;
      }
      bufferFlushed := true;
      ok := true;
    }

    static lemma StartWritten(mode: Mode, all: seq<Token>, c: Codes)
      requires TokensOk(mode, all) && Chosen(mode, all, c)
      ensures CodesBits(c) + TokensBits(mode, c, all) == ImplodedBits(mode, c, all)
    {
    }

    static lemma FreqsAfter(mode: Mode, all: seq<Token>, pos: nat)
      requires TokensOk(mode, all) && pos < |all|
      ensures TokensOk(mode, all[..pos]) && TokensOk(mode, all[..pos + 1]) && ImplodeFormat.TokenOk(mode, all[pos])
      ensures forall k :: var f, s := Freqs(k, mode, all[..pos]), SymOf(k, mode, all[pos]);
              Freqs(k, mode, all[..pos + 1]) == if s < 0 then f else Bump(f, s)
    {
      hide SymOf, Bump, ImplodeFormat.TokenOk, Freqs;
      assert all[..pos + 1] == all[..pos] + [all[pos]];
      assert forall t :: t in all[..pos] ==> t in all;
      forall k: Kind
        ensures var f, s := Freqs(k, mode, all[..pos]), SymOf(k, mode, all[pos]);
                Freqs(k, mode, all[..pos + 1]) == if s < 0 then f else Bump(f, s)
      {
        OccurrencesNext(k, mode, all[..pos], all[pos]);
      }
    }

    /** What both callbacks do until the buffer has been flushed. */
    method Append(t: Token) returns (ok: bool)
      requires Valid() && !bufferFlushed && pos < |all| && all[pos] == t
      modifies this, buffer, os, os.dst, litEncoder.codewords, litEncoder.lengths,
               lenEncoder.codewords, lenEncoder.lengths, distEncoder.codewords, distEncoder.lengths
      ensures os.Valid() && (ok ==> Valid() && pos == old(pos) + 1)
      ensures !ok ==> TooLong(mode, all, codes, os.dst.Length)
    {
      hide FlippedFor, Head, TokensOk, Freqs, Bump, DistSym, LenSym, TooLong, ImplodeFormat.TokenOk, Chosen, FullCode;
      FreqsAfter(mode, all, pos);
      SymsAre(mode, t);
      buffer[bufferSize] := SlotOf(t);
      bufferSize := bufferSize + 1;
      match t {
        case Lit(b) =>
          litFreqs := Bump(litFreqs, b);
        case Ref(dist, len) =>
          distSymFreqs := Bump(distSymFreqs, DistSym(mode, dist));
          lenSymFreqs := Bump(lenSymFreqs, LenSym(mode, len));
      }
      pos := pos + 1;
      ok := true;
      if bufferSize == BUFFER_CAP {
        FullHead(all);
        ok := FlushBuffer();
      }
    }

    static lemma SymsAre(mode: Mode, t: Token)
      requires ImplodeFormat.TokenOk(mode, t)
      ensures t.Ref? ==> 1 <= t.dist <= mode.MaxDist() && mode.MinLen() <= t.len <= mode.MaxLen()
      ensures SymOf(Lits, mode, t) == if t.Lit? then t.value else -1
      ensures SymOf(Dists, mode, t) == if t.Lit? then -1 else DistSym(mode, t.dist)
      ensures SymOf(Lens, mode, t) == if t.Lit? then -1 else LenSym(mode, t.len)
    {
      hide DistSym, LenSym;
    }

    static lemma FullHead(all: seq<Token>)
      requires BUFFER_CAP <= |all|
      ensures Head(all) == all[..BUFFER_CAP]
    {
      assert |all| == BUFFER_CAP ==> all[..BUFFER_CAP] == all;
    }

    /** What both callbacks do after that. */
    method WriteThrough(t: Token) returns (ok: bool)
      requires Valid() && bufferFlushed && pos < |all| && all[pos] == t
      modifies this`pos, os, os.dst
      ensures os.Valid() && (ok ==> Valid() && pos == old(pos) + 1)
      ensures !ok ==> TooLong(mode, all, codes, os.dst.Length)
    {
      hide FlippedFor, Head, TokensOk, TokensBits, ImplodedBits, TooLong, Chosen, Encoders, SlotOf, Buffered, Apart;
      ok := WriteNext(SlotOf(t).dist, SlotOf(t).litlen, pos);
      pos := pos + 1;
    }

    /** lit_callback() and backref_callback() */
    method Callback(t: Token) returns (ok: bool)
      requires Valid() && pos < |all| && all[pos] == t
      modifies this, buffer, os, os.dst, litEncoder.codewords, litEncoder.lengths,
               lenEncoder.codewords, lenEncoder.lengths, distEncoder.codewords, distEncoder.lengths
      ensures os.Valid() && (ok ==> Valid() && pos == old(pos) + 1)
      ensures !ok ==> TooLong(mode, all, codes, os.dst.Length)
    {
      hide Valid, TooLong;
      if bufferFlushed {
        ok := WriteThrough(t);
      } else {
        ok := Append(t);
      }
    }

    /** What hwimplode() does at the end: everything has been written. */
    method Finish() returns (ok: bool)
      requires Valid() && pos == |all|
      modifies this, os, os.dst, litEncoder.codewords, litEncoder.lengths,
               lenEncoder.codewords, lenEncoder.lengths, distEncoder.codewords, distEncoder.lengths
      ensures os.Valid()
      ensures ok ==> TokensOk(mode, all) && Chosen(mode, all, codes) && os.written == ImplodedBits(mode, codes, all)
      ensures !ok ==> TokensOk(mode, all) && TooLong(mode, all, codes, os.dst.Length)
    {
      hide FlippedFor, Head, TokensOk, Freqs, TooLong, Begun, FullCode, ImplodedBits;
      ok := true;
      if !bufferFlushed {
        ShortHead(all);
        assert all[..pos] == all;
        ok := FlushBuffer();
      }
      if ok {
        assert all[pos..] == [];
        assert os.written + [] == os.written;
      }
    }

    static lemma ShortHead(all: seq<Token>)
      requires |all| <= BUFFER_CAP
      ensures Head(all) == all
    {
    }
  }

  // ---------------------------------------------------------------- hwimplode()

  /** The limits for a mode. */
  function Limits(mode: Mode): Params {
    Params(mode.MaxDist(), mode.MaxLen(), true)
  }

  lemma SourceTokensOk(src: seq<byte>, mode: Mode)
    ensures TokensOk(mode, Tokens(src, Limits(mode)))
  {
    hide Tokens;
    TokensExpand(src, Limits(mode));
    forall t | t in Tokens(src, Limits(mode))
      ensures ImplodeFormat.TokenOk(mode, t)
    {
      assert Lz77.TokenOk(Limits(mode), t);
    }
  }

  /** The compressed form of a source, with these codes. */
  ghost function Imploded(src: seq<byte>, mode: Mode, c: Codes): seq<bool>
    requires FullCodes(mode, c) && InRange(c)
  {
    SourceTokensOk(src, mode);
    ImplodedBits(mode, c, Tokens(src, Limits(mode)))
  }

  /** The codes are good ones for the tokens of a source. */
  ghost predicate ChosenFor(src: seq<byte>, mode: Mode, c: Codes) {
    SourceTokensOk(src, mode);
    Chosen(mode, Tokens(src, Limits(mode)), c)
  }

  ghost predicate DoesNotFit(src: seq<byte>, mode: Mode, c: Codes, cap: nat) {
    SourceTokensOk(src, mode);
    TooLong(mode, Tokens(src, Limits(mode)), c, cap)
  }

  lemma CodeUnique(freqs: seq<nat>, lens: seq<nat>, other: seq<nat>)
    requires GoodCode(freqs, lens) && GoodCode(freqs, other)
    ensures lens == other
  {
    hide GoodLengths, Scaled, FullCode;
    var cap: nat :| GoodLengths(Scaled(freqs), lens, MAX_BITS, cap);
    var otherCap: nat :| GoodLengths(Scaled(freqs), other, MAX_BITS, otherCap);
    GoodUnique(Scaled(freqs), MAX_BITS, lens, cap, other, otherCap);
  }

  /** The codes are determined by the tokens; those made before writing failed are among them. */
  lemma CodesUnique(mode: Mode, all: seq<Token>, c: Codes, d: Codes)
    requires TokensOk(mode, all) && TokensOk(mode, Head(all)) && Begun(mode, Head(all), c) && Chosen(mode, all, d)
    ensures (c.lit == [] || c.lit == d.lit) && (c.len == [] || c.len == d.len) && (c.dist == [] || c.dist == d.dist)
    ensures FullCodes(mode, c) ==> c == d
    ensures InRange(c) && InRange(d) && FullCodes(mode, d) && |CodesBits(c)| <= |CodesBits(d)|
  {
    hide GoodCode, Freqs, CodeBits;
    if c.lit != [] && d.lit != [] {
      CodeUnique(Freqs(Lits, mode, Head(all)), c.lit, d.lit);
    }
    if c.len != [] {
      CodeUnique(Freqs(Lens, mode, Head(all)), c.len, d.len);
    }
    if c.dist != [] {
      CodeUnique(Freqs(Dists, mode, Head(all)), c.dist, d.dist);
    }
    assert CodeBits([]) == [] by { NoCodeBits(); }
  }

  lemma NoCodeBits()
    ensures CodeBits([]) == []
  {
  }

  /** The compressed form of the source in the codes for its tokens fits. */
  ghost predicate ImplodedFits(src: seq<byte>, mode: Mode, cap: nat) {
    exists c :: ChosenFor(src, mode, c) && FullCodes(mode, c) && InRange(c) && |Imploded(src, mode, c)| <= 8 * cap
  }

  lemma Fitting(src: seq<byte>, mode: Mode, c: Codes, cap: nat)
    requires ChosenFor(src, mode, c) && FullCodes(mode, c) && InRange(c) && |Imploded(src, mode, c)| <= 8 * cap
    ensures ImplodedFits(src, mode, cap)
  {
  }

  lemma NotFitting(src: seq<byte>, mode: Mode, c: Codes, cap: nat)
    requires DoesNotFit(src, mode, c, cap)
    ensures !ImplodedFits(src, mode, cap)
  {
    hide Tokens, TokensOk, Begun, FullCodes, InRange, CodesBits, Head, TokensBits;
    SourceTokensOk(src, mode);
    var all := Tokens(src, Limits(mode));
    HeadOk(mode, all);
    forall d | ChosenFor(src, mode, d) && FullCodes(mode, d) && InRange(d)
      ensures |Imploded(src, mode, d)| > 8 * cap
    {
      CodesUnique(mode, all, c, d);
    }
  }

  /** hwimplode(): writes the compressed form of the source with codes that are good for the first of its
      tokens, and succeeds if and only if that fits; it fails when it, or the codes alone, do not fit. */
  method HwImplode(src: seq<byte>, mode: Mode, dst: array<byte>) returns (ok: bool, used: nat, ghost c: Codes)
    requires |src| <= Lz77Codec.NO_POS
    modifies dst
    ensures ok ==> ChosenFor(src, mode, c) && FullCodes(mode, c) && InRange(c) && |Imploded(src, mode, c)| <= 8 * dst.Length
    ensures ok ==> used == RoundUp8(|Imploded(src, mode, c)|) / 8
                   && BytesToBits(dst[..])[..|Imploded(src, mode, c)|] == Imploded(src, mode, c)
    ensures !ok ==> DoesNotFit(src, mode, c, dst.Length)
    ensures ok == ImplodedFits(src, mode, dst.Length)
  {
    hide Lz77Codec.Called, Tokens, BytesToBits, TokensOk, Begun, TooLong, FullCodes, ImplodedBits, InRange, ImplodedFits, Imploder.Valid;
    used := 0;
    ghost var all := Tokens(src, Limits(mode));
    SourceTokensOk(src, mode);
    var s := new Imploder(dst, mode, all);
    var tokens;
    // The callbacks do not change what the matcher does, so all tokens are collected first, and the
    // callbacks called on them afterwards, in the same order and up to the first that fails.
    ok, tokens := Lz77Codec.Lz77Compress(src, Limits(mode), _ => true);
    Lz77Codec.AlwaysAccepted(ok, tokens, all);
    var i := 0;
    while i < |tokens|
      invariant i <= |tokens| && s.Valid() && s.os.dst == dst && s.mode == mode && s.all == all == tokens && s.pos == i
      invariant fresh(s) && fresh(s.os) && fresh(s.buffer) && fresh(s.litEncoder.codewords) && fresh(s.litEncoder.lengths)
      invariant fresh(s.lenEncoder.codewords) && fresh(s.lenEncoder.lengths)
      invariant fresh(s.distEncoder.codewords) && fresh(s.distEncoder.lengths)
    {
      ok := s.Callback(tokens[i]);
      c := s.codes;
      if !ok {
        NotFitting(src, mode, c, dst.Length);
        return;
      }
      i := i + 1;
    }
    ok := s.Finish();
    c := s.codes;
    if ok {
      ChosenInRange(mode, all, c);
      used := s.os.BytesWritten();
      Fitting(src, mode, c, dst.Length);
    } else {
      NotFitting(src, mode, c, dst.Length);
    }
  }

  lemma ChosenInRange(mode: Mode, all: seq<Token>, c: Codes)
    requires TokensOk(mode, all) && Chosen(mode, all, c)
    ensures FullCodes(mode, c) && InRange(c)
  {
  }
}
