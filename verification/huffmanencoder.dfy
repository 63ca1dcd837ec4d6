/** compute_canonical_code() and huffman_encoder_init2() (hwzip/huffman.c, lines 250-300). */
module HuffmanEncoder {
  import opened Bits
  import opened Reversal
  import opened Huffman
  import opened HuffmanDecoder

  /** The codewords of the first n symbols, as numbers to be written least significant bit first. */
  ghost predicate CodewordsOk(codewords: seq<nat>, lengths: seq<nat>, n: nat) {
    && n <= |lengths| <= |codewords|
    && forall s :: 0 <= s < n && lengths[s] > 0 ==>
         codewords[s] < Pow2(lengths[s]) && ToBits(codewords[s], lengths[s]) == Codeword(lengths, s)
  }

  /** The next codeword of each length, in 16 bits. */
  ghost predicate CodesOk(code: seq<nat>, lengths: seq<nat>, i: nat) {
    && |code| == MAX_BITS + 1 && i <= |lengths|
    && forall l :: 1 <= l <= MAX_BITS ==> code[l] == (First(lengths, l) + Count(lengths[..i], l)) % 0x1_0000
  }

  lemma CodesNext(code: seq<nat>, lengths: seq<nat>, i: nat)
    requires LengthsOk(lengths) && CodesOk(code, lengths, i) && i < |lengths|
    ensures |code| == MAX_BITS + 1
    ensures var l := lengths[i];
            if l == 0 then CodesOk(code, lengths, i + 1)
            else code[l] == Code(lengths, i) % 0x1_0000 && CodesOk(code[l := (code[l] + 1) % 0x1_0000], lengths, i + 1)
  {
    hide First, Count;
    forall l | 0 <= l <= MAX_BITS
      ensures Count(lengths[..i + 1], l) == Count(lengths[..i], l) + if lengths[i] == l then 1 else 0
    {
      CountNext(lengths, i, l);
    }
  }

  lemma CodewordsNext(codewords: seq<nat>, lengths: seq<nat>, i: nat, code: nat)
    requires LengthsOk(lengths) && Fits(lengths) && i < |lengths| && lengths[i] > 0
    requires CodewordsOk(codewords, lengths, i) && code == Code(lengths, i) % 0x1_0000
    ensures CodewordsOk(codewords[i := Reverse16(code, lengths[i])], lengths, i + 1)
  {
    hide Code, Reverse16, Codeword, Pow2;
    CodewordIs(lengths, i);
  }

  lemma CodewordIs(lengths: seq<nat>, s: nat)
    requires LengthsOk(lengths) && Fits(lengths) && s < |lengths| && lengths[s] > 0
    ensures Code(lengths, s) < 0x1_0000
    ensures Reverse16(Code(lengths, s), lengths[s]) < Pow2(lengths[s])
    ensures ToBits(Reverse16(Code(lengths, s), lengths[s]), lengths[s]) == Codeword(lengths, s)
  {
    hide Code, Reverse16, Pow2;
    CodeBelow(lengths, s, MAX_BITS);
    Reverse16Bits(Code(lengths, s), lengths[s]);
    Pow2Mono(lengths[s], MAX_BITS);
    Pow2Word();
  }

  /** The loop that computes the first codeword of each length. */
  method FirstCodewords(lengths: seq<nat>) returns (code: array<nat>)
    requires LengthsOk(lengths)
    ensures fresh(code) && CodesOk(code[..], lengths, 0)
  {
    hide CountsOk, First16, Count, First;
    var count := CountLengths(lengths);
    code := new nat[MAX_BITS + 1](_ => 0);
    assert count.Length == MAX_BITS + 1 by { CountsSize(count[..], lengths); }
    FirstZero(lengths);
    var l := 1;
    while l <= MAX_BITS
      invariant 1 <= l <= MAX_BITS + 1 && CountsOk(count[..], lengths)
      invariant forall k :: 0 <= k < l ==> code[k] == First16(lengths, k)
    {
      FirstNext(lengths, count[..], l);
      code[l] := (code[l - 1] + count[l - 1]) * 2 % 0x1_0000;
      l := l + 1;
    }
    FirstCodes(code[..], lengths);
  }

  lemma CountsSize(count: seq<nat>, lengths: seq<nat>)
    requires CountsOk(count, lengths)
    ensures |count| == MAX_BITS + 1
  {
  }

  lemma FirstZero(lengths: seq<nat>)
    ensures First16(lengths, 0) == 0
  {
  }

  lemma FirstCodes(code: seq<nat>, lengths: seq<nat>)
    requires |code| == MAX_BITS + 1 && forall k :: 0 <= k <= MAX_BITS ==> code[k] == First16(lengths, k)
    ensures CodesOk(code, lengths, 0)
  {
    hide First, Count;
    CountEmpty(lengths[..0]);
  }

  /** compute_canonical_code(): if the lengths allow a code, the codewords of the canonical code; those
      of symbols that are not part of it stay as they are. */
  method ComputeCanonicalCode(codewords: array<nat>, lengths: seq<nat>)
    requires LengthsOk(lengths) && codewords.Length == MAX_SYMBOLS
    modifies codewords
    ensures Fits(lengths) ==> CodewordsOk(codewords[..], lengths, |lengths|)
    ensures forall s :: 0 <= s < MAX_SYMBOLS && (s >= |lengths| || lengths[s] == 0) ==> codewords[s] == old(codewords[s])
  {
    hide CodewordsOk, CodesOk, Fits, Reverse16;
    var code := FirstCodewords(lengths);
    NoCodewords(codewords[..], lengths);
    var i := 0;
    while i < |lengths|
      invariant i <= |lengths| && CodesOk(code[..], lengths, i)
      invariant Fits(lengths) ==> CodewordsOk(codewords[..], lengths, i)
      invariant forall s :: 0 <= s < MAX_SYMBOLS && (s >= |lengths| || lengths[s] == 0) ==> codewords[s] == old(codewords[s])
    {
      CodesNext(code[..], lengths, i);
      var l := lengths[i];
      if l != 0 {
        if Fits(lengths) {
          CodewordsNext(codewords[..], lengths, i, code[l]);
        }
        codewords[i] := Reverse16(code[l], l);
        code[l] := (code[l] + 1) % 0x1_0000;
      } else {
        NoCodeword(codewords[..], lengths, i);
      }
      i := i + 1;
    }
  }

  lemma NoCodewords(codewords: seq<nat>, lengths: seq<nat>)
    requires |lengths| <= |codewords|
    ensures CodewordsOk(codewords, lengths, 0)
  {
  }

  lemma NoCodeword(codewords: seq<nat>, lengths: seq<nat>, i: nat)
    requires i < |lengths| && lengths[i] == 0
    ensures CodewordsOk(codewords, lengths, i) ==> CodewordsOk(codewords, lengths, i + 1)
  {
  }

  class Encoder {
    const codewords: array<nat>
    const lengths: array<nat>

    ghost predicate Shape() {
      codewords.Length == lengths.Length == MAX_SYMBOLS && codewords != lengths
    }

    /** An object that is none of the arrays. */
    ghost predicate Avoids(o: object) {
      o != codewords && o != lengths
    }

    /** The encoder is for a code with these codeword lengths. */
    ghost predicate For(lens: seq<nat>)
      reads codewords, lengths
    {
      && Shape() && LengthsOk(lens) && Fits(lens) && lengths[..|lens|] == lens
      && CodewordsOk(codewords[..], lens, |lens|)
    }

    constructor ()
      ensures Shape() && fresh(codewords) && fresh(lengths)
    {
      codewords := new nat[MAX_SYMBOLS];
      lengths := new nat[MAX_SYMBOLS];
    }

    /** huffman_encoder_init2() */
    method InitFromLengths(lens: seq<nat>)
      requires Shape() && LengthsOk(lens) && Fits(lens)
      modifies codewords, lengths
      ensures For(lens)
    {
      hide CodewordsOk, Fits;
      var i := 0;
      while i < |lens|
        invariant i <= |lens| && lengths[..i] == lens[..i]
      {
        lengths[i] := lens[i];
        assert lengths[..i + 1] == lengths[..i] + [lengths[i]];
        i := i + 1;
      }
      ComputeCanonicalCode(codewords, lens);
    }
  }

  /** Writing a codeword: its number, in as many bits as its length. */
  lemma EncoderAt(e: Encoder, lens: seq<nat>, s: nat)
    requires e.For(lens) && s < |lens| && lens[s] > 0
    ensures s < e.lengths.Length && s < e.codewords.Length && e.lengths[s] == lens[s] <= MAX_BITS
    ensures e.codewords[s] < Pow2(lens[s]) && ToBits(e.codewords[s], lens[s]) == Codeword(lens, s)
  {
    hide Fits, Codeword;
    assert e.lengths[..|lens|][s] == lens[s];
    assert e.codewords[..][s] == e.codewords[s];
  }
}
