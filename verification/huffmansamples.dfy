/** Canonical codes in the words of section 3.2.2 of RFC 1951, and the codes of hwzip/huffman_test.c and of
    that section. */
module HuffmanSamples {
  import opened Bits
  import opened Reversal
  import opened Huffman
  import opened Samples

  /** The symbols below n whose codewords have length l. */
  function OfLength(lengths: seq<nat>, l: nat, n: nat): set<nat>
    requires n <= |lengths|
  {
    set s: nat | s < n && lengths[s] == l
  }

  lemma {:induction false} CountIs(lengths: seq<nat>, l: nat, n: nat)
    requires n <= |lengths|
    ensures Count(lengths[..n], l) == |OfLength(lengths, l, n)|
  {
    if n == 0 {
      assert OfLength(lengths, l, 0) == {};
    } else {
      CountIs(lengths, l, n - 1);
      CountNext(lengths, n - 1, l);
      var few := OfLength(lengths, l, n - 1);
      assert OfLength(lengths, l, n) == if lengths[n - 1] == l then few + {n - 1} else few;
    }
  }

  /** The first codeword of a length comes of the first one that is a bit shorter: as many are skipped as there
      are symbols of that length, and a zero is appended; the others of the length follow in the order of
      symbols. */
  lemma CanonicalRule(lengths: seq<nat>, s: nat, l: nat)
    requires s < |lengths| && l > 0
    ensures First(lengths, 1) == 0
    ensures First(lengths, l + 1) == 2 * (First(lengths, l) + |set t: nat | t < |lengths| && lengths[t] == l|)
    ensures Code(lengths, s) == First(lengths, lengths[s]) + |set t: nat | t < s && lengths[t] == lengths[s]|
  {
    CountIs(lengths, l, |lengths|);
    assert lengths[..|lengths|] == lengths;
    assert OfLength(lengths, l, |lengths|) == set t: nat | t < |lengths| && lengths[t] == l;
    CountIs(lengths, lengths[s], s);
    assert OfLength(lengths, lengths[s], s) == set t: nat | t < s && lengths[t] == lengths[s];
  }

  /** Codewords are written from their most significant bit on. */
  lemma CodewordOrder(lengths: seq<nat>, s: nat, i: nat)
    requires s < |lengths| && i < lengths[s]
    ensures Codeword(lengths, s)[i] == (Shr(Code(lengths, s), lengths[s] - 1 - i) % 2 == 1)
  {
    ReverseAt(ToBits(Code(lengths, s), lengths[s]), i);
    BitAt(Code(lengths, s), lengths[s], lengths[s] - 1 - i);
  }

  /** A run of symbols of the same length. */
  lemma {:induction false} CountSegment(lengths: seq<nat>, l: nat, i: nat, j: nat, v: nat)
    requires i <= j <= |lengths| && forall k :: i <= k < j ==> lengths[k] == v
    ensures Count(lengths[..j], l) == Count(lengths[..i], l) + if v == l then j - i else 0
    decreases j
  {
    if i < j {
      CountSegment(lengths, l, i, j - 1, v);
      CountNext(lengths, j - 1, l);
    }
  }

  /** Symbols in four runs of lengths, with all the numbers that make their codes. */
  lemma FourRuns(lengths: seq<nat>, a: nat, b: nat, c: nat, v: nat, w: nat, x: nat, y: nat, l: nat)
    requires a <= b <= c <= |lengths|
    requires (forall k :: 0 <= k < a ==> lengths[k] == v) && (forall k :: a <= k < b ==> lengths[k] == w)
    requires (forall k :: b <= k < c ==> lengths[k] == x) && (forall k :: c <= k < |lengths| ==> lengths[k] == y)
    ensures Count(lengths, l) == (if v == l then a else 0) + (if w == l then b - a else 0) + (if x == l then c - b else 0)
                                 + (if y == l then |lengths| - c else 0)
  {
    CountSegment(lengths, l, 0, a, v);
    CountSegment(lengths, l, a, b, w);
    CountSegment(lengths, l, b, c, x);
    CountSegment(lengths, l, c, |lengths|, y);
    assert lengths[..0] == [] && lengths[..|lengths|] == lengths;
  }

  /** The last bit of a number is its least significant one. */
  lemma MsbNext(v: nat, n: nat, b: bool)
    ensures MsbBits(2 * v + BitValue(b), n + 1) == MsbBits(v, n) + [b]
  {
    hide Reverse, ToBits, BitValue;
    LowBit(2 * v + BitValue(b), n, b, v);
    ReverseFirst(b, ToBits(v, n));
  }

  lemma ReverseFirst(b: bool, s: seq<bool>)
    ensures Reverse([b] + s) == Reverse(s) + [b]
  {
    assert ([b] + s)[1..] == s;
  }

  lemma OneBit(b: bool)
    ensures MsbBits(BitValue(b), 1) == [b]
  {
    hide MsbBits;
    assert MsbBits(0, 0) == [];
    MsbNext(0, 0, b);
  }

  lemma TwoBits(v: nat, b1: bool, b0: bool)
    requires v == 2 * BitValue(b1) + BitValue(b0)
    ensures MsbBits(v, 2) == [b1, b0]
  {
    hide MsbBits;
    OneBit(b1);
    MsbNext(BitValue(b1), 1, b0);
  }

  lemma ThreeBits(v: nat, b2: bool, b1: bool, b0: bool)
    requires v == 4 * BitValue(b2) + 2 * BitValue(b1) + BitValue(b0)
    ensures MsbBits(v, 3) == [b2, b1, b0]
  {
    hide MsbBits;
    TwoBits(2 * BitValue(b2) + BitValue(b1), b2, b1);
    MsbNext(2 * BitValue(b2) + BitValue(b1), 2, b0);
  }

  lemma FourMore(v: nat, n: nat, b3: bool, b2: bool, b1: bool, b0: bool)
    ensures MsbBits(16 * v + 8 * BitValue(b3) + 4 * BitValue(b2) + 2 * BitValue(b1) + BitValue(b0), n + 4)
         == MsbBits(v, n) + [b3, b2, b1, b0]
  {
    hide MsbBits, BitValue;
    var v3 := 2 * v + BitValue(b3);
    var v2 := 2 * v3 + BitValue(b2);
    var v1 := 2 * v2 + BitValue(b1);
    MsbNext(v, n, b3);
    MsbNext(v3, n + 1, b2);
    MsbNext(v2, n + 2, b1);
    MsbNext(v1, n + 3, b0);
  }

  lemma FourBits(v: nat, b3: bool, b2: bool, b1: bool, b0: bool)
    requires v == 8 * BitValue(b3) + 4 * BitValue(b2) + 2 * BitValue(b1) + BitValue(b0)
    ensures MsbBits(v, 4) == [b3, b2, b1, b0]
  {
    hide MsbBits, BitValue;
    assert MsbBits(0, 0) == [];
    FourMore(0, 0, b3, b2, b1, b0);
  }

  // ---------------------------------------------------------------- codes

  /** The example of section 3.2.2 of RFC 1951. */
  function ExampleLengths(): seq<nat> {
    [3, 3, 3, 3, 3, 2, 4, 4]
  }

  lemma ExampleRanks(s: nat)
    requires s < 8
    ensures Rank(ExampleLengths(), s) == if s < 5 then s else if s == 7 then 1 else 0
  {
    hide Count;
    var l := ExampleLengths();
    assert l[..0] == [];
    CountSegment(l, l[s], 0, Min(s, 5), 3);
    if s >= 5 {
      CountSegment(l, l[s], 5, Min(s, 6), 2);
    }
    if s >= 6 {
      CountSegment(l, l[s], 6, s, 4);
    }
    assert Count([], l[s]) == 0 by { CountNone([], l[s]); }
  }

  lemma ExampleFirsts()
    ensures var l := ExampleLengths(); First(l, 2) == 0 && First(l, 3) == 2 && First(l, 4) == 14
  {
    hide Count;
    var l := ExampleLengths();
    FourRuns(l, 5, 6, 8, 3, 2, 4, 0, 1);
    FourRuns(l, 5, 6, 8, 3, 2, 4, 0, 2);
    FourRuns(l, 5, 6, 8, 3, 2, 4, 0, 3);
  }

  lemma ExampleCode()
    ensures var l: seq<nat> := [3, 3, 3, 3, 3, 2, 4, 4];
            && Codeword(l, 0) == [false, true, false] && Codeword(l, 1) == [false, true, true]
            && Codeword(l, 2) == [true, false, false] && Codeword(l, 3) == [true, false, true]
            && Codeword(l, 4) == [true, true, false] && Codeword(l, 5) == [false, false]
            && Codeword(l, 6) == [true, true, true, false] && Codeword(l, 7) == [true, true, true, true]
  {
    hide MsbBits, Rank, First;
    var l := ExampleLengths();
    ExampleFirsts();
    forall s: nat | s < 8
      ensures Rank(l, s) == if s < 5 then s else if s == 7 then 1 else 0
    {
      ExampleRanks(s);
    }
    ThreeBits(2, false, true, false);
    ThreeBits(3, false, true, true);
    ThreeBits(4, true, false, false);
    ThreeBits(5, true, false, true);
    ThreeBits(6, true, true, false);
    TwoBits(0, false, false);
    FourBits(14, true, true, true, false);
    FourBits(15, true, true, true, true);
  }
}
