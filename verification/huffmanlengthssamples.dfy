/** Which of the caps decides on the codeword lengths, and how ties between equal weights are broken. */
module HuffmanLengthsSamples {
  import opened Bits
  import opened OptimalCodes
  import opened HuffmanTree
  import opened HuffmanLengths

  /** The lengths are the depths of the tree under the first of the caps 65535, 32767, 16383 and so on down to 1
      whose tree is not too deep. */
  lemma FirstCap(freqs: seq<nat>, lengths: seq<nat>, maxLen: nat, cap: nat) returns (k: nat)
    requires GoodLengths(freqs, lengths, maxLen, cap)
    ensures 1 <= k <= 16 && cap == Pow2(k) - 1 && |freqs| <= 288
    ensures AtMost(Depths(freqs, cap), maxLen) && lengths == Spread(freqs, Depths(freqs, cap))
    ensures forall l: nat :: k < l <= 16 ==> !AtMost(Depths(freqs, Pow2(l) - 1), maxLen)
  {
    hide CapTooHigh, Tried, BestCode, Depths, Spread;
    k := TriedCaps(freqs, maxLen, cap);
    forall l: nat | k < l <= 16
      ensures !AtMost(Depths(freqs, Pow2(l) - 1), maxLen)
    {
      TriedAbove(freqs, maxLen, cap, k, Pow2(l) - 1, l);
      TooHighNeeds(freqs, maxLen, Pow2(l) - 1);
    }
  }

  // ---------------------------------------------------------------- ties

  function FourFreqs(): seq<nat> {
    [1, 1, 2, 2]
  }

  lemma FourElements()
    ensures Initial(FourFreqs(), 0xFFFF, 4) == [0x1_0005, 0x1_0006, 0x2_0007, 0x2_0008] && UsedBefore(FourFreqs(), 4) == 4
  {
    var f := FourFreqs();
    assert Initial(f, 0xFFFF, 0) == [];
    assert Initial(f, 0xFFFF, 1) == [0x1_0005];
    assert Initial(f, 0xFFFF, 2) == [0x1_0005, 0x1_0006];
    assert Initial(f, 0xFFFF, 3) == [0x1_0005, 0x1_0006, 0x2_0007];
  }

  lemma LeastIs(elements: multiset<nat>, p: nat)
    requires forall v :: v in elements ==> p <= v
    ensures IsLeast(multiset{p} + elements, p)
  {
  }

  lemma JoinOnce(elements: multiset<nat>, f: Forest, h: nat, p: nat, q: nat, others: multiset<nat>)
    requires |f.own| == |f.dep| && h > 1 && p < q && elements == multiset{p} + (multiset{q} + others)
    requires forall v :: v in others ==> q <= v
    ensures TreeOf(elements, f, h) == TreeOf(others + multiset{JoinOf(p, q, h)}, Join2(f, Link(p), Link(q), h), h - 1)
  {
    hide TreeOf, Join2, JoinOf, Link, IsLeast;
    LeastIs(others, q);
    LeastIs(multiset{q} + others, p);
    assert elements - multiset{p} == multiset{q} + others;
    assert elements - multiset{p} - multiset{q} == others;
    TreeOfStep(elements, f, h, p, q);
  }

  /** A node for two others has the sum of their weights above, and its slot below. */
  lemma JoinedParts(a: nat, b: nat, w: nat, x: nat, h: nat)
    requires a < 0x1_0000 && b < 0x1_0000 && w + x < 0x1_0000
    ensures Link(0x1_0000 * w + a) == a
    ensures JoinOf(0x1_0000 * w + a, 0x1_0000 * x + b, h) == 0x1_0000 * (w + x) + h
  {
  }

  lemma FirstJoin(f: Forest)
    requires |f.own| == |f.dep|
    ensures TreeOf(multiset{0x1_0005, 0x1_0006, 0x2_0007, 0x2_0008}, f, 4)
         == TreeOf(multiset{0x2_0004, 0x2_0007, 0x2_0008}, Join2(f, 5, 6, 4), 3)
  {
    hide TreeOf, Join2, JoinOf, Link;
    JoinedParts(5, 6, 1, 1, 4);
    JoinedParts(6, 5, 1, 1, 4);
    var others: multiset<nat> := multiset{0x2_0007, 0x2_0008};
    assert multiset{0x1_0005, 0x1_0006, 0x2_0007, 0x2_0008} == multiset{0x1_0005} + (multiset{0x1_0006} + others);
    JoinOnce(multiset{0x1_0005, 0x1_0006, 0x2_0007, 0x2_0008}, f, 4, 0x1_0005, 0x1_0006, others);
    assert others + multiset{0x2_0004} == multiset{0x2_0004, 0x2_0007, 0x2_0008};
  }

  lemma SecondJoin(f: Forest)
    requires |f.own| == |f.dep|
    ensures TreeOf(multiset{0x2_0004, 0x2_0007, 0x2_0008}, f, 3) == TreeOf(multiset{0x2_0008, 0x4_0003}, Join2(f, 4, 7, 3), 2)
  {
    hide TreeOf, Join2, JoinOf, Link;
    JoinedParts(4, 7, 2, 2, 3);
    JoinedParts(7, 4, 2, 2, 3);
    var others: multiset<nat> := multiset{0x2_0008};
    assert multiset{0x2_0004, 0x2_0007, 0x2_0008} == multiset{0x2_0004} + (multiset{0x2_0007} + others);
    JoinOnce(multiset{0x2_0004, 0x2_0007, 0x2_0008}, f, 3, 0x2_0004, 0x2_0007, others);
    assert others + multiset{0x4_0003} == multiset{0x2_0008, 0x4_0003};
  }

  lemma ThirdJoin(f: Forest)
    requires |f.own| == |f.dep|
    ensures TreeOf(multiset{0x2_0008, 0x4_0003}, f, 2) == Join2(f, 8, 3, 2)
  {
    hide TreeOf, Join2, JoinOf, Link;
    JoinedParts(8, 3, 2, 4, 2);
    JoinedParts(3, 8, 4, 2, 2);
    var others: multiset<nat> := multiset{};
    assert multiset{0x2_0008, 0x4_0003} == multiset{0x2_0008} + (multiset{0x4_0003} + others);
    JoinOnce(multiset{0x2_0008, 0x4_0003}, f, 2, 0x2_0008, 0x4_0003, others);
    JoinAt(f, 8, 3, 2);
    LastTree(others + multiset{0x6_0002}, Join2(f, 8, 3, 2));
  }

  /** The first two symbols are joined, then with the third one, because a joined node comes before a symbol of the
      same weight, and an earlier symbol before a later one. */
  lemma FourTree()
    ensures var g := TreeOf(multiset{0x1_0005, 0x1_0006, 0x2_0007, 0x2_0008}, Singles(577), 4);
            |g.dep| == 577 && g.dep[5..9] == [3, 3, 2, 1]
  {
    hide TreeOf, Join2;
    var f0 := Singles(577);
    JoinAt(f0, 5, 6, 4);
    var f1 := Join2(f0, 5, 6, 4);
    JoinAt(f1, 4, 7, 3);
    var f2 := Join2(f1, 4, 7, 3);
    JoinAt(f2, 8, 3, 2);
    FirstJoin(f0);
    SecondJoin(f1);
    ThirdJoin(f2);
  }

  lemma LastTree(elements: multiset<nat>, f: Forest)
    requires |f.own| == |f.dep|
    ensures TreeOf(elements, f, 1) == f
  {
  }

  lemma JoinAt(f: Forest, p: nat, q: nat, r: nat)
    requires |f.own| == |f.dep|
    ensures var g := Join2(f, p, q, r);
            && |g.own| == |g.dep| == |f.dep|
            && (forall x :: 0 <= x < |f.own| ==> g.own[x] == if x == r || f.own[x] == p || f.own[x] == q then r else f.own[x])
            && (forall x :: 0 <= x < |f.own| ==>
                  g.dep[x] == if x == r then 0 else if f.own[x] == p || f.own[x] == q then f.dep[x] + 1 else f.dep[x])
  {
  }

  lemma FourDepths()
    ensures Depths(FourFreqs(), 0xFFFF) == [3, 3, 2, 1]
  {
    hide TreeOf, Initial, UsedBefore, Singles;
    FourElements();
    FourTree();
    assert multiset([0x1_0005, 0x1_0006, 0x2_0007, 0x2_0008]) == multiset{0x1_0005, 0x1_0006, 0x2_0007, 0x2_0008};
  }

  lemma FourUsed()
    ensures var f := FourFreqs();
            UsedBefore(f, 0) == 0 && UsedBefore(f, 1) == 1 && UsedBefore(f, 2) == 2 && UsedBefore(f, 3) == 3 && UsedBefore(f, 4) == 4
  {
  }

  /** For the frequencies 1, 1, 2 and 2 the lengths are 3, 3, 2 and 1, though 2, 2, 2 and 2 would be as good. */
  lemma TiesBroken(l: seq<nat>, maxLen: nat, cap: nat)
    requires GoodLengths([1, 1, 2, 2], l, maxLen, cap) && maxLen >= 3
    ensures l == [3, 3, 2, 1]
  {
    hide Depths, UsedBefore, Tried, BestCode, CapTooHigh, Fib;
    var f := FourFreqs();
    FourUsed();
    FourDepths();
    FourOk();
    WithoutRetry(f, l, maxLen, cap);
  }

  lemma FourOk()
    ensures FreqsOk(FourFreqs())
  {
    hide Sum;
    var f := FourFreqs();
    SumNext(f, 0);
    SumNext(f, 1);
    SumNext(f, 2);
    SumNext(f, 3);
    NoSum(f[..0]);
    assert f[..4] == f;
  }

  lemma NoSum(f: seq<nat>)
    requires f == []
    ensures Sum(f) == 0
  {
  }
}
