/** compute_huffman_lengths() and huffman_encoder_init() (hwzip/huffman.c, lines 148-248 and 281-289). */
module HuffmanLengths {
  import opened Bits
  import opened Huffman
  import opened OptimalCodes
  import opened HuffmanHeap
  import opened HuffmanTree
  import HuffmanEncoder

  // ---------------------------------------------------------------- what is computed

  function Sum(freqs: seq<nat>): nat {
    if freqs == [] then 0 else Sum(freqs[..|freqs| - 1]) + freqs[|freqs| - 1]
  }

  ghost predicate FreqsOk(freqs: seq<nat>) {
    |freqs| <= MAX_SYMBOLS && Sum(freqs) < 0x1_0000
  }

  /** The frequencies under a cap. */
  function Capped(freqs: seq<nat>, cap: nat): (c: seq<nat>)
    ensures |c| == |freqs|
  {
    seq(|freqs|, i requires 0 <= i < |freqs| => Min(freqs[i], cap))
  }

  /** The total number of bits for symbols that occur this often. */
  function TotalBits(freqs: seq<nat>, lengths: seq<nat>): nat
    requires |freqs| == |lengths|
  {
    if freqs == [] then 0
    else TotalBits(freqs[..|freqs| - 1], lengths[..|lengths| - 1]) + freqs[|freqs| - 1] * lengths[|lengths| - 1]
  }

  /** Exactly the symbols that occur have codewords. */
  ghost predicate ForUsed(freqs: seq<nat>, lengths: seq<nat>) {
    |lengths| == |freqs| && forall i :: 0 <= i < |freqs| ==> (freqs[i] > 0 <==> lengths[i] > 0)
  }

  /** No prefix code for the symbols that occur takes fewer bits in total. */
  ghost predicate Optimal(freqs: seq<nat>, lengths: seq<nat>) {
    && ForUsed(freqs, lengths)
    && forall other: seq<nat>, m: nat ::
         ForUsed(freqs, other) && AtMost(other, m) && Used(other, m) <= Pow2(m) ==> TotalBits(freqs, lengths) <= TotalBits(freqs, other)
  }

  /** How many of the first i symbols occur. */
  function UsedBefore(freqs: seq<nat>, i: nat): (k: nat)
    requires i <= |freqs|
    ensures k <= i
  {
    if i == 0 then 0 else UsedBefore(freqs, i - 1) + if freqs[i - 1] == 0 then 0 else 1
  }

  // ---------------------------------------------------------------- elements for the symbols that occur

  /** The heap element for a used symbol with k used symbols before it. */
  function Element(n: nat, freq: nat, k: nat): nat {
    0x1_0000 * freq + (n + k + 1)
  }

  lemma ElementParts(n: nat, freq: nat, k: nat)
    requires n + k + 1 < 0x1_0000
    ensures Weight(Element(n, freq, k)) == freq && Link(Element(n, freq, k)) == n + k + 1
  {
  }

  /** The heap elements for the first i symbols. */
  function Initial(freqs: seq<nat>, cap: nat, i: nat): (vs: seq<nat>)
    requires i <= |freqs|
    ensures |vs| == UsedBefore(freqs, i)
  {
    if i == 0 then []
    else
      var vs := Initial(freqs, cap, i - 1);
      if freqs[i - 1] == 0 then vs else vs + [Element(|freqs|, Min(freqs[i - 1], cap), |vs|)]
  }

  lemma {:induction false} AboutInitial(freqs: seq<nat>, cap: nat, i: nat)
    requires FreqsOk(freqs) && i <= |freqs|
    ensures Separate(Initial(freqs, cap, i), |freqs|)
    ensures cap > 0 ==> Positive(Initial(freqs, cap, i))
  {
    hide Element, Weight, Link, Sum;
    if i > 0 {
      AboutInitial(freqs, cap, i - 1);
      var vs := Initial(freqs, cap, i - 1);
      if freqs[i - 1] > 0 {
        ElementParts(|freqs|, Min(freqs[i - 1], cap), |vs|);
      }
    }
  }

  /** The elements weigh what the frequencies under the cap amount to. */
  lemma {:induction false} InitialTotal(freqs: seq<nat>, cap: nat, i: nat)
    requires FreqsOk(freqs) && i <= |freqs|
    ensures Total(Initial(freqs, cap, i)) == Sum(Capped(freqs, cap)[..i]) <= Sum(freqs[..i])
  {
    if i > 0 {
      InitialTotal(freqs, cap, i - 1);
      var c := Capped(freqs, cap);
      assert c[i - 1] == Min(freqs[i - 1], cap);
      hide Element, Weight, Link, Sum, Capped, Total;
      SumNext(freqs, i - 1);
      SumNext(c, i - 1);
      var vs := Initial(freqs, cap, i - 1);
      if freqs[i - 1] > 0 {
        ElementParts(|freqs|, Min(freqs[i - 1], cap), |vs|);
        TotalSnoc(vs, Element(|freqs|, Min(freqs[i - 1], cap), |vs|));
      }
    }
  }

  lemma SumNext(freqs: seq<nat>, i: nat)
    requires i < |freqs|
    ensures Sum(freqs[..i + 1]) == Sum(freqs[..i]) + freqs[i]
  {
    assert freqs[..i + 1][..i] == freqs[..i];
  }

  lemma TotalSnoc(vs: seq<nat>, v: nat)
    ensures Total(vs + [v]) == Total(vs) + Weight(v)
  {
    hide Weight;
    assert (vs + [v])[..|vs|] == vs;
  }

  /** The lengths of the used symbols among the first i. */
  function Picked(freqs: seq<nat>, lengths: seq<nat>, i: nat): (ds: seq<nat>)
    requires i <= |freqs| == |lengths|
    ensures |ds| == UsedBefore(freqs, i)
  {
    if i == 0 then []
    else Picked(freqs, lengths, i - 1) + if freqs[i - 1] == 0 then [] else [lengths[i - 1]]
  }

  lemma BitsNext(freqs: seq<nat>, lengths: seq<nat>, cap: nat, i: nat)
    requires 0 < i <= |freqs| == |lengths|
    ensures TotalBits(Capped(freqs, cap)[..i], lengths[..i])
         == TotalBits(Capped(freqs, cap)[..i - 1], lengths[..i - 1]) + Min(freqs[i - 1], cap) * lengths[i - 1]
  {
    assert Capped(freqs, cap)[..i][..i - 1] == Capped(freqs, cap)[..i - 1];
    assert lengths[..i][..i - 1] == lengths[..i - 1];
  }

  /** The cost of the elements is the number of bits. */
  lemma {:induction false} CostIsBits(freqs: seq<nat>, lengths: seq<nat>, cap: nat, i: nat)
    requires FreqsOk(freqs) && |lengths| == |freqs| && i <= |freqs|
    ensures Cost(Initial(freqs, cap, i), Picked(freqs, lengths, i)) == TotalBits(Capped(freqs, cap)[..i], lengths[..i])
  {
    hide Weight, Element, Sum, TotalBits, Cost, Capped;
    if i == 0 {
      NoBits(Capped(freqs, cap)[..0], lengths[..0]);
      NoCost([], []);
    } else {
      CostIsBits(freqs, lengths, cap, i - 1);
      BitsNext(freqs, lengths, cap, i);
      var vs, ds := Initial(freqs, cap, i - 1), Picked(freqs, lengths, i - 1);
      if freqs[i - 1] > 0 {
        ElementParts(|freqs|, Min(freqs[i - 1], cap), |vs|);
        CostSnoc(vs, ds, Element(|freqs|, Min(freqs[i - 1], cap), |vs|), lengths[i - 1]);
      } else {
        assert Picked(freqs, lengths, i) == ds;
      }
    }
  }

  lemma NoBits(c: seq<nat>, l: seq<nat>)
    requires |c| == |l| == 0
    ensures TotalBits(c, l) == 0
  {
  }

  // ---------------------------------------------------------------- the Kraft sum, by symbols

  /** The Kraft sum in units of 2^-m of the codewords of up to m bits. */
  function SymbolSpace(lengths: seq<nat>, m: nat): nat {
    if lengths == [] then 0
    else
      var l := lengths[|lengths| - 1];
      SymbolSpace(lengths[..|lengths| - 1], m) + if 0 < l <= m then Pow2(m - l) else 0
  }

  lemma {:induction false} SymbolSpaceNext(lengths: seq<nat>, m: nat)
    requires m > 0
    ensures SymbolSpace(lengths, m) == 2 * SymbolSpace(lengths, m - 1) + Count(lengths, m)
  {
    if lengths != [] {
      SymbolSpaceNext(lengths[..|lengths| - 1], m);
    }
  }

  lemma {:induction false} NoSymbolSpace(lengths: seq<nat>)
    ensures SymbolSpace(lengths, 0) == 0
  {
    if lengths != [] {
      NoSymbolSpace(lengths[..|lengths| - 1]);
    }
  }

  /** Counting codewords by length or by symbol comes to the same. */
  lemma {:induction false} UsedBySymbol(lengths: seq<nat>, m: nat)
    ensures Used(lengths, m) == SymbolSpace(lengths, m)
  {
    if m == 0 {
      NoSymbolSpace(lengths);
    } else {
      UsedBySymbol(lengths, m - 1);
      SymbolSpaceNext(lengths, m);
    }
  }

  lemma {:induction false} PickedSpace(freqs: seq<nat>, lengths: seq<nat>, m: nat, i: nat)
    requires ForUsed(freqs, lengths) && AtMost(lengths, m) && i <= |freqs|
    ensures AtMost(Picked(freqs, lengths, i), m)
    ensures Space(Picked(freqs, lengths, i), m) == SymbolSpace(lengths[..i], m)
  {
    hide Space, Pow2;
    if i == 0 {
      NoSpaceAtAll(m);
    } else {
      PickedSpace(freqs, lengths, m, i - 1);
      assert lengths[..i][..i - 1] == lengths[..i - 1];
      if freqs[i - 1] > 0 {
        SpaceSnoc(Picked(freqs, lengths, i - 1), lengths[i - 1], m);
      } else {
        assert Picked(freqs, lengths, i) == Picked(freqs, lengths, i - 1);
      }
    }
  }

  lemma NoSpaceAtAll(m: nat)
    ensures Space([], m) == 0
  {
  }

  /** The codeword lengths of a tree are optimal, and use up all codewords. */
  lemma TreeOptimal(freqs: seq<nat>, lengths: seq<nat>, cap: nat, m: nat)
    requires FreqsOk(freqs) && ForUsed(freqs, lengths) && cap > 0 && AtMost(lengths, m)
    requires var vs, ds := Initial(freqs, cap, |freqs|), Picked(freqs, lengths, |freqs|);
             && Bound(multiset(vs), Cost(vs, ds))
             && AtMost(ds, m) && Space(ds, m) == Pow2(m)
    ensures Optimal(Capped(freqs, cap), lengths) && Used(lengths, m) == Pow2(m)
  {
    hide Cost, Space, Used, SymbolSpace, TotalBits, Bound;
    var n, c := |freqs|, Capped(freqs, cap);
    Whole(c, lengths);
    UsedBySymbol(lengths, m);
    PickedSpace(freqs, lengths, m, n);
    CostIsBits(freqs, lengths, cap, n);
    forall other: seq<nat>, k: nat | ForUsed(c, other) && AtMost(other, k) && Used(other, k) <= Pow2(k)
      ensures TotalBits(c, lengths) <= TotalBits(c, other)
    {
      assert ForUsed(freqs, other) by {
        forall i | 0 <= i < n
          ensures freqs[i] > 0 <==> other[i] > 0
        {
          assert c[i] == Min(freqs[i], cap);
        }
      }
      Whole(c, other);
      UsedBySymbol(other, k);
      PickedSpace(freqs, other, k, n);
      CostIsBits(freqs, other, cap, n);
      CostBound(Initial(freqs, cap, n), Picked(freqs, other, n), k, Cost(Initial(freqs, cap, n), Picked(freqs, lengths, n)));
    }
  }

  lemma Whole(c: seq<nat>, lengths: seq<nat>)
    requires |c| == |lengths|
    ensures c[..|c|] == c && lengths[..|c|] == lengths
  {
  }

  /** More room is no different. */
  lemma FullAbove(lengths: seq<nat>, l: nat, m: nat)
    requires l <= m && AtMost(lengths, l) && Used(lengths, l) == Pow2(l)
    ensures Used(lengths, m) == Pow2(m)
    decreases m
  {
    if l < m {
      FullAbove(lengths, l, m - 1);
      CountNone(lengths, m);
    }
  }

  lemma {:induction false} FullBelow(lengths: seq<nat>, l: nat, m: nat)
    requires l <= m && AtMost(lengths, l) && Used(lengths, m) == Pow2(m)
    ensures Used(lengths, l) == Pow2(l)
    decreases m
  {
    if l < m {
      CountNone(lengths, m);
      FullBelow(lengths, l, m - 1);
    }
  }

  lemma Complete(lengths: seq<nat>, l: nat, m: nat)
    requires AtMost(lengths, l) && AtMost(lengths, m) && Used(lengths, m) == Pow2(m)
    ensures Used(lengths, l) == Pow2(l)
  {
    if l < m {
      FullBelow(lengths, l, m);
    } else {
      FullAbove(lengths, m, l);
    }
  }

  // ---------------------------------------------------------------- the lengths from a tree

  lemma {:induction false} UsedBeforeNext(freqs: seq<nat>, i: nat, j: nat)
    requires i < j <= |freqs| && freqs[i] > 0
    ensures UsedBefore(freqs, i) < UsedBefore(freqs, j)
    decreases j
  {
    if i < j - 1 {
      UsedBeforeNext(freqs, i, j - 1);
    }
  }

  /** The lengths of the first i symbols, given the depths of the leaves. */
  ghost predicate LengthsAre(lengths: seq<nat>, freqs: seq<nat>, ds: seq<nat>, i: nat) {
    && i <= |freqs| <= |lengths| && |ds| == UsedBefore(freqs, |freqs|)
    && forall k :: 0 <= k < i ==>
         if freqs[k] == 0 then lengths[k] == 0
         else UsedBefore(freqs, k) < |ds| && lengths[k] == ds[UsedBefore(freqs, k)] >= 1
  }

  lemma {:induction false} PickedIs(freqs: seq<nat>, lengths: seq<nat>, ds: seq<nat>, i: nat)
    requires i <= |lengths| == |freqs| && LengthsAre(lengths, freqs, ds, i)
    ensures UsedBefore(freqs, i) <= |ds| && Picked(freqs, lengths, i) == ds[..UsedBefore(freqs, i)]
  {
    hide LengthsAre, UsedBefore, Picked;
    PickedStep(freqs, lengths, i);
    if i > 0 {
      LengthAt(freqs, lengths, ds, i);
      PickedIs(freqs, lengths, ds, i - 1);
      if freqs[i - 1] > 0 {
        var k := UsedBefore(freqs, i - 1);
        assert ds[..k + 1] == ds[..k] + [ds[k]];
      }
    }
  }

  lemma PickedStep(freqs: seq<nat>, lengths: seq<nat>, i: nat)
    requires i <= |freqs| == |lengths|
    ensures i == 0 ==> UsedBefore(freqs, i) == 0 && Picked(freqs, lengths, i) == []
    ensures i > 0 && freqs[i - 1] == 0 ==>
              UsedBefore(freqs, i) == UsedBefore(freqs, i - 1) && Picked(freqs, lengths, i) == Picked(freqs, lengths, i - 1)
    ensures i > 0 && freqs[i - 1] > 0 ==>
              && UsedBefore(freqs, i) == UsedBefore(freqs, i - 1) + 1
              && Picked(freqs, lengths, i) == Picked(freqs, lengths, i - 1) + [lengths[i - 1]]
  {
    if i > 0 {
      assert Picked(freqs, lengths, i - 1) + [] == Picked(freqs, lengths, i - 1);
    }
  }

  lemma LengthAt(freqs: seq<nat>, lengths: seq<nat>, ds: seq<nat>, i: nat)
    requires 0 < i && LengthsAre(lengths, freqs, ds, i)
    ensures LengthsAre(lengths, freqs, ds, i - 1)
    ensures freqs[i - 1] > 0 ==> UsedBefore(freqs, i - 1) < |ds| && lengths[i - 1] == ds[UsedBefore(freqs, i - 1)]
  {
  }

  lemma LengthsFit(lengths: seq<nat>, freqs: seq<nat>, ds: seq<nat>, m: nat)
    requires |lengths| == |freqs| && LengthsAre(lengths, freqs, ds, |freqs|) && AtMost(ds, m)
    ensures ForUsed(freqs, lengths) && AtMost(lengths, m)
  {
  }

  /** What a tree whose leaves are not too deep gives. */
  lemma TreeLengths(s: seq<nat>, f: Forest, freqs: seq<nat>, cap: nat, lengths: seq<nat>, maxLen: nat)
    requires FreqsOk(freqs) && |lengths| == |freqs| && cap > 0
    requires IsTree(s, f, |freqs|, UsedBefore(freqs, |freqs|), Initial(freqs, cap, |freqs|))
    requires var ds := Leaves(f.dep, |freqs|, UsedBefore(freqs, |freqs|));
             LengthsAre(lengths, freqs, ds, |freqs|) && AtMost(ds, maxLen)
    ensures ForUsed(freqs, lengths) && AtMost(lengths, maxLen) && Used(lengths, maxLen) == Pow2(maxLen)
    ensures Optimal(Capped(freqs, cap), lengths)
  {
    hide Used, Optimal, Space, Cost, Bound, Initial, Picked, LengthsAre, Capped, Linked, Pow2, ForUsed, UsedBefore;
    var h0 := UsedBefore(freqs, |freqs|);
    TreeSize(s, f, |freqs|, h0, Initial(freqs, cap, |freqs|));
    var ds := Leaves(f.dep, |freqs|, h0);
    PickedIs(freqs, lengths, ds, |freqs|);
    assert ds[..h0] == ds;
    LengthsFit(lengths, freqs, ds, maxLen);
    LengthsFit(lengths, freqs, ds, h0);
    TreeOptimal(freqs, lengths, cap, h0);
    Complete(lengths, maxLen, h0);
  }

  /** With all weights 1, the leaves are not too deep. */
  lemma FlatTree(s: seq<nat>, f: Forest, freqs: seq<nat>, maxLen: nat)
    requires FreqsOk(freqs) && |freqs| <= Pow2(maxLen)
    requires IsTree(s, f, |freqs|, UsedBefore(freqs, |freqs|), Initial(freqs, 1, |freqs|))
    ensures AtMost(Leaves(f.dep, |freqs|, UsedBefore(freqs, |freqs|)), maxLen)
  {
    hide Space, Cost, Bound, Linked, Weight, Pow2;
    var h0, vs := UsedBefore(freqs, |freqs|), Initial(freqs, 1, |freqs|);
    TreeSize(s, f, |freqs|, h0, vs);
    UnitWeights(freqs, |freqs|);
    EqualWeightsFlat(vs, Leaves(f.dep, |freqs|, h0), h0, maxLen);
  }

  lemma {:induction false} UnitWeights(freqs: seq<nat>, i: nat)
    requires FreqsOk(freqs) && i <= |freqs|
    ensures forall k :: 0 <= k < |Initial(freqs, 1, i)| ==> Weight(Initial(freqs, 1, i)[k]) == 1
  {
    hide Weight, Element;
    if i > 0 {
      UnitWeights(freqs, i - 1);
      ElementParts(|freqs|, 1, UsedBefore(freqs, i - 1));
    }
  }

  // ---------------------------------------------------------------- the algorithm

  /** The first loop: an element for each symbol that occurs. */
  method InitHeap(freqs: seq<nat>, freqCap: nat, nodes: array<nat>) returns (h: nat)
    requires FreqsOk(freqs) && nodes.Length == 2 * MAX_SYMBOLS + 1
    modifies nodes
    ensures h == UsedBefore(freqs, |freqs|) && nodes[1..h + 1] == Initial(freqs, freqCap, |freqs|)
  {
    hide Element, Sum, Initial, UsedBefore;
    h := 0;
    var i := 0;
    NothingInitial(freqs, freqCap);
    while i < |freqs|
      invariant i <= |freqs| && h == UsedBefore(freqs, i)
      invariant nodes[1..h + 1] == Initial(freqs, freqCap, i)
    {
      InitialNext(freqs, freqCap, i);
      var freq := freqs[i];
      if freq != 0 {
        if freq > freqCap {
          freq := freqCap;
        }
        h := h + 1;
        nodes[h] := Element(|freqs|, freq, h - 1);
        assert nodes[1..h + 1] == nodes[1..h] + [nodes[h]];
      }
      i := i + 1;
    }
  }

  lemma NothingInitial(freqs: seq<nat>, cap: nat)
    ensures Initial(freqs, cap, 0) == [] && UsedBefore(freqs, 0) == 0
  {
  }

  lemma InitialNext(freqs: seq<nat>, cap: nat, i: nat)
    requires i < |freqs|
    ensures UsedBefore(freqs, i) <= i && UsedBefore(freqs, i + 1) == UsedBefore(freqs, i) + if freqs[i] == 0 then 0 else 1
    ensures Initial(freqs, cap, i + 1)
         == Initial(freqs, cap, i) + if freqs[i] == 0 then [] else [Element(|freqs|, Min(freqs[i], cap), UsedBefore(freqs, i))]
  {
    hide Element;
  }

  /** The last loop: the depth of each symbol is its length, unless one is too deep. */
  method ReadLengths(freqs: seq<nat>, maxLen: nat, nodes: array<nat>, lengths: array<nat>, ghost f: Forest, ghost vs: seq<nat>)
    returns (ok: bool)
    requires IsTree(nodes[..], f, |freqs|, UsedBefore(freqs, |freqs|), vs) && |freqs| <= lengths.Length && nodes != lengths
    modifies lengths
    ensures lengths[|freqs|..] == old(lengths[|freqs|..])
    ensures var ds := Leaves(f.dep, |freqs|, UsedBefore(freqs, |freqs|));
            ok == AtMost(ds, maxLen) && (ok ==> LengthsAre(lengths[..], freqs, ds, |freqs|))
  {
    hide IsTree, Linked, LengthsAre, UsedBefore, AtMost;
    ghost var h0 := UsedBefore(freqs, |freqs|);
    assert |f.dep| > |freqs| + h0 by { TreeSize(nodes[..], f, |freqs|, h0, vs); }
    ghost var ds := Leaves(f.dep, |freqs|, h0);
    NoLengths(lengths[..], freqs, ds);
    var h, i := 0, 0;
    while i < |freqs|
      invariant i <= |freqs| && h == UsedBefore(freqs, i) && IsTree(nodes[..], f, |freqs|, h0, vs)
      invariant lengths[|freqs|..] == old(lengths[|freqs|..])
      invariant LengthsAre(lengths[..], freqs, ds, i) && h <= |ds| && AtMost(ds[..h], maxLen)
    {
      LengthsNext(lengths[..], freqs, ds, i, maxLen);
      if freqs[i] == 0 {
        lengths[i] := 0;
      } else {
        h := h + 1;
        var l := Depth(nodes, |freqs|, h, f, h0, vs);
        if l > maxLen {
          return false;
        }
        lengths[i] := l;
      }
      i := i + 1;
    }
    assert ds[..h] == ds;
    return true;
  }

  lemma NoLengths(lengths: seq<nat>, freqs: seq<nat>, ds: seq<nat>)
    requires |freqs| <= |lengths| && |ds| == UsedBefore(freqs, |freqs|)
    ensures LengthsAre(lengths, freqs, ds, 0) && UsedBefore(freqs, 0) == 0 && forall m :: AtMost(ds[..0], m)
  {
  }

  lemma LengthsNext(lengths: seq<nat>, freqs: seq<nat>, ds: seq<nat>, i: nat, m: nat)
    requires LengthsAre(lengths, freqs, ds, i) && i < |freqs| <= |lengths| && UsedBefore(freqs, i) <= |ds|
    ensures freqs[i] == 0 ==> LengthsAre(lengths[i := 0], freqs, ds, i + 1) && UsedBefore(freqs, i + 1) == UsedBefore(freqs, i)
    ensures freqs[i] > 0 ==>
              var h := UsedBefore(freqs, i);
              && h < |ds| && UsedBefore(freqs, i + 1) == h + 1
              && (ds[h] >= 1 ==> LengthsAre(lengths[i := ds[h]], freqs, ds, i + 1))
              && (ds[h] > m ==> !AtMost(ds, m))
              && (ds[h] <= m && AtMost(ds[..h], m) ==> AtMost(ds[..h + 1], m))
  {
    hide UsedBefore;
    UsedBeforeStep(freqs, i);
    if freqs[i] > 0 {
      UsedBeforeNext(freqs, i, |freqs|);
      var h := UsedBefore(freqs, i);
      if ds[h] >= 1 {
        assert LengthsAre(lengths[i := ds[h]], freqs, ds, i + 1);
      }
      assert ds[..h + 1] == ds[..h] + [ds[h]];
    } else {
      assert LengthsAre(lengths[i := 0], freqs, ds, i + 1);
    }
  }

  lemma UsedBeforeStep(freqs: seq<nat>, i: nat)
    requires i < |freqs|
    ensures UsedBefore(freqs, i + 1) == UsedBefore(freqs, i) + if freqs[i] == 0 then 0 else 1
  {
  }

  lemma TreeSize(s: seq<nat>, f: Forest, n: nat, h0: nat, vs: seq<nat>)
    requires IsTree(s, f, n, h0, vs)
    ensures |f.dep| > n + h0
  {
  }

  /** How deep the used symbols are in the tree for the frequencies under the cap. */
  ghost function Depths(freqs: seq<nat>, cap: nat): (ds: seq<nat>)
    requires |freqs| <= MAX_SYMBOLS
    ensures |ds| == UsedBefore(freqs, |freqs|)
  {
    var n, h0 := |freqs|, UsedBefore(freqs, |freqs|);
    Leaves(TreeOf(multiset(Initial(freqs, cap, n)), Singles(2 * MAX_SYMBOLS + 1), h0).dep, n, h0)
  }

  /** The lengths of all symbols, given the depths of the leaves. */
  function Spread(freqs: seq<nat>, ds: seq<nat>): (lengths: seq<nat>)
    ensures |lengths| == |freqs|
  {
    seq(|freqs|, i requires 0 <= i < |freqs| =>
      if freqs[i] > 0 && UsedBefore(freqs, i) < |ds| then ds[UsedBefore(freqs, i)] else 0)
  }

  /** A code for the symbols that occur that uses up all codewords of up to m bits, and that no prefix code
      betters for the frequencies under the cap. */
  ghost predicate BestCode(freqs: seq<nat>, lengths: seq<nat>, m: nat, cap: nat) {
    && ForUsed(freqs, lengths) && AtMost(lengths, m) && Used(lengths, m) == Pow2(m)
    && Optimal(Capped(freqs, cap), lengths)
  }

  /** The attempt under this cap has given these lengths. */
  ghost predicate AttemptDone(freqs: seq<nat>, lengths: seq<nat>, maxLen: nat, cap: nat) {
    && |freqs| <= MAX_SYMBOLS && lengths == Spread(freqs, Depths(freqs, cap)) && AtMost(Depths(freqs, cap), maxLen)
    && BestCode(freqs, lengths, maxLen, cap)
  }

  /** Under this cap the tree is too deep, so an optimal code has a codeword that is too long.  That needs
      many symbols, and frequencies that grow like the Fibonacci numbers. */
  ghost predicate CapTooHigh(freqs: seq<nat>, maxLen: nat, cap: nat) {
    && |freqs| <= MAX_SYMBOLS && !AtMost(Depths(freqs, cap), maxLen)
    && (exists lengths: seq<nat>, m: nat :: BestCode(freqs, lengths, m, cap) && !AtMost(lengths, maxLen))
    && UsedBefore(freqs, |freqs|) >= maxLen + 2
    && Sum(Capped(freqs, cap)) >= Fib(maxLen + 3)
  }

  /** The caps before this one, which are 0xFFFF and its halves, have all been too high. */
  ghost predicate Tried(freqs: seq<nat>, maxLen: nat, cap: nat)
    decreases 0xFFFF - cap
  {
    cap == 0xFFFF || (1 <= cap < 0x8000 && CapTooHigh(freqs, maxLen, 2 * cap + 1) && Tried(freqs, maxLen, 2 * cap + 1))
  }

  /** What the lengths are when at least two symbols occur: the depths of the tree under the first cap that
      is not too high, and the best for the frequencies under that cap. */
  ghost predicate GoodLengths(freqs: seq<nat>, lengths: seq<nat>, maxLen: nat, cap: nat) {
    AttemptDone(freqs, lengths, maxLen, cap) && Tried(freqs, maxLen, cap)
  }

  /** Caps are less by one than a power of two. */
  lemma {:induction false} TriedCaps(freqs: seq<nat>, maxLen: nat, cap: nat) returns (k: nat)
    requires Tried(freqs, maxLen, cap)
    ensures 1 <= k <= 16 && cap == Pow2(k) - 1
    decreases 0xFFFF - cap
  {
    hide CapTooHigh;
    if cap < 0xFFFF {
      k := TriedCaps(freqs, maxLen, 2 * cap + 1);
      k := k - 1;
    } else {
      k := 16;
      Pow2Word();
    }
  }

  /** A cap above the final one has been too high. */
  lemma {:induction false} TriedAbove(freqs: seq<nat>, maxLen: nat, cap: nat, k: nat, higher: nat, l: nat)
    requires Tried(freqs, maxLen, cap) && cap == Pow2(k) - 1 && higher == Pow2(l) - 1 && k < l <= 16
    ensures CapTooHigh(freqs, maxLen, higher)
    decreases l - k
  {
    hide CapTooHigh;
    Pow2Word();
    Pow2Mono(l, 16);
    Pow2Mono(k + 1, l);
    if k + 1 < l {
      Pow2Mono(k + 2, l);
      TriedAbove(freqs, maxLen, 2 * cap + 1, k + 1, higher, l);
    }
  }

  /** There is just one final cap, so what is made of frequencies is determined by them. */
  lemma GoodUnique(freqs: seq<nat>, maxLen: nat, lengths: seq<nat>, cap: nat, other: seq<nat>, otherCap: nat)
    requires GoodLengths(freqs, lengths, maxLen, cap) && GoodLengths(freqs, other, maxLen, otherCap)
    ensures cap == otherCap && lengths == other
  {
    hide CapTooHigh, BestCode, Depths, Spread, AtMost, Tried, UsedBefore, Pow2;
    var k := TriedCaps(freqs, maxLen, cap);
    var l := TriedCaps(freqs, maxLen, otherCap);
    if k < l {
      TriedAbove(freqs, maxLen, cap, k, otherCap, l);
      TooHighNeeds(freqs, maxLen, otherCap);
    } else if l < k {
      TriedAbove(freqs, maxLen, otherCap, l, cap, k);
      TooHighNeeds(freqs, maxLen, cap);
    }
  }

  /** The codeword lengths that are made for frequencies: if fewer than two symbols occur, of one bit. */
  ghost predicate CodeFor(freqs: seq<nat>, lengths: seq<nat>, maxLen: nat) {
    && (UsedBefore(freqs, |freqs|) >= 2 ==> exists cap: nat :: GoodLengths(freqs, lengths, maxLen, cap))
    && (UsedBefore(freqs, |freqs|) < 2 ==> ForUsed(freqs, lengths) && AtMost(lengths, 1))
  }

  lemma CodeForUnique(freqs: seq<nat>, lengths: seq<nat>, other: seq<nat>, maxLen: nat)
    requires CodeFor(freqs, lengths, maxLen) && CodeFor(freqs, other, maxLen)
    ensures lengths == other
  {
    hide GoodLengths, UsedBefore;
    if UsedBefore(freqs, |freqs|) >= 2 {
      var cap: nat :| GoodLengths(freqs, lengths, maxLen, cap);
      var otherCap: nat :| GoodLengths(freqs, other, maxLen, otherCap);
      GoodUnique(freqs, maxLen, lengths, cap, other, otherCap);
    }
  }

  /** If the first cap was too high, there are many symbols and they occur often. */
  lemma {:induction false} TriedNeeds(freqs: seq<nat>, maxLen: nat, cap: nat)
    requires FreqsOk(freqs) && Tried(freqs, maxLen, cap) && cap < 0xFFFF
    ensures CapTooHigh(freqs, maxLen, 0xFFFF)
    ensures UsedBefore(freqs, |freqs|) >= maxLen + 2 && Sum(freqs) >= Fib(maxLen + 3)
    decreases 0xFFFF - cap
  {
    hide CapTooHigh, UsedBefore, Sum, FreqsOk;
    if 2 * cap + 1 < 0xFFFF {
      TriedNeeds(freqs, maxLen, 2 * cap + 1);
    } else {
      NoCap(freqs);
      TooHighNeeds(freqs, maxLen, 0xFFFF);
    }
  }

  lemma TooHighNeeds(freqs: seq<nat>, maxLen: nat, cap: nat)
    requires CapTooHigh(freqs, maxLen, cap)
    ensures |freqs| <= MAX_SYMBOLS && !AtMost(Depths(freqs, cap), maxLen)
    ensures UsedBefore(freqs, |freqs|) >= maxLen + 2 && Sum(Capped(freqs, cap)) >= Fib(maxLen + 3)
  {
  }

  /** Without a retry the lengths are optimal for the frequencies themselves.  There is none if and only if
      the tree for the frequencies themselves is not too deep; and certainly none if there are at most
      maxLen + 1 symbols, or if they occur less often than a Fibonacci number says. */
  lemma WithoutRetry(freqs: seq<nat>, lengths: seq<nat>, maxLen: nat, cap: nat)
    requires FreqsOk(freqs) && GoodLengths(freqs, lengths, maxLen, cap)
    ensures cap == 0xFFFF ==> Optimal(freqs, lengths)
    ensures cap == 0xFFFF <==> AtMost(Depths(freqs, 0xFFFF), maxLen)
    ensures UsedBefore(freqs, |freqs|) <= maxLen + 1 || Sum(freqs) < Fib(maxLen + 3) ==> cap == 0xFFFF
  {
    hide CapTooHigh, UsedBefore, Sum, FreqsOk, Optimal, Fib, Depths, AtMost;
    NoCap(freqs);
    if cap < 0xFFFF {
      TriedNeeds(freqs, maxLen, cap);
      TooHighNeeds(freqs, maxLen, 0xFFFF);
    }
  }

  lemma SpreadAre(freqs: seq<nat>, ds: seq<nat>)
    requires |ds| == UsedBefore(freqs, |freqs|) && forall j :: 0 <= j < |ds| ==> ds[j] >= 1
    ensures LengthsAre(Spread(freqs, ds), freqs, ds, |freqs|)
  {
    hide UsedBefore;
    forall k | 0 <= k < |freqs| && freqs[k] > 0
      ensures UsedBefore(freqs, k) < |ds|
    {
      UsedBeforeNext(freqs, k, |freqs|);
    }
  }

  /** The symbol with j used symbols before it. */
  lemma {:induction false} SymbolAt(freqs: seq<nat>, j: nat, n: nat) returns (i: nat)
    requires n <= |freqs| && j < UsedBefore(freqs, n)
    ensures i < n && freqs[i] > 0 && UsedBefore(freqs, i) == j
  {
    if freqs[n - 1] > 0 && UsedBefore(freqs, n - 1) == j {
      i := n - 1;
    } else {
      i := SymbolAt(freqs, j, n - 1);
    }
  }

  lemma {:induction false} FibUpTo(k: nat, l: nat)
    requires 1 <= k <= l
    ensures Fib(k) <= Fib(l)
  {
    if k < l {
      FibUpTo(k, l - 1);
      FibMonotone(l - 1);
    }
  }

  lemma LeafSlot(s: seq<nat>, f: Forest, n: nat, h0: nat, x: nat)
    requires Linked(s, f, n, h0, 1) && n < x <= n + h0 && 2 <= h0 && f.own[x] == 2
    ensures 1 <= f.dep[x] <= h0 - 1
  {
    assert SlotOk(s, f, n, h0, 1, x);
  }

  lemma LeafDepth(s: seq<nat>, f: Forest, n: nat, h0: nat, vs: seq<nat>, j: nat)
    requires IsTree(s, f, n, h0, vs) && j < h0
    ensures n + h0 < |f.dep| && 1 <= Leaves(f.dep, n, h0)[j] <= h0 - 1 && Fib(Leaves(f.dep, n, h0)[j] + 2) <= Total(vs)
  {
    hide Space, Bound, Cost, Total, Fib, Weight, Pow2, Linked, SlotOk;
    TreeSize(s, f, n, h0, vs);
    assert IsSlot(n, h0, 1, n + 1 + j);
    LeafSlot(s, f, n, h0, n + 1 + j);
  }

  /** A tree with a leaf that is too deep. */
  lemma TreeTooDeep(s: seq<nat>, f: Forest, freqs: seq<nat>, cap: nat, maxLen: nat)
    requires FreqsOk(freqs) && cap > 0
    requires IsTree(s, f, |freqs|, UsedBefore(freqs, |freqs|), Initial(freqs, cap, |freqs|))
    requires |f.dep| > |freqs| + UsedBefore(freqs, |freqs|)
    requires !AtMost(Leaves(f.dep, |freqs|, UsedBefore(freqs, |freqs|)), maxLen)
    requires |freqs| <= MAX_SYMBOLS && Depths(freqs, cap) == Leaves(f.dep, |freqs|, UsedBefore(freqs, |freqs|))
    ensures CapTooHigh(freqs, maxLen, cap)
  {
    hide Depths, IsTree, Initial, LengthsAre, UsedBefore, Optimal, Pow2, Used, Sum, Fib, ForUsed, Capped, FreqsOk, Total;
    var n, h0, vs := |freqs|, UsedBefore(freqs, |freqs|), Initial(freqs, cap, |freqs|);
    var ds := Leaves(f.dep, n, h0);
    forall j | 0 <= j < h0
      ensures 1 <= ds[j] <= h0 - 1 && Fib(ds[j] + 2) <= Total(vs)
    {
      LeafDepth(s, f, n, h0, vs, j);
    }
    SpreadAre(freqs, ds);
    var lengths := Spread(freqs, ds);
    TreeLengths(s, f, freqs, cap, lengths, h0);
    var j :| 0 <= j < h0 && ds[j] > maxLen;
    var i := SymbolAt(freqs, j, n);
    assert lengths[i] == ds[j];
    assert BestCode(freqs, lengths, h0, cap) && !AtMost(lengths, maxLen);
    FibUpTo(maxLen + 3, ds[j] + 2);
    InitialTotal(freqs, cap, n);
    assert Capped(freqs, cap)[..n] == Capped(freqs, cap);
  }

  /** One attempt, with the frequencies under a cap; it fails exactly if the optimal code that it finds has
      a codeword that is too long, which does not happen under a cap of 1. */
  method Attempt(freqs: seq<nat>, maxLen: nat, freqCap: nat, nodes: array<nat>, lengths: array<nat>) returns (ok: bool)
    requires FreqsOk(freqs) && |freqs| <= Pow2(maxLen) && |freqs| <= lengths.Length && nodes != lengths
    requires nodes.Length == 2 * MAX_SYMBOLS + 1 && 1 <= freqCap <= 0xFFFF
    modifies nodes, lengths
    ensures lengths[|freqs|..] == old(lengths[|freqs|..])
    ensures ok && UsedBefore(freqs, |freqs|) >= 2 ==> AttemptDone(freqs, lengths[..|freqs|], maxLen, freqCap)
    ensures ok && UsedBefore(freqs, |freqs|) < 2 ==>
              ForUsed(freqs, lengths[..|freqs|]) && AtMost(lengths[..|freqs|], 1)
    ensures !ok ==> freqCap > 1 && CapTooHigh(freqs, maxLen, freqCap)
  {
    hide Order, Rearranged, IsTree, Initial, Total, Separate, Positive, LengthsAre, UsedBefore, Optimal, Pow2, Used, BestCode, CapTooHigh, Sum, Capped,
         AttemptDone, Depths, TreeOf, Spread;
    ghost var n, vs := |freqs|, Initial(freqs, freqCap, |freqs|);
    var h := InitHeap(freqs, freqCap, nodes);
    ghost var s := nodes[..];
    assert s[1..h + 1] == vs;
    MinheapHeapify(nodes, h);
    if h < 2 {
      FewUsed(freqs, lengths);
      return true;
    }
    ElementsRearranged(s, nodes[..], h);
    AboutInitial(freqs, freqCap, n);
    InitialTotal(freqs, freqCap, n);
    assert freqs[..n] == freqs;
    ghost var f := BuildTree(nodes, |freqs|, h, vs);
    assert Depths(freqs, freqCap) == Leaves(f.dep, n, h) by { DepthsAre(freqs, freqCap, f); }
    TreeSize(nodes[..], f, n, h, vs);
    ok := ReadLengths(freqs, maxLen, nodes, lengths, f, vs);
    if ok {
      TakeAre(lengths[..], freqs, Leaves(f.dep, n, h));
      TreeLengths(nodes[..], f, freqs, freqCap, lengths[..|freqs|], maxLen);
      BestIs(freqs, lengths[..|freqs|], maxLen, freqCap);
      SpreadIs(freqs, lengths[..|freqs|], Leaves(f.dep, n, h));
      DoneIs(freqs, lengths[..|freqs|], maxLen, freqCap);
    } else {
      TreeTooDeep(nodes[..], f, freqs, freqCap, maxLen);
      if freqCap == 1 {
        FlatTree(nodes[..], f, freqs, maxLen);
      }
    }
  }

  lemma DepthsAre(freqs: seq<nat>, cap: nat, f: Forest)
    requires |freqs| <= MAX_SYMBOLS
    requires f == TreeOf(multiset(Initial(freqs, cap, |freqs|)), Singles(2 * MAX_SYMBOLS + 1), UsedBefore(freqs, |freqs|))
    ensures |f.dep| > |freqs| + UsedBefore(freqs, |freqs|)
    ensures Depths(freqs, cap) == Leaves(f.dep, |freqs|, UsedBefore(freqs, |freqs|))
  {
  }

  lemma SpreadIs(freqs: seq<nat>, lengths: seq<nat>, ds: seq<nat>)
    requires |lengths| == |freqs| && LengthsAre(lengths, freqs, ds, |freqs|)
    ensures lengths == Spread(freqs, ds)
  {
    hide UsedBefore;
  }

  lemma DoneIs(freqs: seq<nat>, lengths: seq<nat>, maxLen: nat, cap: nat)
    requires |freqs| <= MAX_SYMBOLS && lengths == Spread(freqs, Depths(freqs, cap)) && AtMost(Depths(freqs, cap), maxLen)
    requires BestCode(freqs, lengths, maxLen, cap)
    ensures AttemptDone(freqs, lengths, maxLen, cap)
  {
  }

  lemma BestIs(freqs: seq<nat>, lengths: seq<nat>, maxLen: nat, cap: nat)
    requires ForUsed(freqs, lengths) && AtMost(lengths, maxLen) && Used(lengths, maxLen) == Pow2(maxLen)
    requires Optimal(Capped(freqs, cap), lengths)
    ensures BestCode(freqs, lengths, maxLen, cap)
  {
  }

  lemma TakeAre(lengths: seq<nat>, freqs: seq<nat>, ds: seq<nat>)
    requires LengthsAre(lengths, freqs, ds, |freqs|)
    ensures |freqs| <= |lengths| && LengthsAre(lengths[..|freqs|], freqs, ds, |freqs|)
  {
  }

  /** The special case for fewer than two symbols that occur. */
  method FewUsed(freqs: seq<nat>, lengths: array<nat>)
    requires |freqs| <= lengths.Length
    modifies lengths
    ensures lengths[|freqs|..] == old(lengths[|freqs|..])
    ensures ForUsed(freqs, lengths[..|freqs|]) && AtMost(lengths[..|freqs|], 1)
  {
    var i := 0;
    while i < |freqs|
      invariant i <= |freqs| && lengths[|freqs|..] == old(lengths[|freqs|..])
      invariant forall k :: 0 <= k < i ==> lengths[k] == if freqs[k] == 0 then 0 else 1
    {
      lengths[i] := if freqs[i] == 0 then 0 else 1;
      i := i + 1;
    }
  }

  lemma AboutTried(freqs: seq<nat>, maxLen: nat)
    requires FreqsOk(freqs)
    ensures |freqs| <= MAX_SYMBOLS && Tried(freqs, maxLen, 0xFFFF)
  {
  }

  /** The cap 2^k - 1 is halved. */
  lemma TriedNext(freqs: seq<nat>, maxLen: nat, k: nat)
    requires 1 <= k <= 16 && 1 < Pow2(k) - 1 <= 0xFFFF
    requires Tried(freqs, maxLen, Pow2(k) - 1) && CapTooHigh(freqs, maxLen, Pow2(k) - 1)
    ensures k > 1 && (Pow2(k) - 1) / 2 == Pow2(k - 1) - 1 >= 1 && Tried(freqs, maxLen, Pow2(k - 1) - 1)
  {
    hide CapTooHigh;
  }

  lemma GoodIs(freqs: seq<nat>, lengths: seq<nat>, maxLen: nat, cap: nat)
    requires AttemptDone(freqs, lengths, maxLen, cap) && Tried(freqs, maxLen, cap)
    ensures GoodLengths(freqs, lengths, maxLen, cap)
  {
  }

  /** compute_huffman_lengths(): symbols have codewords exactly if they occur.  If there are two or more,
      none is longer than maxLen, all codewords are used up, and no prefix code is better for the
      frequencies under the final cap.  The cap is halved only as long as an optimal code is too long; if
      it never is, no prefix code is better for the frequencies themselves. */
  method ComputeHuffmanLengths(freqs: seq<nat>, maxLen: nat, lengths: array<nat>) returns (ghost cap: nat)
    requires FreqsOk(freqs) && |freqs| <= Pow2(maxLen) && |freqs| <= lengths.Length
    modifies lengths
    ensures lengths[|freqs|..] == old(lengths[|freqs|..])
    ensures UsedBefore(freqs, |freqs|) >= 2 ==> GoodLengths(freqs, lengths[..|freqs|], maxLen, cap)
    ensures UsedBefore(freqs, |freqs|) >= 2 && cap == 0xFFFF ==> Optimal(freqs, lengths[..|freqs|])
    ensures UsedBefore(freqs, |freqs|) >= 2 ==> (cap == 0xFFFF <==> AtMost(Depths(freqs, 0xFFFF), maxLen))
    ensures UsedBefore(freqs, |freqs|) <= maxLen + 1 || Sum(freqs) < Fib(maxLen + 3) ==> cap == 0xFFFF
    ensures UsedBefore(freqs, |freqs|) < 2 ==>
              ForUsed(freqs, lengths[..|freqs|]) && AtMost(lengths[..|freqs|], 1)
  {
    hide AttemptDone, Tried, Spread, BestCode, GoodLengths, CapTooHigh, UsedBefore, FreqsOk, Sum, Fib, Optimal, Capped, ForUsed, AtMost, Depths;
    AboutTried(freqs, maxLen);
    var nodes := new nat[2 * MAX_SYMBOLS + 1];
    var freqCap: nat := 0xFFFF;
    ghost var k := 16;
    assert Pow2(16) == 0x1_0000 by { Pow2Word(); }
    var ok := Attempt(freqs, maxLen, freqCap, nodes, lengths);
    while !ok
      invariant 1 <= k <= 16 && freqCap == Pow2(k) - 1 && 1 <= freqCap <= 0xFFFF && lengths[|freqs|..] == old(lengths[|freqs|..])
      invariant Tried(freqs, maxLen, freqCap)
      invariant ok && UsedBefore(freqs, |freqs|) >= 2 ==> AttemptDone(freqs, lengths[..|freqs|], maxLen, freqCap)
      invariant ok && UsedBefore(freqs, |freqs|) < 2 ==>
                  ForUsed(freqs, lengths[..|freqs|]) && AtMost(lengths[..|freqs|], 1)
      invariant !ok ==> freqCap > 1 && CapTooHigh(freqs, maxLen, freqCap)
      decreases freqCap, !ok
    {
      TriedNext(freqs, maxLen, k);
      k := k - 1;
      freqCap := freqCap / 2;
      ok := Attempt(freqs, maxLen, freqCap, nodes, lengths);
    }
    cap := freqCap;
    if cap < 0xFFFF {
      TriedNeeds(freqs, maxLen, cap);
    }
    if UsedBefore(freqs, |freqs|) >= 2 {
      GoodIs(freqs, lengths[..|freqs|], maxLen, cap);
      WithoutRetry(freqs, lengths[..|freqs|], maxLen, cap);
    }
  }

  /** The first cap changes nothing. */
  lemma NoCap(freqs: seq<nat>)
    requires FreqsOk(freqs)
    ensures Capped(freqs, 0xFFFF) == freqs
  {
    forall i | 0 <= i < |freqs|
      ensures freqs[i] <= 0xFFFF
    {
      SumAt(freqs, i);
    }
  }

  lemma {:induction false} SumAt(freqs: seq<nat>, i: nat)
    requires i < |freqs|
    ensures freqs[i] <= Sum(freqs)
  {
    if i < |freqs| - 1 {
      SumAt(freqs[..|freqs| - 1], i);
    }
  }

  // ---------------------------------------------------------------- when the cap is lowered

  function FiveFreqs(): seq<nat> {
    [1, 1, 2, 3, 8]
  }

  lemma FiveBits(c: seq<nat>, l: seq<nat>)
    requires |c| == |l| == 5
    ensures TotalBits(c, l) == c[0] * l[0] + c[1] * l[1] + c[2] * l[2] + c[3] * l[3] + c[4] * l[4]
  {
    BitsSnoc(c, l, 4);
    BitsSnoc(c, l, 3);
    BitsSnoc(c, l, 2);
    BitsSnoc(c, l, 1);
    BitsSnoc(c, l, 0);
    NoBits(c[..0], l[..0]);
    Whole(c, l);
  }

  lemma BitsSnoc(c: seq<nat>, l: seq<nat>, i: nat)
    requires i < |c| == |l|
    ensures TotalBits(c[..i + 1], l[..i + 1]) == TotalBits(c[..i], l[..i]) + c[i] * l[i]
  {
    assert c[..i + 1][..i] == c[..i] && l[..i + 1][..i] == l[..i];
  }

  /** The Kraft sum of one codeword of up to m bits. */
  function SpaceOf(l: nat, m: nat): nat {
    if 0 < l <= m then Pow2(m - l) else 0
  }

  lemma SpaceNext(l: seq<nat>, m: nat, i: nat)
    requires i < |l|
    ensures SymbolSpace(l[..i + 1], m) == SymbolSpace(l[..i], m) + SpaceOf(l[i], m)
  {
    assert l[..i + 1][..i] == l[..i];
  }

  lemma NoSymbols(l: seq<nat>, m: nat)
    requires l == []
    ensures SymbolSpace(l, m) == 0
  {
  }

  lemma FiveSpace(l: seq<nat>, m: nat)
    requires |l| == 5
    ensures Used(l, m) == SpaceOf(l[0], m) + SpaceOf(l[1], m) + SpaceOf(l[2], m) + SpaceOf(l[3], m) + SpaceOf(l[4], m)
  {
    hide SpaceOf, Used, SymbolSpace;
    UsedBySymbol(l, m);
    NoSymbols(l[..0], m);
    SpaceNext(l, m, 4);
    SpaceNext(l, m, 3);
    SpaceNext(l, m, 2);
    SpaceNext(l, m, 1);
    SpaceNext(l, m, 0);
    assert l[..5] == l;
  }

  function Part(l: nat): nat {
    if l == 1 then 4 else if l == 2 then 2 else 1
  }

  /** The full codes of five codewords of at most 3 bits: one of 1 bit and four of 3 bits, or three of 2 bits and
      two of 3 bits. */
  lemma FiveCases(a: nat, b: nat, c: nat, d: nat, e: nat)
    requires 1 <= a <= 3 && 1 <= b <= 3 && 1 <= c <= 3 && 1 <= d <= 3 && 1 <= e <= 3
    requires Part(a) + Part(b) + Part(c) + Part(d) + Part(e) == 8
    ensures a + b + 2 * c + 3 * d + 8 * e >= 29 && a + b + 2 * c + 3 * d + 7 * e >= 28
    ensures a + b + 2 * c + 3 * d + 3 * e <= 22 || a + b + c + d + e <= 12 ==> a + b + 2 * c + 3 * d + 8 * e >= 32
  {
  }

  lemma FiveFull(l: seq<nat>)
    requires |l| == 5 && AtMost(l, 3) && Used(l, 3) == Pow2(3) && forall i :: 0 <= i < 5 ==> l[i] > 0
    ensures 1 <= l[0] <= 3 && 1 <= l[1] <= 3 && 1 <= l[2] <= 3 && 1 <= l[3] <= 3 && 1 <= l[4] <= 3
    ensures Part(l[0]) + Part(l[1]) + Part(l[2]) + Part(l[3]) + Part(l[4]) == 8
  {
    hide Used;
    FiveSpace(l, 3);
    SmallParts();
    assert forall x :: 1 <= x <= 3 ==> SpaceOf(x, 3) == Part(x);
  }

  lemma SmallParts()
    ensures Pow2(3) == 8 && forall x :: 1 <= x <= 3 ==> SpaceOf(x, 3) == Part(x)
  {
    assert Pow2(0) == 1 && Pow2(1) == 2 && Pow2(2) == 4 && Pow2(3) == 8;
  }

  /** A code that is optimal under a cap takes no more bits than this one under the cap. */
  lemma FiveOther(cap: nat, l: seq<nat>, other: seq<nat>, m: nat)
    requires cap >= 1 && Optimal(Capped(FiveFreqs(), cap), l)
    requires |other| == 5 && AtMost(other, m) && Used(other, m) <= Pow2(m) && forall i :: 0 <= i < 5 ==> other[i] > 0
    ensures TotalBits(Capped(FiveFreqs(), cap), l) <= TotalBits(Capped(FiveFreqs(), cap), other)
  {
    hide Used, TotalBits;
    var c := Capped(FiveFreqs(), cap);
    assert ForUsed(c, other) by {
      forall i | 0 <= i < 5
        ensures c[i] > 0
      {
        assert c[i] == Min(FiveFreqs()[i], cap) && FiveFreqs()[i] >= 1;
      }
    }
  }

  /** The lengths that would be optimal, but with a codeword of 4 bits; and those that are when the last
      frequencies are the same. */
  lemma FiveCodes()
    ensures Used([4, 4, 3, 2, 1], 4) <= Pow2(4) && Used([3, 3, 2, 2, 2], 3) <= Pow2(3) && Used([3, 3, 3, 3, 1], 3) == Pow2(3)
  {
    hide Used;
    FiveSpace([4, 4, 3, 2, 1], 4);
    FiveSpace([3, 3, 2, 2, 2], 3);
    FiveSpace([3, 3, 3, 3, 1], 3);
    assert Pow2(0) == 1 && Pow2(1) == 2 && Pow2(2) == 4 && Pow2(3) == 8 && Pow2(4) == 16;
  }

  lemma SomeCap(freqs: seq<nat>, maxLen: nat, cap: nat)
    requires Tried(freqs, maxLen, cap)
    ensures cap == 1 || cap == 3 || cap >= 7
  {
    hide Tried;
    var k := TriedCaps(freqs, maxLen, cap);
    assert Pow2(1) == 2 && Pow2(2) == 4 && Pow2(3) == 8;
    if k >= 3 {
      Pow2Mono(3, k);
    }
  }

  /** For these frequencies and codewords of at most 3 bits, the lengths are not the best ones. */
  lemma NotAlwaysBest(l: seq<nat>, cap: nat)
    requires GoodLengths(FiveFreqs(), l, 3, cap)
    ensures TotalBits(FiveFreqs(), l) >= 32
    ensures var best := [3, 3, 3, 3, 1];
            && ForUsed(FiveFreqs(), best) && AtMost(best, 3) && Used(best, 3) == Pow2(3)
            && TotalBits(FiveFreqs(), best) == 29
  {
    hide Used, TotalBits, Tried, Optimal, Pow2, Depths, Spread, Part, Capped;
    var f, c := FiveFreqs(), Capped(FiveFreqs(), cap);
    SomeCap(f, 3, cap);
    FiveCodes();
    FiveFull(l);
    FiveCases(l[0], l[1], l[2], l[3], l[4]);
    FiveBits(f, l);
    FiveBits(f, [3, 3, 3, 3, 1]);
    FiveBits(c, l);
    CappedFive(cap);
    if cap >= 7 {
      FiveOther(cap, l, [4, 4, 3, 2, 1], 4);
      FiveBits(c, [4, 4, 3, 2, 1]);
    } else {
      FiveOther(cap, l, [3, 3, 2, 2, 2], 3);
      FiveBits(c, [3, 3, 2, 2, 2]);
    }
  }

  lemma CappedFive(cap: nat)
    requires cap == 1 || cap == 3 || cap >= 7
    ensures Capped(FiveFreqs(), cap)
         == if cap == 1 then [1, 1, 1, 1, 1] else if cap == 3 then [1, 1, 2, 3, 3] else if cap == 7 then [1, 1, 2, 3, 7] else FiveFreqs()
  {
  }

  // ---------------------------------------------------------------- the encoder

  /** One symbol, or none, always has a code. */
  lemma FewFit(freqs: seq<nat>, lengths: seq<nat>)
    requires LengthsOk(lengths) && ForUsed(freqs, lengths) && UsedBefore(freqs, |freqs|) < 2 && AtMost(lengths, 1)
    ensures Fits(lengths)
  {
    hide Used, UsedBefore, Space, Picked, SymbolSpace;
    Whole(freqs, lengths);
    UsedBySymbol(lengths, MAX_BITS);
    PickedSpace(freqs, lengths, MAX_BITS, |freqs|);
    FewSpace(Picked(freqs, lengths, |freqs|), MAX_BITS);
    Pow2Mono(0, MAX_BITS);
  }

  lemma FewSpace(ds: seq<nat>, m: nat)
    requires AtMost(ds, m) && |ds| < 2
    ensures Space(ds, m) <= Pow2(m)
  {
    if ds != [] {
      Pow2Mono(m - ds[0], m);
      assert ds[..0] == [];
    }
  }

  /** huffman_encoder_init() */
  method InitFromFrequencies(e: HuffmanEncoder.Encoder, freqs: seq<nat>, maxCodewordLen: nat)
    returns (ghost lens: seq<nat>, ghost cap: nat)
    requires e.Shape() && FreqsOk(freqs) && 1 <= maxCodewordLen <= MAX_BITS && |freqs| <= Pow2(maxCodewordLen)
    modifies e.codewords, e.lengths
    ensures |lens| == |freqs| && e.For(lens) && ForUsed(freqs, lens) && AtMost(lens, maxCodewordLen)
    ensures UsedBefore(freqs, |freqs|) >= 2 ==> GoodLengths(freqs, lens, maxCodewordLen, cap)
    ensures UsedBefore(freqs, |freqs|) >= 2 && cap == 0xFFFF ==> Optimal(freqs, lens)
    ensures UsedBefore(freqs, |freqs|) >= 2 ==> (cap == 0xFFFF <==> AtMost(Depths(freqs, 0xFFFF), maxCodewordLen))
    ensures UsedBefore(freqs, |freqs|) <= maxCodewordLen + 1 || Sum(freqs) < Fib(maxCodewordLen + 3) ==> cap == 0xFFFF
    ensures UsedBefore(freqs, |freqs|) < 2 ==> AtMost(lens, 1)
  {
    hide GoodLengths, UsedBefore, Pow2, Fits, Used, HuffmanEncoder.CodewordsOk, Optimal, Sum, Fib;
    cap := ComputeHuffmanLengths(freqs, maxCodewordLen, e.lengths);
    lens := e.lengths[..|freqs|];
    if UsedBefore(freqs, |freqs|) >= 2 {
      GoodFits(freqs, lens, maxCodewordLen, cap);
    } else {
      FewFit(freqs, lens);
    }
    HuffmanEncoder.ComputeCanonicalCode(e.codewords, e.lengths[..|freqs|]);
  }

  lemma GoodFits(freqs: seq<nat>, lengths: seq<nat>, maxLen: nat, cap: nat)
    requires GoodLengths(freqs, lengths, maxLen, cap) && maxLen <= MAX_BITS && FreqsOk(freqs)
    ensures LengthsOk(lengths) && Fits(lengths) && ForUsed(freqs, lengths) && AtMost(lengths, maxLen)
  {
    hide Optimal, Used, Pow2, Tried, Depths, Spread;
    Complete(lengths, MAX_BITS, maxLen);
  }
}
