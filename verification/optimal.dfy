/** Codes of least cost: why joining the two least weights, as hwzip/huffman.c does (lines 167-217), gives
    the best codeword lengths.  Nothing here is about the program's data structures, except that a
    weight is the upper half of a 32-bit heap element. */
module OptimalCodes {
  import opened Bits

  function Weight(v: nat): nat {
    v / 0x1_0000
  }

  /** What it costs to give the elements vs codewords of lengths l. */
  function Cost(vs: seq<nat>, l: seq<nat>): nat
    requires |vs| == |l|
  {
    if vs == [] then 0
    else Cost(vs[..|vs| - 1], l[..|l| - 1]) + Weight(vs[|vs| - 1]) * l[|l| - 1]
  }

  ghost predicate AtMost(l: seq<nat>, m: nat) {
    forall i :: 0 <= i < |l| ==> l[i] <= m
  }

  /** How many of the codewords of length m have a codeword with one of these lengths as a prefix: the
      Kraft sum, in units of 2^-m. */
  function Space(l: seq<nat>, m: nat): nat
    requires AtMost(l, m)
  {
    if l == [] then 0 else Space(l[..|l| - 1], m) + Pow2(m - l[|l| - 1])
  }

  /** There is a prefix code with these codeword lengths. */
  ghost predicate Fit(l: seq<nat>, m: nat) {
    AtMost(l, m) && Space(l, m) <= Pow2(m)
  }

  /** No prefix code for the elements costs less than c. */
  ghost predicate Bound(elements: multiset<nat>, c: nat) {
    forall vs: seq<nat>, l: seq<nat>, m: nat :: multiset(vs) == elements && |vs| == |l| && Fit(l, m) ==> Cost(vs, l) >= c
  }

  // ---------------------------------------------------------------- changing one length or element

  lemma {:induction false} CostOfLength(vs: seq<nat>, l: seq<nat>, i: nat, x: nat)
    requires |vs| == |l| && i < |l|
    ensures Cost(vs, l[i := x]) == Cost(vs, l) - Weight(vs[i]) * l[i] + Weight(vs[i]) * x
  {
    hide Weight;
    var n := |l| - 1;
    if i == n {
      assert l[i := x][..n] == l[..n];
    } else {
      CostOfLength(vs[..n], l[..n], i, x);
      assert l[i := x][..n] == l[..n][i := x];
    }
  }

  lemma {:induction false} CostOfElement(vs: seq<nat>, l: seq<nat>, i: nat, v: nat)
    requires |vs| == |l| && i < |l|
    ensures Cost(vs[i := v], l) == Cost(vs, l) - Weight(vs[i]) * l[i] + Weight(v) * l[i]
  {
    hide Weight;
    var n := |l| - 1;
    if i == n {
      assert vs[i := v][..n] == vs[..n];
    } else {
      CostOfElement(vs[..n], l[..n], i, v);
      assert vs[i := v][..n] == vs[..n][i := v];
    }
  }

  lemma {:induction false} SpaceOfLength(l: seq<nat>, m: nat, i: nat, x: nat)
    requires AtMost(l, m) && i < |l| && x <= m
    ensures AtMost(l[i := x], m)
    ensures Space(l[i := x], m) == Space(l, m) - Pow2(m - l[i]) + Pow2(m - x)
  {
    var n := |l| - 1;
    if i == n {
      assert l[i := x][..n] == l[..n];
    } else {
      SpaceOfLength(l[..n], m, i, x);
      assert l[i := x][..n] == l[..n][i := x];
    }
  }

  function Swap<T>(s: seq<T>, i: nat, j: nat): (t: seq<T>)
    requires i < |s| && j < |s|
    ensures |t| == |s| && multiset(t) == multiset(s)
  {
    SwapMultiset(s, i, j);
    s[i := s[j]][j := s[i]]
  }

  lemma SwapMultiset<T>(s: seq<T>, i: nat, j: nat)
    requires i < |s| && j < |s|
    ensures multiset(s[i := s[j]][j := s[i]]) == multiset(s)
  {
  }

  /** Swapping elements together with their lengths changes nothing. */
  lemma SwapBoth(vs: seq<nat>, l: seq<nat>, m: nat, i: nat, j: nat)
    requires |vs| == |l| && i < |l| && j < |l| && AtMost(l, m)
    ensures Cost(Swap(vs, i, j), Swap(l, i, j)) == Cost(vs, l)
    ensures AtMost(Swap(l, i, j), m) && Space(Swap(l, i, j), m) == Space(l, m)
  {
    hide Cost, Space, Weight, Pow2;
    if i != j {
      CostOfElement(vs, l, i, vs[j]);
      CostOfElement(vs[i := vs[j]], l, j, vs[i]);
      CostOfLength(Swap(vs, i, j), l, i, l[j]);
      CostOfLength(Swap(vs, i, j), l[i := l[j]], j, l[i]);
      SpaceOfLength(l, m, i, l[j]);
      SpaceOfLength(l[i := l[j]], m, j, l[i]);
    } else {
      assert Swap(vs, i, j) == vs && Swap(l, i, j) == l;
    }
  }

  lemma ExchangeGain(x: nat, y: nat, a: nat, b: nat)
    requires x <= y && a <= b
    ensures x * b + y * a <= x * a + y * b
  {
    assert (y - x) * (b - a) >= 0;
    assert (y - x) * (b - a) == y * b - y * a - x * b + x * a;
  }

  /** Giving the longer codeword to the lighter element does not cost more. */
  lemma SwapElements(vs: seq<nat>, l: seq<nat>, i: nat, j: nat)
    requires |vs| == |l| && i < |l| && j < |l| && Weight(vs[i]) <= Weight(vs[j]) && l[i] <= l[j]
    ensures Cost(Swap(vs, i, j), l) <= Cost(vs, l)
  {
    hide Cost, Weight;
    if i != j {
      CostOfElement(vs, l, i, vs[j]);
      CostOfElement(vs[i := vs[j]], l, j, vs[i]);
      ExchangeGain(Weight(vs[i]), Weight(vs[j]), l[i], l[j]);
    } else {
      assert Swap(vs, i, j) == vs;
    }
  }

  // ---------------------------------------------------------------- the two lightest elements

  lemma {:induction false} Longest(l: seq<nat>) returns (i: nat)
    requires l != []
    ensures i < |l| && AtMost(l, l[i])
  {
    i := 0;
    if |l| > 1 {
      var k := Longest(l[..|l| - 1]);
      i := if l[k] >= l[|l| - 1] then k else |l| - 1;
      forall j | 0 <= j < |l|
        ensures l[j] <= l[i]
      {
        assert j < |l| - 1 ==> l[..|l| - 1][j] <= l[k];
      }
    }
  }

  /** The two longest codewords are the last two, the longest at the end. */
  ghost predicate LongestLast(l: seq<nat>) {
    |l| >= 2 && l[|l| - 2] <= l[|l| - 1] && AtMost(l[..|l| - 2], l[|l| - 2])
  }

  lemma PutLongestAt(vs: seq<nat>, l: seq<nat>, m: nat, at: nat) returns (vs': seq<nat>, l': seq<nat>)
    requires |vs| == |l| && at < |l| && AtMost(l, m)
    ensures multiset(vs') == multiset(vs) && |vs'| == |l'| == |l| && AtMost(l'[..at + 1], l'[at])
    ensures l'[at + 1..] == l[at + 1..] && forall k :: 0 <= k <= at ==> l'[k] in l[..at + 1]
    ensures Cost(vs', l') == Cost(vs, l) && AtMost(l', m) && Space(l', m) == Space(l, m)
  {
    hide Cost, Space, Swap;
    var first := l[..at + 1];
    var i := Longest(first);
    SwapBoth(vs, l, m, i, at);
    vs', l' := Swap(vs, i, at), Swap(l, i, at);
    LongestAtEnd(l, i, at);
  }

  lemma LongestAtEnd(l: seq<nat>, i: nat, at: nat)
    requires i <= at < |l| && AtMost(l[..at + 1], l[..at + 1][i])
    ensures var l' := Swap(l, i, at);
            AtMost(l'[..at + 1], l'[at]) && l'[at + 1..] == l[at + 1..] && forall k :: 0 <= k <= at ==> l'[k] in l[..at + 1]
  {
    hide Swap;
    var first, l' := l[..at + 1], Swap(l, i, at);
    SwapAt(l, i, at);
    forall k | 0 <= k <= at
      ensures l'[k] <= l'[at] && l'[k] in first
    {
      assert first[at] == l[at] && first[i] == l[i] && first[k] == l[k];
    }
  }

  lemma SwapAt<T>(s: seq<T>, i: nat, j: nat)
    requires i < |s| && j < |s|
    ensures forall k :: 0 <= k < |s| ==> Swap(s, i, j)[k] == if k == i then s[j] else if k == j then s[i] else s[k]
  {
  }

  lemma PutLongestLast(vs: seq<nat>, l: seq<nat>, m: nat) returns (vs': seq<nat>, l': seq<nat>)
    requires |vs| == |l| >= 2 && AtMost(l, m)
    ensures multiset(vs') == multiset(vs) && |vs'| == |l'| == |l| && LongestLast(l')
    ensures Cost(vs', l') == Cost(vs, l) && AtMost(l', m) && Space(l', m) == Space(l, m)
  {
    hide Cost, Space;
    var n := |l|;
    vs', l' := PutLongestAt(vs, l, m, n - 1);
    ghost var was := l';
    vs', l' := PutLongestAt(vs', l', m, n - 2);
    assert l'[n - 1] == l'[n - 1..][0] == was[n - 1..][0];
    assert l'[n - 2] in was[..n - 1];
    var rest := l'[..n - 2];
    forall k | 0 <= k < n - 2
      ensures rest[k] <= l'[n - 2]
    {
      assert l'[..n - 1][k] == l'[k];
    }
    assert forall k :: 0 <= k < n ==> was[..n][k] <= was[n - 1];
  }

  /** p and q are the two lightest elements. */
  ghost predicate Lightest(elements: multiset<nat>, p: nat, q: nat) {
    && multiset{p, q} <= elements
    && (forall v :: v in elements ==> Weight(p) <= Weight(v))
    && (forall v :: v in elements - multiset{p} ==> Weight(q) <= Weight(v))
  }

  /** The lightest of the first elements gets the longest of their codewords. */
  lemma PutAt(vs: seq<nat>, l: seq<nat>, v: nat, at: nat) returns (vs': seq<nat>)
    requires |vs| == |l| && at < |vs| && v in vs[..at + 1] && Weight(v) <= Weight(vs[at])
    requires forall k :: 0 <= k < at ==> l[k] <= l[at]
    ensures multiset(vs') == multiset(vs) && |vs'| == |vs| && vs'[at] == v && vs'[at + 1..] == vs[at + 1..]
    ensures Cost(vs', l) <= Cost(vs, l)
  {
    hide Cost, Weight;
    var k :| 0 <= k <= at && vs[..at + 1][k] == v;
    SwapElements(vs, l, k, at);
    vs' := Swap(vs, k, at);
  }

  lemma SplitLast(vs: seq<nat>, n: nat, v: nat)
    requires n < |vs| && vs[n] == v && n + 1 == |vs|
    ensures multiset(vs[..n]) == multiset(vs) - multiset{v}
  {
    assert vs == vs[..n] + [v];
  }

  lemma LongestLastOrder(l: seq<nat>)
    requires LongestLast(l)
    ensures forall k :: 0 <= k < |l| - 2 ==> l[k] <= l[|l| - 2]
    ensures forall k :: 0 <= k < |l| - 1 ==> l[k] <= l[|l| - 1]
  {
    forall k | 0 <= k < |l| - 2
      ensures l[k] <= l[|l| - 2]
    {
      assert l[k] == l[..|l| - 2][k];
    }
  }

  lemma PutLightestLast(vs: seq<nat>, l: seq<nat>, p: nat, q: nat) returns (vs': seq<nat>)
    requires |vs| == |l| && LongestLast(l) && Lightest(multiset(vs), p, q)
    ensures multiset(vs') == multiset(vs) && |vs'| == |l| && vs'[|l| - 1] == p && vs'[|l| - 2] == q
    ensures Cost(vs', l) <= Cost(vs, l)
  {
    hide Cost, Weight, LongestLast;
    var n := |l|;
    LongestLastOrder(l);
    LongestLastSize(l);
    assert p in multiset(vs) && vs[n - 1] in multiset(vs);
    assert vs[..n] == vs;
    vs' := PutAt(vs, l, p, n - 1);
    SplitLast(vs', n - 1, p);
    assert q in multiset(vs'[..n - 1]) && vs'[..n - 1][n - 2] in multiset(vs'[..n - 1]);
    vs' := PutAt(vs', l, q, n - 2);
    assert vs'[n - 1] == vs'[n - 1..][0];
  }

  lemma LongestLastSize(l: seq<nat>)
    requires LongestLast(l)
    ensures |l| >= 2
  {
  }

  // ---------------------------------------------------------------- joining

  /** Twice the units in all. */
  lemma {:induction false} SpaceScaled(l: seq<nat>, m: nat, k: nat)
    requires AtMost(l, m)
    ensures AtMost(l, m + k) && Space(l, m + k) == Pow2(k) * Space(l, m)
  {
    if l != [] {
      var n := |l| - 1;
      SpaceScaled(l[..n], m, k);
      Pow2Add(k, m - l[n]);
      Distribute(Pow2(k), Space(l[..n], m), Pow2(m - l[n]));
    }
  }

  lemma MulMonotone(a: nat, b: nat, c: nat)
    requires b <= c
    ensures a * b <= a * c
  {
  }

  lemma CancelFactor(a: nat, b: nat, c: nat)
    requires a > 0 && a * b < a * c
    ensures b < c
  {
    if b >= c {
      MulMonotone(a, c, b);
    }
  }

  lemma CancelFactorEqual(a: nat, b: nat, c: nat)
    requires a > 0 && a * b <= a * c
    ensures b <= c
  {
    if b > c {
      MulMonotone(a, c + 1, b);
    }
  }

  /** Units smaller than the shortest that is needed make no difference. */
  lemma FitBelow(l: seq<nat>, m: nat, k: nat)
    requires Fit(l, m) && k <= m && AtMost(l, k)
    ensures Fit(l, k)
  {
    hide Space;
    SpaceScaled(l, k, m - k);
    Pow2Add(m - k, k);
    CancelFactorEqual(Pow2(m - k), Space(l, k), Pow2(k));
  }

  lemma SpaceSnoc(l: seq<nat>, x: nat, m: nat)
    requires AtMost(l, m) && x <= m
    ensures AtMost(l + [x], m) && Space(l + [x], m) == Space(l, m) + Pow2(m - x)
  {
    assert (l + [x])[..|l|] == l;
  }

  lemma CostSnoc(vs: seq<nat>, l: seq<nat>, v: nat, x: nat)
    requires |vs| == |l|
    ensures Cost(vs + [v], l + [x]) == Cost(vs, l) + Weight(v) * x
  {
    assert (vs + [v])[..|vs|] == vs && (l + [x])[..|l|] == l;
  }

  /** A codeword that is longer than all others can be shortened to the next length. */
  lemma Shorten(l: seq<nat>, x: nat, y: nat, m: nat)
    requires AtMost(l, x) && x <= y && Fit(l + [x] + [y], m)
    ensures Fit(l + [x] + [x], x)
  {
    hide Space, Fit, Pow2;
    var all, most := l + [x] + [y], l + [x];
    FitsWithLongest(l, x, y, m);
    assert AtMost(most, x);
    assert most + [x] == l + [x] + [x];
    if x < y {
      SpaceSnoc(most, y, y) by { assert AtMost(most, y); }
      SpaceSnoc(most, x, x);
      SpaceScaled(most, x, y - x);
      Pow2Add(y - x, x);
      assert Pow2(0) == 1 by { Pow2Zero(); }
      FitIs(all, y);
      CancelFactor(Pow2(y - x), Space(most, x), Pow2(x));
      FitIs(most + [x], x);
    }
  }

  lemma Pow2Zero()
    ensures Pow2(0) == 1
  {
  }

  lemma FitIs(l: seq<nat>, m: nat)
    requires AtMost(l, m)
    ensures Fit(l, m) <==> Space(l, m) <= Pow2(m)
  {
  }

  lemma FitsWithLongest(l: seq<nat>, x: nat, y: nat, m: nat)
    requires AtMost(l, x) && x <= y && Fit(l + [x] + [y], m)
    ensures Fit(l + [x] + [y], y)
  {
    hide Space;
    var all := l + [x] + [y];
    assert all[|all| - 1] == y <= m;
    FitBelow(all, m, y);
  }

  /** Two codewords of the same length are joined to one that is a bit shorter. */
  lemma Join(l: seq<nat>, x: nat)
    requires Fit(l + [x] + [x], x)
    ensures x > 0 && Fit(l + [x - 1], x)
  {
    hide Space;
    assert AtMost(l, x) by {
      forall i | 0 <= i < |l|
        ensures l[i] <= x
      {
        assert l[i] == (l + [x] + [x])[i];
      }
    }
    SpaceSnoc(l, x, x);
    SpaceSnoc(l + [x], x, x);
    assert Pow2(0) == 1 && Pow2(1) == 2;
    if x > 0 {
      SpaceSnoc(l, x - 1, x);
    }
  }

  lemma JoinLast(most: seq<nat>, rest: seq<nat>, p: nat, q: nat, r: nat, x: nat, y: nat, m: nat)
    requires |most| == |rest| && Fit(rest + [x] + [y], m) && AtMost(rest, x) && x <= y
    requires Weight(r) == Weight(p) + Weight(q)
    ensures x > 0 && Fit(rest + [x - 1], x)
    ensures Cost(most + [r], rest + [x - 1]) + Weight(r) <= Cost(most + [q] + [p], rest + [x] + [y])
  {
    hide Cost, Weight, Space, Pow2, Fit;
    Shorten(rest, x, y, m);
    Join(rest, x);
    CostSnoc(most, rest, q, x);
    CostSnoc(most + [q], rest + [x], p, y);
    CostSnoc(most, rest, r, x - 1);
    JoinedCost(Weight(p), Weight(q), x, y);
  }

  /** Any prefix code costs at least the sum of the two lightest weights more than some prefix code for
      the elements in which these two are joined. */
  lemma JoinLightest(vs: seq<nat>, l: seq<nat>, m: nat, p: nat, q: nat, r: nat)
    returns (vs': seq<nat>, l': seq<nat>, m': nat)
    requires |vs| == |l| && Fit(l, m) && Lightest(multiset(vs), p, q) && Weight(r) == Weight(p) + Weight(q)
    ensures multiset(vs') == multiset(vs) - multiset{p, q} + multiset{r} && |vs'| == |l'| && Fit(l', m')
    ensures Cost(vs', l') + Weight(r) <= Cost(vs, l)
  {
    hide Cost, Weight, Space, Pow2, Lightest;
    AtLeastTwo(vs, p, q);
    var ws, k := PutLongestLast(vs, l, m);
    ws := PutLightestLast(ws, k, p, q);
    var n := |k| - 2;
    var x, y := k[n], k[n + 1];
    var most, rest := ws[..n], k[..n];
    assert ws == most + [q] + [p] && k == rest + [x] + [y];
    JoinLast(most, rest, p, q, r, x, y, m);
    vs', l', m' := most + [r], rest + [x - 1], x;
    JoinedElements(vs, ws, most, p, q, r);
  }

  lemma JoinedElements(vs: seq<nat>, ws: seq<nat>, most: seq<nat>, p: nat, q: nat, r: nat)
    requires multiset(ws) == multiset(vs) && ws == most + [q] + [p]
    ensures multiset(most + [r]) == multiset(vs) - multiset{p, q} + multiset{r}
  {
    assert multiset(ws) == multiset(most) + multiset{p, q};
  }

  lemma AtLeastTwo(vs: seq<nat>, p: nat, q: nat)
    requires Lightest(multiset(vs), p, q)
    ensures |vs| >= 2
  {
    assert |multiset(vs)| >= |multiset{p, q}|;
  }

  lemma JoinedCost(p: nat, q: nat, x: nat, y: nat)
    requires 0 < x <= y
    ensures (p + q) * (x - 1) + (p + q) <= q * x + p * y
  {
    assert p * x <= p * y;
  }

  /** Joining the two lightest elements adds their weights to a lower bound of the cost. */
  lemma BoundJoin(elements: multiset<nat>, p: nat, q: nat, r: nat, c: nat)
    requires Lightest(elements, p, q) && Weight(r) == Weight(p) + Weight(q)
    requires Bound(elements - multiset{p, q} + multiset{r}, c)
    ensures Bound(elements, c + Weight(r))
  {
    hide Cost, Weight, Fit, Lightest;
    forall vs: seq<nat>, l: seq<nat>, m: nat | multiset(vs) == elements && |vs| == |l| && Fit(l, m)
      ensures Cost(vs, l) >= c + Weight(r)
    {
      var vs', l', m' := JoinLightest(vs, l, m, p, q, r);
    }
  }

  // ---------------------------------------------------------------- equal weights

  lemma OneLongest(l: seq<nat>, i: nat)
    requires i < |l| && l[i] > 0 && forall k :: 0 <= k < |l| && k != i ==> l[k] < l[i]
    ensures AtMost(l, l[i]) && Space(l, l[i]) % 2 == 1
  {
    hide Space;
    var m := l[i];
    SpaceOfLength(l, m, i, m - 1);
    SpaceScaled(l[i := m - 1], m - 1, 1);
    assert Pow2(0) == 1 && Pow2(1) == 2;
  }

  /** There are two longest codewords, if a code is complete. */
  lemma SecondLongest(l: seq<nat>, i: nat) returns (j: nat)
    requires i < |l| && AtMost(l, l[i]) && l[i] > 0 && Space(l, l[i]) == Pow2(l[i])
    ensures j < |l| && j != i && l[j] == l[i]
  {
    hide Space;
    assert Pow2(l[i]) == 2 * Pow2(l[i] - 1);
    if forall k :: 0 <= k < |l| && k != i ==> l[k] < l[i] {
      OneLongest(l, i);
    }
    j :| 0 <= j < |l| && j != i && l[j] >= l[i];
  }

  lemma {:induction false} SpaceUpper(l: seq<nat>, d: nat, m: nat)
    requires AtMost(l, m) && d <= m && forall i :: 0 <= i < |l| ==> d <= l[i]
    ensures Space(l, m) <= Pow2(m - d) * |l|
  {
    if l != [] {
      var n := |l| - 1;
      SpaceUpper(l[..n], d, m);
      Pow2Mono(m - l[n], m - d);
      Distribute(Pow2(m - d), n, 1);
    }
  }

  lemma AllLong(l: seq<nat>, i: nat, d: nat)
    requires i < |l| && AtMost(l, l[i]) && l[i] > d && forall k :: 0 <= k < |l| ==> l[k] >= d
    ensures Space(l, l[i]) < Pow2(l[i] - d) * |l|
  {
    hide Space;
    var m := l[i];
    SpaceOfLength(l, m, i, d);
    SpaceUpper(l[i := d], d, m);
    assert Pow2(0) == 1;
    Pow2Mono(1, m - d);
  }

  /** A complete code with few codewords has a short one if it has a long one. */
  lemma ShortOne(l: seq<nat>, i: nat, d: nat) returns (j: nat)
    requires i < |l| && AtMost(l, l[i]) && l[i] > d && Space(l, l[i]) == Pow2(l[i]) && |l| <= Pow2(d)
    ensures j < |l| && l[j] < d
  {
    hide Space, Pow2;
    MulMonotone(Pow2(l[i] - d), |l|, Pow2(d));
    Pow2Add(l[i] - d, d);
    if forall k :: 0 <= k < |l| ==> l[k] >= d {
      AllLong(l, i, d);
    }
    j :| 0 <= j < |l| && l[j] < d;
  }

  /** In a complete code of least cost for elements of weight 1, no codeword is longer than needed to
      have that many codewords of the same length. */
  lemma EqualWeightsFlat(vs: seq<nat>, l: seq<nat>, m: nat, d: nat)
    requires |vs| == |l| && forall i :: 0 <= i < |vs| ==> Weight(vs[i]) == 1
    requires AtMost(l, m) && Space(l, m) == Pow2(m) && |l| <= Pow2(d)
    requires Bound(multiset(vs), Cost(vs, l))
    ensures AtMost(l, d)
  {
    hide Space, Cost, Weight, Pow2, Bound;
    if l != [] {
      var i := Longest(l);
      if l[i] > d {
        CompleteBelow(l, m, l[i]);
        var j := SecondLongest(l, i);
        var k := ShortOne(l, i, d);
        Rebalance(vs, l, i, j, k);
        CostBound(vs, l[i := l[i] - 1][j := l[k] + 1][k := l[k] + 1], l[i], Cost(vs, l));
      }
    }
  }

  lemma CostBound(vs: seq<nat>, l: seq<nat>, m: nat, c: nat)
    requires Bound(multiset(vs), c) && |vs| == |l| && Fit(l, m)
    ensures Cost(vs, l) >= c
  {
  }

  lemma CompleteBelow(l: seq<nat>, m: nat, k: nat)
    requires AtMost(l, m) && Space(l, m) == Pow2(m) && k <= m && AtMost(l, k)
    ensures Space(l, k) == Pow2(k)
  {
    hide Space;
    SpaceScaled(l, k, m - k);
    Pow2Add(m - k, k);
    CancelFactorEqual(Pow2(m - k), Space(l, k), Pow2(k));
    CancelFactorEqual(Pow2(m - k), Pow2(k), Space(l, k));
  }

  /** Moving one of two long codewords to where there is a short one is cheaper. */
  lemma Rebalance(vs: seq<nat>, l: seq<nat>, i: nat, j: nat, k: nat)
    requires |vs| == |l| && forall x :: 0 <= x < |vs| ==> Weight(vs[x]) == 1
    requires i < |l| && j < |l| && k < |l| && i != j && l[i] == l[j] && l[k] + 1 < l[i]
    requires AtMost(l, l[i]) && Space(l, l[i]) == Pow2(l[i])
    ensures var l' := l[i := l[i] - 1][j := l[k] + 1][k := l[k] + 1];
            Fit(l', l[i]) && Cost(vs, l') < Cost(vs, l)
  {
    hide Space, Cost, Weight;
    var m, s := l[i], l[k];
    var l1 := l[i := m - 1];
    var l2 := l1[j := s + 1];
    SpaceOfLength(l, m, i, m - 1);
    SpaceOfLength(l1, m, j, s + 1);
    SpaceOfLength(l2, m, k, s + 1);
    CostOfLength(vs, l, i, m - 1);
    CostOfLength(vs, l1, j, s + 1);
    CostOfLength(vs, l2, k, s + 1);
    assert Pow2(m - s) == 2 * Pow2(m - s - 1) && Pow2(m - m) == 1 && Pow2(m - (m - 1)) == 2;
  }
}
