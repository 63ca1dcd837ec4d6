/** The Huffman tree that is built within the array of compute_huffman_lengths() (hwzip/huffman.c, lines
    193-232).  Each tree has a link element, a slot of the array.  A slot that is not the root of a tree
    holds the slot of its parent; heap elements carry a weight and the slot of a root. */
module HuffmanTree {
  import opened Bits
  import opened OptimalCodes
  import opened HuffmanHeap

  function Link(v: nat): nat {
    v % 0x1_0000
  }

  /** For each slot, the root above it and how far it is below that. */
  datatype Forest = Forest(own: seq<nat>, dep: seq<nat>)

  /** The sizes: n symbols, of which h0 are used, with h elements in the heap. */
  ghost predicate Sizes(n: nat, h0: nat, h: nat) {
    1 <= h <= h0 <= n <= 0x1000
  }

  /** The slots that belong to trees: leaves, and heap places that are no longer used. */
  ghost predicate IsSlot(n: nat, h0: nat, h: nat, x: int) {
    h < x <= h0 || n < x <= n + h0
  }

  ghost predicate SlotOk(s: seq<nat>, f: Forest, n: nat, h0: nat, h: nat, x: nat)
    requires Sizes(n, h0, h) && IsSlot(n, h0, h, x) && |s| > 2 * n && |f.own| == |f.dep| == |s|
  {
    && IsSlot(n, h0, h, f.own[x]) && f.own[f.own[x]] == f.own[x] && f.dep[x] <= h0 - h
    && (f.own[x] == x <==> f.dep[x] == 0)
    && (f.own[x] != x ==> IsSlot(n, h0, h, s[x]) && f.own[s[x]] == f.own[x] && f.dep[x] == f.dep[s[x]] + 1)
  }

  ghost predicate Linked(s: seq<nat>, f: Forest, n: nat, h0: nat, h: nat) {
    && Sizes(n, h0, h) && |s| > 2 * n && |f.own| == |f.dep| == |s|
    && forall x: nat :: IsSlot(n, h0, h, x) ==> SlotOk(s, f, n, h0, h, x)
  }

  // ---------------------------------------------------------------- sums over leaves

  /** The weight of the leaves below x. */
  function WeightUnder(vs: seq<nat>, os: seq<nat>, x: nat): nat
    requires |vs| == |os|
  {
    if vs == [] then 0
    else WeightUnder(vs[..|vs| - 1], os[..|os| - 1], x) + if os[|os| - 1] == x then Weight(vs[|vs| - 1]) else 0
  }

  /** The Kraft sum of the leaves below x, in units of 2^-m. */
  function SpaceUnder(os: seq<nat>, ds: seq<nat>, x: nat, m: nat): nat
    requires |os| == |ds| && AtMost(ds, m)
  {
    if os == [] then 0
    else SpaceUnder(os[..|os| - 1], ds[..|ds| - 1], x, m) + if os[|os| - 1] == x then Pow2(m - ds[|ds| - 1]) else 0
  }

  /** The leaves below p and q come to be below r. */
  ghost predicate Joined(os: seq<nat>, ds: seq<nat>, os': seq<nat>, ds': seq<nat>, p: nat, q: nat, r: nat) {
    && |os| == |ds| == |os'| == |ds'|
    && forall j :: 0 <= j < |os| ==>
         && os[j] != r
         && os'[j] == (if os[j] == p || os[j] == q then r else os[j])
         && ds'[j] == (if os[j] == p || os[j] == q then ds[j] + 1 else ds[j])
  }

  lemma JoinedPart(os: seq<nat>, ds: seq<nat>, os': seq<nat>, ds': seq<nat>, p: nat, q: nat, r: nat, n: nat)
    requires Joined(os, ds, os', ds', p, q, r) && n <= |os|
    ensures Joined(os[..n], ds[..n], os'[..n], ds'[..n], p, q, r)
  {
  }

  lemma {:induction false} WeightJoined(vs: seq<nat>, os: seq<nat>, ds: seq<nat>, os': seq<nat>, ds': seq<nat>,
                                        p: nat, q: nat, r: nat, x: nat)
    requires |vs| == |os| && Joined(os, ds, os', ds', p, q, r) && p != q && x != p && x != q
    ensures WeightUnder(vs, os', x) == if x == r then WeightUnder(vs, os, p) + WeightUnder(vs, os, q) else WeightUnder(vs, os, x)
  {
    hide Weight;
    if vs != [] {
      var n := |vs| - 1;
      JoinedPart(os, ds, os', ds', p, q, r, n);
      WeightJoined(vs[..n], os[..n], ds[..n], os'[..n], ds'[..n], p, q, r, x);
    }
  }

  lemma {:induction false} CostJoined(vs: seq<nat>, os: seq<nat>, ds: seq<nat>, os': seq<nat>, ds': seq<nat>, p: nat, q: nat, r: nat)
    requires |vs| == |os| && Joined(os, ds, os', ds', p, q, r) && p != q
    ensures Cost(vs, ds') == Cost(vs, ds) + WeightUnder(vs, os, p) + WeightUnder(vs, os, q)
  {
    hide Weight;
    if vs != [] {
      var n := |vs| - 1;
      JoinedPart(os, ds, os', ds', p, q, r, n);
      CostJoined(vs[..n], os[..n], ds[..n], os'[..n], ds'[..n], p, q, r);
      Distribute(Weight(vs[n]), ds[n], 1);
    }
  }

  lemma {:induction false} SpaceJoined(os: seq<nat>, ds: seq<nat>, os': seq<nat>, ds': seq<nat>,
                                       p: nat, q: nat, r: nat, x: nat, m: nat)
    requires Joined(os, ds, os', ds', p, q, r) && p != q && x != p && x != q && AtMost(ds, m) && AtMost(ds', m)
    ensures x == r ==> 2 * SpaceUnder(os', ds', r, m) == SpaceUnder(os, ds, p, m) + SpaceUnder(os, ds, q, m)
    ensures x != r ==> SpaceUnder(os', ds', x, m) == SpaceUnder(os, ds, x, m)
  {
    if os != [] {
      var n := |os| - 1;
      JoinedPart(os, ds, os', ds', p, q, r, n);
      SpaceJoined(os[..n], ds[..n], os'[..n], ds'[..n], p, q, r, x, m);
    }
  }

  /** Two trees together do not weigh more than everything. */
  lemma {:induction false} WeightBelowTotal(vs: seq<nat>, os: seq<nat>, p: nat, q: nat)
    requires |vs| == |os| && p != q
    ensures WeightUnder(vs, os, p) + WeightUnder(vs, os, q) <= Total(vs)
  {
    hide Weight;
    if vs != [] {
      WeightBelowTotal(vs[..|vs| - 1], os[..|os| - 1], p, q);
    }
  }

  function Total(vs: seq<nat>): nat {
    if vs == [] then 0 else Total(vs[..|vs| - 1]) + Weight(vs[|vs| - 1])
  }

  /** If everything is below one root, the Kraft sum is that of this root. */
  lemma {:induction false} SpaceOfAll(os: seq<nat>, ds: seq<nat>, x: nat, m: nat)
    requires |os| == |ds| && AtMost(ds, m) && forall j :: 0 <= j < |os| ==> os[j] == x
    ensures SpaceUnder(os, ds, x, m) == Space(ds, m)
  {
    if os != [] {
      SpaceOfAll(os[..|os| - 1], ds[..|ds| - 1], x, m);
    }
  }

  lemma {:induction false} WeightOfAll(vs: seq<nat>, os: seq<nat>, x: nat)
    requires |vs| == |os| && forall j :: 0 <= j < |os| ==> os[j] == x
    ensures WeightUnder(vs, os, x) == Total(vs)
  {
    if vs != [] {
      WeightOfAll(vs[..|vs| - 1], os[..|os| - 1], x);
    }
  }

  // ---------------------------------------------------------------- the heap and the trees

  function Leaves(f: seq<nat>, n: nat, h0: nat): seq<nat>
    requires n + h0 < |f|
  {
    f[n + 1..n + 1 + h0]
  }

  /** A heap element belongs to a root, has the weight of its leaves, and its Kraft sum is 1. */
  ghost predicate RootOk(v: nat, f: Forest, n: nat, h0: nat, h: nat, vs: seq<nat>)
    requires Sizes(n, h0, h) && |f.own| == |f.dep| > 2 * n && |vs| == h0 && AtMost(Leaves(f.dep, n, h0), h0)
  {
    && IsSlot(n, h0, h, Link(v)) && f.own[Link(v)] == Link(v)
    && Weight(v) == WeightUnder(vs, Leaves(f.own, n, h0), Link(v))
    && SpaceUnder(Leaves(f.own, n, h0), Leaves(f.dep, n, h0), Link(v), h0) == Pow2(h0)
  }

  ghost predicate UniqueLinks(elements: multiset<nat>) {
    && (forall v :: v in elements ==> elements[v] == 1)
    && (forall v, w :: v in elements && w in elements && Link(v) == Link(w) ==> v == w)
  }

  ghost predicate HasLink(elements: multiset<nat>, x: nat) {
    exists v: nat :: v in elements && Link(v) == x
  }

  /** The heap elements are the roots of the trees. */
  ghost predicate RootsOk(elements: multiset<nat>, f: Forest, n: nat, h0: nat, h: nat, vs: seq<nat>) {
    && Sizes(n, h0, h) && |f.own| == |f.dep| > 2 * n && |vs| == h0 && AtMost(Leaves(f.dep, n, h0), h0)
    && UniqueLinks(elements)
    && (forall v :: v in elements ==> RootOk(v, f, n, h0, h, vs))
    && (forall x: nat :: IsSlot(n, h0, h, x) ==> HasLink(elements, f.own[x]))
  }

  /** What it costs to join the remaining elements adds to what the trees cost so far. */
  ghost predicate BoundOk(elements: multiset<nat>, vs: seq<nat>, ds: seq<nat>) {
    |vs| == |ds| && forall c: nat :: Bound(elements, c) ==> Bound(multiset(vs), c + Cost(vs, ds))
  }

  /** The Fibonacci numbers 0, 1, 1, 2, 3, 5, ... */
  function Fib(k: nat): nat {
    if k < 2 then k else Fib(k - 1) + Fib(k - 2)
  }

  /** A tree as deep as that weighs this much, and no other tree is much lighter: os and ds are the roots
      and depths of the leaves. */
  ghost predicate Heavy(elements: multiset<nat>, os: seq<nat>, ds: seq<nat>) {
    && |os| == |ds|
    && forall v, j :: v in elements && 0 <= j < |os| ==> Weight(v) >= Fib(ds[j] + if os[j] == Link(v) then 2 else 1)
  }

  /** The forest after joining the trees of p and q under the slot r. */
  function Join2(f: Forest, p: nat, q: nat, r: nat): Forest
    requires |f.own| == |f.dep|
  {
    Forest(seq(|f.own|, x requires 0 <= x < |f.own| =>
                 if x == r || f.own[x] == p || f.own[x] == q then r else f.own[x]),
           seq(|f.dep|, x requires 0 <= x < |f.dep| =>
                 if x == r then 0 else if f.own[x] == p || f.own[x] == q then f.dep[x] + 1 else f.dep[x]))
  }

  lemma LinkedJoin(s: seq<nat>, t: seq<nat>, f: Forest, n: nat, h0: nat, h: nat, p: nat, q: nat)
    requires h > 1 && Linked(s, f, n, h0, h) && p != q
    requires IsSlot(n, h0, h, p) && IsSlot(n, h0, h, q) && f.own[p] == p && f.own[q] == q
    requires |t| == |s| && t[p] == t[q] == h && forall x: nat :: IsSlot(n, h0, h, x) && x != p && x != q ==> t[x] == s[x]
    ensures Linked(t, Join2(f, p, q, h), n, h0, h - 1)
  {
    var g, k := Join2(f, p, q, h), h - 1;
    forall x: nat | IsSlot(n, h0, k, x)
      ensures SlotOk(t, g, n, h0, k, x)
    {
      if x != h {
        assert SlotOk(s, f, n, h0, h, x);
      }
    }
  }

  lemma LeavesJoined(s: seq<nat>, f: Forest, n: nat, h0: nat, h: nat, p: nat, q: nat)
    requires h > 1 && Linked(s, f, n, h0, h) && p != q
    ensures var g := Join2(f, p, q, h);
            Joined(Leaves(f.own, n, h0), Leaves(f.dep, n, h0), Leaves(g.own, n, h0), Leaves(g.dep, n, h0), p, q, h)
  {
    var os := Leaves(f.own, n, h0);
    forall j | 0 <= j < h0
      ensures os[j] != h
    {
      assert SlotOk(s, f, n, h0, h, n + 1 + j);
    }
  }

  lemma LeavesShallow(s: seq<nat>, f: Forest, n: nat, h0: nat, h: nat)
    requires Linked(s, f, n, h0, h)
    ensures AtMost(Leaves(f.dep, n, h0), h0)
  {
    var ds := Leaves(f.dep, n, h0);
    forall j | 0 <= j < h0
      ensures ds[j] <= h0
    {
      assert SlotOk(s, f, n, h0, h, n + 1 + j);
    }
  }

  /** The element r for the joined trees of p and q. */
  ghost predicate JoinedElement(r: nat, p: nat, q: nat, h: nat) {
    Link(r) == h && Weight(r) == Weight(p) + Weight(q)
  }

  lemma LinksJoin(elements: multiset<nat>, f: Forest, n: nat, h0: nat, h: nat, vs: seq<nat>, p: nat, q: nat, r: nat)
    requires RootsOk(elements, f, n, h0, h, vs) && multiset{p, q} <= elements && JoinedElement(r, p, q, h)
    ensures p != q && Link(p) != Link(q)
    ensures forall v :: v in elements ==> Link(v) != h
    ensures UniqueLinks(elements - multiset{p} - multiset{q} + multiset{r})
    ensures forall v: nat :: v in elements - multiset{p} - multiset{q} + multiset{r} <==>
              v == r || (v in elements && v != p && v != q)
  {
    hide Link, Weight, WeightUnder, SpaceUnder;
    assert elements[p] == 1 && p != q;
  }

  lemma RootJoin(elements: multiset<nat>, f: Forest, n: nat, h0: nat, h: nat, vs: seq<nat>, p: nat, q: nat, r: nat, v: nat, s: seq<nat>)
    requires h > 1 && RootsOk(elements, f, n, h0, h, vs) && Linked(s, f, n, h0, h) && JoinedElement(r, p, q, h)
    requires p in elements && q in elements && Link(p) != Link(q)
    requires v == r || (v in elements && Link(v) != Link(p) && Link(v) != Link(q) && Link(v) != h)
    requires var g := Join2(f, Link(p), Link(q), h);
             AtMost(Leaves(g.dep, n, h0), h0)
    ensures RootOk(v, Join2(f, Link(p), Link(q), h), n, h0, h - 1, vs)
  {
    hide Link, Weight, WeightUnder, SpaceUnder, Leaves, Linked, UniqueLinks, HasLink;
    var g := Join2(f, Link(p), Link(q), h);
    LeavesJoined(s, f, n, h0, h, Link(p), Link(q));
    assert |Leaves(f.own, n, h0)| == h0 by { LeavesSize(f, n, h0); }
    assert RootOk(p, f, n, h0, h, vs) && RootOk(q, f, n, h0, h, vs);
    WeightJoined(vs, Leaves(f.own, n, h0), Leaves(f.dep, n, h0), Leaves(g.own, n, h0), Leaves(g.dep, n, h0), Link(p), Link(q), h, Link(v));
    SpaceJoined(Leaves(f.own, n, h0), Leaves(f.dep, n, h0), Leaves(g.own, n, h0), Leaves(g.dep, n, h0), Link(p), Link(q), h, Link(v), h0);
    if v != r {
      assert RootOk(v, f, n, h0, h, vs);
    }
  }

  lemma LeavesSize(f: Forest, n: nat, h0: nat)
    requires n + h0 < |f.own| == |f.dep|
    ensures |Leaves(f.own, n, h0)| == |Leaves(f.dep, n, h0)| == h0
  {
  }

  lemma HasLinkJoin(elements: multiset<nat>, f: Forest, n: nat, h0: nat, h: nat, vs: seq<nat>, p: nat, q: nat, r: nat, x: nat)
    requires h > 1 && RootsOk(elements, f, n, h0, h, vs) && JoinedElement(r, p, q, h) && multiset{p, q} <= elements
    requires IsSlot(n, h0, h - 1, x)
    ensures HasLink(elements - multiset{p} - multiset{q} + multiset{r}, Join2(f, Link(p), Link(q), h).own[x])
  {
    hide Link, Weight, WeightUnder, SpaceUnder, RootOk;
    var after := elements - multiset{p} - multiset{q} + multiset{r};
    assert r in after;
    if x != h && f.own[x] != Link(p) && f.own[x] != Link(q) {
      assert HasLink(elements, f.own[x]);
      var v: nat :| v in elements && Link(v) == f.own[x];
      assert v in after;
    }
  }

  lemma RootsJoin(elements: multiset<nat>, f: Forest, n: nat, h0: nat, h: nat, vs: seq<nat>, p: nat, q: nat, r: nat,
                  s: seq<nat>, t: seq<nat>)
    requires h > 1 && RootsOk(elements, f, n, h0, h, vs) && Linked(s, f, n, h0, h) && JoinedElement(r, p, q, h)
    requires multiset{p, q} <= elements && Linked(t, Join2(f, Link(p), Link(q), h), n, h0, h - 1)
    ensures RootsOk(elements - multiset{p} - multiset{q} + multiset{r}, Join2(f, Link(p), Link(q), h), n, h0, h - 1, vs)
  {
    hide Link, WeightUnder, SpaceUnder, RootOk, HasLink, UniqueLinks, Leaves, JoinedElement;
    var g, after := Join2(f, Link(p), Link(q), h), elements - multiset{p} - multiset{q} + multiset{r};
    LinksJoin(elements, f, n, h0, h, vs, p, q, r);
    LeavesShallow(t, g, n, h0, h - 1);
    forall v | v in after
      ensures RootOk(v, g, n, h0, h - 1, vs)
    {
      if v != r {
        OtherLink(elements, v, p);
        OtherLink(elements, v, q);
      }
      RootJoin(elements, f, n, h0, h, vs, p, q, r, v, s);
    }
    forall x: nat | IsSlot(n, h0, h - 1, x)
      ensures HasLink(after, g.own[x])
    {
      HasLinkJoin(elements, f, n, h0, h, vs, p, q, r, x);
    }
  }

  lemma OtherLink(elements: multiset<nat>, v: nat, w: nat)
    requires UniqueLinks(elements) && v in elements && w in elements && v != w
    ensures Link(v) != Link(w)
  {
  }

  lemma BoundOkJoin(elements: multiset<nat>, f: Forest, n: nat, h0: nat, h: nat, vs: seq<nat>, p: nat, q: nat, r: nat, s: seq<nat>)
    requires h > 1 && RootsOk(elements, f, n, h0, h, vs) && Linked(s, f, n, h0, h) && JoinedElement(r, p, q, h)
    requires Lightest(elements, p, q) && BoundOk(elements, vs, Leaves(f.dep, n, h0))
    ensures BoundOk(elements - multiset{p} - multiset{q} + multiset{r}, vs, Leaves(Join2(f, Link(p), Link(q), h).dep, n, h0))
  {
    hide Weight, WeightUnder, SpaceUnder, HasLink, Bound, Cost, Lightest, Link;
    var g, after := Join2(f, Link(p), Link(q), h), elements - multiset{p} - multiset{q} + multiset{r};
    assert multiset{p, q} <= elements && p in elements && q in elements by { LightestIn(elements, p, q); }
    LinksJoin(elements, f, n, h0, h, vs, p, q, r);
    LeavesJoined(s, f, n, h0, h, Link(p), Link(q));
    CostJoined(vs, Leaves(f.own, n, h0), Leaves(f.dep, n, h0), Leaves(g.own, n, h0), Leaves(g.dep, n, h0), Link(p), Link(q), h);
    assert RootOk(p, f, n, h0, h, vs) && RootOk(q, f, n, h0, h, vs);
    assert after == elements - multiset{p, q} + multiset{r};
    forall c: nat | Bound(after, c)
      ensures Bound(multiset(vs), c + Cost(vs, Leaves(g.dep, n, h0)))
    {
      BoundJoin(elements, p, q, r, c);
      assert Bound(elements, c + Weight(r));
    }
  }

  lemma HeavyAt(elements: multiset<nat>, os: seq<nat>, ds: seq<nat>, v: nat, j: nat)
    requires Heavy(elements, os, ds) && v in elements && j < |os|
    ensures Weight(v) >= Fib(ds[j] + 1) && (os[j] == Link(v) ==> Weight(v) >= Fib(ds[j] + 2))
  {
    hide Weight, Link;
    FibMonotone(ds[j] + 1);
  }

  lemma {:induction false} FibMonotone(k: nat)
    requires k >= 1
    ensures Fib(k) <= Fib(k + 1) && Fib(k + 2) == Fib(k + 1) + Fib(k)
  {
  }

  /** Joining the two lightest trees: the new one has the weight of both. */
  lemma HeavyJoin(elements: multiset<nat>, os: seq<nat>, ds: seq<nat>, os': seq<nat>, ds': seq<nat>, p: nat, q: nat, r: nat, h: nat)
    requires Heavy(elements, os, ds) && Lightest(elements, p, q) && JoinedElement(r, p, q, h) && UniqueLinks(elements)
    requires Joined(os, ds, os', ds', Link(p), Link(q), h)
    requires p != q && forall v :: v in elements ==> Link(v) != h
    requires forall v: nat :: v in elements - multiset{p} - multiset{q} + multiset{r} ==>
               v == r || (v in elements && v != p && v != q)
    ensures Heavy(elements - multiset{p} - multiset{q} + multiset{r}, os', ds')
  {
    hide Weight, Link, Lightest, Fib, UniqueLinks, Heavy;
    LightestIn(elements, p, q);
    var after := elements - multiset{p} - multiset{q} + multiset{r};
    forall v, j | v in after && 0 <= j < |os'|
      ensures Weight(v) >= Fib(ds'[j] + if os'[j] == Link(v) then 2 else 1)
    {
      HeavyAt(elements, os, ds, p, j);
      HeavyAt(elements, os, ds, q, j);
      OtherLink(elements, p, q);
      FibMonotone(ds[j] + 1);
      if v != r {
        NotLighter(elements, p, q, v);
        HeavyAt(elements, os, ds, v, j);
        OtherLink(elements, v, p);
        OtherLink(elements, v, q);
      }
    }
    assert Heavy(after, os', ds') by { HeavyIs(after, os', ds'); }
  }

  lemma HeavyIs(elements: multiset<nat>, os: seq<nat>, ds: seq<nat>)
    requires |os| == |ds|
    requires forall v, j :: v in elements && 0 <= j < |os| ==> Weight(v) >= Fib(ds[j] + if os[j] == Link(v) then 2 else 1)
    ensures Heavy(elements, os, ds)
  {
  }

  lemma NotLighter(elements: multiset<nat>, p: nat, q: nat, v: nat)
    requires Lightest(elements, p, q) && UniqueLinks(elements) && v in elements && v != p && v != q
    ensures Weight(p) <= Weight(v) && Weight(q) <= Weight(v)
  {
    hide Weight, Link;
    assert v in elements - multiset{p};
  }

  lemma LightestIn(elements: multiset<nat>, p: nat, q: nat)
    requires Lightest(elements, p, q)
    ensures multiset{p, q} <= elements && p in elements && q in elements
  {
    assert p in multiset{p, q} && q in multiset{p, q};
  }

  // ---------------------------------------------------------------- the algorithm, without the array

  ghost predicate IsLeast(elements: multiset<nat>, p: nat) {
    p in elements && forall v :: v in elements ==> p <= v
  }

  lemma {:induction false} LeastExists(elements: multiset<nat>)
    requires |elements| > 0
    ensures exists p: nat :: IsLeast(elements, p)
    decreases |elements|
  {
    var x :| x in elements;
    var others := elements - multiset{x};
    if |others| > 0 {
      LeastExists(others);
      var p: nat :| IsLeast(others, p);
      assert forall v :: v in elements ==> v == x || v in others;
      assert IsLeast(elements, if x <= p then x else p);
    } else {
      assert elements == multiset{x};
      assert IsLeast(elements, x);
    }
  }

  ghost function Least(elements: multiset<nat>): (p: nat)
    requires |elements| > 0
    ensures IsLeast(elements, p)
  {
    LeastExists(elements);
    var p: nat :| IsLeast(elements, p);
    p
  }

  /** The element for the joined trees of p and q, with root h. */
  function JoinOf(p: nat, q: nat, h: nat): nat {
    ((p - p % 0x1_0000) + (q - q % 0x1_0000)) % 0x1_0000_0000 + h
  }

  /** What comes of joining the two least of h elements over and over; equal weights are ordered by the
      slots of the roots. */
  ghost function TreeOf(elements: multiset<nat>, f: Forest, h: nat): (g: Forest)
    requires |f.own| == |f.dep|
    ensures |g.own| == |g.dep| == |f.dep|
    decreases h
  {
    if h <= 1 || |elements| < 2 then f
    else
      var p := Least(elements);
      var others := elements - multiset{p};
      var q := Least(others);
      TreeOf(others - multiset{q} + multiset{JoinOf(p, q, h)}, Join2(f, Link(p), Link(q), h), h - 1)
  }

  lemma TreeOfStep(elements: multiset<nat>, f: Forest, h: nat, p: nat, q: nat)
    requires |f.own| == |f.dep| && h > 1 && |elements| >= 2
    requires IsLeast(elements, p) && IsLeast(elements - multiset{p}, q)
    ensures TreeOf(elements, f, h)
         == TreeOf(elements - multiset{p} - multiset{q} + multiset{JoinOf(p, q, h)}, Join2(f, Link(p), Link(q), h), h - 1)
  {
    hide Link, JoinOf, Join2;
    assert Least(elements) == p;
    assert Least(elements - multiset{p}) == q;
  }

  // ---------------------------------------------------------------- building the tree

  function Elements(s: seq<nat>, h: nat): multiset<nat>
    requires h < |s|
  {
    multiset(s[1..h + 1])
  }

  /** The array while the tree is being built from the elements vs, one for each used symbol. */
  ghost predicate Building(s: seq<nat>, f: Forest, n: nat, h0: nat, h: nat, vs: seq<nat>) {
    && Linked(s, f, n, h0, h) && Order(s, h, 1) && Total(vs) < 0x1_0000
    && RootsOk(Elements(s, h), f, n, h0, h, vs) && BoundOk(Elements(s, h), vs, Leaves(f.dep, n, h0))
    && Heavy(Elements(s, h), Leaves(f.own, n, h0), Leaves(f.dep, n, h0))
  }

  /** Taking away the first element; the last one comes in its place. */
  lemma TakeFirst(s: seq<nat>, h: nat)
    requires h > 1 && Order(s, h, 1)
    ensures Order(s[1 := s[h]], h - 1, 2)
    ensures Elements(s[1 := s[h]], h - 1) == Elements(s, h) - multiset{s[1]}
    ensures s[1] in Elements(s, h)
  {
    var first, t := s[1..h + 1], s[1 := s[h]];
    assert first == [s[1]] + s[2..h + 1];
    assert s[2..h + 1] == s[2..h] + [s[h]];
    assert t[1..h] == [s[h]] + s[2..h];
  }

  /** After the heap has been put in order, the next element is there: both are the lightest. */
  lemma FirstTaken(s: seq<nat>, u: seq<nat>, h: nat)
    requires h > 1 && Order(s, h, 1) && Rearranged(s[1 := s[h]], u, h - 1) && Order(u, h - 1, 1)
    ensures |u| == |s| && u[h + 1..] == s[h + 1..]
    ensures Elements(u, h - 1) == Elements(s, h) - multiset{s[1]}
    ensures Lightest(Elements(s, h), s[1], u[1])
    ensures IsLeast(Elements(s, h), s[1]) && IsLeast(Elements(s, h) - multiset{s[1]}, u[1])
  {
    TakeFirst(s, h);
    assert u[h + 1..] == u[h..][1..] == s[1 := s[h]][h..][1..] == s[h + 1..];
    LeastElement(s, h);
    LeastElement(u, h - 1);
    hide Order, Elements, Weight;
    TwoLightest(Elements(s, h), s[1], u[1]);
  }

  /** The lightest element, and the lightest of the others. */
  lemma TwoLightest(elements: multiset<nat>, p: nat, q: nat)
    requires p in elements && q in elements - multiset{p}
    requires forall v :: v in elements ==> Weight(p) <= Weight(v)
    requires forall v :: v in elements - multiset{p} ==> Weight(q) <= Weight(v)
    ensures Lightest(elements, p, q)
  {
    hide Weight;
    assert multiset{p, q} == multiset{p} + multiset{q};
  }

  lemma LeastElement(s: seq<nat>, h: nat)
    requires Order(s, h, 1) && h >= 1
    ensures s[1] in Elements(s, h)
    ensures forall v :: v in Elements(s, h) ==> s[1] <= v && Weight(s[1]) <= Weight(v)
  {
    assert s[1..h + 1][0] == s[1];
    forall v | v in Elements(s, h)
      ensures s[1] <= v
    {
      assert v in s[1..h + 1];
      var k :| 0 <= k < h && s[1..h + 1][k] == v;
      RootIsLeast(s, h, k + 1);
    }
  }

  /** A new element at the root of the heap, and two slots that now lead to slot h. */
  function Put(u: seq<nat>, h: nat, r: nat, p: nat, q: nat): (t: seq<nat>)
    requires 1 < |u| && p < |u| && q < |u|
    ensures |t| == |u|
  {
    u[1 := r][p := h][q := h]
  }

  /** Putting an element in the place of the first one, and slots beyond the heap. */
  lemma PutFirst(u: seq<nat>, h: nat, r: nat, p: nat, q: nat)
    requires h > 1 && Order(u, h - 1, 1) && h < p < |u| && h < q < |u|
    ensures var t := Put(u, h, r, p, q);
            && Order(t, h - 1, 2)
            && Elements(t, h - 1) == Elements(u, h - 1) - multiset{u[1]} + multiset{r}
  {
    var t := Put(u, h, r, p, q);
    assert u[1..h] == [u[1]] + u[2..h];
    assert t[1..h] == [r] + u[2..h];
  }

  lemma BuildingSize(s: seq<nat>, f: Forest, n: nat, h0: nat, h: nat, vs: seq<nat>)
    requires Building(s, f, n, h0, h, vs)
    ensures Sizes(n, h0, h) && |s| == |f.own| == |f.dep| > 2 * n && Order(s, h, 1)
  {
  }

  /** The element for the joined trees does not overflow. */
  lemma JoinedIs(s: seq<nat>, f: Forest, n: nat, h0: nat, h: nat, vs: seq<nat>, p: nat, q: nat)
    requires Building(s, f, n, h0, h, vs) && h > 1 && Lightest(Elements(s, h), p, q)
    ensures IsSlot(n, h0, h, Link(p)) && IsSlot(n, h0, h, Link(q)) && f.own[Link(p)] == Link(p) && f.own[Link(q)] == Link(q)
    ensures Link(p) != Link(q)
    ensures JoinedElement(JoinOf(p, q, h), p, q, h)
  {
    BuildingSize(s, f, n, h0, h, vs);
    hide Order, BoundOk, Heavy, WeightUnder, SpaceUnder, Linked, HasLink, Leaves;
    LightestIn(Elements(s, h), p, q);
    assert RootOk(p, f, n, h0, h, vs) && RootOk(q, f, n, h0, h, vs);
    assert p != q by { assert Elements(s, h)[p] == 1; }
    OtherLink(Elements(s, h), p, q);
    LeavesSize(f, n, h0);
    WeightBelowTotal(vs, Leaves(f.own, n, h0), Link(p), Link(q));
    JoinedValue(p, q, h);
  }

  lemma JoinedValue(p: nat, q: nat, h: nat)
    requires Weight(p) + Weight(q) < 0x1_0000 && h < 0x1_0000
    ensures JoinedElement(JoinOf(p, q, h), p, q, h)
  {
    var w := Weight(p) + Weight(q);
    assert p - p % 0x1_0000 == 0x1_0000 * Weight(p) && q - q % 0x1_0000 == 0x1_0000 * Weight(q);
    assert (0x1_0000 * w) % 0x1_0000_0000 == 0x1_0000 * w;
  }

  /** The whole step, on sequences: s before, u after the first element has been taken, t at the end. */
  lemma JoinStep(s: seq<nat>, u: seq<nat>, t: seq<nat>, f: Forest, n: nat, h0: nat, h: nat, vs: seq<nat>, p: nat, q: nat, r: nat)
    requires h > 1 && Building(s, f, n, h0, h, vs)
    requires Rearranged(s[1 := s[h]], u, h - 1) && Order(u, h - 1, 1) && p == s[1] && q == u[1]
    requires Lightest(Elements(s, h), p, q) && JoinedElement(r, p, q, h)
    requires IsSlot(n, h0, h, Link(p)) && IsSlot(n, h0, h, Link(q)) && f.own[Link(p)] == Link(p) && f.own[Link(q)] == Link(q)
    requires Link(p) != Link(q)
    requires Rearranged(Put(u, h, r, Link(p), Link(q)), t, h - 1) && Order(t, h - 1, 1)
    ensures Building(t, Join2(f, Link(p), Link(q), h), n, h0, h - 1, vs)
    ensures Elements(t, h - 1) == Elements(s, h) - multiset{p} - multiset{q} + multiset{r}
  {
    BuildingSize(s, f, n, h0, h, vs);
    FirstTaken(s, u, h);
    PutFirst(u, h, r, Link(p), Link(q));
    ElementsRearranged(Put(u, h, r, Link(p), Link(q)), t, h - 1);
    hide Order, BoundOk, RootsOk, Heavy, Link, JoinedElement, Elements, Lightest, Rearranged, Put;
    BoundaryKept(s, u, t, n, h0, h, Link(p), Link(q), r);
    LinkedJoin(s, t, f, n, h0, h, Link(p), Link(q));
    LightestIn(Elements(s, h), p, q);
    RootsJoin(Elements(s, h), f, n, h0, h, vs, p, q, r, s, t);
    BoundOkJoin(Elements(s, h), f, n, h0, h, vs, p, q, r, s);
    HeavyRootsJoin(Elements(s, h), f, n, h0, h, vs, p, q, r, s);
  }

  lemma HeavyRootsJoin(elements: multiset<nat>, f: Forest, n: nat, h0: nat, h: nat, vs: seq<nat>, p: nat, q: nat, r: nat, s: seq<nat>)
    requires h > 1 && RootsOk(elements, f, n, h0, h, vs) && Linked(s, f, n, h0, h) && JoinedElement(r, p, q, h)
    requires Lightest(elements, p, q) && Heavy(elements, Leaves(f.own, n, h0), Leaves(f.dep, n, h0))
    ensures var g := Join2(f, Link(p), Link(q), h);
            Heavy(elements - multiset{p} - multiset{q} + multiset{r}, Leaves(g.own, n, h0), Leaves(g.dep, n, h0))
  {
    hide Link, Lightest, JoinedElement, Heavy, RootOk, HasLink, UniqueLinks, Linked;
    var g := Join2(f, Link(p), Link(q), h);
    LightestIn(elements, p, q);
    LinksJoin(elements, f, n, h0, h, vs, p, q, r);
    LeavesJoined(s, f, n, h0, h, Link(p), Link(q));
    HeavyJoin(elements, Leaves(f.own, n, h0), Leaves(f.dep, n, h0), Leaves(g.own, n, h0), Leaves(g.dep, n, h0), p, q, r, h);
  }

  lemma ElementsRearranged(s: seq<nat>, t: seq<nat>, h: nat)
    requires Rearranged(s, t, h)
    ensures |t| == |s| && Elements(t, h) == Elements(s, h) && t[h + 1..] == s[h + 1..]
  {
  }

  lemma BoundaryKept(s: seq<nat>, u: seq<nat>, t: seq<nat>, n: nat, h0: nat, h: nat, p: nat, q: nat, r: nat)
    requires Sizes(n, h0, h) && |s| == |u| == |t| > 2 * n && u[h + 1..] == s[h + 1..] && h > 1
    requires IsSlot(n, h0, h, p) && IsSlot(n, h0, h, q) && t[h..] == Put(u, h, r, p, q)[h..]
    ensures t[p] == t[q] == h && forall x: nat :: IsSlot(n, h0, h, x) && x != p && x != q ==> t[x] == s[x]
  {
    var v := Put(u, h, r, p, q);
    assert t[p] == t[h..][p - h] == v[p] && t[q] == t[h..][q - h] == v[q];
    forall x: nat | IsSlot(n, h0, h, x) && x != p && x != q
      ensures t[x] == s[x]
    {
      assert t[x] == t[h..][x - h] == v[x];
      assert u[x] == u[h + 1..][x - h - 1] == s[x];
    }
  }

  /** Removes the least element. */
  method TakeLeast(nodes: array<nat>, h: nat) returns (p: nat)
    requires h > 1 && Order(nodes[..], h, 1)
    modifies nodes
    ensures p == old(nodes[..])[1] && Order(nodes[..], h - 1, 1)
    ensures Rearranged(old(nodes[..])[1 := old(nodes[..])[h]], nodes[..], h - 1)
  {
    ghost var s := nodes[..];
    TakeFirst(s, h);
    var last: nat := nodes[h];
    p := nodes[1];
    nodes[1] := last;
    assert nodes[..] == s[1 := last];
    MinheapDown(nodes, h - 1, 1);
  }

  /** Replaces the least element, and makes two slots lead to the slot of the new one. */
  method PutJoined(nodes: array<nat>, h: nat, r: nat, p: nat, q: nat)
    requires h > 1 && Order(nodes[..], h - 1, 1) && h < p < nodes.Length && h < q < nodes.Length
    modifies nodes
    ensures Rearranged(Put(old(nodes[..]), h, r, p, q), nodes[..], h - 1) && Order(nodes[..], h - 1, 1)
  {
    ghost var u := nodes[..];
    PutFirst(u, h, r, p, q);
    hide Order, Elements, Rearranged;
    nodes[1] := r;
    nodes[p] := h;
    nodes[q] := h;
    assert nodes[..] == Put(u, h, r, p, q);
    MinheapDown(nodes, h - 1, 1);
  }

  /** One turn of the loop that builds the tree: joins the trees of the two least elements. */
  method JoinTwo(nodes: array<nat>, n: nat, h0: nat, h: nat, ghost f: Forest, ghost vs: seq<nat>) returns (ghost g: Forest)
    requires h > 1 && Building(nodes[..], f, n, h0, h, vs)
    modifies nodes
    ensures Building(nodes[..], g, n, h0, h - 1, vs) && |g.own| > h && g.own[h] == h
    ensures |f.own| == |f.dep| == |g.own| == |g.dep| && h < |old(nodes[..])|
    ensures TreeOf(Elements(nodes[..], h - 1), g, h - 1) == TreeOf(old(Elements(nodes[..], h)), f, h)
  {
    hide Order, Building, Link, Lightest, JoinedElement, Elements, Rearranged, Put, IsLeast, TreeOf, JoinOf;
    ghost var s := nodes[..];
    BuildingSize(s, f, n, h0, h, vs);
    var p := TakeLeast(nodes, h);
    ghost var u := nodes[..];
    FirstTaken(s, u, h);
    var q := nodes[1];
    JoinedIs(s, f, n, h0, h, vs, p, q);
    var r := JoinOf(p, q, h);
    PutJoined(nodes, h, r, Link(p), Link(q));
    g := Join2(f, Link(p), Link(q), h);
    JoinStep(s, u, nodes[..], f, n, h0, h, vs, p, q, r);
    ElementsSize(s, h);
    TreeOfStep(Elements(s, h), f, h, p, q);
  }

  lemma ElementsSize(s: seq<nat>, h: nat)
    requires h < |s|
    ensures |Elements(s, h)| == h
  {
  }

  // ---------------------------------------------------------------- before and after

  /** The elements for the leaves, before anything has been joined. */
  ghost predicate Separate(vs: seq<nat>, n: nat) {
    forall j :: 0 <= j < |vs| ==> Link(vs[j]) == n + 1 + j
  }

  function Singles(size: nat): Forest {
    Forest(seq(size, x => if x < 0 then 0 else x), seq(size, _ => 0))
  }

  lemma {:induction false} SingleWeight(vs: seq<nat>, os: seq<nat>, n: nat, j: nat)
    requires |vs| == |os| && j < |os| && forall k :: 0 <= k < |os| ==> os[k] == n + 1 + k
    ensures WeightUnder(vs, os, n + 1 + j) == Weight(vs[j])
  {
    hide Weight;
    var m := |os| - 1;
    if j == m {
      NoWeight(vs[..m], os[..m], n + 1 + j);
    } else {
      SingleWeight(vs[..m], os[..m], n, j);
    }
  }

  lemma {:induction false} NoWeight(vs: seq<nat>, os: seq<nat>, x: nat)
    requires |vs| == |os| && forall k :: 0 <= k < |os| ==> os[k] != x
    ensures WeightUnder(vs, os, x) == 0
  {
    if os != [] {
      NoWeight(vs[..|vs| - 1], os[..|os| - 1], x);
    }
  }

  lemma {:induction false} SingleSpace(os: seq<nat>, ds: seq<nat>, n: nat, j: nat, m: nat)
    requires |os| == |ds| && AtMost(ds, m) && j < |os| && ds[j] == 0 && forall k :: 0 <= k < |os| ==> os[k] == n + 1 + k
    ensures SpaceUnder(os, ds, n + 1 + j, m) == Pow2(m)
  {
    var l := |os| - 1;
    if j == l {
      NoSpace(os[..l], ds[..l], n + 1 + j, m);
    } else {
      SingleSpace(os[..l], ds[..l], n, j, m);
    }
  }

  lemma {:induction false} NoSpace(os: seq<nat>, ds: seq<nat>, x: nat, m: nat)
    requires |os| == |ds| && AtMost(ds, m) && forall k :: 0 <= k < |os| ==> os[k] != x
    ensures SpaceUnder(os, ds, x, m) == 0
  {
    if os != [] {
      NoSpace(os[..|os| - 1], ds[..|ds| - 1], x, m);
    }
  }

  lemma {:induction false} NoCost(vs: seq<nat>, ds: seq<nat>)
    requires |vs| == |ds| && forall k :: 0 <= k < |ds| ==> ds[k] == 0
    ensures Cost(vs, ds) == 0
  {
    if ds != [] {
      NoCost(vs[..|vs| - 1], ds[..|ds| - 1]);
    }
  }

  lemma UniqueSeparate(vs: seq<nat>, n: nat)
    requires Separate(vs, n)
    ensures UniqueLinks(multiset(vs))
  {
    hide Link;
    forall v | v in multiset(vs)
      ensures multiset(vs)[v] == 1
    {
      var j :| 0 <= j < |vs| && vs[j] == v;
      assert vs == vs[..j] + [v] + vs[j + 1..];
      assert v !in vs[..j] && v !in vs[j + 1..];
    }
  }

  lemma SinglesLinked(s: seq<nat>, n: nat, h0: nat)
    requires Sizes(n, h0, h0) && |s| > 2 * n
    ensures Linked(s, Singles(|s|), n, h0, h0)
  {
  }

  lemma SingleRoots(s: seq<nat>, n: nat, h0: nat, vs: seq<nat>)
    requires Sizes(n, h0, h0) && |s| > 2 * n && |vs| == h0 && Separate(vs, n)
    ensures RootsOk(multiset(vs), Singles(|s|), n, h0, h0, vs)
  {
    hide Link, Weight, WeightUnder, SpaceUnder, UniqueLinks;
    var f := Singles(|s|);
    UniqueSeparate(vs, n);
    var os, ds := Leaves(f.own, n, h0), Leaves(f.dep, n, h0);
    forall v | v in multiset(vs)
      ensures RootOk(v, f, n, h0, h0, vs)
    {
      var j :| 0 <= j < |vs| && vs[j] == v;
      SingleWeight(vs, os, n, j);
      SingleSpace(os, ds, n, j, h0);
    }
    forall x: nat | IsSlot(n, h0, h0, x)
      ensures HasLink(multiset(vs), f.own[x])
    {
      assert vs[x - n - 1] in multiset(vs);
    }
  }

  /** The heap of single leaves is a beginning. */
  lemma BuildingStart(s: seq<nat>, n: nat, h0: nat, vs: seq<nat>)
    requires Sizes(n, h0, h0) && |s| > 2 * n && |vs| == h0 && Separate(vs, n) && Total(vs) < 0x1_0000
    requires Order(s, h0, 1) && Elements(s, h0) == multiset(vs) && Positive(vs)
    ensures Building(s, Singles(|s|), n, h0, h0, vs)
  {
    hide Order, Linked, RootsOk, Bound, Separate, Heavy, Positive;
    SinglesLinked(s, n, h0);
    SingleRoots(s, n, h0, vs);
    NoCost(vs, Leaves(Singles(|s|).dep, n, h0));
    SinglesHeavy(vs, Leaves(Singles(|s|).own, n, h0), Leaves(Singles(|s|).dep, n, h0));
  }

  ghost predicate Positive(vs: seq<nat>) {
    forall j :: 0 <= j < |vs| ==> Weight(vs[j]) >= 1
  }

  lemma SinglesHeavy(vs: seq<nat>, os: seq<nat>, ds: seq<nat>)
    requires Positive(vs) && |os| == |ds| && forall j :: 0 <= j < |ds| ==> ds[j] == 0
    ensures Heavy(multiset(vs), os, ds)
  {
    hide Weight, Link;
    assert Fib(1) == 1 && Fib(2) == 1;
    forall v | v in multiset(vs)
      ensures Weight(v) >= 1
    {
      var j :| 0 <= j < |vs| && vs[j] == v;
    }
  }

  /** A tree: its depths are the codeword lengths of a complete code of least cost, the links lead from
      each leaf to the root, which is slot 2, and no leaf is deeper than its weights allow. */
  ghost predicate IsTree(s: seq<nat>, f: Forest, n: nat, h0: nat, vs: seq<nat>) {
    && 2 <= h0 && Linked(s, f, n, h0, 1) && |vs| == h0
    && (forall x: nat :: IsSlot(n, h0, 1, x) ==> f.own[x] == 2)
    && var ds := Leaves(f.dep, n, h0);
       && AtMost(ds, h0) && Space(ds, h0) == Pow2(h0) && Bound(multiset(vs), Cost(vs, ds))
       && forall j :: 0 <= j < h0 ==> Fib(ds[j] + 2) <= Total(vs)
  }

  lemma TreeDone(s: seq<nat>, f: Forest, n: nat, h0: nat, vs: seq<nat>)
    requires Building(s, f, n, h0, 1, vs) && h0 >= 2 && f.own[2] == 2
    ensures IsTree(s, f, n, h0, vs)
  {
    hide Link, Weight, WeightUnder, SpaceUnder, Space, Bound, Cost, Order, SlotOk, Total, Fib, Heavy;
    var v := s[1];
    assert s[1..2] == [v] && Elements(s, 1) == multiset{v};
    forall x: nat | IsSlot(n, h0, 1, x)
      ensures f.own[x] == Link(v)
    {
      assert HasLink(Elements(s, 1), f.own[x]);
    }
    assert IsSlot(n, h0, 1, 2) && f.own[2] == Link(v);
    assert RootOk(v, f, n, h0, 1, vs);
    var os, ds := Leaves(f.own, n, h0), Leaves(f.dep, n, h0);
    assert forall j :: 0 <= j < h0 ==> os[j] == f.own[n + 1 + j] && IsSlot(n, h0, 1, n + 1 + j);
    SpaceOfAll(os, ds, 2, h0);
    WeightOfAll(vs, os, 2);
    forall j | 0 <= j < h0
      ensures Fib(ds[j] + 2) <= Total(vs)
    {
      HeavyAt(Elements(s, 1), os, ds, v, j);
    }
    NoLess(Elements(s, 1));
    assert Bound(multiset(vs), 0 + Cost(vs, ds));
  }

  lemma NoLess(elements: multiset<nat>)
    ensures Bound(elements, 0)
  {
  }

  /** The loop that builds the tree. */
  method BuildTree(nodes: array<nat>, n: nat, h0: nat, ghost vs: seq<nat>) returns (ghost f: Forest)
    requires Sizes(n, h0, h0) && h0 >= 2 && nodes.Length > 2 * n && |vs| == h0 && Separate(vs, n) && Total(vs) < 0x1_0000
    requires Order(nodes[..], h0, 1) && Elements(nodes[..], h0) == multiset(vs) && Positive(vs)
    modifies nodes
    ensures IsTree(nodes[..], f, n, h0, vs) && f == TreeOf(multiset(vs), Singles(nodes.Length), h0)
  {
    hide Building, Order, Separate, Positive, Elements, Total;
    f := Singles(nodes.Length);
    BuildingStart(nodes[..], n, h0, vs);
    var h := h0;
    while h > 1
      invariant 1 <= h <= h0 && Building(nodes[..], f, n, h0, h, vs) && |f.own| == |f.dep|
      invariant TreeOf(Elements(nodes[..], h), f, h) == TreeOf(multiset(vs), Singles(nodes.Length), h0)
      invariant h < h0 ==> |f.own| > h + 1 && f.own[h + 1] == h + 1
    {
      f := JoinTwo(nodes, n, h0, h, f, vs);
      h := h - 1;
    }
    TreeDone(nodes[..], f, n, h0, vs);
  }

  /** Following the links from a leaf to the root: its depth. */
  method Depth(nodes: array<nat>, n: nat, h: nat, ghost f: Forest, ghost h0: nat, ghost vs: seq<nat>) returns (l: nat)
    requires IsTree(nodes[..], f, n, h0, vs) && 1 <= h <= h0
    ensures 1 <= l == Leaves(f.dep, n, h0)[h - 1]
  {
    hide Space, Bound, Cost;
    assert SlotOk(nodes[..], f, n, h0, 1, n + h);
    assert SlotOk(nodes[..], f, n, h0, 1, 2) && IsSlot(n, h0, 1, 2);
    var p := nodes[n + h];
    l := 1;
    while p != 2
      invariant IsSlot(n, h0, 1, p) && l + f.dep[p] == f.dep[n + h] && l >= 1
      decreases f.dep[p]
    {
      assert SlotOk(nodes[..], f, n, h0, 1, p);
      l := l + 1;
      p := nodes[p];
    }
  }
}
