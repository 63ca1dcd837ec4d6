/** Choosing the follower sets (hwzip/reduce.c, lines 221-331). */
module Followers {
  import opened Bits
  import opened ReduceFormat

  datatype Follower = Follower(b: byte, count: nat)

  // ---------------------------------------------------------------- counting

  /** How often b comes after p; before the first byte there is an implicit zero. */
  function Follows(bytes: seq<byte>, p: nat, b: nat): nat {
    if bytes == [] then 0
    else
      var n := |bytes| - 1;
      Follows(bytes[..n], p, b) + if LastByte(0, bytes[..n]) == p && bytes[n] == b then 1 else 0
  }

  lemma FollowsNext(bytes: seq<byte>, c: byte, p: nat, b: nat)
    ensures Follows(bytes + [c], p, b) == Follows(bytes, p, b) + if LastByte(0, bytes) == p && c == b then 1 else 0
  {
    assert (bytes + [c])[..|bytes|] == bytes;
  }

  /** The followers of p before they are sorted. */
  function Row(bytes: seq<byte>, p: nat): (r: seq<Follower>)
    ensures |r| == 256
  {
    seq(256, b requires 0 <= b < 256 => Follower(b, Follows(bytes, p, b)))
  }

  // ---------------------------------------------------------------- sorting

  /** follower_cmp(): descending by count, ties ascending by byte. */
  predicate Before(x: Follower, y: Follower) {
    x.count > y.count || (x.count == y.count && x.b < y.b)
  }

  ghost predicate Sorted(s: seq<Follower>) {
    forall i, j :: 0 <= i < j < |s| ==> Before(s[i], s[j])
  }

  ghost predicate DistinctBytes(s: seq<Follower>) {
    forall i, j :: 0 <= i < j < |s| ==> s[i].b != s[j].b
  }

  function Insert(x: Follower, s: seq<Follower>): (r: seq<Follower>)
    ensures |r| == |s| + 1 && multiset(r) == multiset(s) + multiset{x}
  {
    if s == [] || !Before(x, s[|s| - 1]) then s + [x]
    else
      assert s == s[..|s| - 1] + [s[|s| - 1]];
      Insert(x, s[..|s| - 1]) + [s[|s| - 1]]
  }

  /** The order in which qsort() leaves the followers. */
  function Sort(s: seq<Follower>): (r: seq<Follower>)
    ensures |r| == |s| && multiset(r) == multiset(s)
  {
    if s == [] then []
    else
      assert s == s[..|s| - 1] + [s[|s| - 1]];
      Insert(s[|s| - 1], Sort(s[..|s| - 1]))
  }

  lemma SameElements(s: seq<Follower>, t: seq<Follower>, x: Follower)
    requires multiset(s) == multiset(t) && x in s
    ensures x in t
  {
    assert x in multiset(s);
  }

  lemma {:induction false} InsertSorted(x: Follower, s: seq<Follower>)
    requires Sorted(s) && forall y :: y in s ==> y.b != x.b
    ensures Sorted(Insert(x, s))
  {
    if s != [] && Before(x, s[|s| - 1]) {
      var n, last := |s| - 1, s[|s| - 1];
      InsertSorted(x, s[..n]);
      var r := Insert(x, s[..n]);
      forall i | 0 <= i < |r|
        ensures Before(r[i], last)
      {
        assert r[i] in multiset(r);
        assert r[i] == x || r[i] in s[..n];
      }
    } else if s != [] {
      LastBefore(x, s);
    }
  }

  lemma LastBefore(x: Follower, s: seq<Follower>)
    requires Sorted(s) && s != [] && !Before(x, s[|s| - 1]) && x.b != s[|s| - 1].b
    ensures forall i :: 0 <= i < |s| ==> Before(s[i], x)
  {
  }

  /** Followers of distinct bytes end up in strict order. */
  lemma {:induction false} SortSorts(s: seq<Follower>)
    requires DistinctBytes(s)
    ensures Sorted(Sort(s))
  {
    hide Insert;
    if s != [] {
      var n := |s| - 1;
      SortSorts(s[..n]);
      forall y | y in Sort(s[..n])
        ensures y.b != s[n].b
      {
        SameElements(Sort(s[..n]), s[..n], y);
      }
      InsertSorted(s[n], Sort(s[..n]));
    }
  }

  lemma SortDistinct(s: seq<Follower>)
    requires DistinctBytes(s)
    ensures DistinctBytes(Sort(s))
  {
    hide Sort;
    var r := Sort(s);
    forall i, j | 0 <= i < j < |r|
      ensures r[i].b != r[j].b
    {
      SameElements(r, s, r[i]);
      SameElements(r, s, r[j]);
      Once(s, r[i]);
      Once(s, r[j]);
      if r[i].b == r[j].b {
        Same(s, r[i], r[j]);
        Twice(r, i, j);
      }
    }
  }

  lemma Once(s: seq<Follower>, x: Follower)
    requires DistinctBytes(s) && x in s
    ensures multiset(s)[x] == 1
  {
    var k :| 0 <= k < |s| && s[k] == x;
    assert s == s[..k] + [s[k]] + s[k + 1..];
    assert x !in s[..k] && x !in s[k + 1..];
  }

  lemma Same(s: seq<Follower>, x: Follower, y: Follower)
    requires DistinctBytes(s) && x in s && y in s && x.b == y.b
    ensures x == y
  {
    var k :| 0 <= k < |s| && s[k] == x;
    var l :| 0 <= l < |s| && s[l] == y;
  }

  lemma Twice(s: seq<Follower>, i: nat, j: nat)
    requires i < j < |s| && s[i] == s[j]
    ensures multiset(s)[s[i]] >= 2
  {
    assert s == s[..i] + [s[i]] + s[i + 1..j] + [s[j]] + s[j + 1..];
  }

  // ---------------------------------------------------------------- cost

  /** The bits for the i-th follower when n are in the set. */
  function BitsAt(n: nat, i: nat): nat {
    if i < n then 1 + IdxBw(n) else if n == 0 then 8 else 9
  }

  /** The bits for the first m followers when n are in the set. */
  function CostUpTo(fs: seq<Follower>, n: nat, m: nat): nat
    requires m <= |fs|
  {
    if m == 0 then 0 else CostUpTo(fs, n, m - 1) + fs[m - 1].count * BitsAt(n, m - 1)
  }

  /** followers_cost() */
  function Cost(fs: seq<Follower>, n: nat): nat {
    8 * n + CostUpTo(fs, n, |fs|)
  }

  method FollowersCost(fs: seq<Follower>, n: nat) returns (cost: nat)
    requires |fs| == 256 && n <= 32
    ensures cost == Cost(fs, n)
  {
    cost := n * 8;
    var i := 0;
    while i < n
      invariant i <= n && cost == 8 * n + CostUpTo(fs, n, i)
    {
      cost := cost + fs[i].count * (1 + IdxBw(n));
      i := i + 1;
    }
    while i < 256
      invariant n <= i <= 256 && cost == 8 * n + CostUpTo(fs, n, i)
    {
      if n == 0 {
        cost := cost + fs[i].count * 8;
      } else {
        cost := cost + fs[i].count * (1 + 8);
      }
      i := i + 1;
    }
  }

  /** The least of the best set sizes up to k. */
  function BestSize(fs: seq<Follower>, k: nat): (n: nat)
    ensures n <= k
  {
    if k == 0 then 0
    else
      var n := BestSize(fs, k - 1);
      if Cost(fs, k) < Cost(fs, n) then k else n
  }

  lemma {:induction false} BestSizeIsLeast(fs: seq<Follower>, k: nat)
    ensures forall n :: 0 <= n <= k ==> Cost(fs, BestSize(fs, k)) <= Cost(fs, n)
    ensures forall n :: 0 <= n < BestSize(fs, k) ==> Cost(fs, BestSize(fs, k)) < Cost(fs, n)
  {
    hide Cost;
    if k > 0 {
      BestSizeIsLeast(fs, k - 1);
    }
  }

  /** The loop that finds the set size with the lowest cost. */
  method FindBestSize(fs: seq<Follower>) returns (size: nat)
    requires |fs| == 256
    ensures size == BestSize(fs, MAX_FOLLOWERS)
  {
    hide Cost;
    size := 0;
    var minCost := FollowersCost(fs, 0);
    var i := 1;
    while i <= 32
      invariant 1 <= i <= 33 && size == BestSize(fs, i - 1) && minCost == Cost(fs, size)
    {
      var cost := FollowersCost(fs, i);
      if cost < minCost {
        size := i;
        minCost := cost;
      }
      i := i + 1;
    }
  }

  function FirstBytes(fs: seq<Follower>, n: nat): (s: seq<byte>)
    requires n <= |fs|
    ensures |s| == n
  {
    seq(n, i requires 0 <= i < n => fs[i].b)
  }

  /** The followers of p, sorted. */
  function SortedRow(bytes: seq<byte>, p: nat): (r: seq<Follower>)
    ensures |r| == 256
  {
    Sort(Row(bytes, p))
  }

  /** The set that is chosen for p. */
  function ChosenSet(bytes: seq<byte>, p: nat): (s: seq<byte>)
    ensures |s| <= MAX_FOLLOWERS
  {
    FirstBytes(SortedRow(bytes, p), BestSize(SortedRow(bytes, p), MAX_FOLLOWERS))
  }

  function ChosenSets(bytes: seq<byte>): (s: Sets)
    ensures SetsOk(s)
  {
    seq(256, p requires 0 <= p < 256 => ChosenSet(bytes, p))
  }

  // ---------------------------------------------------------------- the cost is what is written

  /** The bits for all followers, in terms of the set itself. */
  function SumLen(fs: seq<Follower>, set_: seq<byte>): nat {
    hide ByteBits;
    if fs == [] then 0
    else SumLen(fs[..|fs| - 1], set_) + fs[|fs| - 1].count * |ByteBits(set_, fs[|fs| - 1].b)|
  }

  lemma {:induction false} SumLenInsert(x: Follower, s: seq<Follower>, set_: seq<byte>)
    ensures SumLen(Insert(x, s), set_) == SumLen(s, set_) + x.count * |ByteBits(set_, x.b)|
  {
    hide ByteBits;
    if s == [] || !Before(x, s[|s| - 1]) {
      assert (s + [x])[..|s|] == s;
    } else {
      var n := |s| - 1;
      SumLenInsert(x, s[..n], set_);
      assert (Insert(x, s[..n]) + [s[n]])[..|s|] == Insert(x, s[..n]);
    }
  }

  /** The order does not matter. */
  lemma {:induction false} SumLenSort(s: seq<Follower>, set_: seq<byte>)
    ensures SumLen(Sort(s), set_) == SumLen(s, set_)
  {
    hide ByteBits, Insert;
    if s != [] {
      SumLenSort(s[..|s| - 1], set_);
      SumLenInsert(s[|s| - 1], Sort(s[..|s| - 1]), set_);
    }
  }

  lemma BitsOfFollower(fs: seq<Follower>, n: nat, i: nat)
    requires DistinctBytes(fs) && n <= |fs| && n <= MAX_FOLLOWERS && i < |fs|
    ensures |ByteBits(FirstBytes(fs, n), fs[i].b)| == BitsAt(n, i)
  {
    var first := FirstBytes(fs, n);
    if i < n {
      assert first[i] == fs[i].b;
    } else {
      assert forall k :: 0 <= k < n ==> first[k] == fs[k].b;
    }
  }

  lemma {:induction false} SumLenIsCost(fs: seq<Follower>, n: nat, m: nat)
    requires DistinctBytes(fs) && n <= |fs| && n <= MAX_FOLLOWERS && m <= |fs|
    ensures SumLen(fs[..m], FirstBytes(fs, n)) == CostUpTo(fs, n, m)
  {
    hide ByteBits, FirstBytes, BitsAt;
    if m > 0 {
      SumLenIsCost(fs, n, m - 1);
      BitsOfFollower(fs, n, m - 1);
      assert fs[..m][..m - 1] == fs[..m - 1];
    }
  }

  /** What it costs to write everything that comes after p with a set. */
  function SetCost(bytes: seq<byte>, p: nat, set_: seq<byte>): nat {
    8 * |set_| + SumLen(Row(bytes, p), set_)
  }

  lemma RowDistinct(bytes: seq<byte>, p: nat)
    ensures DistinctBytes(Row(bytes, p))
  {
  }

  /** With the first n followers as the set, that is what followers_cost() says. */
  lemma SetCostIsCost(bytes: seq<byte>, p: nat, n: nat)
    requires n <= MAX_FOLLOWERS
    ensures SetCost(bytes, p, FirstBytes(SortedRow(bytes, p), n)) == Cost(SortedRow(bytes, p), n)
  {
    hide Sort, SumLen, CostUpTo, Row, FirstBytes;
    var fs := SortedRow(bytes, p);
    RowDistinct(bytes, p);
    SortDistinct(Row(bytes, p));
    SumLenIsCost(fs, n, |fs|);
    assert fs[..|fs|] == fs;
    SumLenSort(Row(bytes, p), FirstBytes(fs, n));
  }

  /** The rows of the first m bytes. */
  function AllCosts(bytes: seq<byte>, sets: Sets, m: nat): nat
    requires m <= 256 && SetsOk(sets)
  {
    if m == 0 then 0 else AllCosts(bytes, sets, m - 1) + SumLen(Row(bytes, m - 1), sets[m - 1])
  }

  /** One more byte adds its bits to the row of the byte before it. */
  lemma {:induction false} RowNext(bytes: seq<byte>, c: byte, p: nat, set_: seq<byte>, m: nat)
    requires m <= 256
    ensures SumLen(Row(bytes + [c], p)[..m], set_)
         == SumLen(Row(bytes, p)[..m], set_) + if LastByte(0, bytes) == p && c < m then |ByteBits(set_, c)| else 0
  {
    hide ByteBits, Follows;
    if m > 0 {
      RowNext(bytes, c, p, set_, m - 1);
      FollowsNext(bytes, c, p, m - 1);
      var was, now := Row(bytes, p), Row(bytes + [c], p);
      assert was[..m][..m - 1] == was[..m - 1] && now[..m][..m - 1] == now[..m - 1];
      OneMore(was[m - 1].count, |ByteBits(set_, m - 1)|);
    }
  }

  lemma OneMore(a: nat, b: nat)
    ensures (a + 1) * b == a * b + b
  {
  }

  lemma {:induction false} AllCostsNext(bytes: seq<byte>, c: byte, sets: Sets, m: nat)
    requires m <= 256 && SetsOk(sets)
    ensures AllCosts(bytes + [c], sets, m)
         == AllCosts(bytes, sets, m) + if LastByte(0, bytes) < m then |ByteBits(sets[LastByte(0, bytes)], c)| else 0
  {
    hide ByteBits, SumLen, Row;
    if m > 0 {
      AllCostsNext(bytes, c, sets, m - 1);
      RowNext(bytes, c, m - 1, sets[m - 1], 256);
      assert Row(bytes, m - 1)[..256] == Row(bytes, m - 1) && Row(bytes + [c], m - 1)[..256] == Row(bytes + [c], m - 1);
    }
  }

  lemma {:induction false} NothingFollows(sets: Sets, m: nat)
    requires m <= 256 && SetsOk(sets)
    ensures AllCosts([], sets, m) == 0
  {
    hide ByteBits;
    if m > 0 {
      NothingFollows(sets, m - 1);
      NoSum(Row([], m - 1), sets[m - 1]);
    }
  }

  lemma {:induction false} NoSum(fs: seq<Follower>, set_: seq<byte>)
    requires forall i :: 0 <= i < |fs| ==> fs[i].count == 0
    ensures SumLen(fs, set_) == 0
  {
    hide ByteBits;
    if fs != [] {
      NoSum(fs[..|fs| - 1], set_);
    }
  }

  /** The bits of a byte string, summed up row by row. */
  lemma {:induction false} BytesCost(bytes: seq<byte>, sets: Sets)
    requires SetsOk(sets)
    ensures |BytesBits(sets, 0, bytes)| == AllCosts(bytes, sets, 256)
  {
    hide ByteBits, SetsOk, AllCosts, BytesBits;
    if bytes == [] {
      NothingFollows(sets, 256);
      NoBytesBits(sets);
    } else {
      var n := |bytes| - 1;
      assert bytes == bytes[..n] + [bytes[n]];
      BytesCost(bytes[..n], sets);
      AllCostsNext(bytes[..n], bytes[n], sets, 256);
      BytesBitsConcat(sets, 0, bytes[..n], [bytes[n]]);
      OneByteBits(sets, LastByte(0, bytes[..n]), bytes[n]);
    }
  }

  lemma NoBytesBits(sets: Sets)
    requires SetsOk(sets)
    ensures BytesBits(sets, 0, []) == []
  {
  }

  lemma OneByteBits(sets: Sets, prev: byte, b: byte)
    requires SetsOk(sets)
    ensures BytesBits(sets, prev, [b]) == ByteBits(sets[prev], b)
  {
    hide ByteBits;
    assert [b][1..] == [];
  }

  /** The sum of the costs of the chosen sizes, as they are computed. */
  function ChosenCosts(bytes: seq<byte>, m: nat): nat {
    if m == 0 then 0
    else
      var fs := SortedRow(bytes, m - 1);
      ChosenCosts(bytes, m - 1) + Cost(fs, BestSize(fs, MAX_FOLLOWERS))
  }

  lemma SetBitsLen(followers: seq<byte>)
    ensures |SetBits(followers)| == 6 + 8 * |followers|
  {
    FollowerBitsLen(followers);
  }

  lemma {:induction false} FollowerBitsLen(followers: seq<byte>)
    ensures |FollowerBits(followers)| == 8 * |followers|
  {
    if followers != [] {
      FollowerBitsLen(followers[1..]);
    }
  }

  lemma {:induction false} ChosenCostsAre(bytes: seq<byte>, m: nat)
    requires m <= 256
    ensures |SetsBits(ChosenSets(bytes), m)| + AllCosts(bytes, ChosenSets(bytes), m) == 6 * m + ChosenCosts(bytes, m)
  {
    hide SetBits, SumLen, Cost, BestSize, FirstBytes, Row, Sort;
    if m > 0 {
      ChosenCostsAre(bytes, m - 1);
      SetBitsLen(ChosenSet(bytes, m - 1));
      SetCostIsCost(bytes, m - 1, BestSize(SortedRow(bytes, m - 1), MAX_FOLLOWERS));
    }
  }

  /** What is written for a byte string, with the sets chosen for it, is 6 bits for each set and the
      computed costs, to the bit. */
  lemma CostConserved(bytes: seq<byte>)
    ensures |SetsBits(ChosenSets(bytes), 256)| + |BytesBits(ChosenSets(bytes), 0, bytes)| == 256 * 6 + ChosenCosts(bytes, 256)
  {
    hide SetsBits, BytesBits, AllCosts, ChosenCosts, ChosenSets;
    BytesCost(bytes, ChosenSets(bytes));
    ChosenCostsAre(bytes, 256);
  }

  // ---------------------------------------------------------------- no set is better

  /** The total count of the followers, of those in a set, and of the first k. */
  function Total(fs: seq<Follower>): nat {
    if fs == [] then 0 else Total(fs[..|fs| - 1]) + fs[|fs| - 1].count
  }

  function InSum(fs: seq<Follower>, set_: seq<byte>): nat {
    if fs == [] then 0
    else InSum(fs[..|fs| - 1], set_) + if fs[|fs| - 1].b in set_ then fs[|fs| - 1].count else 0
  }

  function TopSum(fs: seq<Follower>, k: nat): nat {
    Total(if |fs| <= k then fs else fs[..k])
  }

  function Members(fs: seq<Follower>, set_: seq<byte>): nat {
    if fs == [] then 0 else Members(fs[..|fs| - 1], set_) + if fs[|fs| - 1].b in set_ then 1 else 0
  }

  /** What a byte saves by being in the set. */
  function Gain(k: nat): (g: nat)
    ensures g + 1 + IdxBw(k) == 9
  {
    8 - IdxBw(k)
  }

  lemma {:induction false} SumLenByGain(fs: seq<Follower>, set_: seq<byte>)
    requires 0 < |set_| <= MAX_FOLLOWERS
    ensures SumLen(fs, set_) + Gain(|set_|) * InSum(fs, set_) == 9 * Total(fs)
  {
    hide IdxBw, Gain, ByteBits;
    if fs != [] {
      var n := |fs| - 1;
      SumLenByGain(fs[..n], set_);
      LenByGain(set_, fs[n].b);
      AddGain(Gain(|set_|), InSum(fs[..n], set_), fs[n].count, |ByteBits(set_, fs[n].b)|);
    }
  }

  lemma AddGain(g: nat, i: nat, c: nat, l: nat)
    ensures l + g == 9 ==> c * l + g * (i + c) == 9 * c + g * i
    ensures l == 9 ==> c * l == 9 * c
  {
    if l + g == 9 {
      assert g * (i + c) == g * i + g * c;
      assert c * l + c * g == c * (l + g);
    }
  }

  lemma LenByGain(set_: seq<byte>, b: byte)
    requires 0 < |set_| <= MAX_FOLLOWERS
    ensures |ByteBits(set_, b)| == if b in set_ then 9 - Gain(|set_|) else 9
  {
  }

  lemma {:induction false} CostByGain(fs: seq<Follower>, k: nat, m: nat)
    requires 0 < k && m <= |fs|
    ensures CostUpTo(fs, k, m) + Gain(k) * TopSum(fs[..m], k) == 9 * Total(fs[..m])
  {
    hide IdxBw, Gain;
    if m > 0 {
      CostByGain(fs, k, m - 1);
      assert fs[..m][..m - 1] == fs[..m - 1];
      if m <= k {
        AddGain(Gain(k), Total(fs[..m - 1]), fs[m - 1].count, BitsAt(k, m - 1));
      } else {
        assert fs[..m][..k] == if m - 1 <= k then fs[..m - 1] else fs[..m - 1][..k];
      }
    }
  }

  lemma {:induction false} InSumBelow(fs: seq<Follower>, set_: seq<byte>)
    ensures InSum(fs, set_) <= Total(fs)
  {
    if fs != [] {
      InSumBelow(fs[..|fs| - 1], set_);
    }
  }

  /** Of sorted followers, no k have more than the first k. */
  lemma {:induction false} InSumBelowTop(fs: seq<Follower>, set_: seq<byte>, k: nat)
    requires Sorted(fs) && Members(fs, set_) <= k
    ensures InSum(fs, set_) <= TopSum(fs, k)
  {
    if |fs| <= k {
      InSumBelow(fs, set_);
    } else {
      var n := |fs| - 1;
      assert TopSum(fs, k) == TopSum(fs[..n], k) by { assert fs[..k] == if n <= k then fs[..n] else fs[..n][..k]; }
      if fs[n].b in set_ {
        InSumBelowTop(fs[..n], set_, k - 1);
        var most := if n <= k then fs[..n] else fs[..n][..k];
        assert most[..k - 1] == fs[..n][..k - 1] && most[k - 1] == fs[k - 1];
        assert fs[n].count <= fs[k - 1].count;
      } else {
        InSumBelowTop(fs[..n], set_, k);
      }
    }
  }

  lemma {:induction false} OneMember(fs: seq<Follower>, set_: seq<byte>, c: byte)
    requires DistinctBytes(fs)
    ensures Members(fs, set_ + [c]) <= Members(fs, set_) + 1
    ensures (forall i :: 0 <= i < |fs| ==> fs[i].b != c) ==> Members(fs, set_ + [c]) == Members(fs, set_)
  {
    if fs != [] {
      var n := |fs| - 1;
      OneMember(fs[..n], set_, c);
      if fs[n].b == c {
        assert forall i :: 0 <= i < n ==> fs[i].b != c;
      }
    }
  }

  lemma {:induction false} FewMembers(fs: seq<Follower>, set_: seq<byte>)
    requires DistinctBytes(fs)
    ensures Members(fs, set_) <= |set_|
  {
    if set_ == [] {
      NoMembers(fs);
    } else {
      var n := |set_| - 1;
      FewMembers(fs, set_[..n]);
      OneMember(fs, set_[..n], set_[n]);
      assert set_ == set_[..n] + [set_[n]];
    }
  }

  lemma {:induction false} NoMembers(fs: seq<Follower>)
    ensures Members(fs, []) == 0
  {
    if fs != [] {
      NoMembers(fs[..|fs| - 1]);
    }
  }

  lemma GainMore(g: nat, a: nat, b: nat)
    requires a <= b
    ensures g * a <= g * b
  {
  }

  /** No set of at most 32 followers, however chosen, costs less than the one that is chosen. */
  lemma ChosenIsBest(bytes: seq<byte>, p: nat, set_: seq<byte>)
    requires |set_| <= MAX_FOLLOWERS
    ensures SetCost(bytes, p, ChosenSet(bytes, p)) <= SetCost(bytes, p, set_)
  {
    hide Sort, SumLen, CostUpTo, Row, FirstBytes, BestSize, Total, InSum, TopSum, Members, Gain, Sorted, DistinctBytes;
    var fs, k := SortedRow(bytes, p), |set_|;
    RowDistinct(bytes, p);
    SortDistinct(Row(bytes, p));
    SortSorts(Row(bytes, p));
    SetCostIsCost(bytes, p, BestSize(fs, MAX_FOLLOWERS));
    BestSizeIsLeast(fs, MAX_FOLLOWERS);
    assert Cost(fs, BestSize(fs, MAX_FOLLOWERS)) <= Cost(fs, k);
    if k == 0 {
      assert set_ == FirstBytes(fs, 0) by { FirstNone(fs); }
      SetCostIsCost(bytes, p, 0);
    } else {
      assert fs[..|fs|] == fs;
      SumLenSort(Row(bytes, p), set_);
      SumLenByGain(fs, set_);
      CostByGain(fs, k, |fs|);
      FewMembers(fs, set_);
      InSumBelowTop(fs, set_, k);
      GainMore(Gain(k), InSum(fs, set_), TopSum(fs, k));
    }
  }

  lemma FirstNone(fs: seq<Follower>)
    ensures FirstBytes(fs, 0) == []
  {
  }

  /** The sets of the first m bytes, whatever they are, cost no less than those that are chosen. */
  lemma {:induction false} SetsCompared(bytes: seq<byte>, sets: Sets, m: nat)
    requires m <= 256 && SetsOk(sets)
    ensures |SetsBits(ChosenSets(bytes), m)| + AllCosts(bytes, ChosenSets(bytes), m) <= |SetsBits(sets, m)| + AllCosts(bytes, sets, m)
  {
    hide SetBits, SumLen, Row, ChosenSet;
    if m > 0 {
      SetsCompared(bytes, sets, m - 1);
      SetBitsLen(ChosenSet(bytes, m - 1));
      SetBitsLen(sets[m - 1]);
      ChosenIsBest(bytes, m - 1, sets[m - 1]);
    }
  }

  /** With no other follower sets does a byte string take fewer bits. */
  lemma ChosenSetsAreBest(bytes: seq<byte>, sets: Sets)
    requires SetsOk(sets)
    ensures |SetsBits(ChosenSets(bytes), 256)| + |BytesBits(ChosenSets(bytes), 0, bytes)|
         <= |SetsBits(sets, 256)| + |BytesBits(sets, 0, bytes)|
  {
    hide SetsBits, BytesBits, AllCosts, ChosenSets, SetsOk;
    BytesCost(bytes, ChosenSets(bytes));
    BytesCost(bytes, sets);
    SetsCompared(bytes, sets, 256);
  }
}
