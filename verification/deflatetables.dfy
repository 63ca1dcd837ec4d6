/** The tables of the Deflate format (hwzip/generate_tables.c; sections 3.2.5 and 3.2.6 of RFC 1951). */
module DeflateTables {
  import opened Bits

  const MIN_MATCH: nat := 3
  const MAX_MATCH: nat := 258
  const MAX_DISTANCE: nat := 32768
  const LITLEN_EOB: nat := 256
  const LITLEN_MAX: nat := 285
  const LITLEN_TBL_OFFSET: nat := 257
  const DISTSYM_MAX: nat := 29

  const BASE_LEN: seq<nat> :=
    [3, 4, 5, 6, 7, 8, 9, 10, 11, 13, 15, 17, 19, 23, 27, 31, 35, 43, 51, 59, 67, 83, 99, 115, 131, 163, 195, 227, 258]

  const LEN_EBITS: seq<nat> :=
    [0, 0, 0, 0, 0, 0, 0, 0, 1, 1, 1, 1, 2, 2, 2, 2, 3, 3, 3, 3, 4, 4, 4, 4, 5, 5, 5, 5, 0]

  const BASE_DIST: seq<nat> :=
    [1, 2, 3, 4, 5, 7, 9, 13, 17, 25, 33, 49, 65, 97, 129, 193, 257, 385, 513, 769, 1025, 1537, 2049, 3073, 4097,
     6145, 8193, 12289, 16385, 24577]

  const DIST_EBITS: seq<nat> :=
    [0, 0, 0, 0, 1, 1, 2, 2, 3, 3, 4, 4, 5, 5, 6, 6, 7, 7, 8, 8, 9, 9, 10, 10, 11, 11, 12, 12, 13, 13]

  /** fixed_litlen_lengths */
  function FixedLitlenLengths(): (l: seq<nat>)
    ensures |l| == 288
  {
    seq(288, i => if i < 144 then 8 else if i < 256 then 9 else if i < 280 then 7 else 8)
  }

  /** fixed_dist_lengths */
  function FixedDistLengths(): (l: seq<nat>)
    ensures |l| == 32
  {
    seq(32, _ => 5)
  }

  // ---------------------------------------------------------------- lengths

  /** The last entry up to i of a table of base values that is not above v. */
  function FindEntry(base: seq<nat>, v: nat, i: nat): (k: nat)
    requires i < |base|
    ensures k <= i && (base[0] <= v ==> base[k] <= v) && (k < i ==> base[k + 1] > v)
  {
    if i == 0 || base[i] <= v then i else FindEntry(base, v, i - 1)
  }

  /** The code for a length, less 257. */
  function LenCode(len: nat): (k: nat)
    ensures k < 29
  {
    FindEntry(BASE_LEN, len, 28)
  }

  function DistCode(distance: nat): (k: nat)
    ensures k < 30
  {
    FindEntry(BASE_DIST, distance, 29)
  }

  /** The values from one entry to the next are those that its extra bits can express, or fewer. */
  ghost predicate Tiled(base: seq<nat>, ebits: seq<nat>, i: nat) {
    i + 1 < |base| == |ebits| && base[i] < base[i + 1] <= base[i] + Pow2(ebits[i])
  }

  lemma SmallPowers()
    ensures Pow2(0) == 1 && Pow2(1) == 2 && Pow2(2) == 4 && Pow2(3) == 8 && Pow2(4) == 16 && Pow2(5) == 32 && Pow2(6) == 64
    ensures Pow2(7) == 128 && Pow2(8) == 256 && Pow2(9) == 512 && Pow2(10) == 1024 && Pow2(11) == 2048 && Pow2(12) == 4096
    ensures Pow2(13) == 8192
  {
  }

  lemma LenTiled(i: nat)
    requires i < 28
    ensures Tiled(BASE_LEN, LEN_EBITS, i)
  {
    SmallPowers();
    hide Pow2;
  }

  lemma DistTiled(i: nat)
    requires i < 29
    ensures Tiled(BASE_DIST, DIST_EBITS, i)
  {
    SmallPowers();
    hide Pow2;
  }

  /** A length is the base of its code and a number that the extra bits of the code can hold. */
  lemma LenInRange(len: nat)
    requires MIN_MATCH <= len <= MAX_MATCH
    ensures var k := LenCode(len); BASE_LEN[k] <= len < BASE_LEN[k] + Pow2(LEN_EBITS[k])
  {
    var k := LenCode(len);
    if k < 28 {
      LenTiled(k);
    } else {
      SmallPowers();
    }
  }

  lemma DistInRange(distance: nat)
    requires 1 <= distance <= MAX_DISTANCE
    ensures var k := DistCode(distance); BASE_DIST[k] <= distance < BASE_DIST[k] + Pow2(DIST_EBITS[k])
  {
    var k := DistCode(distance);
    if k < 29 {
      DistTiled(k);
    } else {
      SmallPowers();
    }
  }

  lemma LenTop(k: nat)
    requires k < 29
    ensures MIN_MATCH <= BASE_LEN[k] && BASE_LEN[k] + Pow2(LEN_EBITS[k]) <= MAX_MATCH + 1 && LEN_EBITS[k] <= 5
  {
    SmallPowers();
    hide Pow2;
  }

  lemma DistTop(k: nat)
    requires k < 30
    ensures 1 <= BASE_DIST[k] && BASE_DIST[k] + Pow2(DIST_EBITS[k]) <= MAX_DISTANCE + 1 && DIST_EBITS[k] <= 13
  {
    SmallPowers();
    hide Pow2;
  }

  ghost predicate Increasing(base: seq<nat>) {
    forall i, j :: 0 <= i < j < |base| ==> base[i] < base[j]
  }

  lemma {:induction false} TiledIncreasing(base: seq<nat>, ebits: seq<nat>, i: nat, j: nat)
    requires i < j < |base| && forall k :: 0 <= k < |base| - 1 ==> Tiled(base, ebits, k)
    ensures base[i] < base[j]
  {
    hide Pow2;
    assert Tiled(base, ebits, j - 1);
    if i < j - 1 {
      TiledIncreasing(base, ebits, i, j - 1);
    }
  }

  lemma BaseIncreasing(base: seq<nat>, ebits: seq<nat>)
    requires forall k :: 0 <= k < |base| - 1 ==> Tiled(base, ebits, k)
    ensures Increasing(base)
  {
    hide Tiled;
    forall i, j | 0 <= i < j < |base|
      ensures base[i] < base[j]
    {
      TiledIncreasing(base, ebits, i, j);
    }
  }

  lemma BasesIncreasing()
    ensures Increasing(BASE_LEN) && |BASE_LEN| == 29 && Increasing(BASE_DIST) && |BASE_DIST| == 30
  {
    hide Tiled, Increasing;
    forall k | 0 <= k < 28
      ensures Tiled(BASE_LEN, LEN_EBITS, k)
    {
      LenTiled(k);
    }
    forall k | 0 <= k < 29
      ensures Tiled(BASE_DIST, DIST_EBITS, k)
    {
      DistTiled(k);
    }
    BaseIncreasing(BASE_LEN, LEN_EBITS);
    BaseIncreasing(BASE_DIST, DIST_EBITS);
  }

  lemma FirstEntry(base: seq<nat>)
    requires Increasing(base) && base != []
    ensures FindEntry(base, base[0], |base| - 1) == 0
  {
    EntryIs(base, base[0], |base| - 1, 0);
  }

  /** The entries grow, so the one that fits is the one that is found. */
  lemma {:induction false} EntryIs(base: seq<nat>, v: nat, i: nat, k: nat)
    requires Increasing(base) && k <= i < |base| && base[k] <= v && (k + 1 < |base| ==> base[k + 1] > v)
    ensures FindEntry(base, v, i) == k
  {
    if k < i {
      assert base[k + 1] <= base[i];
      EntryIs(base, v, i - 1, k);
    }
  }

  /** When the value grows by one, the entry stays or is the next. */
  lemma NextEntry(base: seq<nat>, v: nat, i: nat)
    requires Increasing(base) && base != [] && v > 0 && i == FindEntry(base, v - 1, |base| - 1) && base[0] <= v - 1
    ensures FindEntry(base, v, |base| - 1) == if i + 1 < |base| && v == base[i + 1] then i + 1 else i
  {
    if i + 1 < |base| && v == base[i + 1] {
      EntryIs(base, v, |base| - 1, i + 1);
    } else {
      EntryIs(base, v, |base| - 1, i);
    }
  }

  // ---------------------------------------------------------------- the generated tables

  /** len2litlen, as the loop of the generator fills it. */
  method MakeLen2Litlen() returns (t: array<nat>)
    ensures t.Length == 259
    ensures forall len :: MIN_MATCH <= len <= MAX_MATCH ==> t[len] == LITLEN_TBL_OFFSET + LenCode(len)
  {
    t := MakeByValue(BASE_LEN, LITLEN_TBL_OFFSET) by { BasesIncreasing(); assert BASE_LEN[28] == 258; }
  }

  method MakeByValue(base: seq<nat>, offset: nat) returns (t: array<nat>)
    requires |base| == 29 && Increasing(base) && base[0] == 3 && base[28] == 258
    ensures t.Length == 259
    ensures forall v :: 3 <= v <= 258 ==> t[v] == offset + FindEntry(base, v, 28)
  {
    hide FindEntry, Increasing;
    t := new nat[259](_ => 0xFFFF);
    FirstEntry(base);
    var i, len := 0, 3;
    while len <= 258
      invariant 3 <= len <= 259 && i < 29 && i == FindEntry(base, if len == 3 then 3 else len - 1, 28)
      invariant len <= 258 ==> i < 28
      invariant forall v :: 3 <= v < len ==> t[v] == offset + FindEntry(base, v, 28)
    {
      if len > 3 {
        NextEntry(base, len, i);
      }
      if len == base[i + 1] {
        i := i + 1;
      }
      t[len] := offset + i;
      len := len + 1;
    }
  }

  /** Beyond 256, codes change only after a multiple of 128. */
  lemma CodeBoundary(k: nat)
    requires k < 30 && BASE_DIST[k] > 256
    ensures BASE_DIST[k] % 128 == 1
  {
  }

  lemma SameEntry(base: seq<nat>, v: nat)
    requires Increasing(base) && base != [] && v > 256 && base[0] <= v
    requires forall k :: 0 <= k < |base| && base[k] > 256 ==> base[k] % 128 == 1
    ensures FindEntry(base, 128 * ((v - 1) / 128) + 128, |base| - 1) == FindEntry(base, v, |base| - 1)
  {
    hide FindEntry, Increasing;
    var k, n := FindEntry(base, v, |base| - 1), |base| - 1;
    if k < n {
      NextMultiple(v, base[k + 1]);
    }
    EntryIs(base, 128 * ((v - 1) / 128) + 128, n, k);
  }

  lemma SameCode(distance: nat)
    requires 256 < distance <= MAX_DISTANCE
    ensures DistCode(distance) == DistCode(128 * ((distance - 1) / 128) + 128)
  {
    hide FindEntry, Increasing;
    BasesIncreasing();
    forall k | 0 <= k < 30 && BASE_DIST[k] > 256
      ensures BASE_DIST[k] % 128 == 1
    {
      CodeBoundary(k);
    }
    SameEntry(BASE_DIST, distance);
  }

  lemma NextMultiple(d: nat, b: nat)
    requires d > 0 && b > d && b % 128 == 1
    ensures b > 128 * ((d - 1) / 128) + 128
  {
  }

  /** The code of a distance, by way of the two tables. */
  function Lookup(lo: seq<nat>, hi: seq<nat>, distance: nat): nat
    requires |lo| == |hi| == 256 && 1 <= distance <= MAX_DISTANCE
  {
    if distance <= 256 then lo[distance - 1] else hi[(distance - 1) / 128]
  }

  /** The inner loop of the generator. */
  method FindLast(base: seq<nat>, v: nat) returns (k: nat)
    requires base != [] && base[0] <= v
    ensures k < |base| && k == FindEntry(base, v, |base| - 1)
  {
    k := |base| - 1;
    while base[k] > v
      invariant k < |base| && FindEntry(base, v, k) == FindEntry(base, v, |base| - 1)
      decreases k
    {
      k := k - 1;
    }
  }

  method FindDist(distance: nat) returns (dist: nat)
    requires 1 <= distance
    ensures dist == DistCode(distance)
  {
    assert |BASE_DIST| == 30 && BASE_DIST[0] == 1;
    dist := FindLast(BASE_DIST, distance);
  }

  /** distance2dist_lo and distance2dist_hi, as the generator fills them: looking a distance up in them
      gives its code, although one entry of the second stands for 128 distances. */
  method MakeDistance2Dist() returns (lo: array<nat>, hi: array<nat>)
    ensures lo.Length == hi.Length == 256
    ensures forall d :: 1 <= d <= MAX_DISTANCE ==> Lookup(lo[..], hi[..], d) == DistCode(d)
  {
    hide DistCode;
    lo := new nat[256];
    hi := new nat[256](_ => 0xFF);
    var distance := 1;
    while distance <= 32768
      invariant 1 <= distance <= 32769
      invariant forall d :: 1 <= d < distance && d <= 256 ==> lo[d - 1] == DistCode(d)
      invariant forall d :: 256 < d < distance && d % 128 == 0 ==> hi[(d - 1) / 128] == DistCode(d)
    {
      var dist := FindDist(distance);
      if distance <= 256 {
        lo[distance - 1] := dist;
      } else {
        hi[(distance - 1) / 128] := dist;
      }
      distance := distance + 1;
    }
    forall d | 1 <= d <= MAX_DISTANCE
      ensures Lookup(lo[..], hi[..], d) == DistCode(d)
    {
      if d > 256 {
        SameCode(d);
        LastOfRange(d);
      }
    }
  }

  lemma LastOfRange(d: nat)
    requires 256 < d <= MAX_DISTANCE
    ensures var last := 128 * ((d - 1) / 128) + 128;
            256 < last <= MAX_DISTANCE && last % 128 == 0 && (last - 1) / 128 == (d - 1) / 128
  {
  }
}
