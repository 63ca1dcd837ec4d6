/** Encoding the two codes of a dynamic block (hwzip/deflate.c, lines 469-653). */
module EncodeLengths {
  import opened Bits
  import opened Reversal
  import opened Huffman
  import opened HuffmanEncoder
  import opened CodeLengths

  // ---------------------------------------------------------------- run-length coding

  /** How many of the first lengths are v, up to a maximum. */
  function RunLen(lens: seq<nat>, v: nat, max: nat): (n: nat)
    ensures n <= |lens| && n <= max
    decreases max
  {
    if max == 0 || lens == [] || lens[0] != v then 0 else 1 + RunLen(lens[1..], v, max - 1)
  }

  /** The run-length code of lengths: runs of zeros, and of a length that has just occurred, are as long as they
      may be. */
  function ItemsFor(lens: seq<nat>): (items: seq<Item>)
    ensures |items| <= |lens|
    decreases |lens|
  {
    if lens == [] then []
    else if lens[0] == 0 then
      var n := RunLen(lens, 0, 138);
      if n < 3 then [Item(0, 0)] + ItemsFor(lens[1..])
      else [Item(if n <= 10 then CODELEN_ZEROS else CODELEN_ZEROS2, n)] + ItemsFor(lens[n..])
    else
      var n := RunLen(lens[1..], lens[0], 6);
      if n < 3 then [Item(lens[0], 0)] + ItemsFor(lens[1..])
      else [Item(lens[0], 0), Item(CODELEN_COPY, n)] + ItemsFor(lens[1 + n..])
  }

  lemma {:induction false} RunLenIs(lens: seq<nat>, v: nat, max: nat, n: nat)
    requires n <= |lens| && n <= max && lens[..n] == Repeat(v, n) && (n < |lens| && n < max ==> lens[n] != v)
    ensures RunLen(lens, v, max) == n
    decreases n
  {
    if n > 0 {
      assert lens[0] == lens[..n][0] == v;
      assert lens[1..][..n - 1] == lens[..n][1..] == Repeat(v, n - 1);
      RunLenIs(lens[1..], v, max - 1, n - 1);
    }
  }

  /** Scans past the end of a run, up to a maximum. */
  method ScanRun(lens: seq<nat>, i: nat, v: nat, max: nat) returns (j: nat)
    requires i <= |lens|
    ensures i <= j <= |lens| && j <= i + max && lens[i..j] == Repeat(v, j - i)
    ensures j - i == RunLen(lens[i..], v, max)
  {
    hide RunLen;
    j := i;
    while j < |lens| && j < i + max && lens[j] == v
      invariant i <= j <= |lens| && j <= i + max && lens[i..j] == Repeat(v, j - i)
    {
      assert lens[i..j + 1] == lens[i..j] + [lens[j]];
      j := j + 1;
    }
    assert lens[i..][..j - i] == lens[i..j];
    RunLenIs(lens[i..], v, max, j - i);
  }

  /** The items so far stand for the first i lengths. */
  ghost predicate Encoded(lens: seq<nat>, items: seq<Item>, i: nat) {
    i <= |lens| && ItemsOk([], items) && ExpandItems([], items) == lens[..i]
  }

  lemma EncodedNext(lens: seq<nat>, items: seq<Item>, i: nat, t: Item, j: nat)
    requires Encoded(lens, items, i) && i <= j <= |lens| && ItemOk(lens[..i], t) && Extended(lens[..i], t) == lens[..j]
    ensures Encoded(lens, items + [t], j)
  {
    hide ItemOk, Extended;
    ItemsSnoc([], items, t);
  }

  lemma OneLength(lens: seq<nat>, items: seq<Item>, i: nat)
    requires Encoded(lens, items, i) && i < |lens| && lens[i] <= CODELEN_MAX_LIT
    ensures Encoded(lens, items + [Item(lens[i], 0)], i + 1)
  {
    assert lens[..i] + [lens[i]] == lens[..i + 1];
    EncodedNext(lens, items, i, Item(lens[i], 0), i + 1);
  }

  lemma ManyLengths(lens: seq<nat>, items: seq<Item>, i: nat, t: Item, j: nat)
    requires Encoded(lens, items, i) && i <= j <= |lens| && t.count == j - i && CODELEN_MAX_LIT < t.sym < MAX_CODELEN_LENS
    requires MinCount(t.sym) <= t.count <= MaxCount(t.sym) && (t.sym == CODELEN_COPY ==> i > 0)
    requires lens[i..j] == Repeat(if t.sym == CODELEN_COPY then lens[i - 1] else 0, j - i)
    ensures Encoded(lens, items + [t], j)
  {
    assert lens[..i] + lens[i..j] == lens[..j];
    EncodedNext(lens, items, i, t, j);
  }

  lemma ItemsStep(lens: seq<nat>, i: nat)
    requires i < |lens|
    ensures var n := RunLen(lens[i..], 0, 138);
            && (lens[i] == 0 && n < 3 ==> ItemsFor(lens[i..]) == [Item(0, 0)] + ItemsFor(lens[i + 1..]))
            && (lens[i] == 0 && n >= 3 ==>
                  ItemsFor(lens[i..]) == [Item(if n <= 10 then CODELEN_ZEROS else CODELEN_ZEROS2, n)] + ItemsFor(lens[i + n..]))
    ensures var n := RunLen(lens[i + 1..], lens[i], 6);
            && (lens[i] != 0 && n < 3 ==> ItemsFor(lens[i..]) == [Item(lens[i], 0)] + ItemsFor(lens[i + 1..]))
            && (lens[i] != 0 && n >= 3 ==>
                  ItemsFor(lens[i..]) == [Item(lens[i], 0), Item(CODELEN_COPY, n)] + ItemsFor(lens[i + 1 + n..]))
  {
    hide RunLen;
    var l := lens[i..];
    assert l[1..] == lens[i + 1..];
    var n, m := RunLen(l, 0, 138), RunLen(l[1..], l[0], 6);
    assert l[n..] == lens[i + n..] && l[1 + m..] == lens[i + 1 + m..];
  }

  /** What is still to be encoded. */
  ghost predicate ItemsLeft(lens: seq<nat>, items: seq<Item>, i: nat) {
    i <= |lens| && items + ItemsFor(lens[i..]) == ItemsFor(lens)
  }

  lemma LeftNext(lens: seq<nat>, items: seq<Item>, i: nat, more: seq<Item>, j: nat)
    requires ItemsLeft(lens, items, i) && i <= j <= |lens| && ItemsFor(lens[i..]) == more + ItemsFor(lens[j..])
    ensures ItemsLeft(lens, items + more, j)
  {
    hide ItemsFor;
    assert items + more + ItemsFor(lens[j..]) == items + (more + ItemsFor(lens[j..]));
  }

  /** encode_lens(): the items are the run-length code of the lengths, and stand for them. */
  method EncodeLens(lens: seq<nat>) returns (items: seq<Item>)
    requires AtMost15(lens)
    ensures items == ItemsFor(lens) && ItemsOk([], items) && ExpandItems([], items) == lens
  {
    hide ItemsOk, ExpandItems, Encoded, AtMost15, ItemsFor, RunLen, ItemsLeft;
    items := [];
    Nothing(lens);
    var i := 0;
    while i < |lens|
      invariant i <= |lens| && Encoded(lens, items, i) && ItemsLeft(lens, items, i)
    {
      assert lens[i] <= CODELEN_MAX_LIT by { Small(lens, i); }
      ItemsStep(lens, i);
      if lens[i] == 0 {
        var j := ScanRun(lens, i, 0, 138);
        var count := j - i;
        if count < 3 {
          OneLength(lens, items, i);
          LeftNext(lens, items, i, [Item(0, 0)], i + 1);
          items := items + [Item(0, 0)];
          i := i + 1;
          continue;
        }
        var sym := if count <= 10 then CODELEN_ZEROS else CODELEN_ZEROS2;
        ManyLengths(lens, items, i, Item(sym, count), j);
        LeftNext(lens, items, i, [Item(sym, count)], j);
        items := items + [Item(sym, count)];
        i := j;
        continue;
      }
      ghost var before, from := items, i;
      OneLength(lens, items, i);
      items := items + [Item(lens[i], 0)];
      i := i + 1;
      var j := ScanRun(lens, i, lens[i - 1], 6);
      var count := j - i;
      if count >= 3 {
        ManyLengths(lens, items, i, Item(CODELEN_COPY, count), j);
        LeftNext(lens, before, from, [Item(lens[from], 0), Item(CODELEN_COPY, count)], j);
        items := items + [Item(CODELEN_COPY, count)];
        assert items == before + [Item(lens[from], 0), Item(CODELEN_COPY, count)];
        i := j;
      } else {
        LeftNext(lens, before, from, [Item(lens[from], 0)], i);
      }
    }
    Done(lens, items);
  }

  lemma Small(lens: seq<nat>, i: nat)
    requires AtMost15(lens) && i < |lens|
    ensures lens[i] <= CODELEN_MAX_LIT
  {
  }

  lemma Nothing(lens: seq<nat>)
    ensures Encoded(lens, [], 0) && ItemsLeft(lens, [], 0)
  {
    assert lens[0..] == lens;
  }

  lemma Done(lens: seq<nat>, items: seq<Item>)
    requires Encoded(lens, items, |lens|) && ItemsLeft(lens, items, |lens|)
    ensures items == ItemsFor(lens) && ItemsOk([], items) && ExpandItems([], items) == lens
  {
    assert lens[..|lens|] == lens && lens[|lens|..] == [];
  }

  /** Without an item for a length that is not zero, all lengths are zero. */
  lemma {:induction false} OnlyZeros(lens: seq<nat>, items: seq<Item>)
    requires ItemsOk(lens, items) && (forall k :: 0 <= k < |lens| ==> lens[k] == 0)
    requires forall t :: t in items ==> t.sym == 0 || t.sym > CODELEN_MAX_LIT
    ensures forall k :: 0 <= k < |ExpandItems(lens, items)| ==> ExpandItems(lens, items)[k] == 0
    decreases |items|
  {
    if items != [] {
      assert items[0] in items;
      OnlyZeros(Extended(lens, items[0]), items[1..]);
    }
  }

  // ---------------------------------------------------------------- trailing zeros

  ghost predicate ZeroFrom(lens: seq<nat>, n: nat) {
    n <= |lens| && forall k :: n <= k < |lens| ==> lens[k] == 0
  }

  lemma {:induction false} TrimmedCount(lens: seq<nat>, n: nat, l: nat)
    requires ZeroFrom(lens, n) && l > 0
    ensures Count(lens, l) == Count(lens[..n], l)
  {
    if n < |lens| {
      TrimmedCount(lens[..|lens| - 1], n, l);
      assert lens[..|lens| - 1][..n] == lens[..n];
    } else {
      assert lens[..n] == lens;
    }
  }

  lemma {:induction false} TrimmedUsed(lens: seq<nat>, n: nat, l: nat)
    requires ZeroFrom(lens, n)
    ensures Used(lens, l) == Used(lens[..n], l)
  {
    if l > 0 {
      TrimmedUsed(lens, n, l - 1);
      TrimmedCount(lens, n, l);
    }
  }

  /** Dropping trailing zeros does not change the code. */
  lemma TrimmedCode(lens: seq<nat>, n: nat, s: nat)
    requires ZeroFrom(lens, n) && s < n && lens[s] > 0
    ensures Codeword(lens[..n], s) == Codeword(lens, s)
  {
    hide Used, Count, MsbBits;
    TrimmedUsed(lens, n, lens[s] - 1);
    assert lens[..n][..s] == lens[..s];
  }

  /** encode_dist_litlen_lens() */
  method EncodeDistLitlenLens(litlen: seq<nat>, dist: seq<nat>) returns (items: seq<Item>, numLitlen: nat, numDist: nat)
    requires |litlen| == 286 && litlen[256] != 0 && |dist| == 30 && AtMost15(litlen) && AtMost15(dist)
    ensures MIN_LITLEN_LENS <= numLitlen <= 286 && ZeroFrom(litlen, numLitlen) && litlen[numLitlen - 1] != 0
    ensures MIN_DIST_LENS <= numDist <= 30 && ZeroFrom(dist, numDist) && (dist[numDist - 1] != 0 || numDist == MIN_DIST_LENS)
    ensures items == ItemsFor(litlen[..numLitlen] + dist[..numDist])
    ensures ItemsOk([], items) && ExpandItems([], items) == litlen[..numLitlen] + dist[..numDist]
  {
    hide ItemsOk, ExpandItems, ItemsFor;
    numLitlen, numDist := 286, 30;
    while litlen[numLitlen - 1] == 0
      invariant MIN_LITLEN_LENS <= numLitlen <= 286 && ZeroFrom(litlen, numLitlen)
      decreases numLitlen
    {
      numLitlen := numLitlen - 1;
    }
    while dist[numDist - 1] == 0 && numDist > 1
      invariant MIN_DIST_LENS <= numDist <= 30 && ZeroFrom(dist, numDist)
      decreases numDist
    {
      numDist := numDist - 1;
    }
    items := EncodeLens(litlen[..numLitlen] + dist[..numDist]);
  }

  ghost predicate ZeroPlaces(codelens: seq<nat>, n: nat) {
    |codelens| == MAX_CODELEN_LENS && forall s :: 0 <= s < MAX_CODELEN_LENS && Place(s) >= n ==> codelens[s] == 0
  }

  lemma ZeroPlacesNext(codelens: seq<nat>, n: nat, s: nat)
    requires 0 < n <= MAX_CODELEN_LENS && ZeroPlaces(codelens, n) && s < MAX_CODELEN_LENS && codelens[s] > 0
    ensures ORDER[n - 1] < MAX_CODELEN_LENS && Place(s) < n
    ensures codelens[ORDER[n - 1]] == 0 ==> ZeroPlaces(codelens, n - 1) && Place(s) < n - 1
  {
    PlaceInverse(n - 1);
    hide Place;
    if codelens[ORDER[n - 1]] == 0 {
      forall x | 0 <= x < MAX_CODELEN_LENS && Place(x) >= n - 1
        ensures codelens[x] == 0
      {
        SymbolPlace(x);
      }
    }
  }

  /** count_codelen_lens() */
  method CountCodelenLens(codelens: seq<nat>) returns (n: nat)
    requires |codelens| == MAX_CODELEN_LENS && forall s :: 0 <= s < |codelens| ==> codelens[s] < 8
    requires exists s :: 1 <= s <= CODELEN_MAX_LIT && codelens[s] > 0
    ensures Trimmed(codelens, n) && ORDER[n - 1] < MAX_CODELEN_LENS && codelens[ORDER[n - 1]] != 0
  {
    ghost var s: nat :| 1 <= s <= CODELEN_MAX_LIT && codelens[s] > 0;
    assert Place(s) >= 4;
    hide Place;
    n := MAX_CODELEN_LENS;
    ZeroPlacesNext(codelens, n, s);
    while codelens[ORDER[n - 1]] == 0
      invariant 0 < n <= MAX_CODELEN_LENS && ORDER[n - 1] < MAX_CODELEN_LENS && ZeroPlaces(codelens, n) && Place(s) < n
      decreases n
    {
      ZeroPlacesNext(codelens, n, s);
      n := n - 1;
      ZeroPlacesNext(codelens, n, s);
    }
  }

  // ---------------------------------------------------------------- two distance codewords at least

  ghost predicate TwoUsed(lens: seq<nat>) {
    exists i, j :: 0 <= i < j < |lens| && lens[i] > 0 && lens[j] > 0
  }

  /** Codewords for two symbols only, both of one bit. */
  ghost predicate JustTwo(lens: seq<nat>, i: nat, j: nat) {
    i < j < |lens| && forall k :: 0 <= k < |lens| ==> lens[k] == if k == i || k == j then 1 else 0
  }

  lemma {:induction false} CountTwo(lens: seq<nat>, i: nat, j: nat, n: nat, l: nat)
    requires JustTwo(lens, i, j) && n <= |lens| && l > 0
    ensures Count(lens[..n], l) == if l > 1 then 0 else (if i < n then 1 else 0) + (if j < n then 1 else 0)
  {
    if n > 0 {
      CountTwo(lens, i, j, n - 1, l);
      CountNext(lens, n - 1, l);
    }
  }

  lemma {:induction false} UsedTwo(lens: seq<nat>, i: nat, j: nat, l: nat)
    requires JustTwo(lens, i, j) && l > 0
    ensures Used(lens, l) == Pow2(l)
  {
    CountTwo(lens, i, j, |lens|, l);
    assert lens[..|lens|] == lens;
    if l == 1 {
      assert Used(lens, 0) == 0;
    } else {
      UsedTwo(lens, i, j, l - 1);
    }
  }

  lemma CodesOfTwo(lens: seq<nat>, i: nat, j: nat)
    requires JustTwo(lens, i, j)
    ensures Fits(lens)
    ensures ToBits(0, 1) == Codeword(lens, i) && ToBits(1, 1) == Codeword(lens, j) && Pow2(1) == 2
  {
    UsedTwo(lens, i, j, MAX_BITS);
    CountTwo(lens, i, j, i, 1);
    CountTwo(lens, i, j, j, 1);
    assert Used(lens, 0) == 0 && Code(lens, i) == 0 && Code(lens, j) == 1;
    assert MsbBits(0, 1) == [false] && MsbBits(1, 1) == [true];
  }

  /** What tweak_dist_encoder() makes of the lengths: if fewer than two are used, the first two symbols, or the
      first and the one that is used, get codewords of one bit. */
  ghost function Tweak(lens: seq<nat>): (now: seq<nat>)
    requires |lens| >= 2
    ensures |now| == |lens|
  {
    if TwoUsed(lens) then lens
    else if lens[0] > 0 || forall k :: 0 <= k < |lens| ==> lens[k] == 0 then lens[0 := 1][1 := 1]
    else lens[0 := 1]
  }

  /** Every symbol that had a codeword has one, at least two have, and otherwise nothing changes. */
  ghost predicate Tweaked(was: seq<nat>, now: seq<nat>) {
    && |was| >= 2 && now == Tweak(was) && TwoUsed(now)
    && (forall k :: 0 <= k < |was| && was[k] > 0 ==> now[k] > 0)
    && (!TwoUsed(was) ==> exists i, j :: JustTwo(now, i, j))
  }

  /** tweak_dist_encoder(): the codewords are canonical for the new lengths. */
  method TweakDistEncoder(e: Encoder, ghost lens: seq<nat>) returns (ghost now: seq<nat>)
    requires e.For(lens) && |lens| == 30 && (!TwoUsed(lens) ==> forall k :: 0 <= k < 30 ==> lens[k] <= 1)
    modifies e.codewords, e.lengths
    ensures e.For(now) && Tweaked(lens, now)
  {
    hide CodewordsOk, Fits, Codeword;
    LengthsAre(e, lens);
    var n, nonzeroIdx := 0, 0;
    var i := 0;
    while i <= 29
      invariant i <= 30 && n <= 1 && e.For(lens) && forall k :: 0 <= k < 30 ==> e.lengths[k] == lens[k]
      invariant n == 0 ==> forall k :: 0 <= k < i ==> lens[k] == 0
      invariant n == 1 ==> nonzeroIdx < i && forall k :: 0 <= k < i ==> (lens[k] != 0 <==> k == nonzeroIdx)
    {
      if e.lengths[i] != 0 {
        n := n + 1;
        if n == 2 {
          assert TwoUsed(lens);
          return lens;
        }
        nonzeroIdx := i;
      }
      i := i + 1;
    }
    assert !TwoUsed(lens);
    if n == 0 {
      now := lens[0 := 1][1 := 1];
      e.lengths[0] := 1;
      e.lengths[1] := 1;
      e.codewords[0] := 0;
      e.codewords[1] := 1;
      TwoCodewords(e, now, 0, 1);
    } else if nonzeroIdx == 0 {
      now := lens[1 := 1];
      FirstCodeword(e, lens, 0);
      e.lengths[1] := 1;
      e.codewords[1] := 1;
      TwoCodewords(e, now, 0, 1);
    } else {
      now := lens[0 := 1];
      FirstCodeword(e, lens, nonzeroIdx);
      e.lengths[0] := 1;
      e.codewords[0] := 0;
      e.codewords[nonzeroIdx] := 1;
      TwoCodewords(e, now, 0, nonzeroIdx);
    }
  }

  lemma LengthsAre(e: Encoder, lens: seq<nat>)
    requires e.For(lens)
    ensures e.Shape() && |lens| <= MAX_SYMBOLS && forall k :: 0 <= k < |lens| ==> e.lengths[k] == lens[k]
  {
    forall k | 0 <= k < |lens|
      ensures e.lengths[k] == lens[k]
    {
      assert e.lengths[..|lens|][k] == lens[k];
    }
  }

  /** The only codeword of one bit is 0, as the program asserts. */
  lemma FirstCodeword(e: Encoder, lens: seq<nat>, i: nat)
    requires e.For(lens) && i < |lens| && forall k :: 0 <= k < |lens| ==> lens[k] == if k == i then 1 else 0
    ensures e.codewords[i] == 0
  {
    hide Codeword, Fits;
    OnlyCodeword(lens, i);
    var cw := e.codewords[..][i];
    assert cw < Pow2(1) && ToBits(cw, 1) == Codeword(lens, i);
    OneBit(cw);
  }

  lemma OnlyCodeword(lens: seq<nat>, i: nat)
    requires i < |lens| && forall k :: 0 <= k < |lens| ==> lens[k] == if k == i then 1 else 0
    ensures Codeword(lens, i) == [false]
  {
    hide Count;
    CountNone(lens[..i], 1);
    assert Used(lens, 0) == 0;
    assert MsbBits(0, 1) == [false];
  }

  lemma OneBit(v: nat)
    requires v < Pow2(1)
    ensures ToBits(v, 1) == [v == 1] && v < 2
  {
    assert Pow2(1) == 2;
    assert ToBits(v / 2, 0) == [];
  }

  lemma TwoCodewords(e: Encoder, lens: seq<nat>, i: nat, j: nat)
    requires e.Shape() && |lens| <= MAX_SYMBOLS && JustTwo(lens, i, j)
    requires forall k :: 0 <= k < |lens| ==> e.lengths[k] == lens[k]
    requires e.codewords[i] == 0 && e.codewords[j] == 1
    ensures e.For(lens) && TwoUsed(lens)
  {
    hide Codeword, Fits;
    CodesOfTwo(lens, i, j);
    assert lens[i] > 0 && lens[j] > 0;
    assert e.lengths[..|lens|] == lens;
  }
}
