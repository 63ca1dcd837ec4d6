/** lz77_compress() and its helpers (hwzip/lz77.c), over head and prev arrays updated in place, and the
    output functions of hwzip/lz77.h. */
module Lz77Codec {
  import opened Bits
  import opened Lz77
  import Copying

  const NO_POS: nat := 0xFFFF_FFFF_FFFF_FFFF

  function ToPos(x: nat): Pos {
    if x == NO_POS then None else At(x)
  }

  // ---------------------------------------------------------------- comparing strings

  /** The first loop of cmp(): compares n bytes, the last ones first. */
  method SameBytes(src: seq<byte>, i: nat, j: nat, n: nat) returns (same: bool)
    requires i <= j && j + n <= |src|
    ensures same ==> src[i..i + n] == src[j..j + n]
    ensures !same ==> exists k :: 0 <= k < n && src[i..][k] != src[j..][k]
  {
    var l := 0;
    while l < n
      invariant l <= n
      invariant src[i + n - l..i + n] == src[j + n - l..j + n]
    {
      if src[i + n - 1 - l] != src[j + n - 1 - l] {
        assert src[i..][n - 1 - l] != src[j..][n - 1 - l];
        return false;
      }
      SameBefore(src, i + n - 1 - l, j + n - 1 - l, l);
      l := l + 1;
    }
    return true;
  }

  /** cmp(): the length of the common prefix, up to cap, if it is longer than prevLen. */
  method Cmp(src: seq<byte>, i: nat, j: nat, prevLen: nat, cap: nat) returns (l: nat)
    requires i <= j && j + cap <= |src| && prevLen < cap
    ensures var n := MatchLen(src, i, j, cap); l == if n > prevLen then n else 0
  {
    hide MatchLen;
    var same := SameBytes(src, i, j, prevLen + 1);
    if !same {
      ghost var k :| 0 <= k < prevLen + 1 && src[i..][k] != src[j..][k];
      MatchEndsBefore(src, i, j, cap, k);
      return 0;
    }
    l := prevLen + 1;
    while l < cap && src[i + l] == src[j + l]
      invariant prevLen < l <= cap
      invariant src[i..i + l] == src[j..j + l]
    {
      SameThrough(src, i, j, l);
      l := l + 1;
    }
    MatchLenIs(src, i, j, cap, l);
  }

  lemma MatchLenIs(src: seq<byte>, i: nat, j: nat, cap: nat, l: nat)
    requires i <= j && j + cap <= |src| && l <= cap && src[i..i + l] == src[j..j + l]
    requires l < cap ==> src[i + l] != src[j + l]
    ensures MatchLen(src, i, j, cap) == l
  {
    MatchLenSkip(src, i, j, cap, l);
  }

  lemma MatchEndsBefore(src: seq<byte>, i: nat, j: nat, cap: nat, k: nat)
    requires i <= j && j + cap <= |src| && k < cap && src[i + k] != src[j + k]
    ensures MatchLen(src, i, j, cap) <= k
  {
    var l := MatchLen(src, i, j, cap);
    MatchLenMeans(src, i, j, cap);
    if k < l {
      SameAt(src, i, j, l, k);
    }
  }

  lemma SameBefore(src: seq<byte>, i: nat, j: nat, l: nat)
    requires i <= j && j + 1 + l <= |src| && src[i] == src[j]
    requires src[i + 1..i + 1 + l] == src[j + 1..j + 1 + l]
    ensures src[i..i + 1 + l] == src[j..j + 1 + l]
  {
    assert src[i..i + 1 + l] == [src[i]] + src[i + 1..i + 1 + l];
    assert src[j..j + 1 + l] == [src[j]] + src[j + 1..j + 1 + l];
  }

  lemma SameThrough(src: seq<byte>, i: nat, j: nat, l: nat)
    requires i <= j && j + l < |src| && src[i + l] == src[j + l]
    requires src[i..i + l] == src[j..j + l]
    ensures src[i..i + l + 1] == src[j..j + l + 1]
  {
    assert src[i..i + l + 1] == src[i..i + l] + [src[i + l]];
    assert src[j..j + l + 1] == src[j..j + l] + [src[j + l]];
  }

  // ---------------------------------------------------------------- the hash chains

  /** The chains index the m first positions: heads are the last positions with each hash, and the
      slots of the last WINDOW_SIZE positions, which share a circular array, link each to the one
      before it with the same hash. */
  ghost predicate Indexed(head: seq<nat>, prev: seq<nat>, src: seq<byte>, m: nat) {
    && |head| == HASH_SIZE && |prev| == WINDOW_SIZE && |src| <= NO_POS
    && (forall h :: 0 <= h < HASH_SIZE ==> ToPos(head[h]) == LastBefore(src, h, m))
    && (forall j: nat :: m - WINDOW_SIZE <= j < m && j + MIN_LEN <= |src| ==>
          ToPos(prev[j % WINDOW_SIZE]) == LastBefore(src, Hash(src, j), j))
  }

  lemma IndexedNext(head: seq<nat>, prev: seq<nat>, src: seq<byte>, m: nat)
    requires Indexed(head, prev, src, m) && m + MIN_LEN <= |src|
    ensures Indexed(head[Hash(src, m) := m], prev[m % WINDOW_SIZE := head[Hash(src, m)]], src, m + 1)
  {
    hide Hash, LastBefore;
    var head' := head[Hash(src, m) := m];
    forall h | 0 <= h < HASH_SIZE
      ensures ToPos(head'[h]) == LastBefore(src, h, m + 1)
    {
      LastBeforeNext(src, h, m);
    }
    var prev' := prev[m % WINDOW_SIZE := head[Hash(src, m)]];
    forall j: nat | m + 1 - WINDOW_SIZE <= j < m + 1 && j + MIN_LEN <= |src|
      ensures ToPos(prev'[j % WINDOW_SIZE]) == LastBefore(src, Hash(src, j), j)
    {
      if j < m {
        OtherSlot(j, m);
      }
    }
  }

  lemma LastBeforeNext(src: seq<byte>, h: nat, m: nat)
    requires m + MIN_LEN <= |src|
    ensures LastBefore(src, h, m + 1) == if Hash(src, m) == h then At(m) else LastBefore(src, h, m)
  {
    hide Hash;
  }

  lemma OtherSlot(j: nat, m: nat)
    requires m - WINDOW_SIZE < j < m
    ensures j % WINDOW_SIZE != m % WINDOW_SIZE
  {
  }

  /** insert_hash() */
  method InsertHash(hash: nat, pos: nat, head: array<nat>, prev: array<nat>, ghost src: seq<byte>)
    requires head != prev && Indexed(head[..], prev[..], src, pos)
    requires pos + MIN_LEN <= |src| && hash == Hash(src, pos)
    modifies head, prev
    ensures Indexed(head[..], prev[..], src, pos + 1)
  {
    hide Indexed, Hash;
    IndexedNext(head[..], prev[..], src, pos);
    assert head.Length == HASH_SIZE && prev.Length == WINDOW_SIZE by { IndexSizes(head[..], prev[..], src, pos); }
    prev[pos % WINDOW_SIZE] := head[hash];
    head[hash] := pos;
  }

  lemma IndexSizes(head: seq<nat>, prev: seq<nat>, src: seq<byte>, m: nat)
    requires Indexed(head, prev, src, m)
    ensures |head| == HASH_SIZE && |prev| == WINDOW_SIZE && |src| <= NO_POS
  {
  }

  /** The slot of a position in the window has not been overwritten. */
  lemma ChainNext(head: seq<nat>, prev: seq<nat>, src: seq<byte>, m: nat, j: nat)
    requires Indexed(head, prev, src, m) && m - WINDOW_SIZE <= j < m && j + MIN_LEN <= |src|
    ensures |prev| == WINDOW_SIZE && ToPos(prev[j % WINDOW_SIZE]) == LastBefore(src, Hash(src, j), j)
  {
  }

  /** The positions that a walk along the links meets from i on, as far as they are within the distance. */
  ghost function Visited(head: seq<nat>, prev: seq<nat>, src: seq<byte>, pos: nat, maxDist: nat, i: nat): seq<nat>
    requires Indexed(head, prev, src, pos) && maxDist <= WINDOW_SIZE
    requires i != NO_POS ==> i < pos && i + MIN_LEN <= |src|
    decreases if i == NO_POS then 0 else 1 + i
  {
    if i == NO_POS || pos - i > maxDist then []
    else
      ChainNext(head, prev, src, pos, i);
      [i] + Visited(head, prev, src, pos, maxDist, prev[i % WINDOW_SIZE])
  }

  /** The positions below m with the hash of pos and within the distance, the most recent first. */
  ghost predicate IsChain(s: seq<nat>, src: seq<byte>, pos: nat, maxDist: nat, m: nat)
    requires m <= pos && pos + MIN_LEN <= |src|
  {
    && (forall k, l :: 0 <= k < l < |s| ==> s[l] < s[k])
    && (forall j: nat :: j in s <==> j < m && pos - j <= maxDist && Hash(src, j) == Hash(src, pos))
  }

  lemma {:induction false} ChainIs(head: seq<nat>, prev: seq<nat>, src: seq<byte>, pos: nat, p: Params, m: nat, i: nat)
    requires Indexed(head, prev, src, pos) && p.maxDist <= WINDOW_SIZE && m <= pos && pos + MIN_LEN <= |src|
    requires ToPos(i) == LastBefore(src, Hash(src, pos), m)
    ensures var s := Visited(head, prev, src, pos, p.maxDist, i);
            IsChain(s, src, pos, p.maxDist, m) && |s| == Candidates(src, p, pos, m)
    decreases m
  {
    hide Hash, Indexed, IsChain;
    if m == 0 || pos - (m - 1) > p.maxDist {
      NoChain(src, pos, p.maxDist, m);
    } else if Hash(src, m - 1) != Hash(src, pos) {
      ChainIs(head, prev, src, pos, p, m - 1, i);
      SameChain(Visited(head, prev, src, pos, p.maxDist, i), src, pos, p.maxDist, m - 1);
    } else {
      ChainNext(head, prev, src, pos, i);
      var next := prev[i % WINDOW_SIZE];
      ChainIs(head, prev, src, pos, p, i, next);
      LongerChain(Visited(head, prev, src, pos, p.maxDist, next), src, pos, p.maxDist, i);
    }
  }

  lemma NoChain(src: seq<byte>, pos: nat, maxDist: nat, m: nat)
    requires m <= pos && pos + MIN_LEN <= |src| && (m == 0 || pos - (m - 1) > maxDist)
    ensures IsChain([], src, pos, maxDist, m)
  {
  }

  lemma SameChain(s: seq<nat>, src: seq<byte>, pos: nat, maxDist: nat, m: nat)
    requires m < pos && pos + MIN_LEN <= |src| && Hash(src, m) != Hash(src, pos) && IsChain(s, src, pos, maxDist, m)
    ensures IsChain(s, src, pos, maxDist, m + 1)
  {
    hide Hash;
  }

  lemma LongerChain(s: seq<nat>, src: seq<byte>, pos: nat, maxDist: nat, m: nat)
    requires m < pos && pos + MIN_LEN <= |src| && Hash(src, m) == Hash(src, pos) && pos - m <= maxDist
    requires IsChain(s, src, pos, maxDist, m)
    ensures IsChain([m] + s, src, pos, maxDist, m + 1)
  {
    hide Hash;
    var t := [m] + s;
    forall k, l | 0 <= k < l < |t|
      ensures t[l] < t[k]
    {
      assert t[l] in s;
    }
  }

  /** Walking along the links from the head meets exactly the positions of the window with the hash of pos,
      each once and the most recent first, and never an overwritten slot. */
  lemma ChainVisits(head: seq<nat>, prev: seq<nat>, src: seq<byte>, pos: nat, p: Params)
    requires Indexed(head, prev, src, pos) && p.maxDist <= WINDOW_SIZE && pos + MIN_LEN <= |src|
    ensures |head| == HASH_SIZE && ToPos(head[Hash(src, pos)]) == LastBefore(src, Hash(src, pos), pos)
    ensures var s := Visited(head, prev, src, pos, p.maxDist, head[Hash(src, pos)]);
            IsChain(s, src, pos, p.maxDist, pos) && |s| == Candidates(src, p, pos, pos)
  {
    hide Hash, Indexed, IsChain;
    HeadIs(head, prev, src, pos, Hash(src, pos));
    ChainIs(head, prev, src, pos, p, pos, head[Hash(src, pos)]);
  }

  // ---------------------------------------------------------------- searching

  /** A candidate: its match, if it is longer than bestLen. */
  method Compare(src: seq<byte>, p: Params, pos: nat, i: nat, bestLen: nat, ghost best: Match, ghost least: nat) returns (l: nat)
    requires i < pos <= |src| && bestLen == Threshold(best, least) < LenCap(src, p, pos)
    ensures Better(src, p, pos, i, best, least) == if l != 0 then Match(i, l) else best
    ensures l != 0 ==> bestLen < l <= LenCap(src, p, pos)
  {
    var maxCmp := LenCap(src, p, pos);
    if !p.overlap {
      maxCmp := Min(maxCmp, pos - i);
      if maxCmp <= bestLen {
        return 0;
      }
    }
    l := Cmp(src, i, pos, bestLen, maxCmp);
  }

  /** find_match(): what it finds by following the chains is what the model finds; the length is 0 if
      there is no match. */
  method FindMatch(src: seq<byte>, pos: nat, hash: nat, p: Params, prevLen: nat,
                   head: array<nat>, prev: array<nat>) returns (len: nat, matchPos: nat)
    requires p.Ok() && pos + MIN_LEN <= |src| && hash == Hash(src, pos)
    requires Indexed(head[..], prev[..], src, pos)
    ensures var m := Lz77.FindMatch(src, p, pos, prevLen);
            len == m.Len() && (m.Match? ==> matchPos == m.pos && len > 0)
  {
    hide Indexed, Hash, Better;
    var bestLen, maxLen := if prevLen == 0 then MIN_LEN - 1 else prevLen, LenCap(src, p, pos);
    if bestLen >= maxLen {
      return 0, 0;
    }
    var steps := 4096;
    if bestLen >= 32 {
      steps := steps / 4;
    }
    IndexSizes(head[..], prev[..], src, pos);
    HeadIs(head[..], prev[..], src, pos, hash);
    len, matchPos := Follow(src, p, pos, hash, bestLen, steps, head[hash], prev, head[..]);
  }

  lemma HeadIs(head: seq<nat>, prev: seq<nat>, src: seq<byte>, m: nat, h: nat)
    requires Indexed(head, prev, src, m) && h < HASH_SIZE
    ensures |head| == HASH_SIZE && ToPos(head[h]) == LastBefore(src, h, m)
  {
  }

  /** The loop of find_match(). */
  method Follow(src: seq<byte>, p: Params, pos: nat, hash: nat, least: nat, budget: nat, first: nat,
                prev: array<nat>, ghost head: seq<nat>) returns (len: nat, matchPos: nat)
    requires p.Ok() && pos + MIN_LEN <= |src| && hash == Hash(src, pos) && least < LenCap(src, p, pos)
    requires Indexed(head, prev[..], src, pos) && ToPos(first) == LastBefore(src, hash, pos)
    ensures var m := Walk(src, p, pos, LastBefore(src, hash, pos), NoMatch, least, budget);
            len == m.Len() && (m.Match? ==> matchPos == m.pos && len > 0)
  {
    hide Indexed, Hash, Better, LenCap;
    var i: nat, bestLen: nat, steps: nat, found := first, least, budget, false;
    matchPos := 0;
    ghost var best, goal := NoMatch, Walk(src, p, pos, ToPos(first), NoMatch, least, budget);
    while i != NO_POS && steps != 0 && pos - i <= p.maxDist
      invariant i != NO_POS ==> i < pos && i + MIN_LEN <= |src| && Hash(src, i) == hash
      invariant bestLen == Threshold(best, least) < LenCap(src, p, pos)
      invariant found == best.Match? && (found ==> best == Match(matchPos, bestLen) && bestLen > 0)
      invariant Walk(src, p, pos, ToPos(i), best, least, steps) == goal
      decreases steps
    {
      steps := steps - 1;
      var l := Compare(src, p, pos, i, bestLen, best, least);
      if l != 0 {
        found, matchPos, bestLen := true, i, l;
        best := Match(i, l);
        if l == LenCap(src, p, pos) {
          return l, i;
        }
      }
      ChainNext(head, prev[..], src, pos, i);
      i := prev[i % WINDOW_SIZE];
    }
    len := if found then bestLen else 0;
  }

  // ---------------------------------------------------------------- compressing

  /** Indexes the positions from i up to end, which a match covers. */
  method InsertRange(src: seq<byte>, i: nat, end: nat, head: array<nat>, prev: array<nat>)
    requires head != prev && Indexed(head[..], prev[..], src, i) && i <= end && end + (MIN_LEN - 1) <= |src|
    modifies head, prev
    ensures Indexed(head[..], prev[..], src, end)
  {
    hide Indexed, Hash;
    var j := i;
    while j < end
      invariant i <= j <= end && Indexed(head[..], prev[..], src, j)
    {
      InsertHash(Hash(src, j), j, head, prev, src);
      j := j + 1;
    }
  }

  /** All calls of the callbacks with the tokens so far succeed. */
  ghost predicate Accepted(accept: seq<Token> -> bool, ts: seq<Token>) {
    forall k :: 0 < k <= |ts| ==> accept(ts[..k])
  }

  lemma AcceptedNext(accept: seq<Token> -> bool, ts: seq<Token>, t: Token)
    requires Accepted(accept, ts) && accept(ts + [t])
    ensures Accepted(accept, ts + [t])
  {
    forall k | 0 < k <= |ts + [t]|
      ensures accept((ts + [t])[..k])
    {
      assert (ts + [t])[..k] == if k <= |ts| then ts[..k] else ts + [t];
    }
  }

  /** A callback is called with one more token. */
  method Emit(accept: seq<Token> -> bool, sofar: seq<Token>, t: Token) returns (ok: bool, tokens: seq<Token>)
    requires Accepted(accept, sofar)
    ensures tokens == sofar + [t] && ok == accept(tokens) && (ok ==> Accepted(accept, tokens))
  {
    tokens := sofar + [t];
    ok := accept(tokens);
    if ok {
      AcceptedNext(accept, sofar, t);
    }
  }

  /** The calls so far, and whether to go on: a callback that fails ends the compression. */
  ghost predicate Called(accept: seq<Token> -> bool, ok: bool, tokens: seq<Token>, all: seq<Token>) {
    && tokens <= all
    && if ok then Accepted(accept, tokens)
       else tokens != [] && !accept(tokens) && Accepted(accept, tokens[..|tokens| - 1])
  }

  /** The variables of the loop of lz77_compress(). */
  datatype Loop = Loop(tokens: seq<Token>, i: nat, prevLen: nat, prevPos: nat) {
    function Prev(): Match {
      if prevLen == 0 then NoMatch else Match(prevPos, prevLen)
    }

    ghost predicate Ok(src: seq<byte>, p: Params, accept: seq<Token> -> bool) {
      && Deferred(src, p, i, Prev()) && Accepted(accept, tokens)
      && tokens + Parse(src, p, i, Prev()) == Tokens(src, p)
    }
  }

  /** The calls of an iteration have been made. */
  ghost predicate Moved(accept: seq<Token> -> bool, ok: bool, tokens: seq<Token>, src: seq<byte>, p: Params, move: Move) {
    && Called(accept, ok, tokens, Tokens(src, p))
    && (ok ==> Accepted(accept, tokens))
    && (ok ==> Deferred(src, p, move.i, move.prev) && tokens + Parse(src, p, move.i, move.prev) == Tokens(src, p))
  }

  /** Calls a callback with the token of this iteration. */
  method Call(accept: seq<Token> -> bool, sofar: seq<Token>, t: Token, ghost src: seq<byte>, ghost p: Params, ghost move: Move)
    returns (ok: bool, tokens: seq<Token>)
    requires Accepted(accept, sofar) && move.out == [t] && Deferred(src, p, move.i, move.prev)
    requires sofar + move.out + Parse(src, p, move.i, move.prev) == Tokens(src, p)
    ensures Moved(accept, ok, tokens, src, p, move)
  {
    hide Parse, Tokens, Deferred;
    ok, tokens := Emit(accept, sofar, t);
    assert tokens[..|tokens| - 1] == sofar;
  }

  lemma NoCall(accept: seq<Token> -> bool, sofar: seq<Token>, src: seq<byte>, p: Params, move: Move)
    requires Accepted(accept, sofar) && move.out == [] && Deferred(src, p, move.i, move.prev)
    requires sofar + move.out + Parse(src, p, move.i, move.prev) == Tokens(src, p)
    ensures Moved(accept, true, sofar, src, p, move)
  {
    hide Parse, Tokens, Deferred;
    assert sofar + move.out == sofar;
  }

  lemma ParseMove(src: seq<byte>, p: Params, i: nat, prev: Match, out: seq<Token>)
    requires Deferred(src, p, i, prev) && i + MIN_LEN <= |src| && out + Parse(src, p, i, prev) == Tokens(src, p)
    ensures var v := NextMove(src, p, i, prev);
            out + v.out + Parse(src, p, v.i, v.prev) == Tokens(src, p)
  {
    hide NextMove, Tokens, Deferred;
    var v := NextMove(src, p, i, prev);
    assert out + v.out + Parse(src, p, v.i, v.prev) == out + (v.out + Parse(src, p, v.i, v.prev));
  }

  lemma MoveIs(src: seq<byte>, p: Params, i: nat, prev: Match, m: Match)
    requires Deferred(src, p, i, prev) && i + MIN_LEN <= |src| && m == Lz77.FindMatch(src, p, i, prev.Len())
    ensures prev.Match? ==> prev.pos < i - 1
    ensures NextMove(src, p, i, prev)
         == if prev.Match? && prev.length >= m.Len() then Move([Ref(i - 1 - prev.pos, prev.length)], i - 1 + prev.length, NoMatch)
            else if m.NoMatch? then Move([Lit(src[i])], i + 1, NoMatch)
            else if prev.Match? then Move([Lit(src[i - 1])], i + 1, m)
            else Move([], i + 1, m)
  {
    hide Lz77.FindMatch, ValidMatch;
  }

  /** One iteration of the loop, after the search for a match. */
  method Turn(src: seq<byte>, p: Params, accept: seq<Token> -> bool, v: Loop, matchLen: nat, matchPos: nat)
    returns (ok: bool, v': Loop)
    requires v.Ok(src, p, accept) && v.i + MIN_LEN <= |src|
    requires var m := Lz77.FindMatch(src, p, v.i, v.prevLen);
             matchLen == m.Len() && (m.Match? ==> matchPos == m.pos && matchLen > 0)
    ensures Called(accept, ok, v'.tokens, Tokens(src, p))
    ensures ok ==> v'.Ok(src, p, accept) && v'.i == NextMove(src, p, v.i, v.Prev()).i
  {
    hide NextMove, Parse, Tokens, Lz77.FindMatch, Deferred, Called, Accepted, Walk, Hash, ValidMatch, InWindow, Least, LenCap;
    MoveIs(src, p, v.i, v.Prev(), Lz77.FindMatch(src, p, v.i, v.prevLen));
    ParseMove(src, p, v.i, v.Prev(), v.tokens);
    ghost var move := NextMove(src, p, v.i, v.Prev());
    var tokens, i, prevLen, prevPos := v.tokens, v.i + 1, 0, v.prevPos;
    if v.prevLen != 0 && v.prevLen >= matchLen {
      // The previous match is at least as good: output it and move past it.
      ok, tokens := Call(accept, tokens, Ref(v.i - 1 - v.prevPos, v.prevLen), src, p, move);
      i := v.i - 1 + v.prevLen;
    } else if matchLen == 0 {
      ok, tokens := Call(accept, tokens, Lit(src[v.i]), src, p, move);
    } else {
      // The match is better than any previous match, in place of which there is a literal: defer it.
      ok := true;
      if v.prevLen != 0 {
        ok, tokens := Call(accept, tokens, Lit(src[v.i - 1]), src, p, move);
      } else {
        NoCall(accept, tokens, src, p, move);
      }
      prevLen, prevPos := matchLen, matchPos;
    }
    v' := Loop(tokens, i, prevLen, prevPos);
  }

  /** Calls a callback with a token after the loop; rest are the tokens still to come. */
  method CallLast(accept: seq<Token> -> bool, sofar: seq<Token>, t: Token, ghost rest: seq<Token>, ghost all: seq<Token>)
    returns (ok: bool, tokens: seq<Token>)
    requires Accepted(accept, sofar) && sofar + ([t] + rest) == all
    ensures tokens == sofar + [t] && Called(accept, ok, tokens, all) && tokens + rest == all
  {
    ok, tokens := Emit(accept, sofar, t);
    assert tokens + rest == sofar + ([t] + rest);
    assert tokens[..|tokens| - 1] == sofar;
  }

  /** The calls after the loop. */
  method Rest(src: seq<byte>, p: Params, accept: seq<Token> -> bool, v: Loop) returns (ok: bool, tokens: seq<Token>)
    requires v.Ok(src, p, accept) && v.i + MIN_LEN > |src|
    ensures Called(accept, ok, tokens, Tokens(src, p))
    ensures ok ==> tokens == Tokens(src, p)
  {
    assert v.prevLen != 0 ==> v.prevPos < v.i - 1 && v.i - 1 + v.prevLen <= |src|;
    hide Tokens, ValidMatch, InWindow, Called, Accepted, Lits;
    ghost var all := Tokens(src, p);
    var i := v.i;
    ok, tokens := true, v.tokens;
    if v.prevLen != 0 {
      var dist := i - 1 - v.prevPos;
      ok, tokens := CallLast(accept, v.tokens, Ref(dist, v.prevLen), Lits(src[i - 1 + v.prevLen..]), all);
      if !ok {
        return;
      }
      i := i - 1 + v.prevLen;
    }
    ok, tokens := Literals(src, accept, tokens, i, all);
  }

  method Literals(src: seq<byte>, accept: seq<Token> -> bool, sofar: seq<Token>, from: nat, ghost all: seq<Token>)
    returns (ok: bool, tokens: seq<Token>)
    requires from <= |src| && Accepted(accept, sofar) && sofar + Lits(src[from..]) == all
    ensures Called(accept, ok, tokens, all)
    ensures ok ==> tokens == all
  {
    hide Accepted;
    var i := from;
    ok, tokens := true, sofar;
    while i < |src|
      invariant from <= i <= |src| && Accepted(accept, tokens) && tokens + Lits(src[i..]) == all
    {
      assert Lits(src[i..]) == [Lit(src[i])] + Lits(src[i + 1..]);
      ok, tokens := CallLast(accept, tokens, Lit(src[i]), Lits(src[i + 1..]), all);
      if !ok {
        return;
      }
      i := i + 1;
    }
    assert Lits(src[i..]) == [];
    return true, tokens;
  }

  /** Nothing has been indexed or output. */
  lemma LoopStart(src: seq<byte>, p: Params, accept: seq<Token> -> bool, head: seq<nat>, prev: seq<nat>)
    requires |src| <= NO_POS && |head| == HASH_SIZE && |prev| == WINDOW_SIZE && forall h :: 0 <= h < HASH_SIZE ==> head[h] == NO_POS
    ensures Indexed(head, prev, src, 0) && Loop([], 0, 0, NO_POS).Ok(src, p, accept)
  {
    hide Parse, Hash;
    assert [] + Parse(src, p, 0, NoMatch) == Parse(src, p, 0, NoMatch);
  }

  /** lz77_compress().  The callbacks are given as a predicate on the calls so far, which says whether
      the last one succeeded.  The calls are those of the model, up to the first that fails. */
  method Lz77Compress(src: seq<byte>, p: Params, accept: seq<Token> -> bool) returns (ok: bool, tokens: seq<Token>)
    requires p.Ok() && |src| <= NO_POS
    ensures Called(accept, ok, tokens, Tokens(src, p))
    ensures ok ==> tokens == Tokens(src, p)
  {
    hide Indexed, Hash, Parse, Tokens, Called, Accepted, Loop.Ok;
    var head := new nat[HASH_SIZE](_ => NO_POS);
    var prev := new nat[WINDOW_SIZE];
    var v := Loop([], 0, 0, NO_POS);
    LoopStart(src, p, accept, head[..], prev[..]);
    while v.i + MIN_LEN - 1 < |src|
      invariant v.Ok(src, p, accept)
      invariant v.i + MIN_LEN <= |src| ==> Indexed(head[..], prev[..], src, v.i)
      decreases |src| - v.i
    {
      var i, h := v.i, Hash(src, v.i);
      var matchLen, matchPos := FindMatch(src, i, h, p, v.prevLen, head, prev);
      InsertHash(h, i, head, prev, src);
      ok, v := Turn(src, p, accept, v, matchLen, matchPos);
      if !ok {
        return false, v.tokens;
      }
      InsertRange(src, i + 1, Min(v.i, |src| - (MIN_LEN - 1)), head, prev);
    }
    ok, tokens := Rest(src, p, accept, v);
  }

  /** Callbacks that never fail are called with everything. */
  lemma AlwaysAccepted(ok: bool, tokens: seq<Token>, all: seq<Token>)
    requires Called(_ => true, ok, tokens, all)
    ensures ok
  {
  }

  // ---------------------------------------------------------------- output

  /** lz77_output_lit() */
  method OutputLit(dst: array<byte>, dstPos: nat, lit: byte)
    requires dstPos < dst.Length
    modifies dst
    ensures dst[..dstPos + 1] == Apply(old(dst[..dstPos]), Lit(lit))
  {
    dst[dstPos] := lit;
    assert dst[..dstPos + 1] == dst[..dstPos] + [lit];
  }

  /** lz77_output_backref(): byte by byte, so that source and destination may overlap. */
  method OutputBackref(dst: array<byte>, dstPos: nat, dist: nat, len: nat)
    requires 1 <= dist <= dstPos && dstPos + len <= dst.Length
    modifies dst
    ensures dst[..dstPos + len] == Apply(old(dst[..dstPos]), Ref(dist, len))
    ensures dst[dstPos + len..] == old(dst[dstPos + len..])
  {
    hide CopyBack;
    ghost var out := dst[..dstPos];
    CopyBackNone(out, dist);
    var i := 0;
    while i < len
      invariant i <= len
      invariant dst[..dstPos + i] == CopyBack(out, dist, i)
      invariant dst[dstPos + len..] == old(dst[dstPos + len..])
    {
      CopyBackSnoc(out, dist, i);
      dst[dstPos + i] := dst[dstPos + i - dist];
      assert dst[..dstPos + i + 1] == dst[..dstPos + i] + [dst[dstPos + i]];
      i := i + 1;
    }
  }

  lemma CopyBackNone(out: seq<byte>, dist: nat)
    ensures CopyBack(out, dist, 0) == out
  {
  }

  /** lz77_output_backref64(): eight bytes at a time unless the reference overlaps what it produces.
      What it may write beyond len bytes is within the next multiple of 8. */
  method OutputBackref64(dst: array<byte>, dstPos: nat, dist: nat, len: nat)
    requires 0 < len && 1 <= dist <= dstPos && dstPos + RoundUp8(len) <= dst.Length
    modifies dst
    ensures dst[..dstPos + len] == Apply(old(dst[..dstPos]), Ref(dist, len))
  {
    hide CopyBack;
    if len > dist {
      OutputBackref(dst, dstPos, dist, len);
      return;
    }
    ghost var out := dst[..dstPos];
    CopyBackPlain(out, dist, len);
    assert out[dstPos - dist..dstPos - dist + len] == dst[dstPos - dist..dstPos - dist + len];
    Copying.SloppyCopy(dst, dstPos - dist, dstPos, len);
    assert dst[..dstPos + len] == dst[..dstPos] + dst[dstPos..dstPos + len];
  }
}
