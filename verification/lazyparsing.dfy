/** What lazy parsing (hwzip/lz77.c) chooses: at which positions its tokens stand, which match is found at
    each, and when a match gives way to a literal because the next position has a longer one. */
module LazyParsing {
  import opened Bits
  import opened Lz77

  /** What is found at i, if it is longer than the match before; near the end nothing is searched for. */
  function Found(src: seq<byte>, p: Params, i: nat, prevLen: nat): Match {
    if i + 4 <= |src| then FindMatch(src, p, i, prevLen) else NoMatch
  }

  /** How much of the source a token stands for. */
  function Width(t: Token): nat {
    if t.Lit? then 1 else t.len
  }

  /** The length of the match that the token before a position has given up. */
  function GivenUp(ts: seq<Token>, ms: seq<Match>, k: nat): nat
    requires k <= |ts| == |ms|
  {
    if k > 0 && ts[k - 1].Lit? then ms[k - 1].Len() else 0
  }

  /** The token at i, where m has been found: the next byte is a literal if there is no match, or if there
      is a longer one at the next position; else the match is the token. */
  ghost predicate Chosen(src: seq<byte>, p: Params, i: nat, m: Match, t: Token) {
    && i < |src|
    && (t.Lit? ==> t.value == src[i] && (m.NoMatch? || Found(src, p, i + 1, m.length).Match?))
    && (t.Ref? ==> t.dist <= i && m == Match(i - t.dist, t.len) && Found(src, p, i + 1, t.len).NoMatch?)
  }

  /** The tokens ts stand at the positions at, where the matches ms have been found. */
  ghost predicate Choices(src: seq<byte>, p: Params, ts: seq<Token>, at: seq<nat>, ms: seq<Match>, first: nat) {
    && |ms| == |ts| && |at| == |ts| + 1
    && (forall k :: 0 <= k < |ts| ==> at[k + 1] == at[k] + Width(ts[k]))
    && (forall k :: 0 <= k < |ts| ==> ms[k] == Found(src, p, at[k], if k == 0 then first else GivenUp(ts, ms, k)))
    && (forall k :: 0 <= k < |ts| ==> Chosen(src, p, at[k], ms[k], ts[k]))
  }

  lemma Another(src: seq<byte>, p: Params, i: nat, first: nat, t: Token, ts: seq<Token>, at: seq<nat>, ms: seq<Match>)
    requires Chosen(src, p, i, Found(src, p, i, first), t)
    requires Choices(src, p, ts, at, ms, if t.Lit? then Found(src, p, i, first).Len() else 0) && at[0] == i + Width(t)
    ensures Choices(src, p, [t] + ts, [i] + at, [Found(src, p, i, first)] + ms, first)
  {
    hide Found, Chosen;
    var ts', at', ms' := [t] + ts, [i] + at, [Found(src, p, i, first)] + ms;
    forall k | 0 <= k < |ts'|
      ensures at'[k + 1] == at'[k] + Width(ts'[k])
      ensures ms'[k] == Found(src, p, at'[k], if k == 0 then first else GivenUp(ts', ms', k))
      ensures Chosen(src, p, at'[k], ms'[k], ts'[k])
    {
      if k > 1 {
        assert GivenUp(ts', ms', k) == GivenUp(ts, ms, k - 1);
      }
    }
  }

  /** Literals to the end of the source, where nothing is searched for. */
  lemma {:induction false} TailChoices(src: seq<byte>, p: Params, i: nat) returns (at: seq<nat>, ms: seq<Match>)
    requires i <= |src| < i + 4
    ensures Choices(src, p, Lits(src[i..]), at, ms, 0) && |at| > 0 && at[0] == i && at[|at| - 1] == |src|
    decreases |src| - i
  {
    if i == |src| {
      at, ms := [i], [];
    } else {
      at, ms := TailChoices(src, p, i + 1);
      assert Lits(src[i..]) == [Lit(src[i])] + Lits(src[i + 1..]);
      Another(src, p, i, 0, Lit(src[i]), Lits(src[i + 1..]), at, ms);
      at, ms := [i] + at, [NoMatch] + ms;
    }
  }

  /** From any state of the parser on; `first` is the length of the match before the deferred one. */
  lemma {:induction false} ParseChoices(src: seq<byte>, p: Params, i: nat, prev: Match, first: nat)
    returns (at: seq<nat>, ms: seq<Match>)
    requires Deferred(src, p, i, prev)
    requires prev.Match? ==> prev == Found(src, p, i - 1, first)
    requires prev.NoMatch? ==> first == 0
    ensures Choices(src, p, Parse(src, p, i, prev), at, ms, first) && |at| > 0 && at[0] == Done(i, prev) && at[|at| - 1] == |src|
    decreases |src| - i, 1
  {
    hide Choices, FindMatch, ValidMatch, InWindow, Lits;
    if i + MIN_LEN > |src| {
      if prev.Match? {
        DeferredFits(src, p, i, prev);
      }
      at, ms := TailChoices(src, p, if prev.Match? then i - 1 + prev.length else i);
      if prev.Match? {
        var t := Ref(i - 1 - prev.pos, prev.length);
        Another(src, p, i - 1, first, t, Lits(src[i - 1 + prev.length..]), at, ms);
        at, ms := [i - 1] + at, [prev] + ms;
      }
    } else {
      at, ms := MoveChoices(src, p, i, prev, first);
    }
  }

  lemma {:induction false} MoveChoices(src: seq<byte>, p: Params, i: nat, prev: Match, first: nat)
    returns (at: seq<nat>, ms: seq<Match>)
    requires Deferred(src, p, i, prev) && i + MIN_LEN <= |src|
    requires prev.Match? ==> prev == Found(src, p, i - 1, first)
    requires prev.NoMatch? ==> first == 0
    ensures Choices(src, p, Parse(src, p, i, prev), at, ms, first) && |at| > 0 && at[0] == Done(i, prev) && at[|at| - 1] == |src|
    decreases |src| - i, 0
  {
    hide Choices, FindMatch, ValidMatch, Lits, NextMove;
    var m, v := FindMatch(src, p, i, prev.Len()), NextMove(src, p, i, prev);
    NextMoveIs(src, p, i, prev);
    if v.out == [] {
      at, ms := ParseChoices(src, p, v.i, v.prev, 0);
      assert [] + Parse(src, p, v.i, v.prev) == Parse(src, p, v.i, v.prev);
    } else {
      at, ms := ParseChoices(src, p, v.i, v.prev, if v.prev.Match? then prev.Len() else 0);
      assert v.out == [v.out[0]];
      Another(src, p, Done(i, prev), first, v.out[0], Parse(src, p, v.i, v.prev), at, ms);
      at, ms := [Done(i, prev)] + at, [Found(src, p, Done(i, prev), first)] + ms;
    }
  }

  lemma DeferredFits(src: seq<byte>, p: Params, i: nat, prev: Match)
    requires Deferred(src, p, i, prev) && prev.Match?
    ensures prev.pos < i - 1 && i - 1 + prev.length <= |src| && prev.length >= 4
  {
  }

  lemma NextMoveIs(src: seq<byte>, p: Params, i: nat, prev: Match)
    requires Deferred(src, p, i, prev) && i + MIN_LEN <= |src|
    ensures var m := FindMatch(src, p, i, prev.Len());
            && (m.Match? ==> m.length > prev.Len())
            && NextMove(src, p, i, prev)
            == if prev.Match? && m.NoMatch? then Move([Ref(i - 1 - prev.pos, prev.length)], i - 1 + prev.length, NoMatch)
               else if m.NoMatch? then Move([Lit(src[i])], i + 1, NoMatch)
               else if prev.Match? then Move([Lit(src[i - 1])], i + 1, m)
               else Move([], i + 1, m)
  {
    hide FindMatch, ValidMatch, InWindow;
  }

  /** The tokens of any source, with the positions at which they stand and the matches that are found there:
      a literal stands exactly where there is no match or the next position has a longer one, and what is
      not a literal is a reference to the match. */
  lemma LazyChoices(src: seq<byte>, p: Params) returns (at: seq<nat>, ms: seq<Match>)
    ensures var ts := Tokens(src, p);
            && |ms| == |ts| && |at| == |ts| + 1 && at[0] == 0 && at[|ts|] == |src|
            && (forall k :: 0 <= k < |ts| ==>
                  at[k] < |src| && at[k + 1] == at[k] + if ts[k].Lit? then 1 else ts[k].len)
            && (forall k :: 0 <= k < |ts| ==>
                  ms[k] == Found(src, p, at[k], GivenUp(ts, ms, k)))
            && (forall k :: 0 <= k < |ts| ==>
                  (ts[k].Lit? <==> ms[k].NoMatch? || Found(src, p, at[k] + 1, ms[k].length).Match?))
            && (forall k :: 0 <= k < |ts| ==>
                  if ts[k].Lit? then ts[k].value == src[at[k]]
                  else ts[k].dist <= at[k] && ms[k] == Match(at[k] - ts[k].dist, ts[k].len))
  {
    hide Found, Parse;
    at, ms := ParseChoices(src, p, 0, NoMatch, 0);
    var ts := Tokens(src, p);
    forall k | 0 <= k < |ts|
      ensures at[k] < |src| && at[k + 1] == at[k] + if ts[k].Lit? then 1 else ts[k].len
      ensures ms[k] == Found(src, p, at[k], GivenUp(ts, ms, k))
      ensures ts[k].Lit? <==> ms[k].NoMatch? || Found(src, p, at[k] + 1, ms[k].length).Match?
      ensures if ts[k].Lit? then ts[k].value == src[at[k]] else ts[k].dist <= at[k] && ms[k] == Match(at[k] - ts[k].dist, ts[k].len)
    {
      assert Chosen(src, p, at[k], ms[k], ts[k]);
    }
  }

  // ---------------------------------------------------------------- when the search never gives up

  lemma FoundIsLongest(src: seq<byte>, p: Params, i: nat, prevLen: nat)
    requires i + 4 <= |src| ==> Candidates(src, p, i, i) <= 1024
    requires i <= |src| && (prevLen == 0 || prevLen >= 4)
    ensures Found(src, p, i, prevLen) == LongestMatch(src, p, i, prevLen)
  {
    if i + 4 <= |src| {
      FindMatchIsLongest(src, p, i, prevLen);
    } else {
      BestIsFinal(src, p, i, i, NoMatch, Least(prevLen));
    }
  }

  /** The longest match is the same for all lengths of a previous match that it exceeds. */
  lemma LongestAbove(src: seq<byte>, p: Params, i: nat, prevLen: nat)
    requires i <= |src| && (prevLen == 0 || prevLen >= 4)
    ensures var m := LongestMatch(src, p, i, 0);
            && (m.Match? ==> m.length >= 4)
            && LongestMatch(src, p, i, prevLen) == if m.Len() > prevLen then m else NoMatch
  {
    hide LongestMatch, LenAt;
    LongestMatchIsLongest(src, p, i, prevLen);
    LongestMatchIsLongest(src, p, i, 0);
  }

  /** The choice at a token, in terms of longest matches. */
  lemma LongestChoice(src: seq<byte>, p: Params, i: nat, prevLen: nat)
    requires forall j: nat :: j + 4 <= |src| ==> Candidates(src, p, j, j) <= 1024
    requires i < |src| && (prevLen == 0 || prevLen >= 4) && (prevLen > 0 ==> Found(src, p, i, prevLen).Match?)
    ensures var m := LongestMatch(src, p, i, 0);
            && Found(src, p, i, prevLen) == m && (m.Match? ==> m.length >= 4)
            && (m.Match? ==> (Found(src, p, i + 1, m.length).Match? <==> LongestMatch(src, p, i + 1, 0).Len() > m.length))
  {
    hide LongestMatch, Found, Candidates;
    FoundIsLongest(src, p, i, prevLen);
    LongestAbove(src, p, i, prevLen);
    var m := LongestMatch(src, p, i, 0);
    if m.Match? {
      FoundIsLongest(src, p, i + 1, m.length);
      LongestAbove(src, p, i + 1, m.length);
    }
  }

  /** If no window holds more than 1024 positions with the same hash, the tokens are those of lazy parsing
      with longest matches: there is a literal exactly where there is no match of four bytes or more in the
      window, or the longest one at the next position is longer; else there is the longest match. */
  lemma LazyLongest(src: seq<byte>, p: Params) returns (at: seq<nat>)
    requires forall i: nat :: i + 4 <= |src| ==> Candidates(src, p, i, i) <= 1024
    ensures var ts := Tokens(src, p);
            && |at| == |ts| + 1 && at[0] == 0 && at[|ts|] == |src|
            && (forall k :: 0 <= k < |ts| ==>
                  at[k] < |src| && at[k + 1] == at[k] + if ts[k].Lit? then 1 else ts[k].len)
            && (forall k :: 0 <= k < |ts| ==>
                  var m := LongestMatch(src, p, at[k], 0);
                  (ts[k].Lit? <==> m.NoMatch? || LongestMatch(src, p, at[k] + 1, 0).Len() > m.length))
            && (forall k :: 0 <= k < |ts| ==>
                  if ts[k].Lit? then ts[k].value == src[at[k]]
                  else ts[k].dist <= at[k] && LongestMatch(src, p, at[k], 0) == Match(at[k] - ts[k].dist, ts[k].len))
  {
    hide LongestMatch, Found, Candidates, Tokens;
    var ms;
    at, ms := LazyChoices(src, p);
    var ts := Tokens(src, p);
    forall k | 0 <= k < |ts|
      ensures ms[k] == LongestMatch(src, p, at[k], 0)
      ensures ms[k].Match? ==>
                (Found(src, p, at[k] + 1, ms[k].length).Match? <==> LongestMatch(src, p, at[k] + 1, 0).Len() > ms[k].length)
    {
      LongestAt(src, p, ts, at, ms, k);
    }
  }

  lemma GivenUpIs(ts: seq<Token>, ms: seq<Match>, k: nat)
    requires k <= |ts| == |ms|
    ensures GivenUp(ts, ms, k) == if k > 0 && ts[k - 1].Lit? then ms[k - 1].Len() else 0
  {
  }

  /** A match that another one has given way to was the longest as well. */
  lemma {:induction false} LongestAt(src: seq<byte>, p: Params, ts: seq<Token>, at: seq<nat>, ms: seq<Match>, k: nat)
    requires forall i: nat :: i + 4 <= |src| ==> Candidates(src, p, i, i) <= 1024
    requires k < |ts| == |ms| && |at| == |ts| + 1 && at[0] == 0
    requires forall l :: 0 <= l < |ts| ==> at[l] < |src| && at[l + 1] == at[l] + if ts[l].Lit? then 1 else ts[l].len
    requires forall l :: 0 <= l < |ts| ==> ms[l] == Found(src, p, at[l], GivenUp(ts, ms, l))
    requires forall l :: 0 <= l < |ts| ==>
               (ts[l].Lit? <==> ms[l].NoMatch? || Found(src, p, at[l] + 1, ms[l].length).Match?)
    ensures var m := LongestMatch(src, p, at[k], 0);
            && ms[k] == m && (m.Match? ==> m.length >= 4)
            && (m.Match? ==> (Found(src, p, at[k] + 1, m.length).Match? <==> LongestMatch(src, p, at[k] + 1, 0).Len() > m.length))
  {
    hide LongestMatch, Found, Candidates, GivenUp;
    GivenUpIs(ts, ms, k);
    if k > 0 && ts[k - 1].Lit? {
      LongestAt(src, p, ts, at, ms, k - 1);
      LongestChoice(src, p, at[k], ms[k - 1].Len());
    } else {
      LongestChoice(src, p, at[k], 0);
    }
  }

  lemma {:induction false} CandidatesBound(src: seq<byte>, p: Params, pos: nat, m: nat)
    requires m <= pos && pos + 4 <= |src|
    ensures Candidates(src, p, pos, m) <= m
  {
    if m > 0 {
      CandidatesBound(src, p, pos, m - 1);
    }
  }

  /** This is so for every source of at most 1028 bytes. */
  lemma ShortSource(src: seq<byte>, p: Params)
    requires |src| <= 1028
    ensures forall i: nat :: i + 4 <= |src| ==> Candidates(src, p, i, i) <= 1024
  {
    hide Candidates;
    forall i: nat | i + 4 <= |src|
      ensures Candidates(src, p, i, i) <= 1024
    {
      CandidatesBound(src, p, i, i);
    }
  }

  // ---------------------------------------------------------------- how far the search gets

  /** The hash of four bytes, the first of which has the least weight. */
  lemma HashIs(src: seq<byte>, i: nat)
    requires i + 4 <= |src|
    ensures var b0: int, b1: int, b2: int, b3: int := src[i], src[i + 1], src[i + 2], src[i + 3];
            Hash(src, i) == (b0 + 0x100 * b1 + 0x1_0000 * b2 + 0x100_0000 * b3) * 2654435761 % 0x1_0000_0000 / 0x2_0000
  {
    var b := src[i..i + 4];
    FourBytes(b);
    assert b[0] == src[i] && b[1] == src[i + 1] && b[2] == src[i + 2] && b[3] == src[i + 3];
  }

  lemma FourBytes(b: seq<byte>)
    requires |b| == 4
    ensures var b0: int, b1: int, b2: int, b3: int := b[0], b[1], b[2], b[3];
            LeValue(b) == b0 + 0x100 * b1 + 0x1_0000 * b2 + 0x100_0000 * b3
  {
    assert LeValue(b) == b[0] + 256 * LeValue(b[1..]);
    assert LeValue(b[1..]) == b[1] + 256 * LeValue(b[2..]);
    assert LeValue(b[2..]) == b[2] + 256 * LeValue(b[3..]);
    assert LeValue(b[3..]) == b[3] + 256 * LeValue(b[4..]);
  }

  /** From the first position that is reached on there are as many candidates as there are steps, and right before
      it there is one more, unless it is where the window or the source begins. */
  lemma {:induction false} ReachIs(src: seq<byte>, p: Params, pos: nat, m: nat, steps: nat)
    requires m <= pos && pos + 4 <= |src|
    ensures var lo := Reach(src, p, pos, m, steps);
            && Candidates(src, p.(maxDist := pos - lo), pos, m) <= steps
            && (lo == 0 || pos - (lo - 1) > p.maxDist
                || (Candidates(src, p.(maxDist := pos - lo), pos, m) == steps && Hash(src, lo - 1) == Hash(src, pos)))
    decreases m
  {
    hide Hash;
    if m > 0 && pos - (m - 1) <= p.maxDist {
      if Hash(src, m - 1) != Hash(src, pos) {
        ReachIs(src, p, pos, m - 1, steps);
      } else if steps > 0 {
        ReachIs(src, p, pos, m - 1, steps - 1);
      }
    }
  }

  // ---------------------------------------------------------------- matches and references in terms of bytes

  /** Where a match may be, and how long. */
  ghost predicate Allowed(src: seq<byte>, p: Params, pos: nat, j: nat, l: nat) {
    && j < pos && pos - j <= p.maxDist && l <= p.maxLen && pos + l <= |src| && (p.overlap || l <= pos - j)
    && src[j..j + l] == src[pos..pos + l]
  }

  /** Any string in the window that matches is not longer than the longest match, nor more recent if it is as long;
      without a longest match none has more than 3 bytes, or more than the previous match had. */
  lemma LongestMeans(src: seq<byte>, p: Params, pos: nat, prevLen: nat, j: nat, l: nat)
    requires pos <= |src| && Allowed(src, p, pos, j, l)
    ensures var m := LongestMatch(src, p, pos, prevLen);
            && (m.NoMatch? ==> l <= if prevLen == 0 then 3 else prevLen)
            && (m.Match? ==> Allowed(src, p, pos, m.pos, m.length) && m.length > (if prevLen == 0 then 3 else prevLen))
            && (m.Match? ==> l <= m.length && (l == m.length ==> j <= m.pos))
  {
    hide LenAt, LongestMatch;
    LongestMatchIsLongest(src, p, pos, prevLen);
    AtLeast(src, p, pos, j, l);
    assert InWindow(p, pos, j);
    var m := LongestMatch(src, p, pos, prevLen);
    if m.Match? {
      MatchAllowed(src, p, pos, m.pos);
    }
  }

  lemma AtLeast(src: seq<byte>, p: Params, pos: nat, j: nat, l: nat)
    requires pos <= |src| && Allowed(src, p, pos, j, l)
    ensures l <= LenAt(src, p, pos, j)
  {
    MatchLenSkip(src, j, pos, CapAt(src, p, pos, j), l);
  }

  lemma MatchAllowed(src: seq<byte>, p: Params, pos: nat, j: nat)
    requires pos <= |src| && InWindow(p, pos, j)
    ensures Allowed(src, p, pos, j, LenAt(src, p, pos, j))
  {
  }

  /** Each byte of a reference is the one dist before it, which may be one of its own, or zero if there is none. */
  lemma {:induction false} CopyBackAt(out: seq<byte>, dist: nat, len: nat, i: nat)
    requires dist >= 1 && i < len
    ensures var r := CopyBack(out, dist, len);
            |r| == |out| + len && r[..|out|] == out && r[|out| + i] == if dist <= |out| + i then r[|out| + i - dist] else 0
    decreases len
  {
    var next := out + [ByteBack(out, dist)];
    var r := CopyBack(next, dist, len - 1);
    assert r[..|next|] == next;
    assert r[..|out|] == r[..|next|][..|out|] && r[|out|] == r[..|next|][|out|];
    if i > 0 {
      CopyBackAt(next, dist, len - 1, i - 1);
    } else if dist <= |out| {
      assert r[|out| - dist] == r[..|out|][|out| - dist];
    }
  }
}
