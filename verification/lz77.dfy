/** What LZ77 compression means (hwzip/lz77.c and hwzip/lz77.h): tokens, the bytes they stand for, the
    search for the longest match, and lazy parsing. */
module Lz77 {
  import opened Bits

  const WINDOW_SIZE: nat := 32768
  const HASH_SIZE: nat := 32768
  const MIN_LEN: nat := 4

  datatype Token = Lit(value: byte) | Ref(dist: nat, len: nat)

  // ---------------------------------------------------------------- what tokens stand for

  /** The byte dist back from the end of the output; there are zeros before its beginning. */
  function ByteBack(out: seq<byte>, dist: nat): byte {
    if 1 <= dist <= |out| then out[|out| - dist] else 0
  }

  /** Copying byte by byte, so that a reference may overlap what it produces. */
  function CopyBack(out: seq<byte>, dist: nat, len: nat): (r: seq<byte>)
    ensures |r| == |out| + len && r[..|out|] == out
    decreases len
  {
    if len == 0 then out else CopyBack(out + [ByteBack(out, dist)], dist, len - 1)
  }

  function Apply(out: seq<byte>, t: Token): seq<byte> {
    match t
    case Lit(b) => out + [b]
    case Ref(dist, len) => CopyBack(out, dist, len)
  }

  /** The output after a sequence of tokens. */
  function Expand(out: seq<byte>, ts: seq<Token>): seq<byte>
    decreases |ts|
  {
    if ts == [] then out else Expand(Apply(out, ts[0]), ts[1..])
  }

  lemma {:induction false} ExpandGrows(out: seq<byte>, ts: seq<Token>)
    ensures |out| <= |Expand(out, ts)|
    decreases |ts|
  {
    if ts != [] {
      ExpandGrows(Apply(out, ts[0]), ts[1..]);
    }
  }

  lemma {:induction false} ExpandConcat(out: seq<byte>, ts: seq<Token>, us: seq<Token>)
    ensures Expand(out, ts + us) == Expand(Expand(out, ts), us)
    decreases |ts|
  {
    if ts == [] {
      assert ts + us == us;
    } else {
      ExpandConcat(Apply(out, ts[0]), ts[1..], us);
      assert (ts + us)[1..] == ts[1..] + us;
    }
  }

  /** A reference to an earlier occurrence reproduces what is there. */
  lemma {:induction false} CopyBackOccurrence(src: seq<byte>, i: nat, dist: nat, len: nat)
    requires 1 <= dist <= i && i + len <= |src|
    requires src[i..i + len] == src[i - dist..i - dist + len]
    ensures CopyBack(src[..i], dist, len) == src[..i + len]
    decreases len
  {
    if len > 0 {
      assert src[i] == src[i..i + len][0];
      assert src[..i] + [src[i]] == src[..i + 1];
      assert src[i + 1..i + len] == src[i..i + len][1..];
      assert src[i + 1 - dist..i - dist + len] == src[i - dist..i - dist + len][1..];
      CopyBackOccurrence(src, i + 1, dist, len - 1);
    }
  }

  /** A reference that does not overlap what it produces is a plain copy. */
  lemma {:induction false} CopyBackPlain(out: seq<byte>, dist: nat, len: nat)
    requires 1 <= dist <= |out| && len <= dist
    ensures CopyBack(out, dist, len) == out + out[|out| - dist..|out| - dist + len]
    decreases len
  {
    if len > 0 {
      CopyBackSnoc(out, dist, len - 1);
      CopyBackPlain(out, dist, len - 1);
      var w := out[|out| - dist..|out| - dist + len];
      assert w == out[|out| - dist..|out| - dist + len - 1] + [out[|out| - dist + len - 1]];
    }
  }

  /** One byte more. */
  lemma {:induction false} CopyBackSnoc(out: seq<byte>, dist: nat, len: nat)
    ensures CopyBack(out, dist, len + 1) == CopyBack(out, dist, len) + [ByteBack(CopyBack(out, dist, len), dist)]
    decreases len
  {
    if len > 0 {
      CopyBackSnoc(out + [ByteBack(out, dist)], dist, len - 1);
    }
  }

  // ---------------------------------------------------------------- matches

  /** The arguments of lz77_compress(). */
  datatype Params = Params(maxDist: nat, maxLen: nat, overlap: bool) {
    ghost predicate Ok() {
      maxDist <= WINDOW_SIZE
    }
  }

  datatype Match = NoMatch | Match(pos: nat, length: nat) {
    function Len(): nat {
      if NoMatch? then 0 else length
    }
  }

  /** The length of the common prefix of the strings at i and j, up to cap. */
  function MatchLen(src: seq<byte>, i: nat, j: nat, cap: nat): (l: nat)
    requires i <= j && j + cap <= |src|
    ensures l <= cap
    decreases cap
  {
    if cap == 0 || src[i] != src[j] then 0 else 1 + MatchLen(src, i + 1, j + 1, cap - 1)
  }

  lemma {:induction false} MatchLenMeans(src: seq<byte>, i: nat, j: nat, cap: nat)
    requires i <= j && j + cap <= |src|
    ensures var l := MatchLen(src, i, j, cap);
            && src[i..i + l] == src[j..j + l]
            && (l < cap ==> src[i + l] != src[j + l])
    decreases cap
  {
    if cap > 0 && src[i] == src[j] {
      var l := MatchLen(src, i + 1, j + 1, cap - 1);
      MatchLenMeans(src, i + 1, j + 1, cap - 1);
      assert src[i..i + 1 + l] == [src[i]] + src[i + 1..i + 1 + l];
      assert src[j..j + 1 + l] == [src[j]] + src[j + 1..j + 1 + l];
    }
  }

  /** What is known to match can be skipped. */
  lemma {:induction false} MatchLenSkip(src: seq<byte>, i: nat, j: nat, cap: nat, l: nat)
    requires i <= j && j + cap <= |src| && l <= cap
    requires src[i..i + l] == src[j..j + l]
    ensures MatchLen(src, i, j, cap) == l + MatchLen(src, i + l, j + l, cap - l)
    decreases l
  {
    if l > 0 {
      assert src[i] == src[i..i + l][0] == src[j..j + l][0] == src[j];
      assert src[i + 1..i + l] == src[i..i + l][1..] == src[j + 1..j + l];
      MatchLenSkip(src, i + 1, j + 1, cap - 1, l - 1);
    }
  }

  lemma SameAt(src: seq<byte>, i: nat, j: nat, l: nat, k: nat)
    requires i <= j && j + l <= |src| && src[i..i + l] == src[j..j + l] && k < l
    ensures src[i + k] == src[j + k]
  {
    assert src[i..i + l][k] == src[j..j + l][k];
  }

  lemma SameStart(src: seq<byte>, i: nat, j: nat, l: nat, k: nat)
    requires i <= j && j + l <= |src| && src[i..i + l] == src[j..j + l] && k <= l
    ensures src[i..i + k] == src[j..j + k]
  {
    assert src[i..i + k] == src[i..i + l][..k];
    assert src[j..j + k] == src[j..j + l][..k];
  }

  /** How long a match of pos may be at most, and at position i. */
  function LenCap(src: seq<byte>, p: Params, pos: nat): nat
    requires pos <= |src|
  {
    Min(p.maxLen, |src| - pos)
  }

  function CapAt(src: seq<byte>, p: Params, pos: nat, i: nat): nat
    requires i <= pos <= |src|
  {
    if p.overlap then LenCap(src, p, pos) else Min(LenCap(src, p, pos), pos - i)
  }

  /** The length of the match for pos at i. */
  function LenAt(src: seq<byte>, p: Params, pos: nat, i: nat): (l: nat)
    requires i <= pos <= |src|
    ensures l <= CapAt(src, p, pos, i) && src[i..i + l] == src[pos..pos + l]
  {
    MatchLenMeans(src, i, pos, CapAt(src, p, pos, i));
    MatchLen(src, i, pos, CapAt(src, p, pos, i))
  }

  /** A match at i is taken if it is longer than what there is already. */
  function Better(src: seq<byte>, p: Params, pos: nat, i: nat, best: Match, least: nat): Match
    requires i <= pos <= |src|
  {
    var l := LenAt(src, p, pos, i);
    if l > Threshold(best, least) then Match(i, l) else best
  }

  /** Matches must be longer than this. */
  function Threshold(best: Match, least: nat): nat {
    if best.NoMatch? then least else best.length
  }

  /** The least length of interest less one, given the length of the previous match. */
  function Least(prevLen: nat): nat {
    if prevLen == 0 then MIN_LEN - 1 else prevLen
  }

  // ---------------------------------------------------------------- brute force

  /** Brute-force search through the i positions from the beginning, the most recent first. */
  function LongestBelow(src: seq<byte>, p: Params, pos: nat, i: nat, best: Match, least: nat): Match
    requires i <= pos <= |src|
    decreases i
  {
    if i == 0 || pos - (i - 1) > p.maxDist then best
    else LongestBelow(src, p, pos, i - 1, Better(src, p, pos, i - 1, best, least), least)
  }

  /** The longest match for pos in the window, the most recent one of equals, if it is longer than the
      previous match and not shorter than MIN_LEN. */
  function LongestMatch(src: seq<byte>, p: Params, pos: nat, prevLen: nat): Match
    requires pos <= |src|
  {
    LongestBelow(src, p, pos, pos, NoMatch, Least(prevLen))
  }

  ghost predicate InWindow(p: Params, pos: nat, j: int) {
    0 <= j < pos && pos - j <= p.maxDist
  }

  /** The brute-force search finds what it is to find. */
  ghost predicate IsLongest(src: seq<byte>, p: Params, pos: nat, i: nat, m: Match, best: Match, least: nat)
    requires i <= pos <= |src|
  {
    && (m == best || (m.Match? && m.pos < i && InWindow(p, pos, m.pos) && m.length > Threshold(best, least)
                      && m.length == LenAt(src, p, pos, m.pos)))
    && (forall j :: 0 <= j < i && InWindow(p, pos, j) ==>
          LenAt(src, p, pos, j) <= Threshold(m, least))
    && (m != best ==> forall j :: m.pos < j < i ==>
          LenAt(src, p, pos, j) < m.length)
  }

  lemma {:induction false} LongestBelowIsLongest(src: seq<byte>, p: Params, pos: nat, i: nat, best: Match, least: nat)
    requires i <= pos <= |src|
    ensures IsLongest(src, p, pos, i, LongestBelow(src, p, pos, i, best, least), best, least)
    decreases i
  {
    hide LenAt, CapAt;
    if i > 0 && pos - (i - 1) <= p.maxDist {
      var b := Better(src, p, pos, i - 1, best, least);
      LongestBelowIsLongest(src, p, pos, i - 1, b, least);
    }
  }

  /** The brute-force search finds the longest match in the window, and the most recent of equals;
      none exactly when there is none longer than required. */
  lemma LongestMatchIsLongest(src: seq<byte>, p: Params, pos: nat, prevLen: nat)
    requires pos <= |src|
    ensures var m := LongestMatch(src, p, pos, prevLen);
            && (m.NoMatch? <==> forall j :: InWindow(p, pos, j) ==>
                                  LenAt(src, p, pos, j) <= Least(prevLen))
            && (m.Match? ==> && InWindow(p, pos, m.pos)
                             && m.length == LenAt(src, p, pos, m.pos) > Least(prevLen)
                             && forall j :: InWindow(p, pos, j) ==>
                                  LenAt(src, p, pos, j) <= m.length
                                  && (j > m.pos ==> LenAt(src, p, pos, j) < m.length))
  {
    LongestBelowIsLongest(src, p, pos, pos, NoMatch, Least(prevLen));
  }

  // ---------------------------------------------------------------- the index

  /** hash4(): Knuth's multiplicative hash of the four bytes at i. */
  function Hash(src: seq<byte>, i: nat): (h: nat)
    requires i + MIN_LEN <= |src|
    ensures h < HASH_SIZE
  {
    var word: int := LeValue(src[i..i + MIN_LEN]);
    word * 2654435761 % 0x1_0000_0000 / 0x2_0000
  }

  datatype Pos = None | At(pos: nat)

  /** The last position before m with hash h. */
  function LastBefore(src: seq<byte>, h: nat, m: nat): (r: Pos)
    ensures r.At? ==> r.pos < m && r.pos + MIN_LEN <= |src| && Hash(src, r.pos) == h
  {
    if m == 0 then None
    else if m - 1 + MIN_LEN <= |src| && Hash(src, m - 1) == h then At(m - 1)
    else LastBefore(src, h, m - 1)
  }

  /** The positions before m in the window of pos that have its hash. */
  function Candidates(src: seq<byte>, p: Params, pos: nat, m: nat): nat
    requires m <= pos && pos + MIN_LEN <= |src|
  {
    if m == 0 || pos - (m - 1) > p.maxDist then 0
    else (if Hash(src, m - 1) == Hash(src, pos) then 1 else 0) + Candidates(src, p, pos, m - 1)
  }

  /** The walk along the chain of positions with the same hash from i on. */
  function Walk(src: seq<byte>, p: Params, pos: nat, i: Pos, best: Match, least: nat, steps: nat): Match
    requires pos + MIN_LEN <= |src| && (i.At? ==> i.pos < pos)
    decreases steps
  {
    if i.None? || steps == 0 || pos - i.pos > p.maxDist then best
    else
      var b := Better(src, p, pos, i.pos, best, least);
      if b != best && b.length == LenCap(src, p, pos) then b
      else Walk(src, p, pos, LastBefore(src, Hash(src, pos), i.pos), b, least, steps - 1)
  }

  /** The string at the match is the string at pos. */
  ghost predicate ValidMatch(src: seq<byte>, p: Params, pos: nat, m: Match)
    requires m.Match? && m.pos < pos <= |src|
  {
    && m.length <= CapAt(src, p, pos, m.pos)
    && src[m.pos..m.pos + m.length] == src[pos..pos + m.length]
  }

  lemma {:induction false} WalkValid(src: seq<byte>, p: Params, pos: nat, i: Pos, best: Match, least: nat, steps: nat)
    requires pos + MIN_LEN <= |src| && (i.At? ==> i.pos < pos)
    requires best.Match? ==> InWindow(p, pos, best.pos) && best.length > least && ValidMatch(src, p, pos, best)
    ensures var m := Walk(src, p, pos, i, best, least, steps);
            m.Match? ==> InWindow(p, pos, m.pos) && m.length > least && ValidMatch(src, p, pos, m)
    decreases steps
  {
    hide LenAt, Hash;
    if i.At? && steps > 0 && pos - i.pos <= p.maxDist {
      var b := Better(src, p, pos, i.pos, best, least);
      WalkValid(src, p, pos, LastBefore(src, Hash(src, pos), i.pos), b, least, steps - 1);
    }
  }

  /** The number of positions find_match() looks at. */
  function Budget(prevLen: nat): nat {
    if Least(prevLen) >= 32 then 1024 else 4096
  }

  /** find_match() */
  function FindMatch(src: seq<byte>, p: Params, pos: nat, prevLen: nat): (m: Match)
    requires pos + MIN_LEN <= |src|
    ensures m.Match? ==> InWindow(p, pos, m.pos) && m.length > Least(prevLen) && ValidMatch(src, p, pos, m)
  {
    if Least(prevLen) >= LenCap(src, p, pos) then NoMatch
    else
      var first := LastBefore(src, Hash(src, pos), pos);
      WalkValid(src, p, pos, first, NoMatch, Least(prevLen), Budget(prevLen));
      Walk(src, p, pos, first, NoMatch, Least(prevLen), Budget(prevLen))
  }

  lemma MatchHash(src: seq<byte>, i: nat, j: nat, l: nat)
    requires i <= j && j + l <= |src| && src[i..i + l] == src[j..j + l] && l >= MIN_LEN
    ensures Hash(src, i) == Hash(src, j)
  {
    SameStart(src, i, j, l, MIN_LEN);
  }

  /** A position with another hash does not match in four bytes. */
  lemma OtherHash(src: seq<byte>, p: Params, pos: nat, i: nat, best: Match, least: nat)
    requires i < pos && pos + MIN_LEN <= |src| && least >= MIN_LEN - 1
    requires Hash(src, i) != Hash(src, pos) && (best.Match? ==> best.length > least)
    ensures Better(src, p, pos, i, best, least) == best
  {
    hide Hash;
    var l := LenAt(src, p, pos, i);
    if l >= MIN_LEN {
      MatchHash(src, i, pos, l);
    }
  }

  /** Nothing is better than a match of the greatest length. */
  lemma {:induction false} BestIsFinal(src: seq<byte>, p: Params, pos: nat, i: nat, best: Match, least: nat)
    requires i <= pos <= |src| && Threshold(best, least) >= LenCap(src, p, pos)
    ensures LongestBelow(src, p, pos, i, best, least) == best
    decreases i
  {
    if i > 0 && pos - (i - 1) <= p.maxDist {
      BestIsFinal(src, p, pos, i - 1, best, least);
    }
  }

  lemma BetterIs(src: seq<byte>, p: Params, pos: nat, i: nat, best: Match, least: nat)
    requires i <= pos <= |src| && (best.Match? ==> best.length > least)
    ensures var b := Better(src, p, pos, i, best, least);
            (b.Match? ==> b.length > least) && (b != best ==> b.Match?)
  {
    hide LenAt;
  }

  /** Within the budget, walking the chain finds what the brute-force search finds. */
  lemma {:induction false} WalkIsLongest(src: seq<byte>, p: Params, pos: nat, m: nat, best: Match, least: nat, steps: nat)
    requires m <= pos && pos + MIN_LEN <= |src| && least >= MIN_LEN - 1
    requires best.Match? ==> best.length > least
    requires Candidates(src, p, pos, m) <= steps
    ensures Walk(src, p, pos, LastBefore(src, Hash(src, pos), m), best, least, steps)
         == LongestBelow(src, p, pos, m, best, least)
    decreases m
  {
    hide LenAt, Hash, LenCap, Better;
    if m == 0 {
    } else if pos - (m - 1) > p.maxDist {
    } else if Hash(src, m - 1) != Hash(src, pos) {
      OtherHash(src, p, pos, m - 1, best, least);
      WalkIsLongest(src, p, pos, m - 1, best, least, steps);
    } else {
      var b := Better(src, p, pos, m - 1, best, least);
      BetterIs(src, p, pos, m - 1, best, least);
      if b != best && b.length == LenCap(src, p, pos) {
        BestIsFinal(src, p, pos, m - 1, b, least);
      } else {
        WalkIsLongest(src, p, pos, m - 1, b, least, steps - 1);
      }
    }
  }

  /** When the window does not hold more candidates than there are steps, the hash chains are as good
      as comparing with every position of the window. */
  lemma FindMatchIsLongest(src: seq<byte>, p: Params, pos: nat, prevLen: nat)
    requires pos + MIN_LEN <= |src| && (prevLen == 0 || prevLen >= MIN_LEN)
    requires Candidates(src, p, pos, pos) <= if prevLen >= 32 then 1024 else 4096
    ensures FindMatch(src, p, pos, prevLen) == LongestMatch(src, p, pos, prevLen)
  {
    if Least(prevLen) >= LenCap(src, p, pos) {
      BestIsFinal(src, p, pos, pos, NoMatch, Least(prevLen));
    } else {
      WalkIsLongest(src, p, pos, pos, NoMatch, Least(prevLen), Budget(prevLen));
    }
  }

  /** The first position find_match() looks at, of those below m, when it looks at `steps` candidates. */
  function Reach(src: seq<byte>, p: Params, pos: nat, m: nat, steps: nat): (lo: nat)
    requires m <= pos && pos + MIN_LEN <= |src|
    ensures lo <= m
  {
    if m == 0 || pos - (m - 1) > p.maxDist then m
    else if Hash(src, m - 1) != Hash(src, pos) then Reach(src, p, pos, m - 1, steps)
    else if steps == 0 then m
    else Reach(src, p, pos, m - 1, steps - 1)
  }

  lemma {:induction false} WalkReaches(src: seq<byte>, p: Params, q: Params, pos: nat, m: nat, best: Match, least: nat, steps: nat)
    requires m <= pos && pos + MIN_LEN <= |src| && least >= MIN_LEN - 1
    requires best.Match? ==> best.length > least
    requires q == p.(maxDist := pos - Reach(src, p, pos, m, steps))
    ensures Walk(src, p, pos, LastBefore(src, Hash(src, pos), m), best, least, steps)
         == LongestBelow(src, q, pos, m, best, least)
    decreases m
  {
    hide LenAt, Hash, LenCap, Better;
    if m == 0 || pos - (m - 1) > p.maxDist {
    } else if Hash(src, m - 1) != Hash(src, pos) {
      OtherHash(src, q, pos, m - 1, best, least);
      WalkReaches(src, p, q, pos, m - 1, best, least, steps);
    } else if steps > 0 {
      var b := Better(src, p, pos, m - 1, best, least);
      SameLimits(src, p, q, pos, m - 1, best, least);
      BetterIs(src, p, pos, m - 1, best, least);
      if b != best && b.length == LenCap(src, p, pos) {
        BestIsFinal(src, q, pos, m - 1, b, least);
      } else {
        WalkReaches(src, p, q, pos, m - 1, b, least, steps - 1);
      }
    }
  }

  lemma SameLimits(src: seq<byte>, p: Params, q: Params, pos: nat, i: nat, best: Match, least: nat)
    requires i <= pos <= |src| && q == p.(maxDist := q.maxDist)
    ensures Better(src, p, pos, i, best, least) == Better(src, q, pos, i, best, least)
    ensures LenCap(src, p, pos) == LenCap(src, q, pos)
  {
  }

  /** On any input, what find_match() finds is the longest match among the positions it reaches within
      its budget, and the most recent of equals. */
  lemma FindMatchReaches(src: seq<byte>, p: Params, pos: nat, prevLen: nat)
    requires pos + MIN_LEN <= |src| && (prevLen == 0 || prevLen >= MIN_LEN)
    ensures var lo := Reach(src, p, pos, pos, if prevLen >= 32 then 1024 else 4096);
            FindMatch(src, p, pos, prevLen) == LongestMatch(src, p.(maxDist := pos - lo), pos, prevLen)
  {
    var lo := Reach(src, p, pos, pos, Budget(prevLen));
    if Least(prevLen) >= LenCap(src, p, pos) {
      BestIsFinal(src, p.(maxDist := pos - lo), pos, pos, NoMatch, Least(prevLen));
    } else {
      WalkReaches(src, p, p.(maxDist := pos - lo), pos, pos, NoMatch, Least(prevLen), Budget(prevLen));
    }
  }

  lemma {:induction false} ReachInWindow(src: seq<byte>, p: Params, pos: nat, m: nat, steps: nat, j: nat)
    requires m <= pos && pos + MIN_LEN <= |src| && Reach(src, p, pos, m, steps) <= j < m
    ensures pos - j <= p.maxDist
    decreases m
  {
    hide Hash;
    if j < m - 1 {
      ReachInWindow(src, p, pos, m - 1, if Hash(src, m - 1) != Hash(src, pos) then steps else steps - 1, j);
    }
  }

  /** Exactly when find_match() finds the longest match of the window: if there is none, or if the walk gets as
      far back as that match within its budget. */
  lemma FindMatchIsLongestIff(src: seq<byte>, p: Params, pos: nat, prevLen: nat)
    requires pos + MIN_LEN <= |src| && (prevLen == 0 || prevLen >= MIN_LEN)
    ensures var m := LongestMatch(src, p, pos, prevLen);
            FindMatch(src, p, pos, prevLen) == m <==>
            m.NoMatch? || m.pos >= Reach(src, p, pos, pos, if prevLen >= 32 then 1024 else 4096)
  {
    hide LenAt, Reach, FindMatch, LongestMatch, CapAt;
    var lo := Reach(src, p, pos, pos, Budget(prevLen));
    var q := p.(maxDist := pos - lo);
    FindMatchReaches(src, p, pos, prevLen);
    LongestMatchIsLongest(src, p, pos, prevLen);
    LongestMatchIsLongest(src, q, pos, prevLen);
    forall j | InWindow(q, pos, j)
      ensures InWindow(p, pos, j)
    {
      ReachInWindow(src, p, pos, pos, Budget(prevLen), j);
    }
    forall j | 0 <= j < pos
      ensures LenAt(src, q, pos, j) == LenAt(src, p, pos, j)
    {
      SameLenAt(src, p, q, pos, j);
    }
  }

  lemma SameLenAt(src: seq<byte>, p: Params, q: Params, pos: nat, i: nat)
    requires i <= pos <= |src| && q == p.(maxDist := q.maxDist)
    ensures LenAt(src, p, pos, i) == LenAt(src, q, pos, i)
  {
  }

  // ---------------------------------------------------------------- a longest match that is missed

  /** 4099 times the bytes 0, 1, 2, 3 and one more, which is 4 in the first and in the last place, else 5. */
  function Decoys(): (s: seq<byte>)
    ensures |s| == 20495
  {
    seq(20495, i requires 0 <= i < 20495 => DecoyAt(i))
  }

  function DecoyAt(i: nat): byte {
    if i % 5 < 4 then i % 5 else if i == 4 || i == 20494 then 4 else 5
  }

  /** All strings of five bytes begin in the same way. */
  lemma DecoyHash(i: nat)
    requires i % 5 == 0 && i <= 20490
    ensures Hash(Decoys(), i) == Hash(Decoys(), 20490)
  {
    hide LeValue;
    assert Decoys()[i..i + 4] == [0, 1, 2, 3] == Decoys()[20490..20490 + 4];
  }

  /** With a budget of a fifth of the positions, not all of them are looked at. */
  lemma {:induction false} DecoysExhaust(p: Params, m: nat, steps: nat)
    requires 5 * steps < m <= 20490
    ensures Reach(Decoys(), p, 20490, m, steps) > 0
    decreases m
  {
    hide Hash, Decoys;
    if (m - 1) % 5 == 0 {
      DecoyHash(m - 1);
    }
    if steps > 0 && Hash(Decoys(), m - 1) == Hash(Decoys(), 20490) {
      DecoysExhaust(p, m - 1, steps - 1);
    } else if Hash(Decoys(), m - 1) != Hash(Decoys(), 20490) {
      DecoysExhaust(p, m - 1, steps);
    }
  }

  /** Only the first string is the same as the last one in all five bytes. */
  lemma DecoyLen(p: Params, j: nat)
    requires p.maxLen >= 5 && p.overlap && j < 20490
    ensures LenAt(Decoys(), p, 20490, j) <= 5 && (LenAt(Decoys(), p, 20490, j) == 5 <==> j == 0)
  {
    hide LenAt;
    var src, l := Decoys(), LenAt(Decoys(), p, 20490, j);
    assert CapAt(src, p, 20490, j) == 5;
    if l == 5 {
      SameAt(src, j, 20490, 5, 4);
      assert src[j + 4] == DecoyAt(j + 4) && src[20494] == DecoyAt(20494) == 4;
    }
    if j == 0 {
      assert src[0..5] == src[20490..20495];
      LenAtIs(src, p, 20490, 0, 5);
    }
  }

  lemma LenAtIs(src: seq<byte>, p: Params, pos: nat, i: nat, l: nat)
    requires i <= pos <= |src| && l == CapAt(src, p, pos, i) && src[i..i + l] == src[pos..pos + l]
    ensures LenAt(src, p, pos, i) == l
  {
    MatchLenSkip(src, i, pos, l, l);
  }

  /** A longest match that find_match() misses, with the limits of Deflate. */
  lemma FindMatchMisses()
    ensures var p := Params(32768, 258, true);
            LongestMatch(Decoys(), p, 20490, 0) == Match(0, 5) && FindMatch(Decoys(), p, 20490, 0) != Match(0, 5)
  {
    hide LenAt, Reach, FindMatch, LongestMatch, CapAt, Decoys, DecoyAt;
    var p := Params(32768, 258, true);
    forall j | 0 <= j < 20490
      ensures LenAt(Decoys(), p, 20490, j) <= 5 && (LenAt(Decoys(), p, 20490, j) == 5 <==> j == 0)
    {
      DecoyLen(p, j);
    }
    LongestMatchIsLongest(Decoys(), p, 20490, 0);
    assert InWindow(p, 20490, 0);
    FindMatchIsLongestIff(Decoys(), p, 20490, 0);
    DecoysExhaust(p, 20490, 4096);
  }

  // ---------------------------------------------------------------- lazy parsing

  function Lits(s: seq<byte>): (ts: seq<Token>)
    ensures |ts| == |s|
  {
    seq(|s|, k requires 0 <= k < |s| => Lit(s[k]))
  }

  /** At the head of the loop of lz77_compress(), prev is a match for the position before i whose output
      has been deferred. */
  ghost predicate Deferred(src: seq<byte>, p: Params, i: nat, prev: Match) {
    && i <= |src|
    && (prev.Match? ==> && i >= 1 && InWindow(p, i - 1, prev.pos)
                        && prev.length >= MIN_LEN && ValidMatch(src, p, i - 1, prev))
  }

  /** One iteration: what is output, the next position, and the match that is deferred. */
  datatype Move = Move(out: seq<Token>, i: nat, prev: Match)

  function NextMove(src: seq<byte>, p: Params, i: nat, prev: Match): (v: Move)
    requires Deferred(src, p, i, prev) && i + MIN_LEN <= |src|
    ensures i < v.i && Deferred(src, p, v.i, v.prev)
  {
    var m := FindMatch(src, p, i, prev.Len());
    if prev.Match? && prev.length >= m.Len() then
      Move([Ref(i - 1 - prev.pos, prev.length)], i - 1 + prev.length, NoMatch)
    else if m.NoMatch? then
      Move([Lit(src[i])], i + 1, NoMatch)
    else if prev.Match? then
      Move([Lit(src[i - 1])], i + 1, m)
    else
      Move([], i + 1, m)
  }

  /** The tokens that are output after the loop. */
  function Remaining(src: seq<byte>, p: Params, i: nat, prev: Match): seq<Token>
    requires Deferred(src, p, i, prev)
  {
    if prev.Match? then
      [Ref(i - 1 - prev.pos, prev.length)] + Lits(src[i - 1 + prev.length..])
    else
      Lits(src[i..])
  }

  /** The tokens that are output from the head of the loop on. */
  function Parse(src: seq<byte>, p: Params, i: nat, prev: Match): seq<Token>
    requires Deferred(src, p, i, prev)
    decreases |src| - i
  {
    if i + MIN_LEN <= |src| then
      var v := NextMove(src, p, i, prev);
      v.out + Parse(src, p, v.i, v.prev)
    else
      Remaining(src, p, i, prev)
  }

  /** What every token of a parse satisfies. */
  ghost predicate TokenOk(p: Params, t: Token) {
    t.Ref? ==> 1 <= t.dist <= p.maxDist && MIN_LEN <= t.len <= p.maxLen && (!p.overlap ==> t.len <= t.dist)
  }

  /** The tokens ts stand for src from i on, each within the limits and without reaching back beyond
      the beginning. */
  ghost predicate Covers(src: seq<byte>, p: Params, i: nat, ts: seq<Token>)
    decreases |ts|
  {
    if ts == [] then i == |src|
    else
      && i < |src| && TokenOk(p, ts[0])
      && match ts[0]
         case Lit(b) => src[i] == b && Covers(src, p, i + 1, ts[1..])
         case Ref(dist, len) =>
           && dist <= i && i + len <= |src|
           && src[i..i + len] == src[i - dist..i - dist + len]
           && Covers(src, p, i + len, ts[1..])
  }

  lemma {:induction false} LitsCover(src: seq<byte>, p: Params, i: nat)
    requires i <= |src|
    ensures Covers(src, p, i, Lits(src[i..]))
    decreases |src| - i
  {
    if i < |src| {
      LitsCover(src, p, i + 1);
      assert Lits(src[i..])[1..] == Lits(src[i + 1..]);
    }
  }

  lemma CoversLit(src: seq<byte>, p: Params, i: nat, ts: seq<Token>)
    requires i < |src| && Covers(src, p, i + 1, ts)
    ensures Covers(src, p, i, [Lit(src[i])] + ts)
  {
    assert ([Lit(src[i])] + ts)[1..] == ts;
  }

  lemma CoversRef(src: seq<byte>, p: Params, i: nat, m: Match, ts: seq<Token>)
    requires i < |src| && m.Match? && InWindow(p, i, m.pos) && m.length >= MIN_LEN && ValidMatch(src, p, i, m)
    requires Covers(src, p, i + m.length, ts)
    ensures Covers(src, p, i, [Ref(i - m.pos, m.length)] + ts)
  {
    assert ([Ref(i - m.pos, m.length)] + ts)[1..] == ts;
    assert i - (i - m.pos) == m.pos;
  }

  /** Where the output stands: a match is deferred together with the position it is for. */
  function Done(i: nat, prev: Match): int {
    if prev.Match? then i - 1 else i
  }

  lemma MoveCases(src: seq<byte>, p: Params, i: nat, prev: Match)
    requires Deferred(src, p, i, prev) && i + MIN_LEN <= |src|
    ensures var v := NextMove(src, p, i, prev);
            || (v.out == [] && Done(v.i, v.prev) == Done(i, prev))
            || (v.out == [Lit(src[Done(i, prev)])] && Done(v.i, v.prev) == Done(i, prev) + 1)
            || (prev.Match? && v.out == [Ref(i - 1 - prev.pos, prev.length)] && Done(v.i, v.prev) == i - 1 + prev.length)
  {
    hide FindMatch, ValidMatch, InWindow;
  }

  lemma MoveCovers(src: seq<byte>, p: Params, i: nat, prev: Match, ts: seq<Token>)
    requires Deferred(src, p, i, prev) && i + MIN_LEN <= |src|
    requires var v := NextMove(src, p, i, prev); Covers(src, p, Done(v.i, v.prev), ts)
    ensures Covers(src, p, Done(i, prev), NextMove(src, p, i, prev).out + ts)
  {
    hide NextMove, Covers, ValidMatch, InWindow;
    MoveCases(src, p, i, prev);
    var out := NextMove(src, p, i, prev).out;
    if out == [] {
      assert out + ts == ts;
    } else if out[0].Lit? {
      CoversLit(src, p, Done(i, prev), ts);
    } else {
      CoversRef(src, p, i - 1, prev, ts);
    }
  }

  /** A parse stands for the input, from the position of the deferred match on. */
  lemma {:induction false} ParseCovers(src: seq<byte>, p: Params, i: nat, prev: Match)
    requires Deferred(src, p, i, prev)
    ensures Covers(src, p, Done(i, prev), Parse(src, p, i, prev))
    decreases |src| - i
  {
    hide NextMove, Covers;
    if i + MIN_LEN <= |src| {
      var v := NextMove(src, p, i, prev);
      ParseCovers(src, p, v.i, v.prev);
      MoveCovers(src, p, i, prev, Parse(src, p, v.i, v.prev));
    } else if prev.Match? {
      LitsCover(src, p, i - 1 + prev.length);
      CoversRef(src, p, i - 1, prev, Lits(src[i - 1 + prev.length..]));
    } else {
      LitsCover(src, p, i);
    }
  }

  /** Tokens that cover the input expand to it. */
  lemma {:induction false} CoversExpands(src: seq<byte>, p: Params, i: nat, ts: seq<Token>)
    requires i <= |src| && Covers(src, p, i, ts)
    ensures Expand(src[..i], ts) == src
    decreases |ts|
  {
    hide CopyBack;
    if ts == [] {
      assert src[..i] == src;
    } else {
      match ts[0] {
        case Lit(b) =>
          assert src[..i] + [b] == src[..i + 1];
          CoversExpands(src, p, i + 1, ts[1..]);
        case Ref(dist, len) =>
          CopyBackOccurrence(src, i, dist, len);
          CoversExpands(src, p, i + len, ts[1..]);
      }
    }
  }

  /** The tokens of lz77_compress(). */
  function Tokens(src: seq<byte>, p: Params): seq<Token> {
    Parse(src, p, 0, NoMatch)
  }

  /** Compression with LZ77 loses nothing, on any input and with any limits. */
  lemma TokensExpand(src: seq<byte>, p: Params)
    ensures Covers(src, p, 0, Tokens(src, p)) && Expand([], Tokens(src, p)) == src
    ensures forall t :: t in Tokens(src, p) ==> TokenOk(p, t)
  {
    ParseCovers(src, p, 0, NoMatch);
    CoversExpands(src, p, 0, Tokens(src, p));
    CoversOk(src, p, 0, Tokens(src, p));
    assert src[..0] == [];
  }

  lemma {:induction false} CoversOk(src: seq<byte>, p: Params, i: nat, ts: seq<Token>)
    requires Covers(src, p, i, ts)
    ensures forall t :: t in ts ==> TokenOk(p, t)
    decreases |ts|
  {
    if ts != [] {
      match ts[0] {
        case Lit(_) => CoversOk(src, p, i + 1, ts[1..]);
        case Ref(_, len) => CoversOk(src, p, i + len, ts[1..]);
      }
      assert ts == [ts[0]] + ts[1..];
    }
  }
}
