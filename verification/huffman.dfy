/** Canonical Huffman codes (section 3.2.2 of RFC 1951), as hwzip/huffman.c builds them from codeword
    lengths, and decoding by searching for the codeword that begins a bit string. */
module Huffman {
  import opened Bits
  import opened Reversal

  const MAX_BITS: nat := 16
  const MAX_SYMBOLS: nat := 288

  // ---------------------------------------------------------------- canonical codes

  /** Codeword lengths; symbols with length 0 are not part of the code. */
  ghost predicate LengthsOk(lengths: seq<nat>) {
    |lengths| <= MAX_SYMBOLS && forall s :: 0 <= s < |lengths| ==> lengths[s] <= MAX_BITS
  }

  /** The codeword lengths of n symbols in a row. */
  function Repeat(l: nat, n: nat): (s: seq<nat>)
    ensures |s| == n
  {
    seq(n, _ => l)
  }

  /** How many symbols have length l. */
  function Count(lengths: seq<nat>, l: nat): (c: nat)
    ensures c <= |lengths|
  {
    if lengths == [] then 0
    else Count(lengths[..|lengths| - 1], l) + if lengths[|lengths| - 1] == l then 1 else 0
  }

  /** The codewords of l bits that are used, or have a used codeword as a prefix. */
  function Used(lengths: seq<nat>, l: nat): nat {
    if l == 0 then 0 else 2 * Used(lengths, l - 1) + Count(lengths, l)
  }

  /** The first codeword of length l. */
  function First(lengths: seq<nat>, l: nat): nat {
    if l == 0 then 0 else 2 * Used(lengths, l - 1)
  }

  /** How many symbols before s have its length. */
  function Rank(lengths: seq<nat>, s: nat): nat
    requires s < |lengths|
  {
    Count(lengths[..s], lengths[s])
  }

  function Code(lengths: seq<nat>, s: nat): nat
    requires s < |lengths|
  {
    First(lengths, lengths[s]) + Rank(lengths, s)
  }

  /** The codeword of s, in the order in which its bits appear in a stream. */
  function Codeword(lengths: seq<nat>, s: nat): (b: seq<bool>)
    requires s < |lengths|
    ensures |b| == lengths[s]
  {
    MsbBits(Code(lengths, s), lengths[s])
  }

  /** There are enough codewords: the Kraft sum is at most 1. */
  ghost predicate Fits(lengths: seq<nat>) {
    Used(lengths, MAX_BITS) <= Pow2(MAX_BITS)
  }

  lemma {:induction false} FitsBelow(lengths: seq<nat>, l: nat, m: nat)
    requires l <= m && Used(lengths, m) <= Pow2(m)
    ensures Used(lengths, l) <= Pow2(l)
    decreases m
  {
    if l < m {
      FitsBelow(lengths, l, m - 1);
    }
  }

  lemma {:induction false} CountMonotone(lengths: seq<nat>, s: nat, t: nat, l: nat)
    requires s <= t <= |lengths|
    ensures Count(lengths[..s], l) <= Count(lengths[..t], l)
    ensures s < t && lengths[s] == l ==> Count(lengths[..s], l) < Count(lengths[..t], l)
    decreases t - s
  {
    if s < t {
      CountMonotone(lengths, s + 1, t, l);
      CountNext(lengths, s, l);
    }
  }

  lemma CountNext(lengths: seq<nat>, s: nat, l: nat)
    requires s < |lengths|
    ensures Count(lengths[..s + 1], l) == Count(lengths[..s], l) + if lengths[s] == l then 1 else 0
  {
    assert lengths[..s + 1][..s] == lengths[..s];
  }

  lemma {:induction false} CountNone(lengths: seq<nat>, l: nat)
    requires forall s :: 0 <= s < |lengths| ==> lengths[s] != l
    ensures Count(lengths, l) == 0
  {
    if lengths != [] {
      CountNone(lengths[..|lengths| - 1], l);
    }
  }

  lemma RankBelow(lengths: seq<nat>, s: nat)
    requires s < |lengths|
    ensures Rank(lengths, s) < Count(lengths, lengths[s])
  {
    CountMonotone(lengths, s, |lengths|, lengths[s]);
    assert lengths[..|lengths|] == lengths;
  }

  lemma RankInjective(lengths: seq<nat>, s: nat, t: nat)
    requires s < |lengths| && t < |lengths| && lengths[s] == lengths[t] && Rank(lengths, s) == Rank(lengths, t)
    ensures s == t
  {
    if s < t {
      CountMonotone(lengths, s, t, lengths[s]);
    } else if t < s {
      CountMonotone(lengths, t, s, lengths[s]);
    }
  }

  /** The symbol of length l with rank r. */
  function Nth(lengths: seq<nat>, l: nat, r: nat): (s: nat)
    requires r < Count(lengths, l)
    ensures s < |lengths| && lengths[s] == l && Rank(lengths, s) == r
  {
    var n := |lengths| - 1;
    if lengths[n] == l && r == Count(lengths[..n], l) then n
    else
      var s := Nth(lengths[..n], l, r);
      assert lengths[..n][..s] == lengths[..s];
      s
  }

  /** The code of a symbol is below all that its length uses, and fits in that length. */
  lemma CodeBelow(lengths: seq<nat>, s: nat, n: nat)
    requires s < |lengths| && 0 < lengths[s] <= n && Used(lengths, n) <= Pow2(n)
    ensures First(lengths, lengths[s]) <= Code(lengths, s) < Used(lengths, lengths[s]) <= Pow2(lengths[s])
    ensures MsbValue(Codeword(lengths, s)) == Code(lengths, s)
  {
    hide MsbBits, MsbValue, Pow2;
    RankBelow(lengths, s);
    FitsBelow(lengths, lengths[s], n);
    MsbRound(Code(lengths, s), lengths[s]);
  }

  /** Bits with a prefix below what its length uses keep being so. */
  lemma {:induction false} StaysBelow(lengths: seq<nat>, b: seq<bool>, l: nat, m: nat)
    requires l <= m <= |b| && MsbValue(b[..l]) < Used(lengths, l)
    ensures MsbValue(b[..m]) < Used(lengths, m)
    decreases m
  {
    if l < m {
      StaysBelow(lengths, b, l, m - 1);
      MsbValueNext(b, m - 1);
    }
  }

  ghost predicate Begins(lengths: seq<nat>, s: nat, b: seq<bool>) {
    s < |lengths| && lengths[s] > 0 && Codeword(lengths, s) <= b
  }

  /** A bit string begins with one codeword at most: the code is a prefix code. */
  lemma PrefixFree(lengths: seq<nat>, s: nat, t: nat, b: seq<bool>)
    requires LengthsOk(lengths) && Fits(lengths) && Begins(lengths, s, b) && Begins(lengths, t, b)
    ensures s == t
  {
    PrefixFreeUpTo(lengths, s, t, b, MAX_BITS);
  }

  /** Also when only the codewords of up to n bits fit. */
  lemma PrefixFreeUpTo(lengths: seq<nat>, s: nat, t: nat, b: seq<bool>, n: nat)
    requires Begins(lengths, s, b) && Begins(lengths, t, b)
    requires lengths[s] <= n && lengths[t] <= n && Used(lengths, n) <= Pow2(n)
    ensures s == t
  {
    if lengths[s] <= lengths[t] {
      NotAfter(lengths, s, t, b, n);
    } else {
      NotAfter(lengths, t, s, b, n);
    }
  }

  lemma NotAfter(lengths: seq<nat>, s: nat, t: nat, b: seq<bool>, n: nat)
    requires Begins(lengths, s, b) && Begins(lengths, t, b)
    requires lengths[s] <= lengths[t] <= n && Used(lengths, n) <= Pow2(n)
    ensures s == t
  {
    hide MsbValue, Codeword, Pow2;
    var l, m := lengths[s], lengths[t];
    CodeBelow(lengths, s, n);
    CodeBelow(lengths, t, n);
    assert b[..l] == Codeword(lengths, s) && b[..m] == Codeword(lengths, t);
    if l < m {
      StaysBelow(lengths, b, l, m - 1);
      MsbValueNext(b, m - 1);
    } else {
      RankInjective(lengths, s, t);
    }
  }

  // ---------------------------------------------------------------- decoding

  /** The least length up to which b is below what is used, and the symbol it then begins with. */
  lemma {:induction false} SomeBegins(lengths: seq<nat>, b: seq<bool>, l: nat) returns (s: nat)
    requires LengthsOk(lengths) && Fits(lengths) && l <= |b| && l <= MAX_BITS
    requires MsbValue(b[..l]) < Used(lengths, l)
    ensures Begins(lengths, s, b) && lengths[s] <= l
    decreases l
  {
    if l == 0 {
      assert false;
    } else if MsbValue(b[..l - 1]) < Used(lengths, l - 1) {
      s := SomeBegins(lengths, b, l - 1);
    } else {
      MsbValueNext(b, l - 1);
      s := AtLength(lengths, b, l);
    }
  }

  /** A bit string in the range of the codewords of length l begins with one of them. */
  lemma AtLength(lengths: seq<nat>, b: seq<bool>, l: nat) returns (s: nat)
    requires LengthsOk(lengths) && 0 < l <= |b|
    requires First(lengths, l) <= MsbValue(b[..l]) < Used(lengths, l)
    ensures s < |lengths| && lengths[s] == l && Rank(lengths, s) == MsbValue(b[..l]) - First(lengths, l)
    ensures Begins(lengths, s, b)
  {
    hide MsbValue, MsbBits;
    s := Nth(lengths, l, MsbValue(b[..l]) - First(lengths, l));
    MsbValueRound(b[..l]);
  }

  /** The search, from the last symbol on: the symbol whose codeword b begins with. */
  function FindSymbol(lengths: seq<nat>, b: seq<bool>, n: nat): (r: int)
    requires n <= |lengths|
    ensures -1 <= r < n
  {
    if n == 0 then -1
    else if lengths[n - 1] > 0 && Codeword(lengths, n - 1) <= b then n - 1
    else FindSymbol(lengths, b, n - 1)
  }

  lemma {:induction false} AboutFindSymbol(lengths: seq<nat>, b: seq<bool>, n: nat)
    requires n <= |lengths|
    ensures var r := FindSymbol(lengths, b, n);
            && (r >= 0 ==> Begins(lengths, r, b))
            && (r < 0 ==> forall s :: 0 <= s < n ==> !Begins(lengths, s, b))
  {
    hide Codeword;
    if n > 0 {
      AboutFindSymbol(lengths, b, n - 1);
    }
  }

  datatype Decoded = NoSymbol | Symbol(value: nat, rest: seq<bool>)

  /** Reads a symbol from the bits of a stream. */
  function Decode(lengths: seq<nat>, bits: seq<bool>): (d: Decoded)
    ensures d.Symbol? ==> d.value < |lengths| && 0 < lengths[d.value] <= |bits| && d.rest == bits[lengths[d.value]..]
  {
    var r := FindSymbol(lengths, bits, |lengths|);
    AboutFindSymbol(lengths, bits, |lengths|);
    if r < 0 then NoSymbol else Symbol(r, bits[lengths[r]..])
  }

  /** Decoding inverts encoding. */
  lemma DecodeCodeword(lengths: seq<nat>, s: nat, rest: seq<bool>)
    requires LengthsOk(lengths) && Fits(lengths) && s < |lengths| && lengths[s] > 0
    ensures Decode(lengths, Codeword(lengths, s) + rest) == Symbol(s, rest)
  {
    hide Codeword;
    var bits := Codeword(lengths, s) + rest;
    AboutFindSymbol(lengths, bits, |lengths|);
    assert Begins(lengths, s, bits);
    PrefixFree(lengths, s, FindSymbol(lengths, bits, |lengths|), bits);
  }

  /** What decoding finds is the one codeword that the bits begin with. */
  lemma DecodeIs(lengths: seq<nat>, bits: seq<bool>, s: nat)
    requires LengthsOk(lengths) && Fits(lengths)
    ensures Begins(lengths, s, bits) <==> Decode(lengths, bits).Symbol? && Decode(lengths, bits).value == s
  {
    hide Codeword;
    AboutFindSymbol(lengths, bits, |lengths|);
    if Begins(lengths, s, bits) {
      PrefixFree(lengths, s, FindSymbol(lengths, bits, |lengths|), bits);
    }
  }
}
