/** Symbol frequencies of a block and the cost of its encodings (hwzip/deflate.c, lines 656-717). */
module DeflateCost {
  import opened Bits
  import opened Huffman
  import opened DeflateTables
  import opened DeflateFormat
  import HuffmanLengths

  const LITLEN_SYMS: nat := 286
  const DIST_SYMS: nat := 30

  function NoFreqs(n: nat): (z: seq<nat>)
    ensures |z| == n
  {
    seq(n, _ => 0)
  }

  /** One more occurrence. */
  function Bump(freqs: seq<nat>, i: nat): (f: seq<nat>)
    requires i < |freqs|
    ensures |f| == |freqs|
  {
    freqs[i := freqs[i] + 1]
  }

  lemma LitlenRange(s: Sym)
    requires SymInRange(s)
    ensures LitlenOf(s) < LITLEN_SYMS
  {
  }

  ghost predicate SymsInRange(syms: seq<Sym>) {
    forall s :: s in syms ==> SymInRange(s)
  }

  /** How often each literal or length symbol occurs. */
  function LitlenFreqs(syms: seq<Sym>): (f: seq<nat>)
    requires SymsInRange(syms)
    ensures |f| == LITLEN_SYMS
  {
    if syms == [] then NoFreqs(LITLEN_SYMS)
    else
      var s := syms[|syms| - 1];
      LitlenRange(s);
      Bump(LitlenFreqs(syms[..|syms| - 1]), LitlenOf(s))
  }

  /** How often each distance symbol occurs. */
  function DistFreqs(syms: seq<Sym>): (f: seq<nat>)
    requires SymsInRange(syms)
    ensures |f| == DIST_SYMS
  {
    if syms == [] then NoFreqs(DIST_SYMS)
    else
      var s := syms[|syms| - 1];
      var f := DistFreqs(syms[..|syms| - 1]);
      if s.distance == 0 then f else Bump(f, DistCode(s.distance))
  }

  lemma FreqsNext(syms: seq<Sym>, s: Sym)
    requires SymsInRange(syms) && SymInRange(s)
    ensures SymsInRange(syms + [s]) && LitlenOf(s) < LITLEN_SYMS
    ensures LitlenFreqs(syms + [s]) == Bump(LitlenFreqs(syms), LitlenOf(s))
    ensures DistFreqs(syms + [s]) == if s.distance == 0 then DistFreqs(syms) else Bump(DistFreqs(syms), DistCode(s.distance))
  {
    assert (syms + [s])[..|syms|] == syms;
    LitlenRange(s);
  }

  lemma {:induction false} SumOfBump(freqs: seq<nat>, i: nat)
    requires i < |freqs|
    ensures HuffmanLengths.Sum(Bump(freqs, i)) == HuffmanLengths.Sum(freqs) + 1
  {
    var n := |freqs| - 1;
    if i < n {
      SumOfBump(freqs[..n], i);
      assert Bump(freqs, i)[..n] == Bump(freqs[..n], i);
    } else {
      assert Bump(freqs, i)[..n] == freqs[..n];
    }
  }

  lemma {:induction false} SumOfNone(n: nat)
    ensures HuffmanLengths.Sum(NoFreqs(n)) == 0
  {
    if n > 0 {
      SumOfNone(n - 1);
      assert NoFreqs(n)[..n - 1] == NoFreqs(n - 1);
    }
  }

  /** There are as many occurrences as elements, so the frequencies fit in 16 bits. */
  lemma {:induction false} SumOfFreqs(syms: seq<Sym>)
    requires SymsInRange(syms)
    ensures HuffmanLengths.Sum(LitlenFreqs(syms)) == |syms| && HuffmanLengths.Sum(DistFreqs(syms)) <= |syms|
  {
    hide HuffmanLengths.Sum, Bump, Zeros;
    if syms == [] {
      SumOfNone(LITLEN_SYMS);
      SumOfNone(DIST_SYMS);
    } else {
      var n := |syms| - 1;
      var s := syms[n];
      assert syms == syms[..n] + [s];
      SumOfFreqs(syms[..n]);
      FreqsNext(syms[..n], s);
      SumOfBump(LitlenFreqs(syms[..n]), LitlenOf(s));
      if s.distance != 0 {
        SumOfBump(DistFreqs(syms[..n]), DistCode(s.distance));
      }
    }
  }

  /** A symbol occurs exactly if its frequency is not zero. */
  lemma {:induction false} OccursIff(syms: seq<Sym>, s: Sym)
    requires SymsInRange(syms) && s in syms
    ensures LitlenOf(s) < LITLEN_SYMS && LitlenFreqs(syms)[LitlenOf(s)] > 0
    ensures s.distance > 0 ==> DistFreqs(syms)[DistCode(s.distance)] > 0
  {
    var n := |syms| - 1;
    var last := syms[n];
    assert syms == syms[..n] + [last];
    FreqsNext(syms[..n], last);
    if s != last {
      OccursIff(syms[..n], s);
    }
  }

  // ---------------------------------------------------------------- sums

  /** The sum of the first n products. */
  function Products(f: seq<nat>, g: seq<nat>, n: nat): nat
    requires n <= |f| && n <= |g|
  {
    if n == 0 then 0 else Products(f, g, n - 1) + f[n - 1] * g[n - 1]
  }

  lemma {:induction false} ProductsOfBump(f: seq<nat>, g: seq<nat>, n: nat, i: nat)
    requires i < |f| && n <= |f| && n <= |g|
    ensures Products(Bump(f, i), g, n) == Products(f, g, n) + if i < n then g[i] else 0
  {
    if n > 0 {
      ProductsOfBump(f, g, n - 1, i);
      if i == n - 1 {
        assert (f[i] + 1) * g[i] == f[i] * g[i] + g[i];
      }
    }
  }

  lemma {:induction false} ProductsOfNone(g: seq<nat>, k: nat, n: nat)
    requires n <= k && n <= |g|
    ensures Products(NoFreqs(k), g, n) == 0
  {
    if n > 0 {
      ProductsOfNone(g, k, n - 1);
    }
  }

  /** What each literal or length symbol costs, with its extra bits. */
  function LitlenCosts(litlen: seq<nat>): (c: seq<nat>)
    requires |litlen| >= LITLEN_SYMS
    ensures |c| == LITLEN_SYMS
  {
    seq(LITLEN_SYMS, i requires 0 <= i < LITLEN_SYMS =>
      litlen[i] + if i >= LITLEN_TBL_OFFSET then LEN_EBITS[i - LITLEN_TBL_OFFSET] else 0)
  }

  function DistCosts(dist: seq<nat>): (c: seq<nat>)
    requires |dist| >= DIST_SYMS
    ensures |c| == DIST_SYMS
  {
    seq(DIST_SYMS, i requires 0 <= i < DIST_SYMS => dist[i] + DIST_EBITS[i])
  }

  /** The cost of a block with these frequencies. */
  function BodyCost(litlenFreqs: seq<nat>, distFreqs: seq<nat>, litlen: seq<nat>, dist: seq<nat>): nat
    requires |litlenFreqs| == LITLEN_SYMS && |distFreqs| == DIST_SYMS && |litlen| >= LITLEN_SYMS && |dist| >= DIST_SYMS
  {
    Products(litlenFreqs, LitlenCosts(litlen), LITLEN_SYMS) + Products(distFreqs, DistCosts(dist), DIST_SYMS)
  }

  lemma SymCost(litlen: seq<nat>, dist: seq<nat>, s: Sym)
    requires HasCode(litlen, dist, s) && |litlen| >= LITLEN_SYMS && |dist| >= DIST_SYMS
    ensures LitlenOf(s) < LITLEN_SYMS
    ensures |SymBits(litlen, dist, s)|
         == LitlenCosts(litlen)[LitlenOf(s)] + if s.distance == 0 then 0 else DistCosts(dist)[DistCode(s.distance)]
  {
    hide Codeword, LenCode, DistCode;
    LitlenRange(s);
    if s.distance > 0 {
      LenInRange(s.value);
      DistInRange(s.distance);
    }
  }

  /** The predicted cost of a block is the number of bits it takes. */
  lemma {:induction false} BodyCostIsBits(litlen: seq<nat>, dist: seq<nat>, syms: seq<Sym>)
    requires HaveCode(litlen, dist, syms) && |litlen| >= LITLEN_SYMS && |dist| >= DIST_SYMS && SymsInRange(syms)
    ensures |BodyBits(litlen, dist, syms)| == BodyCost(LitlenFreqs(syms), DistFreqs(syms), litlen, dist)
  {
    hide HasCode, SymBits, LitlenCosts, DistCosts, Products, Bump, Zeros, LitlenOf, DistCode;
    if syms == [] {
      ProductsOfNone(LitlenCosts(litlen), LITLEN_SYMS, LITLEN_SYMS);
      ProductsOfNone(DistCosts(dist), DIST_SYMS, DIST_SYMS);
    } else {
      var n := |syms| - 1;
      var s := syms[n];
      assert syms == syms[..n] + [s];
      BodyCostIsBits(litlen, dist, syms[..n]);
      FreqsNext(syms[..n], s);
      SymCost(litlen, dist, s);
      ProductsOfBump(LitlenFreqs(syms[..n]), LitlenCosts(litlen), LITLEN_SYMS, LitlenOf(s));
      if s.distance != 0 {
        ProductsOfBump(DistFreqs(syms[..n]), DistCosts(dist), DIST_SYMS, DistCode(s.distance));
      }
    }
  }

  lemma CostsAt(litlen: seq<nat>, dist: seq<nat>, i: nat)
    requires |litlen| >= LITLEN_SYMS && |dist| >= DIST_SYMS
    ensures i < LITLEN_SYMS ==>
              LitlenCosts(litlen)[i] == litlen[i] + if i >= LITLEN_TBL_OFFSET then LEN_EBITS[i - LITLEN_TBL_OFFSET] else 0
    ensures i < DIST_SYMS ==> DistCosts(dist)[i] == dist[i] + DIST_EBITS[i]
  {
  }

  /** huffman_block_body_len() */
  method HuffmanBlockBodyLen(litlenFreqs: seq<nat>, distFreqs: seq<nat>, litlen: seq<nat>, dist: seq<nat>) returns (len: nat)
    requires |litlenFreqs| == LITLEN_SYMS && |distFreqs| == DIST_SYMS && |litlen| >= LITLEN_SYMS && |dist| >= DIST_SYMS
    ensures len == BodyCost(litlenFreqs, distFreqs, litlen, dist)
  {
    hide LitlenCosts, DistCosts;
    len := 0;
    var i := 0;
    while i < LITLEN_SYMS
      invariant i <= LITLEN_SYMS && len == Products(litlenFreqs, LitlenCosts(litlen), i)
    {
      CostsAt(litlen, dist, i);
      var freq := litlenFreqs[i];
      var ebits := if i >= LITLEN_TBL_OFFSET then LEN_EBITS[i - LITLEN_TBL_OFFSET] else 0;
      Distribute(freq, litlen[i], ebits);
      len := len + freq * litlen[i];
      if i >= LITLEN_TBL_OFFSET {
        len := len + freq * ebits;
      }
      i := i + 1;
    }
    i := 0;
    ghost var first := len;
    while i < DIST_SYMS
      invariant i <= DIST_SYMS && len == first + Products(distFreqs, DistCosts(dist), i)
    {
      CostsAt(litlen, dist, i);
      var freq := distFreqs[i];
      Distribute(freq, dist[i], DIST_EBITS[i]);
      len := len + freq * dist[i];
      len := len + freq * DIST_EBITS[i];
      i := i + 1;
    }
  }
}
