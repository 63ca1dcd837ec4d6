/** The tokens of a block and the part of the source that they stand for, in the course of hwdeflate(). */
module DeflateBlocks {
  import opened Bits
  import opened Outcome
  import opened Lz77
  import opened DeflateTables
  import opened DeflateFormat
  import opened DeflateCost

  // ---------------------------------------------------------------- tokens

  /** The tokens stand for the bytes of the source from `from` on. */
  ghost predicate BlockOk(src: seq<byte>, from: nat, bytes: nat, ts: seq<Token>) {
    && from + bytes <= |src| && TokensFit(from, ts) && TokensLen(ts) == bytes
    && Expand(src[..from], ts) == src[..from + bytes]
  }

  /** A token that stands for what comes next in the source. */
  ghost predicate NextToken(src: seq<byte>, pos: nat, t: Token) {
    pos + TokenLen(t) <= |src| && TokenFits(pos, t) && Apply(src[..pos], t) == src[..pos + TokenLen(t)]
  }

  lemma {:induction false} TokensSnoc(n: nat, ts: seq<Token>, t: Token)
    ensures TokensLen(ts + [t]) == TokensLen(ts) + TokenLen(t)
    ensures TokensFit(n, ts) && TokenFits(n + TokensLen(ts), t) ==> TokensFit(n, ts + [t])
    decreases |ts|
  {
    if ts == [] {
      assert [] + [t] == [t] && [t][1..] == [];
    } else {
      TokensSnoc(n + TokenLen(ts[0]), ts[1..], t);
      assert (ts + [t])[1..] == ts[1..] + [t];
    }
  }

  lemma BlockNext(src: seq<byte>, from: nat, bytes: nat, ts: seq<Token>, t: Token)
    requires BlockOk(src, from, bytes, ts) && NextToken(src, from + bytes, t)
    ensures BlockOk(src, from, bytes + TokenLen(t), ts + [t])
  {
    hide TokenFits, Apply, TokenLen;
    TokensSnoc(from, ts, t);
    ExpandConcat(src[..from], ts, [t]);
    assert [t][1..] == [];
  }

  lemma NoTokens(src: seq<byte>, from: nat)
    requires from <= |src|
    ensures BlockOk(src, from, 0, [])
  {
  }

  /** Each token takes a byte or more, so there are no more tokens than bytes. */
  lemma {:induction false} FewTokens(n: nat, ts: seq<Token>)
    requires TokensFit(n, ts)
    ensures |ts| <= TokensLen(ts)
    decreases |ts|
  {
    if ts != [] {
      FewTokens(n + TokenLen(ts[0]), ts[1..]);
    }
  }

  /** The tokens that LZ77 compression finds come one after the other. */
  lemma CoversNext(src: seq<byte>, p: Params, pos: nat, ts: seq<Token>)
    requires Covers(src, p, pos, ts) && ts != [] && p.maxDist <= MAX_DISTANCE && p.maxLen <= MAX_MATCH
    ensures NextToken(src, pos, ts[0]) && Covers(src, p, pos + TokenLen(ts[0]), ts[1..])
  {
    match ts[0] {
      case Lit(b) => assert src[..pos] + [b] == src[..pos + 1];
      case Ref(dist, len) => CopyBackOccurrence(src, pos, dist, len);
    }
  }

  // ---------------------------------------------------------------- symbols

  lemma ToSymsSnoc(ts: seq<Token>, t: Token)
    ensures ToSyms(ts + [t]) == ToSyms(ts) + [ToSym(t)]
  {
  }

  /** The elements of a block, and their frequencies. */
  ghost predicate Counted(ts: seq<Token>, block: seq<Sym>, litlenFreqs: seq<nat>, distFreqs: seq<nat>) {
    && block == ToSyms(ts) && SymsInRange(block)
    && litlenFreqs == LitlenFreqs(block) && distFreqs == DistFreqs(block)
    && (forall s :: s in block ==> LitlenOf(s) != LITLEN_EOB)
  }

  lemma CountedNone()
    ensures Counted([], [], NoFreqs(LITLEN_SYMS), NoFreqs(DIST_SYMS))
  {
  }

  lemma CountedNext(ts: seq<Token>, block: seq<Sym>, litlenFreqs: seq<nat>, distFreqs: seq<nat>, t: Token, n: nat)
    requires Counted(ts, block, litlenFreqs, distFreqs) && TokenFits(n, t)
    ensures LitlenOf(ToSym(t)) < |litlenFreqs| == LITLEN_SYMS && |distFreqs| == DIST_SYMS
    ensures Counted(ts + [t], block + [ToSym(t)], Bump(litlenFreqs, LitlenOf(ToSym(t))),
                    if t.Lit? then distFreqs else Bump(distFreqs, DistCode(t.dist)))
  {
    hide LitlenFreqs, DistFreqs, Bump, LenCode, DistCode;
    ToSymsSnoc(ts, t);
    FreqsNext(block, ToSym(t));
  }

  /** The end-of-block symbol does not occur before the end. */
  lemma {:induction false} NoEob(block: seq<Sym>)
    requires SymsInRange(block) && forall s :: s in block ==> LitlenOf(s) != LITLEN_EOB
    ensures LitlenFreqs(block)[LITLEN_EOB] == 0
  {
    hide LitlenOf;
    if block != [] {
      NoEob(block[..|block| - 1]);
      assert block[|block| - 1] in block;
      LitlenRange(block[|block| - 1]);
    }
  }

  /** Adding the end-of-block symbol. */
  lemma EobAdded(ts: seq<Token>, block: seq<Sym>, litlenFreqs: seq<nat>, distFreqs: seq<nat>)
    requires Counted(ts, block, litlenFreqs, distFreqs)
    ensures |litlenFreqs| == LITLEN_SYMS && SymsInRange(block + [EOB])
    ensures litlenFreqs[LITLEN_EOB := 1] == LitlenFreqs(block + [EOB]) && distFreqs == DistFreqs(block + [EOB])
  {
    hide LitlenFreqs, DistFreqs;
    NoEob(block);
    FreqsNext(block, EOB);
  }

  lemma FixedHaveCode(syms: seq<Sym>)
    requires SymsInRange(syms)
    ensures HaveCode(FixedLitlenLengths(), FixedDistLengths(), syms)
  {
    hide LenCode, DistCode;
    forall s | s in syms
      ensures HasCode(FixedLitlenLengths(), FixedDistLengths(), s)
    {
      LitlenRange(s);
    }
  }

  // ---------------------------------------------------------------- the stream

  /** The blocks written so far are read as out, whatever follows. */
  ghost predicate StreamReads(w: seq<bool>, out: seq<byte>) {
    forall rest: seq<bool>, cap: nat :: (|w| + |rest|) % 8 == 0 && |out| <= cap ==> Inflate(w + rest, [], cap) == Inflate(rest, out, cap)
  }

  /** The whole stream is read as out, and to its last byte. */
  ghost predicate StreamEnds(w: seq<bool>, out: seq<byte>) {
    forall rest: seq<bool>, cap: nat :: (|w| + |rest|) % 8 == 0 && |out| <= cap ==> Inflate(w + rest, [], cap) == Ok(Output(out, rest))
  }

  lemma StreamStart()
    ensures StreamReads([], [])
  {
    forall rest: seq<bool>
      ensures [] + rest == rest
    {
    }
  }

  lemma StreamNext(w: seq<bool>, b: seq<bool>, out: seq<byte>, out': seq<byte>, final: bool)
    requires StreamReads(w, out) && BlockReads(b, |w + b|, final, out, out') && |out| <= |out'|
    ensures final ==> StreamEnds(w + b, out')
    ensures !final ==> StreamReads(w + b, out')
  {
    hide Inflate;
    forall rest: seq<bool>, cap: nat | (|w + b| + |rest|) % 8 == 0 && |out'| <= cap
      ensures final ==> Inflate(w + b + rest, [], cap) == Ok(Output(out', rest))
      ensures !final ==> Inflate(w + b + rest, [], cap) == Inflate(rest, out', cap)
    {
      assert w + b + rest == w + (b + rest);
      assert Inflate(w + (b + rest), [], cap) == Inflate(b + rest, out, cap);
    }
  }
}
