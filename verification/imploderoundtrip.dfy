/** Implode and Explode together, as hwzip/implode_fuzzer.c puts them. */
module ImplodeRoundTrip {
  import opened Bits
  import opened Outcome
  import opened Lz77
  import opened ImplodeFormat
  import opened ImplodeCodec
  import opened ExplodeCodec
  import DeflateFormat
  import Lz77Codec

  /** The compressed form of a source is read back as the source, in any mode, whatever full codes were
      chosen and whatever follows. */
  lemma RoundTrip(src: seq<byte>, mode: Mode, c: Codes, rest: seq<bool>)
    requires FullCodes(mode, c) && InRange(c)
    ensures Exploded(mode, mode.MinLen(), Imploded(src, mode, c) + rest, |src|) == Ok(Output(src, rest))
  {
    hide Exploded, Tokens, Expand, ImplodedBits, FullCodes, InRange, TokensOk;
    SourceTokensOk(src, mode);
    TokensExpand(src, Limits(mode));
    ImplodedReads(mode, c, Tokens(src, Limits(mode)), src, rest);
  }

  // ---------------------------------------------------------------- how long it gets

  lemma CodeSize(lens: seq<nat>)
    requires forall s :: 0 <= s < |lens| ==> 1 <= lens[s] <= 16
    ensures |CodeBits(lens)| <= 8 + 8 * |lens|
  {
    RunsRound(lens);
    hide RunsOf, RunsOk;
  }

  lemma CodesSize(mode: Mode, head: seq<Token>, c: Codes)
    requires TokensOk(mode, head) && Begun(mode, head, c)
    ensures |CodesBits(c)| <= 8 * 387
  {
    hide Freqs, CodeBits, GoodCode;
    CodeSize(c.lit);
    CodeSize(c.len);
    CodeSize(c.dist);
    if c.lit != [] {
      GoodIsFull(Freqs(Lits, mode, head), c.lit);
    }
    if c.len != [] {
      GoodIsFull(Freqs(Lens, mode, head), c.len);
    }
    if c.dist != [] {
      GoodIsFull(Freqs(Dists, mode, head), c.dist);
    }
  }

  lemma TokenSize(mode: Mode, c: Codes, t: Token)
    requires FullCodes(mode, c) && ImplodeFormat.TokenOk(mode, t) && (t.Ref? ==> t.len >= MIN_LEN)
    ensures |TokenBits(mode, c, t)| <= 17 * DeflateFormat.TokenLen(t)
  {
    match t {
      case Lit(b) =>
        if mode.litTree {
          FullAt(c.lit, LIT_SYMS, b);
        }
      case Ref(dist, len) =>
        hide FullCode, DistSym, LenSym, FlippedCodeword;
        FullAt(c.dist, SYMS, DistSym(mode, dist));
        FullAt(c.len, SYMS, LenSym(mode, len));
    }
  }

  lemma {:induction false} TokensSize(mode: Mode, c: Codes, ts: seq<Token>)
    requires FullCodes(mode, c) && TokensOk(mode, ts) && forall t :: t in ts && t.Ref? ==> t.len >= MIN_LEN
    ensures |TokensBits(mode, c, ts)| <= 17 * DeflateFormat.TokensLen(ts)
  {
    hide FullCodes, TokenBits, DeflateFormat.TokenLen, ImplodeFormat.TokenOk;
    if ts != [] {
      assert forall t :: t in ts[1..] ==> t in ts;
      TokenSize(mode, c, ts[0]);
      TokensSize(mode, c, ts[1..]);
    }
  }

  /** Compression takes at most 387 bytes for the codes, and 17 bits for each byte of the source. */
  lemma FitsWhenLarge(src: seq<byte>, mode: Mode, c: Codes, cap: nat)
    requires DoesNotFit(src, mode, c, cap)
    ensures 8 * cap < 8 * 387 + 17 * |src|
  {
    hide Tokens, Expand, FullCodes, InRange, TokensOk, CodesBits, TokensBits, Begun, DeflateFormat.TokensLen;
    var ts := Tokens(src, Limits(mode));
    SourceTokensOk(src, mode);
    HeadOk(mode, ts);
    TokensExpand(src, Limits(mode));
    CodesSize(mode, Head(ts), c);
    DeflateFormat.ExpandLen([], ts);
    if FullCodes(mode, c) {
      forall t | t in ts && t.Ref?
        ensures t.len >= MIN_LEN
      {
        assert Lz77.TokenOk(Limits(mode), t);
      }
      TokensSize(mode, c, ts);
    }
  }

  /** Compresses src into buf, decompresses what was written into dst, and gets src back, having read all
      that was written; it fails only if the compressed form does not fit in buf. */
  method ImplodeThenExplode(src: seq<byte>, mode: Mode, buf: array<byte>, dst: array<byte>)
    returns (ok: bool, written: nat, read: nat)
    requires buf != dst && |src| <= dst.Length && |src| <= Lz77Codec.NO_POS
    modifies buf, dst
    ensures 8 * buf.Length >= 8 * 387 + 17 * |src| ==> ok
    ensures ok ==> dst[..|src|] == src && read == written <= buf.Length
  {
    hide Exploded, Imploded, BytesToBits, DoesNotFit, FullCodes, InRange, ChosenFor;
    read := 0;
    ghost var c;
    ok, written, c := HwImplode(src, mode, buf);
    if ok {
      var data := buf[..written];
      ghost var bits := Imploded(src, mode, c);
      BytesToBitsSplit(buf[..], written);
      assert buf[..][..written] == data;
      assert BytesToBits(data)[..|bits|] == bits;
      ghost var rest := BytesToBits(data)[|bits|..];
      assert BytesToBits(data) == bits + rest;
      RoundTrip(src, mode, c, rest);
      var result := HwExplode(data, |src|, mode, false, dst);
      read := result.value;
    } else {
      FitsWhenLarge(src, mode, c, buf.Length);
    }
  }
}
