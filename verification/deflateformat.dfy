/** The Deflate format: what a stream stands for, and what stands for a block of symbols
    (RFC 1951, section 3.2; the reading side of hwzip/deflate.c, lines 46-418). */
module DeflateFormat {
  import opened Bits
  import opened Outcome
  import opened Huffman
  import opened Lz77
  import opened DeflateTables
  import opened CodeLengths

  // ---------------------------------------------------------------- reading

  datatype Reference = NoReference | Reference(dist: nat, len: nat, rest: seq<bool>)

  /** Reads what follows the symbol for a length: extra bits, the symbol for a distance, extra bits. */
  function ReadReference(code: nat, bits: seq<bool>, dist: seq<nat>): (r: Reference)
    requires code < 29
    ensures r.Reference? ==> |r.rest| <= |bits|
  {
    if |bits| < LEN_EBITS[code] then NoReference
    else ReadAfterLength(bits[LEN_EBITS[code]..], dist, BASE_LEN[code] + FromBits(bits[..LEN_EBITS[code]]))
  }

  function ReadAfterLength(bits: seq<bool>, dist: seq<nat>, len: nat): (r: Reference)
    ensures r.Reference? ==> |r.rest| <= |bits|
  {
    match Decode(dist, bits)
    case NoSymbol => NoReference
    case Symbol(d, rest) => ReadDistance(d, rest, len)
  }

  function ReadDistance(d: nat, bits: seq<bool>, len: nat): (r: Reference)
    ensures r.Reference? ==> |r.rest| <= |bits|
  {
    if d > DISTSYM_MAX || |bits| < DIST_EBITS[d] then NoReference
    else Reference(BASE_DIST[d] + FromBits(bits[..DIST_EBITS[d]]), len, bits[DIST_EBITS[d]..])
  }

  /** inf_block(): reads symbols up to the end of the block. */
  function InfBlock(bits: seq<bool>, out: seq<byte>, cap: nat, litlen: seq<nat>, dist: seq<nat>): (r: Status<Output>)
    ensures r.Ok? ==> |r.value.rest| <= |bits|
    decreases |bits|
  {
    match Decode(litlen, bits)
    case NoSymbol => Err
    case Symbol(s, rest) =>
      if s > LITLEN_MAX then Err
      else if s < LITLEN_EOB then
        if |out| >= cap then Full else InfBlock(rest, out + [s], cap, litlen, dist)
      else if s == LITLEN_EOB then Ok(Output(out, rest))
      else
        match ReadReference(s - LITLEN_TBL_OFFSET, rest, dist)
        case NoReference => Err
        case Reference(d, len, rest') =>
          if d > |out| then Err
          else if |out| + len > cap then Full
          else InfBlock(rest', CopyBack(out, d, len), cap, litlen, dist)
  }

  function BitsToBytes(b: seq<bool>): (s: seq<byte>)
    ensures |s| == |b| / 8
  {
    if |b| < 8 then []
    else
      FromBitsBound(b[..8]);
      assert Pow2(8) == 256;
      [FromBits(b[..8])] + BitsToBytes(b[8..])
  }

  /** inf_noncomp_block(): a stream is made of whole bytes, so the bits up to the next whole byte are
      those left over by division by 8. */
  function InfStored(bits: seq<bool>, out: seq<byte>, cap: nat): (r: Status<Output>)
    ensures r.Ok? ==> |r.value.rest| <= |bits|
  {
    InfAligned(bits[|bits| % 8..], out, cap)
  }

  function InfAligned(b: seq<bool>, out: seq<byte>, cap: nat): (r: Status<Output>)
    ensures r.Ok? ==> |r.value.rest| <= |b|
  {
    if |b| < 32 then Err
    else
      var len, nlen := FromBits(b[..16]), FromBits(b[16..32]);
      if nlen != 0xFFFF - len || |b| < 32 + 8 * len then Err
      else if |out| + len > cap then Full
      else Ok(Output(out + BitsToBytes(b[32..32 + 8 * len]), b[32 + 8 * len..]))
  }

  /** The contents of a block of one of the three kinds. */
  function InfContents(kind: nat, bits: seq<bool>, out: seq<byte>, cap: nat): (r: Status<Output>)
    ensures r.Ok? ==> |r.value.rest| <= |bits|
  {
    if kind == 0 then InfStored(bits, out, cap)
    else if kind == 1 then InfBlock(bits, out, cap, FixedLitlenLengths(), FixedDistLengths())
    else if kind == 2 then
      match ReadHeader(bits)
      case NoHeader => Err
      case Header(litlen, dist, rest) => InfBlock(rest, out, cap, litlen, dist)
    else Err
  }

  /** hwinflate(): reads blocks up to the final one. */
  function Inflate(bits: seq<bool>, out: seq<byte>, cap: nat): Status<Output>
    decreases |bits|
  {
    if |bits| < 3 then Err
    else
      var r := InfContents(FromBits(bits[1..3]), bits[3..], out, cap);
      if r.Ok? && !bits[0] then Inflate(r.value.rest, r.value.out, cap) else r
  }

  // ---------------------------------------------------------------- writing

  /** An element of a block: a literal or the end-of-block symbol if the distance is 0, else a back
      reference and its length. */
  datatype Sym = Sym(distance: nat, value: nat)

  const EOB: Sym := Sym(0, LITLEN_EOB)

  function ToSym(t: Token): Sym {
    match t
    case Lit(b) => Sym(0, b)
    case Ref(dist, len) => Sym(dist, len)
  }

  /** The literal or length symbol of an element. */
  function LitlenOf(s: Sym): nat {
    if s.distance == 0 then s.value else LITLEN_TBL_OFFSET + LenCode(s.value)
  }

  predicate SymInRange(s: Sym) {
    if s.distance == 0 then s.value <= LITLEN_EOB
    else MIN_MATCH <= s.value <= MAX_MATCH && s.distance <= MAX_DISTANCE
  }

  /** An element that the two codes have codewords for. */
  predicate HasCode(litlen: seq<nat>, dist: seq<nat>, s: Sym) {
    && SymInRange(s)
    && LitlenOf(s) < |litlen| && litlen[LitlenOf(s)] > 0
    && (s.distance > 0 ==> DistCode(s.distance) < |dist| && dist[DistCode(s.distance)] > 0)
  }

  function LenExtra(s: Sym): seq<bool>
    requires SymInRange(s) && s.distance > 0
  {
    LenInRange(s.value);
    ToBits(s.value - BASE_LEN[LenCode(s.value)], LEN_EBITS[LenCode(s.value)])
  }

  function DistExtra(s: Sym): seq<bool>
    requires SymInRange(s) && s.distance > 0
  {
    DistInRange(s.distance);
    ToBits(s.distance - BASE_DIST[DistCode(s.distance)], DIST_EBITS[DistCode(s.distance)])
  }

  /** The bits of an element. */
  function SymBits(litlen: seq<nat>, dist: seq<nat>, s: Sym): seq<bool>
    requires HasCode(litlen, dist, s)
  {
    if s.distance == 0 then Codeword(litlen, s.value)
    else Codeword(litlen, LitlenOf(s)) + LenExtra(s) + Codeword(dist, DistCode(s.distance)) + DistExtra(s)
  }

  ghost predicate HaveCode(litlen: seq<nat>, dist: seq<nat>, syms: seq<Sym>) {
    forall s :: s in syms ==> HasCode(litlen, dist, s)
  }

  function BodyBits(litlen: seq<nat>, dist: seq<nat>, syms: seq<Sym>): seq<bool>
    requires HaveCode(litlen, dist, syms)
  {
    if syms == [] then []
    else BodyBits(litlen, dist, syms[..|syms| - 1]) + SymBits(litlen, dist, syms[|syms| - 1])
  }

  lemma {:induction false} BodyFirst(litlen: seq<nat>, dist: seq<nat>, s: Sym, syms: seq<Sym>)
    requires HaveCode(litlen, dist, [s] + syms)
    ensures HasCode(litlen, dist, s) && HaveCode(litlen, dist, syms)
    ensures BodyBits(litlen, dist, [s] + syms) == SymBits(litlen, dist, s) + BodyBits(litlen, dist, syms)
  {
    hide SymBits, HasCode;
    var all := [s] + syms;
    assert all[0] == s && forall x :: x in syms ==> x in all;
    if syms == [] {
      assert all[..0] == [];
    } else {
      var n := |syms| - 1;
      assert all[..|all| - 1] == [s] + syms[..n];
      BodyFirst(litlen, dist, s, syms[..n]);
    }
  }

  // ---------------------------------------------------------------- reading what was written

  ghost predicate Codes(litlen: seq<nat>, dist: seq<nat>) {
    LengthsOk(litlen) && Fits(litlen) && LengthsOk(dist) && Fits(dist)
  }

  lemma ExtraRound(v: nat, base: nat, n: nat, rest: seq<bool>)
    requires base <= v < base + Pow2(n)
    ensures var b := ToBits(v - base, n) + rest;
            |b| >= n && base + FromBits(b[..n]) == v && b[n..] == rest
  {
    FromToBits(v - base, n);
    assert (ToBits(v - base, n) + rest)[..n] == ToBits(v - base, n);
  }

  lemma DistanceReads(s: Sym, rest: seq<bool>, len: nat)
    requires SymInRange(s) && s.distance > 0
    ensures ReadDistance(DistCode(s.distance), DistExtra(s) + rest, len) == Reference(s.distance, len, rest)
  {
    hide FromBits, Pow2;
    DistInRange(s.distance);
    var k := DistCode(s.distance);
    ExtraRound(s.distance, BASE_DIST[k], DIST_EBITS[k], rest);
  }

  lemma ReferenceReads(litlen: seq<nat>, dist: seq<nat>, s: Sym, rest: seq<bool>)
    requires Codes(litlen, dist) && HasCode(litlen, dist, s) && s.distance > 0
    ensures ReadReference(LenCode(s.value), LenExtra(s) + (Codeword(dist, DistCode(s.distance)) + (DistExtra(s) + rest)), dist)
         == Reference(s.distance, s.value, rest)
  {
    hide FromBits, ToBits, Pow2, Fits, LengthsOk, Codeword, Decode, ReadDistance, DistExtra, DistCode;
    LenInRange(s.value);
    var k, after := LenCode(s.value), Codeword(dist, DistCode(s.distance)) + (DistExtra(s) + rest);
    ExtraRound(s.value, BASE_LEN[k], LEN_EBITS[k], after);
    DecodeCodeword(dist, DistCode(s.distance), DistExtra(s) + rest);
    DistanceReads(s, rest, s.value);
  }

  /** The end of a block. */
  lemma EndReads(litlen: seq<nat>, dist: seq<nat>, out: seq<byte>, cap: nat, rest: seq<bool>)
    requires Codes(litlen, dist) && HasCode(litlen, dist, EOB)
    ensures InfBlock(SymBits(litlen, dist, EOB) + rest, out, cap, litlen, dist) == Ok(Output(out, rest))
  {
    hide Fits, LengthsOk, Codeword, Decode;
    DecodeCodeword(litlen, LITLEN_EOB, rest);
  }

  /** A token that can be read after n bytes of output. */
  predicate TokenFits(n: nat, t: Token) {
    t.Ref? ==> 1 <= t.dist <= n && t.dist <= MAX_DISTANCE && MIN_MATCH <= t.len <= MAX_MATCH
  }

  function TokenLen(t: Token): nat {
    if t.Lit? then 1 else t.len
  }

  lemma LitReads(litlen: seq<nat>, dist: seq<nat>, b: byte, out: seq<byte>, cap: nat, rest: seq<bool>)
    requires Codes(litlen, dist) && HasCode(litlen, dist, Sym(0, b)) && |out| < cap
    ensures InfBlock(SymBits(litlen, dist, Sym(0, b)) + rest, out, cap, litlen, dist)
         == InfBlock(rest, out + [b], cap, litlen, dist)
  {
    hide Fits, LengthsOk, Codeword, Decode, ReadReference;
    DecodeCodeword(litlen, b, rest);
  }

  lemma RefReads(litlen: seq<nat>, dist: seq<nat>, s: Sym, out: seq<byte>, cap: nat, rest: seq<bool>)
    requires Codes(litlen, dist) && HasCode(litlen, dist, s) && 0 < s.distance <= |out| && |out| + s.value <= cap
    ensures InfBlock(SymBits(litlen, dist, s) + rest, out, cap, litlen, dist)
         == InfBlock(rest, CopyBack(out, s.distance, s.value), cap, litlen, dist)
  {
    hide Fits, LengthsOk, Codeword, Decode, ReadReference, LenExtra, DistExtra, LenCode, DistCode, CopyBack;
    var after := Codeword(dist, DistCode(s.distance)) + (DistExtra(s) + rest);
    assert SymBits(litlen, dist, s) + rest == Codeword(litlen, LitlenOf(s)) + (LenExtra(s) + after);
    DecodeCodeword(litlen, LitlenOf(s), LenExtra(s) + after);
    ReferenceReads(litlen, dist, s, rest);
  }

  /** Reading the bits of a token does what the token says. */
  lemma TokenReads(litlen: seq<nat>, dist: seq<nat>, t: Token, out: seq<byte>, cap: nat, rest: seq<bool>)
    requires Codes(litlen, dist) && HasCode(litlen, dist, ToSym(t)) && TokenFits(|out|, t) && |out| + TokenLen(t) <= cap
    ensures InfBlock(SymBits(litlen, dist, ToSym(t)) + rest, out, cap, litlen, dist)
         == InfBlock(rest, Apply(out, t), cap, litlen, dist)
  {
    match t {
      case Lit(b) => LitReads(litlen, dist, b, out, cap, rest);
      case Ref(_, _) => RefReads(litlen, dist, ToSym(t), out, cap, rest);
    }
  }

  /** How many bytes tokens stand for. */
  function TokensLen(ts: seq<Token>): nat {
    if ts == [] then 0 else TokenLen(ts[0]) + TokensLen(ts[1..])
  }

  /** Tokens that can be read after n bytes of output. */
  ghost predicate TokensFit(n: nat, ts: seq<Token>)
    decreases |ts|
  {
    ts != [] ==> TokenFits(n, ts[0]) && TokensFit(n + TokenLen(ts[0]), ts[1..])
  }

  function ToSyms(ts: seq<Token>): (syms: seq<Sym>)
    ensures |syms| == |ts|
  {
    seq(|ts|, i requires 0 <= i < |ts| => ToSym(ts[i]))
  }

  lemma ApplyLen(out: seq<byte>, t: Token)
    ensures |Apply(out, t)| == |out| + TokenLen(t)
  {
  }

  /** Reading the bits of the tokens of a block and its end expands the tokens. */
  lemma {:induction false} BodyReads(litlen: seq<nat>, dist: seq<nat>, ts: seq<Token>, out: seq<byte>, cap: nat, rest: seq<bool>)
    requires Codes(litlen, dist) && HaveCode(litlen, dist, ToSyms(ts) + [EOB])
    requires TokensFit(|out|, ts) && |out| + TokensLen(ts) <= cap
    ensures InfBlock(BodyBits(litlen, dist, ToSyms(ts) + [EOB]) + rest, out, cap, litlen, dist) == Ok(Output(Expand(out, ts), rest))
    decreases |ts|
  {
    hide SymBits, HasCode, Codes, InfBlock, BodyBits, TokenFits, TokenLen, ToSym, Apply;
    var all := ToSyms(ts) + [EOB];
    if ts == [] {
      assert all == [EOB] + [];
      BodyFirst(litlen, dist, EOB, []);
      assert BodyBits(litlen, dist, []) == [] by { BodyNone(litlen, dist); }
      assert BodyBits(litlen, dist, all) == SymBits(litlen, dist, EOB);
      EndReads(litlen, dist, out, cap, rest);
    } else {
      var more := ToSyms(ts[1..]) + [EOB];
      assert all == [ToSym(ts[0])] + more;
      BodyFirst(litlen, dist, ToSym(ts[0]), more);
      assert BodyBits(litlen, dist, all) + rest == SymBits(litlen, dist, ToSym(ts[0])) + (BodyBits(litlen, dist, more) + rest);
      TokenReads(litlen, dist, ts[0], out, cap, BodyBits(litlen, dist, more) + rest);
      ApplyLen(out, ts[0]);
      BodyReads(litlen, dist, ts[1..], Apply(out, ts[0]), cap, rest);
    }
  }

  lemma BodyNone(litlen: seq<nat>, dist: seq<nat>)
    ensures BodyBits(litlen, dist, []) == []
  {
  }

  // ---------------------------------------------------------------- stored blocks

  lemma {:induction false} BitsToBytesRound(s: seq<byte>)
    ensures BitsToBytes(BytesToBits(s)) == s
  {
    if s != [] {
      BitsToBytesRound(s[1..]);
      var b := BytesToBits(s);
      assert b[..8] == ToBits(s[0], 8) && b[8..] == BytesToBits(s[1..]);
      assert Pow2(8) == 256;
      FromToBits(s[0], 8);
    }
  }

  /** The bits of a stored block after the padding. */
  function StoredBits(data: seq<byte>): seq<bool>
    requires |data| < 0x1_0000
  {
    ToBits(|data|, 16) + ToBits(0xFFFF - |data|, 16) + BytesToBits(data)
  }

  lemma StoredReads(pad: seq<bool>, data: seq<byte>, out: seq<byte>, cap: nat, rest: seq<bool>)
    requires |data| < 0x1_0000 && |out| + |data| <= cap
    requires |pad| == |pad + StoredBits(data) + rest| % 8
    ensures InfStored(pad + StoredBits(data) + rest, out, cap) == Ok(Output(out + data, rest))
  {
    hide ToBits, FromBits, BytesToBits, BitsToBytes, Pow2;
    var bits := pad + StoredBits(data) + rest;
    var b := bits[|bits| % 8..];
    var len, nlen, body := ToBits(|data|, 16), ToBits(0xFFFF - |data|, 16), BytesToBits(data);
    assert b == len + nlen + body + rest;
    assert b[..16] == len && b[16..32] == nlen && b[32..32 + 8 * |data|] == body && b[32 + 8 * |data|..] == rest;
    Pow2Word();
    FromToBits(|data|, 16);
    FromToBits(0xFFFF - |data|, 16);
    BitsToBytesRound(data);
  }

  // ---------------------------------------------------------------- whole blocks

  /** The bits b of a block, which end at bit `total` of the stream, are read as the step from out to
      out', whatever follows. */
  ghost predicate BlockReads(b: seq<bool>, total: nat, final: bool, out: seq<byte>, out': seq<byte>) {
    forall rest: seq<bool>, cap: nat :: (total + |rest|) % 8 == 0 && |out'| <= cap ==>
      && (final ==> Inflate(b + rest, out, cap) == Ok(Output(out', rest)))
      && (!final ==> Inflate(b + rest, out, cap) == Inflate(rest, out', cap))
  }

  /** The three header bits. */
  function BlockHeader(final: bool, kind: nat): (b: seq<bool>)
    ensures |b| == 3
  {
    [final] + ToBits(kind, 2)
  }

  lemma ContentsReads(final: bool, kind: nat, b: seq<bool>, out: seq<byte>, cap: nat, rest: seq<bool>, out': seq<byte>)
    requires kind < 4 && InfContents(kind, b + rest, out, cap) == Ok(Output(out', rest))
    ensures final ==> Inflate(BlockHeader(final, kind) + b + rest, out, cap) == Ok(Output(out', rest))
    ensures !final ==> Inflate(BlockHeader(final, kind) + b + rest, out, cap) == Inflate(rest, out', cap)
  {
    hide InfContents, ToBits;
    var bits := BlockHeader(final, kind) + b + rest;
    assert bits == [final] + ToBits(kind, 2) + (b + rest);
    assert bits[0] == final && bits[1..3] == ToBits(kind, 2) && bits[3..] == b + rest;
    assert Pow2(2) == 4;
    FromToBits(kind, 2);
  }

  lemma StoredBlockReads(final: bool, pad: seq<bool>, data: seq<byte>, out: seq<byte>, total: nat)
    requires |data| < 0x1_0000 && |pad| < 8 && total % 8 == 0
    ensures BlockReads(BlockHeader(final, 0) + (pad + StoredBits(data)), total, final, out, out + data)
  {
    hide InfStored, StoredBits, Inflate, BlockHeader;
    var b := pad + StoredBits(data);
    StoredSize(data);
    forall rest: seq<bool>, cap: nat | (total + |rest|) % 8 == 0 && |out + data| <= cap
      ensures final ==> Inflate(BlockHeader(final, 0) + b + rest, out, cap) == Ok(Output(out + data, rest))
      ensures !final ==> Inflate(BlockHeader(final, 0) + b + rest, out, cap) == Inflate(rest, out + data, cap)
    {
      StoredReads(pad, data, out, cap, rest);
      ContentsReads(final, 0, b, out, cap, rest, out + data);
    }
  }

  lemma StoredSize(data: seq<byte>)
    requires |data| < 0x1_0000
    ensures |StoredBits(data)| == 32 + 8 * |data|
  {
  }

  lemma FixedBlockReads(final: bool, ts: seq<Token>, out: seq<byte>, total: nat)
    requires HaveCode(FixedLitlenLengths(), FixedDistLengths(), ToSyms(ts) + [EOB])
    requires Codes(FixedLitlenLengths(), FixedDistLengths()) && TokensFit(|out|, ts)
    ensures BlockReads(BlockHeader(final, 1) + BodyBits(FixedLitlenLengths(), FixedDistLengths(), ToSyms(ts) + [EOB]),
                       total, final, out, Expand(out, ts))
  {
    hide HaveCode, BodyBits, Codes, Expand, Inflate, BlockHeader, InfBlock, FixedLitlenLengths, FixedDistLengths;
    var l, d := FixedLitlenLengths(), FixedDistLengths();
    var b := BodyBits(l, d, ToSyms(ts) + [EOB]);
    ExpandLen(out, ts);
    forall rest: seq<bool>, cap: nat | (total + |rest|) % 8 == 0 && |Expand(out, ts)| <= cap
      ensures final ==> Inflate(BlockHeader(final, 1) + b + rest, out, cap) == Ok(Output(Expand(out, ts), rest))
      ensures !final ==> Inflate(BlockHeader(final, 1) + b + rest, out, cap) == Inflate(rest, Expand(out, ts), cap)
    {
      BodyReads(l, d, ts, out, cap, rest);
      ContentsReads(final, 1, b, out, cap, rest, Expand(out, ts));
    }
  }

  lemma {:induction false} ExpandLen(out: seq<byte>, ts: seq<Token>)
    ensures |Expand(out, ts)| == |out| + TokensLen(ts)
    decreases |ts|
  {
    hide Apply, TokenLen;
    if ts != [] {
      ApplyLen(out, ts[0]);
      ExpandLen(Apply(out, ts[0]), ts[1..]);
    }
  }

  /** The header is followed by a body in the codes that it gives. */
  lemma DynamicBlockReads(final: bool, header: seq<bool>, litlen: seq<nat>, dist: seq<nat>, ts: seq<Token>, out: seq<byte>, total: nat)
    requires HaveCode(litlen, dist, ToSyms(ts) + [EOB]) && Codes(litlen, dist) && TokensFit(|out|, ts)
    requires forall rest :: ReadHeader(header + rest) == Header(litlen, dist, rest)
    ensures BlockReads(BlockHeader(final, 2) + (header + BodyBits(litlen, dist, ToSyms(ts) + [EOB])),
                       total, final, out, Expand(out, ts))
  {
    hide HaveCode, BodyBits, Codes, Expand, Inflate, BlockHeader, InfBlock, ReadHeader;
    var body := BodyBits(litlen, dist, ToSyms(ts) + [EOB]);
    var b := header + body;
    ExpandLen(out, ts);
    forall rest: seq<bool>, cap: nat | (total + |rest|) % 8 == 0 && |Expand(out, ts)| <= cap
      ensures final ==> Inflate(BlockHeader(final, 2) + b + rest, out, cap) == Ok(Output(Expand(out, ts), rest))
      ensures !final ==> Inflate(BlockHeader(final, 2) + b + rest, out, cap) == Inflate(rest, Expand(out, ts), cap)
    {
      BodyReads(litlen, dist, ts, out, cap, rest);
      assert b + rest == header + (body + rest);
      assert ReadHeader(header + (body + rest)) == Header(litlen, dist, body + rest);
      ContentsReads(final, 2, b, out, cap, rest, Expand(out, ts));
    }
  }
}
