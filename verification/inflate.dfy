/** hwinflate() and its helpers (hwzip/deflate.c, lines 46-418), on any input. */
module InflateCodec {
  import opened Bits
  import opened Bitstream
  import opened Outcome
  import opened Huffman
  import opened HuffmanDecoder
  import opened HuffmanStream
  import HuffmanLengths
  import opened Lz77
  import opened Lz77Codec
  import opened DeflateTables
  import opened CodeLengths
  import opened DeflateFormat

  // ---------------------------------------------------------------- back references

  /** Adding zeros to a stream does not change a reference that does not need them. */
  lemma DistancePadded(d: nat, b: seq<bool>, z: seq<bool>, len: nat)
    ensures match ReadDistance(d, b + z, len)
            case NoReference => ReadDistance(d, b, len) == NoReference
            case Reference(dist, l, rest) =>
              if |rest| >= |z| then ReadDistance(d, b, len) == Reference(dist, l, rest[..|rest| - |z|])
              else ReadDistance(d, b, len) == NoReference
  {
    if d <= DISTSYM_MAX {
      var n := DIST_EBITS[d];
      if n <= |b| {
        assert (b + z)[..n] == b[..n] && (b + z)[n..] == b[n..] + z;
        assert (b[n..] + z)[..|b| - n] == b[n..];
      }
    }
  }

  lemma ReferencePadded(code: nat, b: seq<bool>, z: seq<bool>, dist: seq<nat>)
    requires code < 29 && LengthsOk(dist) && Fits(dist)
    ensures match ReadReference(code, b + z, dist)
            case NoReference => ReadReference(code, b, dist) == NoReference
            case Reference(d, len, rest) =>
              if |rest| >= |z| then ReadReference(code, b, dist) == Reference(d, len, rest[..|rest| - |z|])
              else ReadReference(code, b, dist) == NoReference
  {
    hide Decode, ReadDistance, Fits, LengthsOk, FromBits;
    var n := LEN_EBITS[code];
    if n <= |b| {
      assert (b + z)[..n] == b[..n] && (b + z)[n..] == b[n..] + z;
      AfterLengthPadded(b[n..], z, dist, BASE_LEN[code] + FromBits(b[..n]));
    } else if n <= |b + z| {
      AfterLengthShort((b + z)[n..], dist, BASE_LEN[code] + FromBits((b + z)[..n]), |z|);
    }
  }

  lemma AfterLengthPadded(c: seq<bool>, z: seq<bool>, dist: seq<nat>, len: nat)
    requires LengthsOk(dist) && Fits(dist)
    ensures match ReadAfterLength(c + z, dist, len)
            case NoReference => ReadAfterLength(c, dist, len) == NoReference
            case Reference(d, l, rest) =>
              if |rest| >= |z| then ReadAfterLength(c, dist, len) == Reference(d, l, rest[..|rest| - |z|])
              else ReadAfterLength(c, dist, len) == NoReference
  {
    hide Decode, ReadDistance, Fits, LengthsOk;
    DecodePadded(dist, c, z);
    match Decode(dist, c + z) {
      case NoSymbol =>
      case Symbol(s, rest) =>
        if dist[s] <= |c| {
          DistancePadded(s, c[dist[s]..], z, len);
        } else {
          DistanceShort(s, rest, len, |z|);
        }
    }
  }

  lemma AfterLengthShort(c: seq<bool>, dist: seq<nat>, len: nat, k: nat)
    requires |c| < k
    ensures var r := ReadAfterLength(c, dist, len); r.Reference? ==> |r.rest| < k
  {
  }

  lemma DistanceShort(d: nat, b: seq<bool>, len: nat, k: nat)
    requires |b| < k
    ensures var r := ReadDistance(d, b, len); r.Reference? ==> |r.rest| < k
  {
  }

  /** The part of inf_block() that reads what follows the symbol for a length, from a window of p; used
      is the number of bits used. */
  method ReadRef(d: Decoder, code: nat, bits: nat, ghost p: seq<bool>, ghost w: nat, ghost dist: seq<nat>)
    returns (ok: bool, len: nat, distance: nat, used: nat)
    requires code < 29 && d.For(dist) && Fits(dist) && bits == Window(p, w) && 40 <= w && 40 <= |p|
    ensures used <= 34
    ensures match ReadReference(code, p, dist)
            case NoReference => !ok
            case Reference(dd, l, rest) => ok && distance == dd && len == l && used <= |p| && rest == p[used..]
    ensures ok ==> 1 <= distance && MIN_MATCH <= len <= MAX_MATCH
  {
    hide d.For, Fits, Window, Huffman.Decode, FromBits;
    LenTop(code);
    FromBitsBound(p[..LEN_EBITS[code]]);
    var extra, bits1 := TakeBits(bits, LEN_EBITS[code], p, w);
    len := BASE_LEN[code] + extra;
    ghost var p1, w1 := p[LEN_EBITS[code]..], w - LEN_EBITS[code];
    var distsym, n := DecodeWindow(d, bits1, p1, w1, dist);
    used := LEN_EBITS[code] + n;
    if distsym < 0 || distsym > DISTSYM_MAX {
      return false, 0, 0, 0;
    }
    ghost var p2 := p1[n..];
    DistTop(distsym);
    FromBitsBound(p2[..DIST_EBITS[distsym]]);
    var bits3;
    extra, bits3 := TakeBits(Shr(bits1, n), DIST_EBITS[distsym], p2, w1 - n);
    distance := BASE_DIST[distsym] + extra;
    used := used + DIST_EBITS[distsym];
    ok := true;
    assert p2[DIST_EBITS[distsym]..] == p[used..];
  }

  // ---------------------------------------------------------------- a block

  /** The outcome of part of the work: what is left to do is what the goal has left to do. */
  ghost predicate Agreed(status: Status<(bool, nat)>, goal: Status<Output>, bits: seq<bool>, dst: seq<byte>,
                         litlen: seq<nat>, dist: seq<nat>) {
    match status
    case Err => goal == Err
    case Full => goal == Full
    case Ok(v) => v.1 <= |dst| && goal == if v.0 then Ok(Output(dst[..v.1], bits)) else InfBlock(bits, dst[..v.1], |dst|, litlen, dist)
  }

  /** What there is to do after a reference has been read. */
  function AfterReference(r: Reference, out: seq<byte>, cap: nat, litlen: seq<nat>, dist: seq<nat>): Status<Output> {
    match r
    case NoReference => Err
    case Reference(d, len, rest) =>
      if d > |out| then Err
      else if |out| + len > cap then Full
      else InfBlock(rest, CopyBack(out, d, len), cap, litlen, dist)
  }

  /** What there is to do after a symbol has been decoded, and the bits b are left. */
  function AfterSymbol(s: nat, b: seq<bool>, out: seq<byte>, cap: nat, litlen: seq<nat>, dist: seq<nat>): Status<Output> {
    if s > LITLEN_MAX then Err
    else if s < LITLEN_EOB then if |out| >= cap then Full else InfBlock(b, out + [s], cap, litlen, dist)
    else if s == LITLEN_EOB then Ok(Output(out, b))
    else AfterReference(ReadReference(s - LITLEN_TBL_OFFSET, b, dist), out, cap, litlen, dist)
  }

  /** What the goal is once a symbol has been decoded from the stream with zeros after it. */
  lemma SymbolGoal(litlen: seq<nat>, dist: seq<nat>, rest: seq<bool>, z: seq<bool>, out: seq<byte>, cap: nat)
    requires LengthsOk(litlen) && Fits(litlen)
    ensures var d, goal := Huffman.Decode(litlen, rest + z), InfBlock(rest, out, cap, litlen, dist);
            if d.NoSymbol? || litlen[d.value] > |rest| then goal == Err
            else
              var b := rest[litlen[d.value]..];
              d.rest == b + z && goal == AfterSymbol(d.value, b, out, cap, litlen, dist)
  {
    hide Huffman.Decode, Fits, LengthsOk, ReadReference;
    DecodePadded(litlen, rest, z);
  }

  /** The literal case. */
  method Literal(input: IStream, dst: array<byte>, dstPos: nat, lit: byte, used: nat,
                 ghost litlen: seq<nat>, ghost dist: seq<nat>, ghost goal: Status<Output>) returns (status: Status<(bool, nat)>)
    requires input.Valid() && dstPos <= dst.Length && used > 0
    requires if used > |input.Rest()| then goal == Err
             else goal == if dstPos >= dst.Length then Full
                          else InfBlock(input.Rest()[used..], dst[..dstPos] + [lit], dst.Length, litlen, dist)
    modifies input`bitpos, dst
    ensures input.Valid() && Agreed(status, goal, input.Rest(), dst[..], litlen, dist)
    ensures status.Ok? ==> !status.value.0 && |input.Rest()| < |old(input.Rest())|
  {
    hide InfBlock;
    var ok := input.Advance(used);
    if !ok {
      return Err;
    }
    if dstPos == dst.Length {
      return Full;
    }
    OutputLit(dst, dstPos, lit);
    assert dst[..][..dstPos + 1] == dst[..dstPos + 1];
    return Ok((false, dstPos + 1));
  }

  /** The output of a back reference. */
  method Backref(dst: array<byte>, dstPos: nat, distance: nat, len: nat) returns (status: Status<nat>)
    requires dstPos <= dst.Length && 1 <= distance && 0 < len
    modifies dst
    ensures match status
            case Err => distance > dstPos
            case Full => distance <= dstPos && dstPos + len > dst.Length
            case Ok(pos) => distance <= dstPos && pos == dstPos + len <= dst.Length
                            && dst[..pos] == CopyBack(old(dst[..dstPos]), distance, len)
  {
    if distance > dstPos {
      return Err;
    }
    if RoundUp8(len) <= dst.Length - dstPos {
      OutputBackref64(dst, dstPos, distance, len);
    } else if len <= dst.Length - dstPos {
      OutputBackref(dst, dstPos, distance, len);
    } else {
      return Full;
    }
    return Ok(dstPos + len);
  }

  /** The case of a back reference, after the symbol for its length. */
  method ReferenceCase(input: IStream, dst: array<byte>, dstPos: nat, d: Decoder, code: nat, bits: nat, used: nat,
                       ghost litlen: seq<nat>, ghost dist: seq<nat>, ghost w: nat, ghost goal: Status<Output>)
    returns (status: Status<(bool, nat)>)
    requires input.Valid() && dstPos <= dst.Length && 0 < used <= MAX_BITS && code < 29 && d.For(dist) && Fits(dist)
    requires 40 <= w && bits == Window((input.Rest() + Zeros(64))[used..], w)
    requires if used > |input.Rest()| then goal == Err
             else goal == AfterReference(ReadReference(code, input.Rest()[used..], dist), dst[..dstPos], dst.Length, litlen, dist)
    modifies input`bitpos, dst
    ensures input.Valid() && Agreed(status, goal, input.Rest(), dst[..], litlen, dist)
    ensures status.Ok? ==> !status.value.0 && |input.Rest()| < |old(input.Rest())|
  {
    hide InfBlock, d.For, Fits, Window, ReadReference, CopyBack;
    ghost var rest, z := input.Rest(), Zeros(64);
    var ok, len, distance, n := ReadRef(d, code, bits, (rest + z)[used..], w, dist);
    if used <= |rest| {
      assert (rest + z)[used..] == rest[used..] + z;
      ReferencePadded(code, rest[used..], z, dist) by { DecoderLengths(d, dist); }
    }
    if !ok {
      return Err;
    }
    ok := input.Advance(used + n);
    if !ok {
      return Err;
    }
    assert (rest[used..] + z)[n..][..|rest| - used - n] == rest[used + n..];
    assert rest[used + n..] == rest[used..][n..];
    var s := Backref(dst, dstPos, distance, len);
    match s {
      case Err => status := Err;
      case Full => status := Full;
      case Ok(pos) =>
        assert dst[..][..pos] == dst[..pos];
        status := Ok((false, pos));
    }
  }

  lemma DecoderLengths(d: Decoder, lengths: seq<nat>)
    requires d.For(lengths)
    ensures LengthsOk(lengths)
  {
  }

  /** One turn of the loop of inf_block(). */
  method BlockStep(input: IStream, dst: array<byte>, dstPos: nat, litlenDec: Decoder, distDec: Decoder,
                   ghost litlen: seq<nat>, ghost dist: seq<nat>) returns (status: Status<(bool, nat)>)
    requires input.Valid() && dstPos <= dst.Length
    requires litlenDec.For(litlen) && Fits(litlen) && distDec.For(dist) && Fits(dist)
    modifies input`bitpos, dst
    ensures input.Valid()
    ensures Agreed(status, old(InfBlock(input.Rest(), dst[..dstPos], dst.Length, litlen, dist)), input.Rest(), dst[..], litlen, dist)
    ensures status.Ok? && !status.value.0 ==> |input.Rest()| < |old(input.Rest())|
  {
    hide InfBlock, Decoder.For, Fits, Window, Huffman.Decode;
    ghost var rest, z, w := input.Rest(), Zeros(64), 64 - input.bitpos % 8;
    ghost var goal := InfBlock(rest, dst[..dstPos], dst.Length, litlen, dist);
    var bits := input.PeekBits();
    WindowPadded(rest, w, 64);
    var sym, used := DecodeWindow(litlenDec, bits, rest + z, w, litlen);
    DecoderLengths(litlenDec, litlen);
    SymbolGoal(litlen, dist, rest, z, dst[..dstPos], dst.Length);
    if sym < 0 || sym > LITLEN_MAX {
      status := Err;
    } else if sym <= 255 {
      status := Literal(input, dst, dstPos, sym, used, litlen, dist, goal);
    } else if sym == LITLEN_EOB {
      var ok := input.Advance(used);
      if !ok {
        return Err;
      }
      assert dst[..][..dstPos] == dst[..dstPos];
      status := Ok((true, dstPos));
    } else {
      status := ReferenceCase(input, dst, dstPos, distDec, sym - LITLEN_TBL_OFFSET, Shr(bits, used), used,
                              litlen, dist, w - used, goal);
    }
  }

  ghost predicate BlockDone(status: Status<nat>, goal: Status<Output>, bits: seq<bool>, dst: seq<byte>) {
    match status
    case Err => goal == Err
    case Full => goal == Full
    case Ok(pos) => pos <= |dst| && goal == Ok(Output(dst[..pos], bits))
  }

  /** inf_block(): the block is read as the format says, on any input. */
  method Block(input: IStream, dst: array<byte>, dstPos: nat, litlenDec: Decoder, distDec: Decoder,
               ghost litlen: seq<nat>, ghost dist: seq<nat>) returns (status: Status<nat>)
    requires input.Valid() && dstPos <= dst.Length && litlenDec.Avoids(dst) && distDec.Avoids(dst)
    requires litlenDec.For(litlen) && Fits(litlen) && distDec.For(dist) && Fits(dist)
    modifies input`bitpos, dst
    ensures input.Valid()
    ensures BlockDone(status, old(InfBlock(input.Rest(), dst[..dstPos], dst.Length, litlen, dist)), input.Rest(), dst[..])
  {
    hide InfBlock, Decoder.For, Fits;
    ghost var goal := InfBlock(input.Rest(), dst[..dstPos], dst.Length, litlen, dist);
    var pos := dstPos;
    while true
      invariant input.Valid() && pos <= dst.Length && litlenDec.For(litlen) && distDec.For(dist)
      invariant goal == InfBlock(input.Rest(), dst[..pos], dst.Length, litlen, dist)
      decreases |input.Rest()|
    {
      var s := BlockStep(input, dst, pos, litlenDec, distDec, litlen, dist);
      match s {
        case Err => return Err;
        case Full => return Full;
        case Ok(v) =>
          pos := v.1;
          assert dst[..][..pos] == dst[..pos];
          if v.0 {
            return Ok(pos);
          }
      }
    }
  }

  // ---------------------------------------------------------------- stored blocks

  lemma SliceOfTake<T>(s: seq<T>, i: nat, j: nat)
    requires i <= j <= |s|
    ensures s[..j][i..] == s[i..j]
  {
  }

  lemma SliceOfDrop<T>(s: seq<T>, k: nat, i: nat, j: nat)
    requires k <= |s| && i <= j <= |s| - k
    ensures s[k..][i..j] == s[k + i..k + j]
  {
  }

  lemma DropOfDrop<T>(s: seq<T>, k: nat, i: nat)
    requires k + i <= |s|
    ensures s[k..][i..] == s[k + i..]
  {
  }

  /** The bits between byte boundaries lo and hi are those of the bytes there. */
  lemma BitsOfBytes(src: seq<byte>, i: nat, j: nat, lo: nat, hi: nat)
    requires i <= j <= |src| && lo == 8 * i && hi == 8 * j
    ensures lo <= hi <= |BytesToBits(src)| && BytesToBits(src)[lo..hi] == BytesToBits(src[i..j])
  {
    hide BytesToBits;
    BytesToBitsSplit(src, j);
    BytesToBitsSplit(src[..j], i);
    SliceOfTake(src, i, j);
    SliceOfTake(BytesToBits(src), lo, hi);
  }

  lemma LeValueOfTwo(s: seq<byte>)
    requires |s| == 2
    ensures LeValue(s) == Read16le(s, 0)
  {
    assert LeValue(s[1..]) == s[1] + 256 * LeValue(s[1..][1..]);
  }

  lemma ReadWord(src: seq<byte>, i: nat, lo: nat, hi: nat)
    requires i + 2 <= |src| && lo == 8 * i && hi == lo + 16
    ensures lo <= hi <= |BytesToBits(src)| && FromBits(BytesToBits(src)[lo..hi]) == Read16le(src, i)
  {
    hide BytesToBits, FromBits;
    BitsOfBytes(src, i, i + 2, lo, hi);
    LeValueIsFromBits(src[i..i + 2]);
    LeValueOfTwo(src[i..i + 2]);
  }

  lemma StoredHeader(src: seq<byte>, next: nat, lo: nat, b: seq<bool>)
    requires next + 4 <= |src| && lo == 8 * next && b == BytesToBits(src)[lo..]
    ensures |b| >= 32 && FromBits(b[..16]) == Read16le(src, next) && FromBits(b[16..32]) == Read16le(src, next + 2)
  {
    hide FromBits, BytesToBits, Read16le;
    ReadWord(src, next, lo, lo + 16);
    ReadWord(src, next + 2, lo + 16, lo + 32);
    SliceOfDrop(BytesToBits(src), lo, 0, 16);
    SliceOfDrop(BytesToBits(src), lo, 16, 32);
    assert b[..16] == b[0..16];
  }

  lemma StoredData(src: seq<byte>, next: nat, end: nat, lo: nat, hi: nat, all: seq<bool>)
    requires next + 4 <= end <= |src| && lo == 8 * next && hi == 8 * end && all == BytesToBits(src)
    ensures lo + 32 <= hi <= |all| && BitsToBytes(all[lo + 32..hi]) == src[next + 4..end]
  {
    hide BitsToBytes, BytesToBits;
    BitsOfBytes(src, next + 4, end, lo + 32, hi);
    BitsToBytesRound(src[next + 4..end]);
  }

  /** The block holds these bytes. */
  ghost predicate StoredAs(b: seq<bool>, len: nat, data: seq<byte>, out: seq<byte>, cap: nat) {
    && |b| >= 32 + 8 * len
    && InfAligned(b, out, cap) == if |out| + len > cap then Full else Ok(Output(out + data, b[32 + 8 * len..]))
  }

  lemma StoredOk(b: seq<bool>, len: nat, out: seq<byte>, cap: nat, data: seq<byte>)
    requires |b| >= 32 + 8 * len && FromBits(b[..16]) == len && FromBits(b[16..32]) + len == 0xFFFF
    requires BitsToBytes(b[32..32 + 8 * len]) == data
    ensures StoredAs(b, len, data, out, cap)
  {
    hide FromBits, BitsToBytes;
  }

  lemma StoredErr(b: seq<bool>, out: seq<byte>, cap: nat)
    requires |b| < 32 || FromBits(b[..16]) + FromBits(b[16..32]) != 0xFFFF || |b| < 32 + 8 * FromBits(b[..16])
    ensures InfAligned(b, out, cap) == Err
  {
    hide FromBits, BitsToBytes;
  }

  /** The stored block at a byte boundary. */
  lemma StoredAt(src: seq<byte>, next: nat, out: seq<byte>, cap: nat, b: seq<bool>)
    requires next <= |src| && b == BytesToBits(src)[8 * next..]
    ensures next + 4 > |src| ==> InfAligned(b, out, cap) == Err
    ensures next + 4 <= |src| ==>
              var len, nlen := Read16le(src, next), Read16le(src, next + 2);
              && (nlen + len != 0xFFFF || next + 4 + len > |src| ==> InfAligned(b, out, cap) == Err)
              && (nlen + len == 0xFFFF && next + 4 + len <= |src| ==> StoredAs(b, len, src[next + 4..next + 4 + len], out, cap))
  {
    hide FromBits, BitsToBytes, BytesToBits, Read16le, InfAligned, StoredAs;
    assert |b| == 8 * (|src| - next);
    if next + 4 > |src| {
      StoredErr(b, out, cap);
    } else {
      StoredHeader(src, next, 8 * next, b);
      var len, nlen := Read16le(src, next), Read16le(src, next + 2);
      if nlen + len != 0xFFFF || next + 4 + len > |src| {
        StoredErr(b, out, cap);
      } else {
        StoredBytes(src, next, next + 4 + len, b);
        StoredOk(b, len, out, cap, src[next + 4..next + 4 + len]);
      }
    }
  }

  lemma StoredBytes(src: seq<byte>, next: nat, end: nat, b: seq<bool>)
    requires next + 4 <= end <= |src| && b == BytesToBits(src)[8 * next..]
    ensures |b| >= 8 * (end - next) && BitsToBytes(b[32..8 * (end - next)]) == src[next + 4..end]
  {
    hide BitsToBytes, BytesToBits;
    StoredSlice(src, next, end, 8 * next, 8 * (end - next), BytesToBits(src));
  }

  lemma StoredSlice(src: seq<byte>, next: nat, end: nat, lo: nat, n: nat, all: seq<bool>)
    requires next + 4 <= end <= |src| && lo == 8 * next && lo + n == 8 * end && all == BytesToBits(src)
    ensures 32 <= n && lo + n <= |all| && BitsToBytes(all[lo..][32..n]) == src[next + 4..end]
  {
    hide BitsToBytes, BytesToBits;
    StoredData(src, next, end, lo, lo + n, all);
    SliceOfDrop(all, lo, 32, n);
  }

  lemma AlignedRest(bitpos: nat, n: nat)
    requires bitpos <= 8 * n
    ensures RoundUp8(bitpos) - bitpos == (8 * n - bitpos) % 8
  {
  }

  /** inf_noncomp_block() */
  method StoredBlock(input: IStream, dst: array<byte>, dstPos: nat) returns (status: Status<nat>)
    requires input.Valid() && dstPos <= dst.Length
    modifies input`bitpos, dst
    ensures input.Valid()
    ensures BlockDone(status, old(InfStored(input.Rest(), dst[..dstPos], dst.Length)), input.Rest(), dst[..])
  {
    hide BytesToBits, InfStored, InfAligned, Read16le, RoundUp8;
    AlignedRest(input.bitpos, |input.src|);
    ghost var out := dst[..dstPos];
    StoredIs(input.Rest(), out, dst.Length);
    var next := input.ByteAlign();
    ghost var b := input.Rest();
    StoredAt(input.src, next, out, dst.Length, b);
    var ok := input.Advance(32);
    if !ok {
      return Err;
    }
    var len, nlen := Read16le(input.src, next), Read16le(input.src, next + 2);
    var complement := 0xFFFF - len as int;
    if nlen != complement {
      return Err;
    }
    ok := input.Advance(8 * len);
    if !ok {
      return Err;
    }
    DropOfDrop(b, 32, 8 * len);
    if dst.Length - dstPos < len {
      return Full;
    }
    CopyBytes(dst, dstPos, input.src[next + 4..next + 4 + len]);
    TakeCopied(dst[..], out, input.src[next + 4..next + 4 + len]);
    return Ok(dstPos + len);
  }

  lemma StoredIs(bits: seq<bool>, out: seq<byte>, cap: nat)
    ensures InfStored(bits, out, cap) == InfAligned(bits[|bits| % 8..], out, cap)
  {
  }

  lemma TakeCopied(now: seq<byte>, out: seq<byte>, data: seq<byte>)
    requires |out| + |data| <= |now| && now == out + data + now[|out| + |data|..]
    ensures now[..|out| + |data|] == out + data
  {
  }

  // ---------------------------------------------------------------- dynamic blocks

  lemma PaddedTake(rest: seq<bool>, z: seq<bool>, n: nat)
    requires n <= |rest|
    ensures (rest + z)[..n] == rest[..n] && (rest + z)[n..] == rest[n..] + z
  {
  }

  /** Reads the numbers of codeword lengths. */
  method ReadNumbers(input: IStream) returns (ok: bool, hlit: nat, hdist: nat, hclen: nat)
    requires input.Valid()
    modifies input`bitpos
    ensures input.Valid() && ok == (14 <= |old(input.Rest())|)
    ensures ok ==>
              var b := old(input.Rest());
              && input.Rest() == b[14..] && hlit == FromBits(b[..5]) + MIN_LITLEN_LENS
              && hdist == FromBits(b[5..10]) + MIN_DIST_LENS && hclen == FromBits(b[10..14]) + MIN_CODELEN_LENS
              && hlit <= 288 && hdist <= 32 && hclen <= MAX_CODELEN_LENS
  {
    hide Window;
    ghost var b, w := input.Rest(), 64 - input.bitpos % 8;
    ghost var p := b + Zeros(64);
    var bits := input.PeekBits();
    WindowPadded(b, w, 64);
    hlit, bits := TakeBits(bits, 5, p, w);
    hdist, bits := TakeBits(bits, 5, p[5..], w - 5);
    hclen, bits := TakeBits(bits, 4, p[10..], w - 10) by { assert p[5..][5..] == p[10..]; }
    NumberRange(p[..5]);
    NumberRange(p[5..][..5]);
    NumberRange(p[10..][..4]);
    hlit, hdist, hclen := hlit + MIN_LITLEN_LENS, hdist + MIN_DIST_LENS, hclen + MIN_CODELEN_LENS;
    ok := input.Advance(14);
    if ok {
      assert p[..5] == b[..5] && p[5..][..5] == b[5..10] && p[10..][..4] == b[10..14];
    }
  }

  lemma NumberRange(b: seq<bool>)
    requires |b| == 4 || |b| == 5
    ensures FromBits(b) < if |b| == 4 then 16 else 32
  {
    FromBitsBound(b);
    assert Pow2(4) == 16 && Pow2(5) == 32;
  }

  /** The first i places of the order have been given their lengths, n of them by bits. */
  ghost predicate Placed(codelens: seq<nat>, b: seq<bool>, n: nat, i: nat) {
    && |codelens| == MAX_CODELEN_LENS && i <= MAX_CODELEN_LENS && 3 * Min(i, n) <= |b|
    && forall k :: 0 <= k < i ==>
         ORDER[k] < MAX_CODELEN_LENS && codelens[ORDER[k]] == if k < n then ThreeBits(b, k) else 0
  }

  lemma PlacedNext(codelens: seq<nat>, b: seq<bool>, n: nat, i: nat, v: nat)
    requires Placed(codelens, b, n, i) && i < MAX_CODELEN_LENS
    requires if i < n then 3 * i + 3 <= |b| && v == ThreeBits(b, i) else v == 0
    ensures ORDER[i] < MAX_CODELEN_LENS && Placed(codelens[ORDER[i] := v], b, n, i + 1)
  {
    hide ThreeBits;
    PlaceInverse(i);
    DistinctPlaces(i);
  }

  lemma PlacedAll(codelens: seq<nat>, b: seq<bool>, n: nat)
    requires Placed(codelens, b, n, MAX_CODELEN_LENS) && n <= MAX_CODELEN_LENS
    ensures codelens == Codelens(b, n)
  {
    hide ThreeBits;
    forall s | 0 <= s < MAX_CODELEN_LENS
      ensures codelens[s] == Codelens(b, n)[s]
    {
      PlaceInverse(s);
      assert codelens[ORDER[Place(s)]] == if Place(s) < n then ThreeBits(b, Place(s)) else 0;
    }
  }

  /** Reads the lengths of the code for codeword lengths. */
  method ReadCodelens(input: IStream, hclen: nat) returns (ok: bool, codelens: array<nat>)
    requires input.Valid() && hclen <= MAX_CODELEN_LENS
    modifies input`bitpos
    ensures input.Valid() && fresh(codelens) && ok == (3 * hclen <= |old(input.Rest())|)
    ensures ok ==> codelens[..] == Codelens(old(input.Rest()), hclen) && input.Rest() == old(input.Rest())[3 * hclen..]
  {
    hide FromBits, ThreeBits, Place, Placed;
    ghost var b := input.Rest();
    codelens := new nat[MAX_CODELEN_LENS](_ => 0);
    assert Placed(codelens[..], b, hclen, 0) by { NonePlaced(codelens[..], b, hclen); }
    var i := 0;
    while i < hclen
      invariant i <= hclen && input.Valid() && 3 * i <= |b| && input.Rest() == b[3 * i..]
      invariant Placed(codelens[..], b, hclen, i)
    {
      var v;
      ok, v := ReadBits(input, 3);
      if !ok {
        return;
      }
      ThreeBitsAre(b, i);
      PlacedNext(codelens[..], b, hclen, i, v);
      codelens[ORDER[i]] := v;
      i := i + 1;
    }
    while i < MAX_CODELEN_LENS
      invariant hclen <= i <= MAX_CODELEN_LENS && Placed(codelens[..], b, hclen, i)
      invariant input.Valid() && input.Rest() == b[3 * hclen..]
    {
      PlacedNext(codelens[..], b, hclen, i, 0);
      codelens[ORDER[i]] := 0;
      i := i + 1;
    }
    PlacedAll(codelens[..], b, hclen);
    ok := true;
  }

  lemma NonePlaced(codelens: seq<nat>, b: seq<bool>, n: nat)
    requires |codelens| == MAX_CODELEN_LENS
    ensures Placed(codelens, b, n, 0)
  {
  }

  lemma ThreeBitsAre(b: seq<bool>, i: nat)
    requires 3 * i + 3 <= |b|
    ensures b[3 * i..][..3] == b[3 * i..3 * i + 3] && ThreeBits(b, i) == FromBits(b[3 * i..][..3])
    ensures b[3 * i..][3..] == b[3 * (i + 1)..]
  {
  }

  lemma DistinctPlaces(i: nat)
    requires i < MAX_CODELEN_LENS
    ensures forall k :: 0 <= k < i ==> ORDER[k] != ORDER[i]
  {
    forall k | 0 <= k < i
      ensures ORDER[k] != ORDER[i]
    {
      PlaceInverse(k);
      PlaceInverse(i);
    }
  }

  // -------------------------------------------------------------- codeword lengths

  /** The lengths read so far, which are at the beginning of an array. */
  ghost predicate Have(a: seq<nat>, i: nat, lens: seq<nat>) {
    i <= |a| && a[..i] == lens && forall k :: 0 <= k < |lens| ==> lens[k] <= CODELEN_MAX_LIT
  }

  /** Appends n copies of a length. */
  method AppendRun(a: array<nat>, from: nat, v: nat, n: nat, ghost lens: seq<nat>) returns (i: nat)
    requires Have(a[..], from, lens) && from + n <= a.Length && v <= CODELEN_MAX_LIT
    modifies a
    ensures i == from + n && Have(a[..], i, lens + Repeat(v, n))
  {
    i := from;
    while i < from + n
      invariant from <= i <= from + n
      invariant Have(a[..], i, lens + Repeat(v, i - from))
    {
      a[i] := v;
      assert a[..i + 1] == a[..i] + [a[i]];
      assert a[..][..i + 1] == lens + Repeat(v, i + 1 - from);
      i := i + 1;
    }
    assert lens + Repeat(v, 0) == lens;
  }

  /** What is left to read is what the goal has left to read. */
  ghost predicate LensLeft(codelens: seq<nat>, bits: seq<bool>, lens: seq<nat>, total: nat, goal: Lens) {
    |codelens| == MAX_CODELEN_LENS && |lens| <= total && ReadLens(codelens, bits, lens, total) == goal
  }

  /** What the goal is once a symbol has been decoded and the bits b are left. */
  function AfterLenSymbol(codelens: seq<nat>, sym: nat, b: seq<bool>, lens: seq<nat>, total: nat): Lens
    requires |codelens| == MAX_CODELEN_LENS && |lens| < total
  {
    if sym <= CODELEN_MAX_LIT then ReadLens(codelens, b, lens + [sym], total)
    else if |b| < ExtraBits(sym) || (sym == CODELEN_COPY && lens == []) then NoLens
    else
      var n := ReadCount(sym, b);
      if |lens| + n > total then NoLens
      else ReadLens(codelens, b[ExtraBits(sym)..], lens + Repeat(if sym == CODELEN_COPY then lens[|lens| - 1] else 0, n), total)
  }

  lemma LensGoal(codelens: seq<nat>, rest: seq<bool>, z: seq<bool>, lens: seq<nat>, total: nat)
    requires |codelens| == MAX_CODELEN_LENS && LengthsOk(codelens) && Fits(codelens) && |lens| < total
    ensures var d, goal := Huffman.Decode(codelens, rest + z), ReadLens(codelens, rest, lens, total);
            if d.NoSymbol? || codelens[d.value] > |rest| then goal == NoLens
            else
              var b := rest[codelens[d.value]..];
              d.rest == b + z && goal == AfterLenSymbol(codelens, d.value, b, lens, total)
  {
    hide Huffman.Decode, Fits, LengthsOk;
    DecodePadded(codelens, rest, z);
  }

  /** The part of the loop after a symbol for a run has been read. */
  method ReadRun(input: IStream, sym: nat, bits: nat, a: array<nat>, from: nat, total: nat,
                 ghost codelens: seq<nat>, ghost lens: seq<nat>, ghost w: nat, ghost goal: Lens) returns (ok: bool, i: nat)
    requires input.Valid() && CODELEN_MAX_LIT < sym < MAX_CODELEN_LENS && Have(a[..], from, lens) && from < total <= a.Length
    requires |codelens| == MAX_CODELEN_LENS && goal == AfterLenSymbol(codelens, sym, input.Rest(), lens, total)
    requires 7 <= w && bits == Window(input.Rest() + Zeros(7), w)
    modifies input`bitpos, a
    ensures input.Valid() && (!ok ==> goal == NoLens)
    ensures ok ==> i <= total && Have(a[..], i, a[..i]) && LensLeft(codelens, input.Rest(), a[..i], total, goal)
                   && |input.Rest()| <= |old(input.Rest())|
  {
    hide ReadLens, Window, FromBits;
    ghost var b := input.Rest();
    if sym == CODELEN_COPY && from < 1 {
      return false, 0;
    }
    var count, _ := TakeBits(bits, ExtraBits(sym), b + Zeros(7), w);
    var n := count + MinCount(sym);
    ok := input.Advance(ExtraBits(sym));
    if !ok {
      return false, 0;
    }
    PaddedTake(b, Zeros(7), ExtraBits(sym));
    if from + n > total {
      return false, 0;
    }
    var v := if sym == CODELEN_COPY then a[from - 1] else 0;
    assert sym == CODELEN_COPY ==> v == a[..][..from][from - 1] == lens[|lens| - 1];
    i := AppendRun(a, from, v, n, lens);
    assert a[..][..i] == a[..i];
  }

  /** One turn of the loop that reads the codeword lengths of both codes. */
  method ReadLen(input: IStream, d: Decoder, a: array<nat>, from: nat, total: nat,
                 ghost codelens: seq<nat>, ghost goal: Lens) returns (ok: bool, i: nat)
    requires input.Valid() && d.For(codelens) && Fits(codelens) && d.Avoids(a)
    requires from < total <= a.Length && Have(a[..], from, a[..from]) && LensLeft(codelens, input.Rest(), a[..from], total, goal)
    modifies input`bitpos, a
    ensures input.Valid() && (!ok ==> goal == NoLens)
    ensures ok ==> i <= total && Have(a[..], i, a[..i]) && LensLeft(codelens, input.Rest(), a[..i], total, goal)
                   && |input.Rest()| < |old(input.Rest())|
  {
    hide ReadLens, Decoder.For, Fits, Window, Huffman.Decode;
    ghost var rest, z, w, lens := input.Rest(), Zeros(64), 64 - input.bitpos % 8, a[..from];
    var bits := input.PeekBits();
    WindowPadded(rest, w, 64);
    var sym, used := DecodeWindow(d, bits, rest + z, w, codelens);
    DecoderLengths(d, codelens);
    LensGoal(codelens, rest, z, lens, total);
    ok := input.Advance(used);
    if !ok {
      return false, 0;
    }
    if sym >= 0 && sym <= CODELEN_MAX_LIT {
      a[from] := sym;
      i := from + 1;
      assert a[..][..i] == a[..i] == lens + [sym];
    } else if sym >= 0 {
      ghost var b := input.Rest();
      MorePadding(b, w - used);
      ok, i := ReadRun(input, sym, Shr(bits, used), a, from, total, codelens, lens, w - used, goal);
    } else {
      ok, i := false, 0;
    }
  }

  lemma MorePadding(b: seq<bool>, w: nat)
    ensures Window(b + Zeros(64), w) == Window(b + Zeros(7), w)
  {
    WindowPadded(b, w, 64);
    WindowPadded(b, w, 7);
  }

  /** Reads codeword lengths until there are `total`. */
  method ReadAllLens(input: IStream, d: Decoder, total: nat, ghost codelens: seq<nat>) returns (ok: bool, a: array<nat>)
    requires input.Valid() && d.For(codelens) && Fits(codelens) && |codelens| == MAX_CODELEN_LENS && total <= 320
    modifies input`bitpos
    ensures input.Valid() && fresh(a)
    ensures match ReadLens(codelens, old(input.Rest()), [], total)
            case NoLens => !ok
            case Lens(lens, rest) => ok && a.Length == 320 && Have(a[..], total, lens) && input.Rest() == rest
  {
    hide ReadLens, Decoder.For, Fits, Have;
    ghost var goal := ReadLens(codelens, input.Rest(), [], total);
    a := new nat[320];
    var i: nat := 0;
    assert a[..0] == [] && Have(a[..], 0, []) by { HaveNone(a[..]); }
    while i < total
      invariant input.Valid() && i <= total && d.For(codelens)
      invariant Have(a[..], i, a[..i]) && LensLeft(codelens, input.Rest(), a[..i], total, goal)
      decreases |input.Rest()|
    {
      ok, i := ReadLen(input, d, a, i, total, codelens, goal);
      if !ok {
        return;
      }
    }
    AllRead(codelens, input.Rest(), a[..total], total, goal);
    ok := true;
  }

  lemma HaveNone(a: seq<nat>)
    ensures Have(a, 0, [])
  {
  }

  lemma AllRead(codelens: seq<nat>, bits: seq<bool>, lens: seq<nat>, total: nat, goal: Lens)
    requires LensLeft(codelens, bits, lens, total, goal) && |lens| == total
    ensures goal == Lens(lens, bits)
  {
  }

  /** Sets up a decoder; without 16-bit codewords it fails exactly if there is no such code. */
  method InitDecoder(lengths: seq<nat>) returns (ok: bool, d: Decoder)
    requires |lengths| <= MAX_SYMBOLS && AtMost15(lengths)
    ensures fresh(d.table) && fresh(d.sentinelBits) && fresh(d.offsetFirstSymIdx) && fresh(d.syms)
    ensures ok == Fits(lengths) && (ok ==> d.For(lengths))
  {
    hide Fits, HuffmanDecoder.Accepted;
    AcceptedExactly(lengths);
    d := new Decoder();
    ok := d.Init(lengths);
  }

  /** init_dyn_decoders(): reads the two codes of a block, or fails exactly if the format says so. */
  method InitDynDecoders(input: IStream)
    returns (ok: bool, litlenDec: Decoder, distDec: Decoder, ghost litlen: seq<nat>, ghost dist: seq<nat>)
    requires input.Valid()
    modifies input`bitpos
    ensures input.Valid()
    ensures fresh(litlenDec.table) && fresh(litlenDec.sentinelBits) && fresh(litlenDec.offsetFirstSymIdx) && fresh(litlenDec.syms)
    ensures fresh(distDec.table) && fresh(distDec.sentinelBits) && fresh(distDec.offsetFirstSymIdx) && fresh(distDec.syms)
    ensures ok == ReadHeader(old(input.Rest())).Header?
    ensures ok ==> ReadHeader(old(input.Rest())) == Header(litlen, dist, input.Rest())
                   && litlenDec.For(litlen) && Fits(litlen) && distDec.For(dist) && Fits(dist)
  {
    hide Codelens, ReadLens, Used, Decoder.For, FromBits, Pow2;
    ghost var b := input.Rest();
    litlen, dist := [], [];
    var hlit, hdist, hclen;
    litlenDec := new Decoder();
    distDec := new Decoder();
    ok, hlit, hdist, hclen := ReadNumbers(input);
    if !ok {
      return;
    }
    var codelens, codelenDec, a;
    ok, codelens := ReadCodelens(input, hclen);
    if !ok {
      return;
    }
    ghost var c, rest := codelens[..], input.Rest();
    DropOfDrop(b, 14, 3 * hclen);
    HeaderIs(b, hlit, hdist, hclen, c, rest);
    ok, codelenDec := InitDecoder(codelens[..]);
    if !ok {
      return;
    }
    ok, a := ReadAllLens(input, codelenDec, hlit + hdist, c);
    if !ok {
      return;
    }
    ghost var lens := a[..hlit + hdist];
    TwoParts(a[..], hlit, hdist, lens);
    ok, litlenDec := InitDecoder(a[..hlit]);
    if !ok {
      return;
    }
    ok, distDec := InitDecoder(a[hlit..hlit + hdist]);
    litlen, dist := lens[..hlit], lens[hlit..];
  }

  lemma HeaderIs(b: seq<bool>, hlit: nat, hdist: nat, hclen: nat, codelens: seq<nat>, rest: seq<bool>)
    requires |b| >= 14 && hlit == FromBits(b[..5]) + MIN_LITLEN_LENS
    requires hdist == FromBits(b[5..10]) + MIN_DIST_LENS && hclen == FromBits(b[10..14]) + MIN_CODELEN_LENS
    requires |b| >= 14 + 3 * hclen && codelens == Codelens(b[14..], hclen) && rest == b[14 + 3 * hclen..]
    ensures |codelens| == MAX_CODELEN_LENS && ReadHeader(b) == ReadCodes(codelens, rest, hlit, hdist)
    ensures AtMost15(codelens)
  {
    hide FromBits, ReadCodes;
  }

  lemma TwoParts(a: seq<nat>, hlit: nat, hdist: nat, lens: seq<nat>)
    requires hlit + hdist <= |a| && Have(a, hlit + hdist, lens)
    ensures a[..hlit] == lens[..hlit] && a[hlit..hlit + hdist] == lens[hlit..]
    ensures AtMost15(a[..hlit]) && AtMost15(a[hlit..hlit + hdist])
  {
    var x, y := a[..hlit], a[hlit..hlit + hdist];
    assert a[..hlit + hdist] == lens;
    assert forall s :: 0 <= s < hlit ==> x[s] == lens[s];
    assert forall s :: 0 <= s < hdist ==> y[s] == lens[hlit + s];
  }

  // ---------------------------------------------------------------- the stream

  /** inf_dyn_block() */
  method DynamicBlock(input: IStream, dst: array<byte>, dstPos: nat) returns (status: Status<nat>)
    requires input.Valid() && dstPos <= dst.Length
    modifies input`bitpos, dst
    ensures input.Valid()
    ensures BlockDone(status, old(InfContents(2, input.Rest(), dst[..dstPos], dst.Length)), input.Rest(), dst[..])
  {
    hide InfBlock, ReadHeader, Fits, Decoder.For;
    var ok, litlenDec, distDec;
    ghost var litlen, dist;
    ok, litlenDec, distDec, litlen, dist := InitDynDecoders(input);
    if !ok {
      return Err;
    }
    status := Block(input, dst, dstPos, litlenDec, distDec, litlen, dist);
  }

  /** The fixed codes are prefix codes: for literals and lengths all codewords are used up. */
  lemma FixedFit()
    ensures Fits(FixedLitlenLengths()) && Fits(FixedDistLengths())
  {
    hide Used, Count;
    var l, d := FixedLitlenLengths(), FixedDistLengths();
    FixedSpace(l, 144, 256, 280, 288);
    SameSpace(d, 0, 32, 5);
    assert d[..32] == d && l[..288] == l;
    HuffmanLengths.UsedBySymbol(l, MAX_BITS);
    HuffmanLengths.UsedBySymbol(d, MAX_BITS);
    PowersOfFixed();
  }

  lemma PowersOfFixed()
    ensures Pow2(16) == 0x1_0000 && Pow2(11) == 0x800 && Pow2(7) == 0x80 && Pow2(8) == 0x100 && Pow2(9) == 0x200
  {
    Pow2Word();
    assert Pow2(7) == 0x80 && Pow2(8) == 0x100 && Pow2(9) == 0x200;
    assert Pow2(11) == 4 * Pow2(9);
  }

  /** A run of symbols with codewords of the same length. */
  lemma {:induction false} SameSpace(lengths: seq<nat>, i: nat, j: nat, l: nat)
    requires i <= j <= |lengths| && 0 < l <= MAX_BITS && forall k :: i <= k < j ==> lengths[k] == l
    ensures HuffmanLengths.SymbolSpace(lengths[..j], MAX_BITS)
         == HuffmanLengths.SymbolSpace(lengths[..i], MAX_BITS) + (j - i) * Pow2(MAX_BITS - l)
  {
    if i < j {
      SameSpace(lengths, i, j - 1, l);
      assert lengths[..j][..j - 1] == lengths[..j - 1];
      assert (j - i) * Pow2(MAX_BITS - l) == (j - 1 - i) * Pow2(MAX_BITS - l) + Pow2(MAX_BITS - l);
    }
  }

  lemma FixedSpace(l: seq<nat>, a: nat, b: nat, c: nat, d: nat)
    requires l == FixedLitlenLengths() && a == 144 && b == 256 && c == 280 && d == 288
    ensures HuffmanLengths.SymbolSpace(l[..d], MAX_BITS) == 0x1_0000
  {
    SameSpace(l, 0, a, 8);
    SameSpace(l, a, b, 9);
    SameSpace(l, b, c, 7);
    SameSpace(l, c, d, 8);
    PowersOfFixed();
    assert l[..0] == [];
  }

  /** inf_fixed_block() */
  method FixedBlock(input: IStream, dst: array<byte>, dstPos: nat) returns (status: Status<nat>)
    requires input.Valid() && dstPos <= dst.Length
    modifies input`bitpos, dst
    ensures input.Valid()
    ensures BlockDone(status, old(InfContents(1, input.Rest(), dst[..dstPos], dst.Length)), input.Rest(), dst[..])
  {
    hide InfBlock, Fits, Decoder.For, FixedLitlenLengths, FixedDistLengths;
    FixedSmall();
    FixedFit();
    var okLitlen, litlenDec := InitDecoder(FixedLitlenLengths());
    var okDist, distDec := InitDecoder(FixedDistLengths());
    status := Block(input, dst, dstPos, litlenDec, distDec, FixedLitlenLengths(), FixedDistLengths());
  }

  lemma FixedSmall()
    ensures AtMost15(FixedLitlenLengths()) && AtMost15(FixedDistLengths())
    ensures |FixedLitlenLengths()| <= MAX_SYMBOLS && |FixedDistLengths()| <= MAX_SYMBOLS
  {
  }

  /** A block of any kind. */
  method Contents(kind: nat, input: IStream, dst: array<byte>, dstPos: nat) returns (status: Status<nat>)
    requires input.Valid() && dstPos <= dst.Length
    modifies input`bitpos, dst
    ensures input.Valid()
    ensures BlockDone(status, old(InfContents(kind, input.Rest(), dst[..dstPos], dst.Length)), input.Rest(), dst[..])
  {
    if kind == 0 {
      status := StoredBlock(input, dst, dstPos);
    } else if kind == 1 {
      status := FixedBlock(input, dst, dstPos);
    } else if kind == 2 {
      status := DynamicBlock(input, dst, dstPos);
    } else {
      status := Err;
    }
  }

  /** The three header bits of a block. */
  method BlockHeader(input: IStream) returns (ok: bool, final: bool, kind: nat)
    requires input.Valid()
    modifies input`bitpos
    ensures input.Valid() && ok == (3 <= |old(input.Rest())|)
    ensures ok ==> final == old(input.Rest())[0] && kind == FromBits(old(input.Rest())[1..3]) && input.Rest() == old(input.Rest())[3..]
  {
    hide Window, FromBits;
    ghost var b, w := input.Rest(), 64 - input.bitpos % 8;
    ghost var p := b + Zeros(64);
    var bits := input.PeekBits();
    WindowPadded(b, w, 64);
    var first, after := TakeBits(bits, 1, p, w);
    kind, after := TakeBits(after, 2, p[1..], w - 1);
    final := first == 1;
    ok := input.Advance(3);
    if ok {
      assert p[..1] == [b[0]] && p[1..][..2] == b[1..3];
      OneBit(b[0]);
    }
  }

  lemma OneBit(b: bool)
    ensures FromBits([b]) == BitValue(b)
  {
  }

  /** hwinflate(): on any input, the outcome is that of the format; on success the result holds the numbers
      of bytes read and written. */
  method HwInflate(src: seq<byte>, dst: array<byte>) returns (result: Status<(nat, nat)>)
    modifies dst
    ensures Agrees(result, Inflate(BytesToBits(src), [], dst.Length), |src|, dst[..])
  {
    hide Inflate, InfContents, BytesToBits;
    var input := new IStream(src);
    ghost var goal := Inflate(input.Rest(), [], dst.Length);
    var dstPos, final := 0, false;
    assert dst[..0] == [];
    while !final
      invariant input.Valid() && input.src == src && dstPos <= dst.Length
      invariant goal == if final then Ok(Output(dst[..dstPos], input.Rest())) else Inflate(input.Rest(), dst[..dstPos], dst.Length)
      decreases !final, |input.Rest()|
    {
      ghost var bits, out := input.Rest(), dst[..dstPos];
      InflateStep(bits, out, dst.Length);
      var ok, kind;
      ok, final, kind := BlockHeader(input);
      if !ok {
        return Err;
      }
      var s := Contents(kind, input, dst, dstPos);
      match s {
        case Err => return Err;
        case Full => return Full;
        case Ok(pos) =>
          dstPos := pos;
          assert dst[..][..dstPos] == dst[..dstPos];
      }
    }
    assert dst[..][..dstPos] == dst[..dstPos];
    return Ok((input.BytesRead(), dstPos));
  }

  lemma InflateStep(bits: seq<bool>, out: seq<byte>, cap: nat)
    ensures |bits| < 3 ==> Inflate(bits, out, cap) == Err
    ensures |bits| >= 3 ==>
              var r := InfContents(FromBits(bits[1..3]), bits[3..], out, cap);
              && (r.Ok? ==> |r.value.rest| < |bits|)
              && Inflate(bits, out, cap) == if r.Ok? && !bits[0] then Inflate(r.value.rest, r.value.out, cap) else r
  {
    hide InfContents, FromBits;
  }
}
