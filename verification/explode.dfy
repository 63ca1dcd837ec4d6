/** hwexplode() and its helpers (hwzip/implode.c, lines 340-555), on any input. */
module ExplodeCodec {
  import opened Bits
  import opened Bitstream
  import opened Outcome
  import opened Huffman
  import opened HuffmanDecoder
  import opened HuffmanStream
  import opened Lz77
  import opened ImplodeFormat
  import ExpandCodec

  // ---------------------------------------------------------------- codeword lengths

  /** The two halves of a byte. */
  lemma Nibbles(b: seq<bool>)
    requires |b| == 8
    ensures FromBits(b) % 16 == FromBits(b[..4]) && FromBits(b) / 16 == FromBits(b[4..8])
    ensures FromBits(b) < 256
  {
    hide FromBits;
    FromBitsBound(b);
    FromBitsBound(b[..4]);
    assert b == b[..4] + b[4..8];
    FromBitsConcat(b[..4], b[4..8]);
    Powers();
  }

  lemma {:induction false} CountRun(lens: seq<nat>, v: nat, n: nat, l: nat)
    ensures Count(lens + Repeat(v, n), l) == Count(lens, l) + if l == v then n else 0
  {
    var all := lens + Repeat(v, n);
    if n == 0 {
      assert all == lens;
    } else {
      assert all[..|all| - 1] == lens + Repeat(v, n - 1);
      CountRun(lens, v, n - 1, l);
    }
  }

  /** The counts of the lengths read so far. */
  ghost predicate Counted(lenCount: seq<nat>, lens: seq<nat>) {
    |lenCount| == MAX_BITS + 1 && forall l :: 1 <= l <= MAX_BITS ==> lenCount[l] == Count(lens, l)
  }

  lemma CountedNext(lenCount: seq<nat>, lens: seq<nat>, v: nat, n: nat)
    requires Counted(lenCount, lens) && 1 <= v <= MAX_BITS
    ensures |lenCount| == MAX_BITS + 1 && Counted(lenCount[v := lenCount[v] + n], lens + Repeat(v, n))
  {
    hide Count;
    forall l | 1 <= l <= MAX_BITS
      ensures lenCount[v := lenCount[v] + n][l] == Count(lens + Repeat(v, n), l)
    {
      CountRun(lens, v, n, l);
    }
  }

  /** Appends a run to the lengths. */
  method AppendRun(lens: array<nat>, from: nat, v: nat, n: nat) returns (i: nat)
    requires from + n <= lens.Length
    modifies lens
    ensures i == from + n && lens[..i] == old(lens[..from]) + Repeat(v, n)
  {
    i := from;
    while i < from + n
      invariant from <= i <= from + n && lens[..i] == old(lens[..from]) + Repeat(v, i - from)
    {
      lens[i] := v;
      assert lens[..i + 1] == lens[..i] + [v];
      assert Repeat(v, i + 1 - from) == Repeat(v, i - from) + [v];
      i := i + 1;
    }
  }

  lemma RunGoal(bits: seq<bool>, n: nat, num: nat, lens: seq<nat>)
    requires n > 0
    ensures |bits| < 8 ==> ReadRuns(bits, n, num, lens) == Nothing
    ensures |bits| >= 8 ==>
              var v := FromBits(bits[..8]);
              && 1 <= v % 16 + 1 <= MAX_BITS
              && (|lens| + (v / 16 + 1) > num ==> ReadRuns(bits, n, num, lens) == Nothing)
              && (|lens| + (v / 16 + 1) <= num ==>
                    ReadRuns(bits, n, num, lens) == ReadRuns(bits[8..], n - 1, num, lens + Repeat(v % 16 + 1, v / 16 + 1)))
  {
    hide FromBits, Used, Pow2;
    if |bits| >= 8 {
      Nibbles(bits[..8]);
      assert bits[..8][..4] == bits[..4] && bits[..8][4..8] == bits[4..8];
    }
  }

  /** The loop of read_huffman_code(). */
  method ReadLengths(input: IStream, numBytes: nat, num: nat)
    returns (ok: bool, lens: array<nat>, lenCount: array<nat>)
    requires input.Valid() && num <= LIT_SYMS
    modifies input`bitpos
    ensures input.Valid() && fresh(lens) && fresh(lenCount) && lens.Length == LIT_SYMS
    ensures !ok ==> ReadRuns(old(input.Rest()), numBytes, num, []) == Nothing
    ensures ok ==> ReadRuns(old(input.Rest()), numBytes, num, []) == ReadRuns(input.Rest(), 0, num, lens[..num])
                   && Counted(lenCount[..], lens[..num])
  {
    hide ReadRuns, FromBits, Counted;
    ghost var goal := ReadRuns(input.Rest(), numBytes, num, []);
    lens := new nat[LIT_SYMS];
    lenCount := new nat[MAX_BITS + 1](_ => 0);
    NoneCounted(lenCount[..]);
    var byteIdx: nat, codewordIdx: nat := 0, 0;
    assert lens[..0] == [];
    while byteIdx < numBytes
      invariant byteIdx <= numBytes && codewordIdx <= num && input.Valid() && Counted(lenCount[..], lens[..codewordIdx])
      invariant goal == ReadRuns(input.Rest(), numBytes - byteIdx, num, lens[..codewordIdx])
    {
      RunGoal(input.Rest(), numBytes - byteIdx, num, lens[..codewordIdx]);
      var v;
      ok, v := ReadBits(input, 8);
      if !ok {
        return;
      }
      var codewordLen, runLength := v % 16 + 1, v / 16 + 1;
      CountedNext(lenCount[..], lens[..codewordIdx], codewordLen, runLength);
      lenCount[codewordLen] := lenCount[codewordLen] + runLength;
      if codewordIdx + runLength > num {
        ok := false;
        return;
      }
      codewordIdx := AppendRun(lens, codewordIdx, codewordLen, runLength);
      byteIdx := byteIdx + 1;
    }
    ok := codewordIdx >= num;
    if !ok {
      TooFew(input.Rest(), num, lens[..codewordIdx]);
    }
  }

  lemma NoneCounted(lenCount: seq<nat>)
    requires |lenCount| == MAX_BITS + 1 && forall l :: 0 <= l <= MAX_BITS ==> lenCount[l] == 0
    ensures Counted(lenCount, [])
  {
  }

  lemma TooFew(bits: seq<bool>, num: nat, lens: seq<nat>)
    requires |lens| < num
    ensures ReadRuns(bits, 0, num, lens) == Nothing
  {
  }

  /** The check that all codewords are used. */
  method CheckFull(lenCount: array<nat>, ghost lens: seq<nat>) returns (ok: bool)
    requires Counted(lenCount[..], lens)
    ensures ok == (Used(lens, MAX_BITS) == Pow2(MAX_BITS))
  {
    hide Count;
    var avail: int := 1;
    var i := 1;
    while i <= MAX_BITS
      invariant 1 <= i <= MAX_BITS + 1 && 0 <= avail == Pow2(i - 1) - Used(lens, i - 1)
    {
      avail := avail * 2;
      assert lenCount[..][i] == lenCount[i];
      avail := avail - lenCount[i];
      if avail < 0 {
        if Used(lens, MAX_BITS) == Pow2(MAX_BITS) {
          FitsBelow(lens, i, MAX_BITS);
        }
        return false;
      }
      i := i + 1;
    }
    return avail == 0;
  }

  /** read_huffman_code(): reads a full code, or fails exactly if there is none.  The decoder then accepts
      its lengths. */
  method ReadHuffmanCode(input: IStream, num: nat) returns (ok: bool, d: Decoder, ghost lengths: seq<nat>)
    requires input.Valid() && num <= LIT_SYMS
    modifies input`bitpos
    ensures input.Valid()
    ensures fresh(d.table) && fresh(d.sentinelBits) && fresh(d.offsetFirstSymIdx) && fresh(d.syms)
    ensures ok == ReadCode(old(input.Rest()), num).Got?
    ensures ok ==> ReadCode(old(input.Rest()), num) == Got(lengths, input.Rest()) && d.For(lengths) && FullCode(lengths, num)
  {
    hide ReadRuns, FromBits, Counted, Used, Pow2, FullCode, Accepted;
    ghost var rest := input.Rest();
    d := new Decoder();
    lengths := [];
    var numBytes, lens, lenCount;
    ok, numBytes := ReadBits(input, 8);
    if !ok {
      return;
    }
    ok, lens, lenCount := ReadLengths(input, numBytes + 1, num);
    if !ok {
      return;
    }
    lengths := lens[..num];
    ok := CheckFull(lenCount, lengths);
    LengthsDone(input.Rest(), num, lengths);
    if !ok {
      return;
    }
    ReadCodeFull(rest, num);
    FullIsAccepted(lengths, num);
    ok := d.Init(lens[..num]);
  }

  lemma LengthsDone(bits: seq<bool>, num: nat, lens: seq<nat>)
    requires |lens| == num
    ensures ReadRuns(bits, 0, num, lens) == if Used(lens, MAX_BITS) == Pow2(MAX_BITS) then Got(lens, bits) else Nothing
  {
  }

  lemma FullIsAccepted(lens: seq<nat>, n: nat)
    requires FullCode(lens, n)
    ensures LengthsOk(lens) && Fits(lens) && Accepted(lens, MAX_BITS)
  {
    hide Accepted, Used, Pow2;
    AcceptedIff(lens);
  }

  // ---------------------------------------------------------------- flipped codewords

  /** All 16 bits flipped. */
  lemma {:induction false} FlipNumber(x: nat, n: nat)
    requires x < Pow2(n)
    ensures ToBits(Pow2(n) - 1 - x, n) == Flip(ToBits(x, n))
  {
    hide Flip;
    if n > 0 {
      FlipNumber(x / 2, n - 1);
      var y := Pow2(n) - 1 - x;
      assert y / 2 == Pow2(n - 1) - 1 - x / 2 && y % 2 == 1 - x % 2;
      FlipFirst(x % 2 == 1, ToBits(x / 2, n - 1));
    } else {
      assert Flip([]) == [];
    }
  }

  lemma FlipFirst(x: bool, b: seq<bool>)
    ensures Flip([x] + b) == [!x] + Flip(b)
  {
  }

  /** With a full code, something is decoded from any 16 bits. */
  lemma AlwaysDecodes(lengths: seq<nat>, n: nat, b: seq<bool>)
    requires FullCode(lengths, n) && |b| >= MAX_BITS
    ensures Huffman.Decode(lengths, b).Symbol?
  {
    hide Used, Pow2, Reversal.MsbValue, Codeword;
    MsbValueBound(b[..MAX_BITS]);
    var s := SomeBegins(lengths, b, MAX_BITS);
    DecodeIs(lengths, b, s);
  }

  /** Decodes a symbol from the low 16 bits of a window of p, flipped. */
  method DecodeFlippedWindow(d: Decoder, bits: nat, ghost p: seq<bool>, ghost w: nat, ghost lengths: seq<nat>, ghost n: nat)
    returns (sym: nat, used: nat)
    requires d.For(lengths) && FullCode(lengths, n) && bits == Window(p, w) && MAX_BITS <= w && MAX_BITS <= |p|
    ensures used <= MAX_BITS && Shr(bits, used) == Window(p[used..], w - used)
    ensures sym < n && DecodeFlipped(lengths, p) == Symbol(sym, p[used..])
  {
    hide Flip, Lsb, Shr, Window, ToBits, FindSymbol, TableOk, SymsOk, SentinelsOk, OffsetsOk, Accepted, Used, Pow2;
    WindowRead(p, w, MAX_BITS);
    WindowBits(p, w, MAX_BITS);
    Pow2Word();
    FlipNumber(Lsb(bits, MAX_BITS), MAX_BITS);
    FlipTake(p, MAX_BITS);
    AlwaysDecodes(lengths, n, Flip(p));
    FindSymbolShort(lengths, Flip(p), |lengths|);
    var s;
    s, used := d.Decode(0xFFFF - Lsb(bits, MAX_BITS), lengths);
    sym := s;
    WindowRead(p, w, used);
  }

  lemma FlipTake(p: seq<bool>, n: nat)
    requires n <= |p|
    ensures Flip(p)[..n] == Flip(p[..n])
  {
  }

  // ---------------------------------------------------------------- the end of the stream

  /** What is read from a stream with k more bits after it is what is read from the stream, unless it
      takes some of those bits. */
  ghost predicate Padded<T>(r: Read<T>, padded: Read<T>, k: nat) {
    padded.Got? ==>
      if |padded.rest| >= k then r == Got(padded.value, padded.rest[..|padded.rest| - k]) else r == Nothing
  }

  lemma FlippedPadded(lengths: seq<nat>, b: seq<bool>, z: seq<bool>)
    requires LengthsOk(lengths) && Fits(lengths)
    ensures match DecodeFlipped(lengths, b + z)
            case NoSymbol => DecodeFlipped(lengths, b) == NoSymbol
            case Symbol(s, rest) =>
              if lengths[s] <= |b| then DecodeFlipped(lengths, b) == Symbol(s, b[lengths[s]..]) && rest == b[lengths[s]..] + z
              else DecodeFlipped(lengths, b) == NoSymbol
  {
    hide Huffman.Decode, Fits, LengthsOk, Flip;
    FlipConcat(b, z);
    DecodePadded(lengths, Flip(b), Flip(z));
    match DecodeFlipped(lengths, b + z) {
      case NoSymbol =>
      case Symbol(s, rest) => DropOfConcat(b, z, lengths[s]);
    }
  }

  lemma DropOfConcat<T>(b: seq<T>, z: seq<T>, i: nat)
    ensures i <= |b| ==> (b + z)[i..] == b[i..] + z
  {
  }

  lemma TakeBack<T>(b: seq<T>, z: seq<T>)
    ensures (b + z)[..|b + z| - |z|] == b
  {
  }

  lemma ExtraPadded(s: nat, least: nat, dist: nat, b: seq<bool>, z: seq<bool>)
    requires s < SYMS
    ensures Padded(ReadExtra(s, least, dist, b), ReadExtra(s, least, dist, b + z), |z|)
  {
    hide FromBits;
    TakeBack(b, z);
    if |b| >= 8 {
      DropOfConcat(b, z, 8);
      TakeBack(b[8..], z);
      assert (b + z)[..8] == b[..8];
    }
  }

  lemma LenPadded(mode: Mode, least: nat, c: Codes, dist: nat, b: seq<bool>, z: seq<bool>)
    requires FullCodes(mode, c)
    ensures Padded(ReadLen(mode, least, c, dist, b), ReadLen(mode, least, c, dist, b + z), |z|)
  {
    hide FullCode, ReadExtra, DecodeFlipped;
    FullIsOk(c.len, SYMS);
    FlippedPadded(c.len, b, z);
    match DecodeFlipped(c.len, b + z) {
      case NoSymbol =>
      case Symbol(s, rest) =>
        if c.len[s] <= |b| {
          ExtraPadded(s, least, dist, b[c.len[s]..], z);
        }
    }
  }

  lemma RefPadded(mode: Mode, least: nat, c: Codes, b: seq<bool>, z: seq<bool>)
    requires FullCodes(mode, c)
    ensures Padded(ReadRef(mode, least, c, b), ReadRef(mode, least, c, b + z), |z|)
  {
    hide FullCode, ReadLen, DecodeFlipped, FromBits, Shl, FullCodes;
    var k := mode.DistBits();
    if |b| >= k {
      assert FullCode(c.dist, SYMS) by { DistFull(mode, c); }
      FullIsOk(c.dist, SYMS);
      DropOfConcat(b, z, k);
      assert (b + z)[..k] == b[..k];
      FlippedPadded(c.dist, b[k..], z);
      match DecodeFlipped(c.dist, b[k..] + z) {
        case NoSymbol =>
        case Symbol(s, rest) =>
          if c.dist[s] <= |b[k..]| {
            LenPadded(mode, least, c, FromBits(b[..k]) + Shl(s, k) + 1, b[k..][c.dist[s]..], z);
          }
      }
    }
  }

  lemma DistFull(mode: Mode, c: Codes)
    requires FullCodes(mode, c)
    ensures FullCode(c.dist, SYMS) && FullCode(c.len, SYMS) && (mode.litTree ==> FullCode(c.lit, LIT_SYMS))
  {
  }

  lemma LitPadded(mode: Mode, c: Codes, b: seq<bool>, z: seq<bool>)
    requires FullCodes(mode, c)
    ensures Padded(ReadLit(mode, c, b), ReadLit(mode, c, b + z), |z|)
  {
    hide FullCode, DecodeFlipped, FromBits;
    if mode.litTree {
      FullIsOk(c.lit, LIT_SYMS);
      FlippedPadded(c.lit, b, z);
      match DecodeFlipped(c.lit, b + z) {
        case NoSymbol =>
        case Symbol(s, rest) =>
          if c.lit[s] <= |b| {
            TakeBack(b[c.lit[s]..], z);
          }
      }
    } else if |b| >= 8 {
      DropOfConcat(b, z, 8);
      TakeBack(b[8..], z);
      assert (b + z)[..8] == b[..8];
    }
  }

  // ---------------------------------------------------------------- literals and references

  /** What follows the marker bit, in the stream with zeros after it. */
  lemma AfterMarker(rest: seq<bool>, z: seq<bool>)
    requires z != []
    ensures rest != [] ==> (rest + z)[0] == rest[0] && (rest + z)[1..] == rest[1..] + z
    ensures rest == [] ==> (rest + z)[0] == z[0] && (rest + z)[1..] == z[1..]
  {
  }

  /** Decodes a literal, from a window of p. */
  method DecodeLit(mode: Mode, litDec: Decoder, bits: nat, ghost p: seq<bool>, ghost w: nat, ghost c: Codes)
    returns (sym: byte, used: nat)
    requires FullCodes(mode, c) && (mode.litTree ==> litDec.For(c.lit))
    requires bits == Window(p, w) && MAX_BITS <= w && MAX_BITS <= |p|
    ensures used <= MAX_BITS && ReadLit(mode, c, p) == Got(sym, p[used..])
  {
    DistFull(mode, c);
    hide Decoder.For, Window, DecodeFlipped, FullCode, FullCodes, FromBits;
    if mode.litTree {
      var s, n := DecodeFlippedWindow(litDec, bits, p, w, c.lit, LIT_SYMS);
      return s, n;
    }
    var v, after := TakeBits(bits, 8, p, w);
    FromBitsBound(p[..8]);
    Powers();
    return v, 8;
  }

  /** Decodes a reference, from a window of p. */
  method DecodeRef(mode: Mode, least: nat, distDec: Decoder, lenDec: Decoder, bits: nat,
                   ghost p: seq<bool>, ghost w: nat, ghost c: Codes)
    returns (dist: nat, len: nat, used: nat)
    requires FullCodes(mode, c) && distDec.For(c.dist) && lenDec.For(c.len)
    requires bits == Window(p, w) && 47 <= w && 47 <= |p|
    ensures used <= 47 && ReadRef(mode, least, c, p) == Got(Ref(dist, len), p[used..])
    ensures dist >= 1 && len >= least
  {
    hide Decoder.For, Window, DecodeFlipped, FullCode, FullCodes, FromBits, Shl, Shr, ReadLen, ReadRef;
    DistFull(mode, c);
    var k := mode.DistBits();
    var low, bits1 := TakeBits(bits, k, p, w);
    ghost var p1 := p[k..];
    var high, n := DecodeFlippedWindow(distDec, bits1, p1, w - k, c.dist, SYMS);
    dist := low + Shl(high, k) + 1;
    ghost var p2 := p1[n..];
    RefIs(mode, least, c, p, high, p2);
    var m;
    len, m := DecodeLen(mode, least, dist, lenDec, Shr(bits1, n), p2, w - k - n, c);
    used := k + n + m;
    Drops(p, k, n, m);
  }

  lemma RefIs(mode: Mode, least: nat, c: Codes, p: seq<bool>, d: nat, after: seq<bool>)
    requires FullCodes(mode, c) && |p| >= 7 && DecodeFlipped(c.dist, p[mode.DistBits()..]) == Symbol(d, after)
    ensures ReadRef(mode, least, c, p)
         == ReadLen(mode, least, c, FromBits(p[..mode.DistBits()]) + Shl(d, mode.DistBits()) + 1, after)
  {
    hide FullCodes, DecodeFlipped, FromBits, ReadLen;
  }

  lemma LenIs(mode: Mode, least: nat, c: Codes, dist: nat, p: seq<bool>, s: nat, after: seq<bool>)
    requires FullCodes(mode, c) && DecodeFlipped(c.len, p) == Symbol(s, after) && s < SYMS
    ensures ReadLen(mode, least, c, dist, p) == ReadExtra(s, least, dist, after)
  {
    hide FullCodes, DecodeFlipped, ReadExtra;
  }

  /** The length of a reference. */
  method DecodeLen(mode: Mode, least: nat, ghost dist: nat, lenDec: Decoder, bits: nat, ghost p: seq<bool>, ghost w: nat, ghost c: Codes)
    returns (len: nat, used: nat)
    requires FullCodes(mode, c) && lenDec.For(c.len) && bits == Window(p, w) && 24 <= w && 24 <= |p|
    ensures used <= 24 && ReadLen(mode, least, c, dist, p) == Got(Ref(dist, len), p[used..]) && len >= least
  {
    hide Decoder.For, Window, DecodeFlipped, FullCode, FullCodes, FromBits, Shr, ReadExtra, ReadLen;
    DistFull(mode, c);
    var sym, m := DecodeFlippedWindow(lenDec, bits, p, w, c.len, SYMS);
    LenIs(mode, least, c, dist, p, sym, p[m..]);
    var e;
    e, len := DecodeExtra(sym, least, dist, Shr(bits, m), p[m..], w - m);
    used := m + e;
    DropsMore(p, m, e);
  }

  lemma Drops<T>(p: seq<T>, k: nat, n: nat, m: nat)
    requires k + n + m <= |p|
    ensures p[k..][n..][m..] == p[k + n + m..]
  {
  }

  lemma DropsMore<T>(p: seq<T>, k: nat, e: nat)
    requires k + e <= |p|
    ensures p[k..][e..] == p[k + e..]
  {
  }

  /** The byte after the greatest length symbol. */
  method DecodeExtra(sym: nat, least: nat, ghost dist: nat, bits: nat, ghost p: seq<bool>, ghost w: nat)
    returns (used: nat, len: nat)
    requires sym < SYMS && bits == Window(p, w) && 8 <= w && 8 <= |p|
    ensures used <= 8 && ReadExtra(sym, least, dist, p) == Got(Ref(dist, len), p[used..]) && len >= least
  {
    hide Window, FromBits;
    len := sym + least;
    used := 0;
    assert p[0..] == p;
    if sym == 63 {
      var extra, after := TakeBits(bits, 8, p, w);
      len := len + extra;
      used := 8;
    }
  }

  // ---------------------------------------------------------------- the stream

  /** What there is to do after the marker bit of a literal. */
  ghost function AfterLit(mode: Mode, least: nat, c: Codes, r: Read<byte>, out: seq<byte>, total: nat): Status<Output>
    requires FullCodes(mode, c)
  {
    match r
    case Nothing => Err
    case Got(b, rest) => ExplodeFrom(mode, least, c, rest, out + [b], total)
  }

  /** What there is to do after a reference has been read. */
  ghost function AfterRef(mode: Mode, least: nat, c: Codes, r: Read<Token>, out: seq<byte>, total: nat): Status<Output>
    requires FullCodes(mode, c) && (r.Got? ==> r.value.Ref?)
  {
    match r
    case Nothing => Err
    case Got(t, rest) =>
      if |out| + t.len > total then Err else ExplodeFrom(mode, least, c, rest, CopyBack(out, t.dist, t.len), total)
  }

  lemma MarkerGoal(mode: Mode, least: nat, c: Codes, bits: seq<bool>, out: seq<byte>, total: nat)
    requires FullCodes(mode, c) && |out| < total
    ensures var goal := ExplodeFrom(mode, least, c, bits, out, total);
            && (bits == [] ==> goal == Err)
            && (bits != [] && bits[0] ==> goal == AfterLit(mode, least, c, ReadLit(mode, c, bits[1..]), out, total))
            && (bits != [] && !bits[0] ==> goal == AfterRef(mode, least, c, ReadRef(mode, least, c, bits[1..]), out, total))
  {
    hide FullCodes, ReadLit, ReadRef, CopyBack;
  }

  /** The outcome of part of the work: what is left to do is what the goal has left to do. */
  ghost predicate Agreed(ok: bool, pos: nat, goal: Status<Output>, mode: Mode, least: nat, c: Codes, bits: seq<bool>,
                         dst: seq<byte>, total: nat) {
    && FullCodes(mode, c)
    && (!ok ==> goal == Err)
    && (ok ==> pos <= total <= |dst| && goal == ExplodeFrom(mode, least, c, bits, dst[..pos], total))
  }

  /** The literal case; bits are a window of what follows the marker bit. */
  method Literal(input: IStream, mode: Mode, litDec: Decoder, bits: nat, dst: array<byte>, dstPos: nat, total: nat,
                 ghost w: nat, ghost least: nat, ghost c: Codes, ghost goal: Status<Output>) returns (ok: bool, pos: nat)
    requires input.Valid() && FullCodes(mode, c) && (mode.litTree ==> litDec.For(c.lit)) && dstPos < total <= dst.Length
    requires input.Rest() != [] && MAX_BITS <= w && bits == Window(input.Rest()[1..] + Bits.Zeros(64), w)
    requires goal == AfterLit(mode, least, c, ReadLit(mode, c, input.Rest()[1..]), dst[..dstPos], total)
    modifies input`bitpos, dst
    ensures input.Valid() && Agreed(ok, pos, goal, mode, least, c, input.Rest(), dst[..], total)
    ensures ok ==> |input.Rest()| < |old(input.Rest())|
  {
    hide Decoder.For, Window, ReadLit, ExplodeFrom, FullCodes;
    ghost var b, z := input.Rest()[1..], Bits.Zeros(64);
    pos := dstPos;
    var sym, used := DecodeLit(mode, litDec, bits, b + z, w, c);
    LitPadded(mode, c, b, z);
    ghost var rest := input.Rest();
    ok := input.Advance(1 + used);
    if !ok {
      return;
    }
    Unpad(rest, b, z, used);
    ExpandCodec.OutputByte(dst, dstPos, sym);
    pos := dstPos + 1;
  }

  /** Bits that are read, counted from the end of the stream and of its padding. */
  lemma Unpad(rest: seq<bool>, b: seq<bool>, z: seq<bool>, used: nat)
    requires rest != [] && b == rest[1..] && 1 + used <= |rest|
    ensures |(b + z)[used..]| >= |z|
    ensures (b + z)[used..][..|(b + z)[used..]| - |z|] == rest[1 + used..]
  {
    DropOfConcat(b, z, used);
    TakeBack(b[used..], z);
  }

  /** The case of a reference; bits are a window of what follows the marker bit. */
  method Reference(input: IStream, mode: Mode, least: nat, distDec: Decoder, lenDec: Decoder, bits: nat,
                   dst: array<byte>, dstPos: nat, total: nat,
                   ghost w: nat, ghost c: Codes, ghost goal: Status<Output>) returns (ok: bool, pos: nat)
    requires input.Valid() && FullCodes(mode, c) && distDec.For(c.dist) && lenDec.For(c.len) && least > 0
    requires dstPos < total <= dst.Length && 47 <= w && bits == Window((input.Rest() + Bits.Zeros(64))[1..], w)
    requires input.Rest() == [] ==> goal == Err
    requires input.Rest() != [] ==>
               goal == AfterRef(mode, least, c, ReadRef(mode, least, c, input.Rest()[1..]), dst[..dstPos], total)
    modifies input`bitpos, dst
    ensures input.Valid() && Agreed(ok, pos, goal, mode, least, c, input.Rest(), dst[..], total)
    ensures ok ==> |input.Rest()| < |old(input.Rest())|
  {
    hide Decoder.For, Window, ReadRef, ExplodeFrom, FullCodes, CopyBack;
    ghost var rest, z := input.Rest(), Bits.Zeros(64);
    pos := dstPos;
    AfterMarker(rest, z);
    var dist, len, used := DecodeRef(mode, least, distDec, lenDec, bits, (rest + z)[1..], w, c);
    ok := input.Advance(1 + used);
    if rest != [] {
      RefPadded(mode, least, c, rest[1..], z);
    }
    if !ok {
      return;
    }
    Unpad(rest, rest[1..], z, used);
    ok := ExpandCodec.Backref(dst, dstPos, dist, len, total);
    if ok {
      pos := dstPos + len;
      assert dst[..][..pos] == dst[..pos];
    }
  }

  /** One turn of the loop of hwexplode(). */
  method ExplodeStep(input: IStream, mode: Mode, least: nat, litDec: Decoder, lenDec: Decoder, distDec: Decoder,
                     dst: array<byte>, dstPos: nat, total: nat, ghost c: Codes, ghost goal: Status<Output>) returns (ok: bool, pos: nat)
    requires input.Valid() && FullCodes(mode, c) && least > 0 && dstPos < total <= dst.Length
    requires (mode.litTree ==> litDec.For(c.lit)) && lenDec.For(c.len) && distDec.For(c.dist)
    requires goal == ExplodeFrom(mode, least, c, input.Rest(), dst[..dstPos], total)
    modifies input`bitpos, dst
    ensures input.Valid() && Agreed(ok, pos, goal, mode, least, c, input.Rest(), dst[..], total)
    ensures ok ==> |input.Rest()| < |old(input.Rest())|
  {
    hide Decoder.For, Window, ReadLit, ReadRef, ExplodeFrom, FullCodes, AfterLit, AfterRef, FromBits;
    ghost var rest, z, w := input.Rest(), Bits.Zeros(64), 64 - input.bitpos % 8;
    MarkerGoal(mode, least, c, rest, dst[..dstPos], total);
    var bits := input.PeekBits();
    WindowPadded(rest, w, 64);
    var marker, after := TakeBits(bits, 1, rest + z, w);
    ExpandCodec.FirstBit(rest + z);
    AfterMarker(rest, z);
    if marker == 1 {
      ok, pos := Literal(input, mode, litDec, after, dst, dstPos, total, w - 1, least, c, goal);
    } else {
      ok, pos := Reference(input, mode, least, distDec, lenDec, after, dst, dstPos, total, w - 1, c, goal);
    }
  }

  /** hwexplode(): on any input, the outcome is that of the format; on success the result is the number of
      bytes read, and dst begins with the total number of bytes. */
  method HwExplode(src: seq<byte>, total: nat, mode: Mode, pk101BugCompat: bool, dst: array<byte>) returns (result: Status<nat>)
    requires total <= dst.Length
    modifies dst
    ensures var model := Exploded(mode, LeastLen(mode, pk101BugCompat), BytesToBits(src), total);
            match result
            case Ok(used) => model.Ok? && dst[..total] == model.value.out && |model.value.rest| <= 8 * |src|
                             && used == RoundUp8(8 * |src| - |model.value.rest|) / 8
            case Err => model == Err
            case Full => false
  {
    hide ReadCodes, ExplodeFrom, BytesToBits, Decoder.For, FullCodes;
    var input := new IStream(src);
    var ok, litDec, lenDec, distDec;
    ghost var c;
    ok, litDec, lenDec, distDec, c := ReadDecoders(input, mode);
    if !ok {
      return Err;
    }
    result := ExplodeLoop(input, mode, LeastLen(mode, pk101BugCompat), litDec, lenDec, distDec, dst, total, c);
  }

  /** Reads the codes, or fails exactly if the format says so. */
  method ReadDecoders(input: IStream, mode: Mode)
    returns (ok: bool, litDec: Decoder, lenDec: Decoder, distDec: Decoder, ghost c: Codes)
    requires input.Valid()
    modifies input`bitpos
    ensures input.Valid() && ok == ReadCodes(mode, old(input.Rest())).Got?
    ensures fresh(litDec.table) && fresh(litDec.sentinelBits) && fresh(litDec.offsetFirstSymIdx) && fresh(litDec.syms)
    ensures fresh(lenDec.table) && fresh(lenDec.sentinelBits) && fresh(lenDec.offsetFirstSymIdx) && fresh(lenDec.syms)
    ensures fresh(distDec.table) && fresh(distDec.sentinelBits) && fresh(distDec.offsetFirstSymIdx) && fresh(distDec.syms)
    ensures ok ==> ReadCodes(mode, old(input.Rest())) == Got(c, input.Rest()) && FullCodes(mode, c)
    ensures ok ==> (mode.litTree ==> litDec.For(c.lit)) && lenDec.For(c.len) && distDec.For(c.dist)
  {
    hide ReadCode, FullCode, Decoder.For;
    ghost var rest := input.Rest();
    ghost var lit, len, dist := [], [], [];
    c := Codes([], [], []);
    ok := true;
    litDec := new Decoder();
    lenDec := new Decoder();
    distDec := new Decoder();
    if mode.litTree {
      ok, litDec, lit := ReadHuffmanCode(input, LIT_SYMS);
      if !ok {
        return;
      }
    }
    ghost var rest1 := input.Rest();
    ok, lenDec, len := ReadHuffmanCode(input, SYMS);
    if !ok {
      return;
    }
    ok, distDec, dist := ReadHuffmanCode(input, SYMS);
    c := Codes(if mode.litTree then lit else [], len, dist);
    assert ok ==> ReadLenDist(c.lit, rest1) == Got(c, input.Rest());
  }

  /** The loop of hwexplode(). */
  method ExplodeLoop(input: IStream, mode: Mode, least: nat, litDec: Decoder, lenDec: Decoder, distDec: Decoder,
                     dst: array<byte>, total: nat, ghost c: Codes) returns (result: Status<nat>)
    requires input.Valid() && FullCodes(mode, c) && least > 0 && total <= dst.Length
    requires (mode.litTree ==> litDec.For(c.lit)) && lenDec.For(c.len) && distDec.For(c.dist)
    requires litDec.Avoids(dst) && lenDec.Avoids(dst) && distDec.Avoids(dst)
    modifies input`bitpos, dst
    ensures var model := old(ExplodeFrom(mode, least, c, input.Rest(), [], total));
            match result
            case Ok(used) => model.Ok? && dst[..total] == model.value.out && |model.value.rest| <= 8 * |input.src|
                             && used == RoundUp8(8 * |input.src| - |model.value.rest|) / 8
            case Err => model == Err
            case Full => false
  {
    hide ExplodeFrom, Decoder.For, FullCodes;
    ghost var goal := ExplodeFrom(mode, least, c, input.Rest(), [], total);
    var dstPos: nat := 0;
    assert dst[..0] == [];
    while dstPos < total
      invariant input.Valid() && dstPos <= total
      invariant (mode.litTree ==> litDec.For(c.lit)) && lenDec.For(c.len) && distDec.For(c.dist)
      invariant goal == ExplodeFrom(mode, least, c, input.Rest(), dst[..dstPos], total)
      decreases |input.Rest()|
    {
      var ok;
      ok, dstPos := ExplodeStep(input, mode, least, litDec, lenDec, distDec, dst, dstPos, total, c, goal);
      if !ok {
        return Err;
      }
      assert dst[..][..dstPos] == dst[..dstPos];
    }
    ExplodeEnds(mode, least, c, input.Rest(), dst[..dstPos], total);
    return Ok(input.BytesRead());
  }

  lemma ExplodeEnds(mode: Mode, least: nat, c: Codes, bits: seq<bool>, out: seq<byte>, total: nat)
    requires FullCodes(mode, c) && |out| >= total
    ensures ExplodeFrom(mode, least, c, bits, out, total) == Ok(Output(out, bits))
  {
  }
}
