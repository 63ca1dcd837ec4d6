/** The Implode format (hwzip/implode.c; APPNOTE section 5.3): literals and back references, coded with two
    or three full Huffman codes whose lengths come first, and whose codewords are written with all bits
    flipped. */
module ImplodeFormat {
  import opened Bits
  import opened Outcome
  import opened Huffman
  import opened Lz77

  const LIT_SYMS: nat := 256
  const SYMS: nat := 64

  /** The flags of a compressed file: how large the window is, and whether there is a code for literals. */
  datatype Mode = Mode(largeWnd: bool, litTree: bool) {
    /** The number of bits of a distance that are not coded. */
    function DistBits(): nat {
      if largeWnd then 7 else 6
    }

    /** max_dist() */
    function MaxDist(): nat {
      if largeWnd then 8192 else 4096
    }

    function MinLen(): nat {
      if litTree then 3 else 2
    }

    /** max_len() */
    function MaxLen(): nat {
      MinLen() + 63 + 255
    }
  }

  datatype Read<T> = Nothing | Got(value: T, rest: seq<bool>)

  // ---------------------------------------------------------------- flipped codewords

  function Flip(b: seq<bool>): (r: seq<bool>)
    ensures |r| == |b| && forall i :: 0 <= i < |b| ==> r[i] == !b[i]
  {
    seq(|b|, i requires 0 <= i < |b| => !b[i])
  }

  lemma FlipConcat(a: seq<bool>, b: seq<bool>)
    ensures Flip(a + b) == Flip(a) + Flip(b) && Flip(Flip(a)) == a
  {
  }

  /** Reads a symbol whose codeword has been flipped. */
  function DecodeFlipped(lengths: seq<nat>, bits: seq<bool>): (d: Decoded)
    ensures d.Symbol? ==> d.value < |lengths| && 0 < lengths[d.value] <= |bits| && d.rest == bits[lengths[d.value]..]
  {
    match Decode(lengths, Flip(bits))
    case NoSymbol => NoSymbol
    case Symbol(s, _) => Symbol(s, bits[lengths[s]..])
  }

  function FlippedCodeword(lengths: seq<nat>, s: nat): (b: seq<bool>)
    requires s < |lengths|
    ensures |b| == lengths[s]
  {
    Flip(Codeword(lengths, s))
  }

  lemma FlippedReads(lengths: seq<nat>, s: nat, rest: seq<bool>)
    requires LengthsOk(lengths) && Fits(lengths) && s < |lengths| && lengths[s] > 0
    ensures DecodeFlipped(lengths, FlippedCodeword(lengths, s) + rest) == Symbol(s, rest)
  {
    hide Codeword, Decode, Flip, Fits, LengthsOk;
    var c := Codeword(lengths, s);
    FlipConcat(Flip(c), rest);
    FlipConcat(c, rest);
    DecodeCodeword(lengths, s, Flip(rest));
  }

  // ---------------------------------------------------------------- codeword lengths

  /** All symbols have codewords, and all codewords are used. */
  ghost predicate FullCode(lens: seq<nat>, n: nat) {
    && |lens| == n && n <= LIT_SYMS
    && (forall s :: 0 <= s < n ==> 1 <= lens[s] <= MAX_BITS)
    && Used(lens, MAX_BITS) == Pow2(MAX_BITS)
  }

  lemma FullIsOk(lens: seq<nat>, n: nat)
    requires FullCode(lens, n)
    ensures |lens| == n && LengthsOk(lens) && Fits(lens)
  {
  }

  /** A run of equal lengths. */
  datatype Run = Run(len: nat, num: nat)

  ghost predicate RunsOk(runs: seq<Run>) {
    forall r :: r in runs ==> 1 <= r.len <= 16 && 1 <= r.num <= 16
  }

  /** The lengths that runs stand for. */
  function Lengths(runs: seq<Run>): seq<nat> {
    if runs == [] then [] else Repeat(runs[0].len, runs[0].num) + Lengths(runs[1..])
  }

  /** One more length. */
  function AddLength(runs: seq<Run>, l: nat): (r: seq<Run>)
    ensures |runs| <= |r| <= |runs| + 1 && r != []
  {
    var n := |runs| - 1;
    if runs != [] && runs[n].len == l && runs[n].num < 16 then runs[n := Run(l, runs[n].num + 1)]
    else runs + [Run(l, 1)]
  }

  /** Run-length encoding of codeword lengths. */
  function RunsOf(lens: seq<nat>): (r: seq<Run>)
    ensures |r| <= |lens| && (lens != [] ==> r != [])
  {
    if lens == [] then [] else AddLength(RunsOf(lens[..|lens| - 1]), lens[|lens| - 1])
  }

  lemma {:induction false} LengthsSnoc(runs: seq<Run>, r: Run)
    ensures Lengths(runs + [r]) == Lengths(runs) + Repeat(r.len, r.num)
  {
    hide Repeat;
    if runs == [] {
      assert [] + [r] == [r] && [r][1..] == [];
      assert Repeat(r.len, r.num) + [] == Repeat(r.len, r.num);
    } else {
      LengthsSnoc(runs[1..], r);
      assert (runs + [r])[1..] == runs[1..] + [r];
    }
  }

  lemma AddLengthAdds(runs: seq<Run>, l: nat)
    ensures Lengths(AddLength(runs, l)) == Lengths(runs) + [l]
    ensures RunsOk(runs) && 1 <= l <= 16 ==> RunsOk(AddLength(runs, l))
  {
    hide Lengths;
    var n := |runs| - 1;
    if runs != [] && runs[n].len == l && runs[n].num < 16 {
      var k := runs[n].num;
      assert runs == runs[..n] + [runs[n]];
      assert AddLength(runs, l) == runs[..n] + [Run(l, k + 1)];
      LengthsSnoc(runs[..n], runs[n]);
      LengthsSnoc(runs[..n], Run(l, k + 1));
      assert Repeat(l, k + 1) == Repeat(l, k) + [l];
    } else {
      LengthsSnoc(runs, Run(l, 1));
      assert Repeat(l, 1) == [l];
    }
  }

  /** Run-length encoding loses nothing. */
  lemma {:induction false} RunsRound(lens: seq<nat>)
    ensures Lengths(RunsOf(lens)) == lens
    ensures (forall s :: 0 <= s < |lens| ==> 1 <= lens[s] <= 16) ==> RunsOk(RunsOf(lens))
  {
    hide AddLength;
    if lens != [] {
      var n := |lens| - 1;
      RunsRound(lens[..n]);
      AddLengthAdds(RunsOf(lens[..n]), lens[n]);
      assert lens == lens[..n] + [lens[n]];
    }
  }

  function RunBits(r: Run): (b: seq<bool>)
    requires 1 <= r.len && 1 <= r.num
    ensures |b| == 8
  {
    ToBits(r.len - 1, 4) + ToBits(r.num - 1, 4)
  }

  function RunsBits(runs: seq<Run>): (b: seq<bool>)
    requires RunsOk(runs)
    ensures |b| == 8 * |runs|
  {
    if runs == [] then []
    else
      assert forall r :: r in runs[1..] ==> r in runs;
      RunBits(runs[0]) + RunsBits(runs[1..])
  }

  /** What is written for a code: the number of runs, and the runs; nothing for a code that is missing. */
  function CodeBits(lens: seq<nat>): seq<bool>
    requires forall s :: 0 <= s < |lens| ==> 1 <= lens[s] <= 16
  {
    RunsRound(lens);
    if lens == [] then [] else ToBits(|RunsOf(lens)| - 1, 8) + RunsBits(RunsOf(lens))
  }

  /** The loop of read_huffman_code(), with n runs to go, and the checks after it. */
  function ReadRuns(bits: seq<bool>, n: nat, num: nat, lens: seq<nat>): (r: Read<seq<nat>>)
    ensures r.Got? ==> |r.rest| <= |bits|
    decreases n
  {
    if n == 0 then
      if |lens| == num && Used(lens, MAX_BITS) == Pow2(MAX_BITS) then Got(lens, bits) else Nothing
    else if |bits| < 8 then Nothing
    else
      var l, k := FromBits(bits[..4]) + 1, FromBits(bits[4..8]) + 1;
      if |lens| + k > num then Nothing else ReadRuns(bits[8..], n - 1, num, lens + Repeat(l, k))
  }

  /** read_huffman_code() */
  function ReadCode(bits: seq<bool>, num: nat): (r: Read<seq<nat>>)
    ensures r.Got? ==> |r.rest| <= |bits|
  {
    if |bits| < 8 then Nothing else ReadRuns(bits[8..], FromBits(bits[..8]) + 1, num, [])
  }

  lemma RunReads(r: Run, more: seq<bool>)
    requires 1 <= r.len <= 16 && 1 <= r.num <= 16
    ensures var b := RunBits(r) + more;
            |b| >= 8 && FromBits(b[..4]) + 1 == r.len && FromBits(b[4..8]) + 1 == r.num && b[8..] == more
  {
    hide ToBits, FromBits;
    assert Pow2(4) == 16;
    FromToBits(r.len - 1, 4);
    FromToBits(r.num - 1, 4);
    var b := RunBits(r) + more;
    assert b[..4] == ToBits(r.len - 1, 4) && b[4..8] == ToBits(r.num - 1, 4);
  }

  lemma {:induction false} RunsRead(runs: seq<Run>, num: nat, lens: seq<nat>, rest: seq<bool>)
    requires RunsOk(runs) && FullCode(lens + Lengths(runs), num)
    ensures ReadRuns(RunsBits(runs) + rest, |runs|, num, lens) == Got(lens + Lengths(runs), rest)
    decreases |runs|
  {
    hide FromBits, RunBits, Used, Repeat, Pow2;
    if runs == [] {
      assert lens + [] == lens && [] + rest == rest;
    } else {
      var r, more := runs[0], runs[1..];
      assert forall x :: x in more ==> x in runs;
      assert RunsBits(runs) + rest == RunBits(r) + (RunsBits(more) + rest);
      RunReads(r, RunsBits(more) + rest);
      assert lens + Lengths(runs) == lens + Repeat(r.len, r.num) + Lengths(more);
      RunsRead(more, num, lens + Repeat(r.len, r.num), rest);
    }
  }

  /** Reading a code inverts writing it. */
  lemma CodeReads(lens: seq<nat>, num: nat, rest: seq<bool>)
    requires FullCode(lens, num) && num > 0
    ensures ReadCode(CodeBits(lens) + rest, num) == Got(lens, rest)
  {
    hide FromBits, ToBits, RunsBits, RunsOf, ReadRuns, Used, Lengths, Pow2;
    RunsRound(lens);
    var runs := RunsOf(lens);
    var n, b := ToBits(|runs| - 1, 8), RunsBits(runs);
    assert n + b + rest == n + (b + rest);
    assert (n + (b + rest))[..8] == n && (n + (b + rest))[8..] == b + rest;
    Pow2Word();
    FromToBits(|runs| - 1, 8);
    assert [] + lens == lens;
    RunsRead(runs, num, [], rest);
  }

  // ---------------------------------------------------------------- all codes

  /** The codes for literals, if there is one, for lengths and for the high parts of distances. */
  datatype Codes = Codes(lit: seq<nat>, len: seq<nat>, dist: seq<nat>)

  ghost predicate FullCodes(mode: Mode, c: Codes) {
    && (mode.litTree ==> FullCode(c.lit, LIT_SYMS)) && (!mode.litTree ==> c.lit == [])
    && FullCode(c.len, SYMS) && FullCode(c.dist, SYMS)
  }

  /** No length is out of range. */
  ghost predicate InRange(c: Codes) {
    forall s :: (0 <= s < |c.lit| ==> 1 <= c.lit[s] <= 16) && (0 <= s < |c.len| ==> 1 <= c.len[s] <= 16)
                && (0 <= s < |c.dist| ==> 1 <= c.dist[s] <= 16)
  }

  function CodesBits(c: Codes): seq<bool>
    requires InRange(c)
  {
    CodeBits(c.lit) + (CodeBits(c.len) + CodeBits(c.dist))
  }

  function ReadLenDist(lit: seq<nat>, bits: seq<bool>): (r: Read<Codes>)
    ensures r.Got? ==> |r.rest| <= |bits|
  {
    match ReadCode(bits, SYMS)
    case Nothing => Nothing
    case Got(len, rest) =>
      match ReadCode(rest, SYMS)
      case Nothing => Nothing
      case Got(dist, rest') => Got(Codes(lit, len, dist), rest')
  }

  function ReadCodes(mode: Mode, bits: seq<bool>): (r: Read<Codes>)
    ensures r.Got? ==> |r.rest| <= |bits|
  {
    if mode.litTree then
      match ReadCode(bits, LIT_SYMS)
      case Nothing => Nothing
      case Got(lit, rest) => ReadLenDist(lit, rest)
    else ReadLenDist([], bits)
  }

  lemma CodesRead(mode: Mode, c: Codes, rest: seq<bool>)
    requires FullCodes(mode, c) && InRange(c)
    ensures ReadCodes(mode, CodesBits(c) + rest) == Got(c, rest)
  {
    hide ReadCode, FullCode, CodeBits;
    var lit, len, dist := CodeBits(c.lit), CodeBits(c.len), CodeBits(c.dist);
    assert lit + (len + dist) + rest == lit + (len + (dist + rest));
    CodeReads(c.len, SYMS, dist + rest);
    CodeReads(c.dist, SYMS, rest);
    if mode.litTree {
      CodeReads(c.lit, LIT_SYMS, len + (dist + rest));
    } else {
      assert lit == [] by { NoCode(); }
      assert [] + (len + (dist + rest)) == len + (dist + rest);
    }
  }

  lemma NoCode()
    ensures CodeBits([]) == []
  {
  }

  // ---------------------------------------------------------------- tokens

  ghost predicate TokenOk(mode: Mode, t: Token) {
    t.Ref? ==> 1 <= t.dist <= mode.MaxDist() && mode.MinLen() <= t.len <= mode.MaxLen()
  }

  ghost predicate TokensOk(mode: Mode, ts: seq<Token>) {
    forall t :: t in ts ==> TokenOk(mode, t)
  }

  /** dist_sym() */
  function DistSym(mode: Mode, dist: nat): (s: nat)
    requires 1 <= dist <= mode.MaxDist()
    ensures s < SYMS
  {
    Powers();
    ShrBound(dist - 1, mode.DistBits(), mode.DistBits() + 6);
    Shr(dist - 1, mode.DistBits())
  }

  lemma Powers()
    ensures Pow2(4) == 16 && Pow2(6) == 64 && Pow2(7) == 128 && Pow2(8) == 256 && Pow2(12) == 4096 && Pow2(13) == 8192
  {
    assert Pow2(4) == 16 && Pow2(6) == 64;
    Pow2Add(6, 6);
  }

  /** len_sym() */
  function LenSym(mode: Mode, len: nat): (s: nat)
    requires mode.MinLen() <= len <= mode.MaxLen()
    ensures s < SYMS
  {
    if len - mode.MinLen() < 63 then len - mode.MinLen() else 63
  }

  /** write_lit(), after the marker bit. */
  function LitBits(mode: Mode, c: Codes, b: byte): seq<bool>
    requires FullCodes(mode, c)
  {
    if mode.litTree then FlippedCodeword(c.lit, b) else ToBits(b, 8)
  }

  /** The byte after the code for the greatest length symbol. */
  function ExtraBits(mode: Mode, len: nat): seq<bool>
    requires mode.MinLen() <= len <= mode.MaxLen()
  {
    if LenSym(mode, len) == 63 then ToBits(len - 63 - mode.MinLen(), 8) else []
  }

  /** write_backref(), after the marker bit. */
  function RefBits(mode: Mode, c: Codes, dist: nat, len: nat): seq<bool>
    requires FullCodes(mode, c) && TokenOk(mode, Ref(dist, len))
  {
    ToBits(Lsb(dist - 1, mode.DistBits()), mode.DistBits())
    + (FlippedCodeword(c.dist, DistSym(mode, dist)) + (FlippedCodeword(c.len, LenSym(mode, len)) + ExtraBits(mode, len)))
  }

  function TokenBits(mode: Mode, c: Codes, t: Token): seq<bool>
    requires FullCodes(mode, c) && TokenOk(mode, t)
  {
    match t
    case Lit(b) => [true] + LitBits(mode, c, b)
    case Ref(dist, len) => [false] + RefBits(mode, c, dist, len)
  }

  function TokensBits(mode: Mode, c: Codes, ts: seq<Token>): seq<bool>
    requires FullCodes(mode, c) && TokensOk(mode, ts)
    decreases |ts|
  {
    if ts == [] then []
    else
      assert forall t :: t in ts[1..] ==> t in ts;
      TokenBits(mode, c, ts[0]) + TokensBits(mode, c, ts[1..])
  }

  // ---------------------------------------------------------------- decompressing

  /** The least length of a match as hwexplode() takes it. */
  function LeastLen(mode: Mode, pk101BugCompat: bool): nat {
    if pk101BugCompat then if mode.largeWnd then 3 else 2 else mode.MinLen()
  }

  function ReadLit(mode: Mode, c: Codes, bits: seq<bool>): (r: Read<byte>)
    requires FullCodes(mode, c)
    ensures r.Got? ==> |r.rest| <= |bits|
  {
    if mode.litTree then
      match DecodeFlipped(c.lit, bits)
      case NoSymbol => Nothing
      case Symbol(s, rest) => Got(s, rest)
    else if |bits| < 8 then Nothing
    else
      FromBitsBound(bits[..8]);
      Powers();
      Got(FromBits(bits[..8]), bits[8..])
  }

  function ReadExtra(s: nat, least: nat, dist: nat, bits: seq<bool>): (r: Read<Token>)
    requires s < SYMS
    ensures r.Got? ==> |r.rest| <= |bits| && r.value.Ref?
  {
    if s < 63 then Got(Ref(dist, s + least), bits)
    else if |bits| < 8 then Nothing
    else Got(Ref(dist, s + least + FromBits(bits[..8])), bits[8..])
  }

  function ReadLen(mode: Mode, least: nat, c: Codes, dist: nat, bits: seq<bool>): (r: Read<Token>)
    requires FullCodes(mode, c)
    ensures r.Got? ==> |r.rest| <= |bits| && r.value.Ref?
  {
    match DecodeFlipped(c.len, bits)
    case NoSymbol => Nothing
    case Symbol(s, rest) => ReadExtra(s, least, dist, rest)
  }

  function ReadRef(mode: Mode, least: nat, c: Codes, bits: seq<bool>): (r: Read<Token>)
    requires FullCodes(mode, c)
    ensures r.Got? ==> |r.rest| <= |bits| && r.value.Ref?
  {
    var k := mode.DistBits();
    if |bits| < k then Nothing
    else
      match DecodeFlipped(c.dist, bits[k..])
      case NoSymbol => Nothing
      case Symbol(d, rest) => ReadLen(mode, least, c, FromBits(bits[..k]) + Shl(d, k) + 1, rest)
  }

  /** The loop of hwexplode(). */
  function ExplodeFrom(mode: Mode, least: nat, c: Codes, bits: seq<bool>, out: seq<byte>, total: nat): Status<Output>
    requires FullCodes(mode, c)
    decreases |bits|
  {
    if |out| >= total then Ok(Output(out, bits))
    else if bits == [] then Err
    else if bits[0] then
      match ReadLit(mode, c, bits[1..])
      case Nothing => Err
      case Got(b, rest) => ExplodeFrom(mode, least, c, rest, out + [b], total)
    else
      match ReadRef(mode, least, c, bits[1..])
      case Nothing => Err
      case Got(t, rest) =>
        if |out| + t.len > total then Err
        else ExplodeFrom(mode, least, c, rest, CopyBack(out, t.dist, t.len), total)
  }

  /** hwexplode() */
  ghost function Exploded(mode: Mode, least: nat, bits: seq<bool>, total: nat): Status<Output> {
    match ReadCodes(mode, bits)
    case Nothing => Err
    case Got(c, rest) =>
      ReadCodesFull(mode, bits);
      ExplodeFrom(mode, least, c, rest, [], total)
  }

  lemma {:induction false} ReadRunsFull(bits: seq<bool>, n: nat, num: nat, lens: seq<nat>)
    requires num <= LIT_SYMS && |lens| <= num && forall s :: 0 <= s < |lens| ==> 1 <= lens[s] <= MAX_BITS
    ensures var r := ReadRuns(bits, n, num, lens); r.Got? ==> FullCode(r.value, num)
    decreases n
  {
    hide Used, Pow2, FromBits;
    if n > 0 && |bits| >= 8 {
      var l, k := FromBits(bits[..4]) + 1, FromBits(bits[4..8]) + 1;
      FromBitsBound(bits[..4]);
      Powers();
      if |lens| + k <= num {
        ReadRunsFull(bits[8..], n - 1, num, lens + Repeat(l, k));
      }
    }
  }

  /** Whatever is read as a code is a full one. */
  lemma ReadCodesFull(mode: Mode, bits: seq<bool>)
    ensures var r := ReadCodes(mode, bits); r.Got? ==> FullCodes(mode, r.value)
  {
    hide FullCode, ReadCode;
    forall b: seq<bool>, num: nat | num <= LIT_SYMS
      ensures ReadCode(b, num).Got? ==> FullCode(ReadCode(b, num).value, num)
    {
      ReadCodeFull(b, num);
    }
  }

  lemma ReadCodeFull(bits: seq<bool>, num: nat)
    requires num <= LIT_SYMS
    ensures var r := ReadCode(bits, num); r.Got? ==> FullCode(r.value, num)
  {
    hide FullCode, ReadRuns, FromBits;
    if |bits| >= 8 {
      ReadRunsFull(bits[8..], FromBits(bits[..8]) + 1, num, []);
    }
  }

  // ---------------------------------------------------------------- reading what was written

  lemma ByteReads(v: nat, rest: seq<bool>)
    requires v < 256
    ensures var b := ToBits(v, 8) + rest; |b| >= 8 && FromBits(b[..8]) == v && b[8..] == rest
  {
    hide ToBits, FromBits;
    Powers();
    FromToBits(v, 8);
    assert (ToBits(v, 8) + rest)[..8] == ToBits(v, 8);
  }

  lemma LitReads(mode: Mode, c: Codes, b: byte, rest: seq<bool>)
    requires FullCodes(mode, c)
    ensures ReadLit(mode, c, LitBits(mode, c, b) + rest) == Got(b, rest)
  {
    hide DecodeFlipped, FlippedCodeword, ToBits, FromBits, FullCode;
    if mode.litTree {
      FullAt(c.lit, LIT_SYMS, b);
      FlippedReads(c.lit, b, rest);
    } else {
      ByteReads(b, rest);
    }
  }

  lemma FullAt(lens: seq<nat>, n: nat, s: nat)
    requires FullCode(lens, n) && s < n
    ensures |lens| == n && 1 <= lens[s] <= MAX_BITS && LengthsOk(lens) && Fits(lens)
  {
  }

  lemma ExtraReads(mode: Mode, dist: nat, len: nat, rest: seq<bool>)
    requires mode.MinLen() <= len <= mode.MaxLen()
    ensures ReadExtra(LenSym(mode, len), mode.MinLen(), dist, ExtraBits(mode, len) + rest) == Got(Ref(dist, len), rest)
  {
    hide ToBits, FromBits;
    if LenSym(mode, len) == 63 {
      ByteReads(len - 63 - mode.MinLen(), rest);
    } else {
      assert [] + rest == rest;
    }
  }

  lemma RefReads(mode: Mode, c: Codes, dist: nat, len: nat, rest: seq<bool>)
    requires FullCodes(mode, c) && TokenOk(mode, Ref(dist, len))
    ensures ReadRef(mode, mode.MinLen(), c, RefBits(mode, c, dist, len) + rest) == Got(Ref(dist, len), rest)
  {
    hide DecodeFlipped, FlippedCodeword, ToBits, FromBits, FullCode, ReadExtra, ExtraBits, LenSym, DistSym, Lsb, Shl;
    var k, d, l := mode.DistBits(), DistSym(mode, dist), LenSym(mode, len);
    FullAt(c.dist, SYMS, d);
    FullAt(c.len, SYMS, l);
    var low, dw, lw, e := ToBits(Lsb(dist - 1, k), k), FlippedCodeword(c.dist, d), FlippedCodeword(c.len, l), ExtraBits(mode, len);
    var bits := RefBits(mode, c, dist, len) + rest;
    assert bits == low + (dw + (lw + (e + rest)));
    assert bits[..k] == low && bits[k..] == dw + (lw + (e + rest));
    FlippedReads(c.dist, d, lw + (e + rest));
    FlippedReads(c.len, l, e + rest);
    ExtraReads(mode, dist, len, rest);
    DistJoins(mode, dist);
  }

  lemma DistJoins(mode: Mode, dist: nat)
    requires 1 <= dist <= mode.MaxDist()
    ensures FromBits(ToBits(Lsb(dist - 1, mode.DistBits()), mode.DistBits())) + Shl(DistSym(mode, dist), mode.DistBits()) + 1 == dist
  {
    hide ToBits, FromBits, Lsb;
    SplitNumber(dist - 1, mode.DistBits());
    FromToBits(Lsb(dist - 1, mode.DistBits()), mode.DistBits());
  }

  /** Reading the bits of a token does what the token says. */
  lemma TokenReads(mode: Mode, c: Codes, t: Token, out: seq<byte>, total: nat, rest: seq<bool>)
    requires FullCodes(mode, c) && TokenOk(mode, t) && |Apply(out, t)| <= total
    ensures ExplodeFrom(mode, mode.MinLen(), c, TokenBits(mode, c, t) + rest, out, total)
         == ExplodeFrom(mode, mode.MinLen(), c, rest, Apply(out, t), total)
  {
    hide FullCodes, ReadLit, ReadRef, LitBits, RefBits, CopyBack;
    var bits := TokenBits(mode, c, t) + rest;
    match t {
      case Lit(b) =>
        assert bits[0] && bits[1..] == LitBits(mode, c, b) + rest;
        LitReads(mode, c, b, rest);
      case Ref(dist, len) =>
        assert !bits[0] && bits[1..] == RefBits(mode, c, dist, len) + rest;
        RefReads(mode, c, dist, len, rest);
    }
  }

  lemma {:induction false} TokensRead(mode: Mode, c: Codes, ts: seq<Token>, out: seq<byte>, total: nat, rest: seq<bool>)
    requires FullCodes(mode, c) && TokensOk(mode, ts) && |Expand(out, ts)| == total
    ensures ExplodeFrom(mode, mode.MinLen(), c, TokensBits(mode, c, ts) + rest, out, total) == Ok(Output(Expand(out, ts), rest))
    decreases |ts|
  {
    hide FullCodes, TokenOk, TokenBits, Apply;
    if ts == [] {
      assert [] + rest == rest;
    } else {
      hide ExplodeFrom;
      var t, more := ts[0], ts[1..];
      assert forall x :: x in more ==> x in ts;
      var b, b' := TokenBits(mode, c, t), TokensBits(mode, c, more);
      assert b + b' + rest == b + (b' + rest);
      ExpandGrows(Apply(out, t), more);
      TokenReads(mode, c, t, out, total, b' + rest);
      TokensRead(mode, c, more, Apply(out, t), total, rest);
    }
  }

  /** What is written for tokens with any full codes. */
  function ImplodedBits(mode: Mode, c: Codes, ts: seq<Token>): seq<bool>
    requires FullCodes(mode, c) && InRange(c) && TokensOk(mode, ts)
  {
    CodesBits(c) + TokensBits(mode, c, ts)
  }

  /** The codes, and after them the bits of the tokens, are read back as what the tokens stand for,
      whatever full codes were chosen. */
  lemma ImplodedReads(mode: Mode, c: Codes, ts: seq<Token>, src: seq<byte>, rest: seq<bool>)
    requires FullCodes(mode, c) && InRange(c) && TokensOk(mode, ts) && Expand([], ts) == src
    ensures Exploded(mode, mode.MinLen(), ImplodedBits(mode, c, ts) + rest, |src|) == Ok(Output(src, rest))
  {
    hide FullCodes, InRange, ReadCodes, CodesBits, TokensBits, ExplodeFrom, TokensOk;
    var b, body := CodesBits(c), TokensBits(mode, c, ts);
    assert b + body + rest == b + (body + rest);
    CodesRead(mode, c, body + rest);
    TokensRead(mode, c, ts, [], |src|, rest);
  }
}
