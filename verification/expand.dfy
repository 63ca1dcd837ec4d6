/** hwexpand() and its helpers (hwzip/reduce.c, lines 12-206), on any input. */
module ExpandCodec {
  import opened Bits
  import opened Bitstream
  import opened Outcome
  import opened Lz77
  import opened ReduceFormat
  import Lz77Codec

  // ---------------------------------------------------------------- follower sets

  /** follower_set_t */
  datatype FollowerSet = FollowerSet(size: nat, idxBw: nat, followers: seq<byte>)

  function SetOf(followers: seq<byte>): FollowerSet {
    FollowerSet(|followers|, IdxBw(|followers|), followers)
  }

  lemma ByteIs(b: seq<bool>)
    requires |b| >= 8
    ensures FromBits(b[..8]) < 256 && TakeByte(b) == ByteRead(FromBits(b[..8]), b[8..])
  {
    FromBitsBound(b[..8]);
    assert Pow2(8) == 256;
  }

  /** What is read when the bytes read so far come first. */
  function After(f: seq<byte>, r: SetRead): SetRead {
    match r
    case NoSet => NoSet
    case SetRead(g, rest) => SetRead(f + g, rest)
  }

  lemma TakeNext(f: seq<byte>, b: seq<bool>, n: nat)
    requires n > 0
    ensures |b| < 8 ==> After(f, TakeBytes(b, n)) == NoSet
    ensures |b| >= 8 ==> FromBits(b[..8]) < 256 && After(f, TakeBytes(b, n)) == After(f + [FromBits(b[..8])], TakeBytes(b[8..], n - 1))
  {
    hide FromBits;
    if |b| >= 8 {
      ByteIs(b);
      var x: byte := FromBits(b[..8]);
      match TakeBytes(b[8..], n - 1) {
        case NoSet =>
        case SetRead(g, rest) => assert f + ([x] + g) == f + [x] + g;
      }
    }
  }

  /** Reads one follower set. */
  method ReadFollowerSet(input: IStream) returns (ok: bool, s: FollowerSet)
    requires input.Valid()
    modifies input`bitpos
    ensures input.Valid() && ok == ReadSet(old(input.Rest())).SetRead?
    ensures ok ==> ReadSet(old(input.Rest())) == SetRead(s.followers, input.Rest()) && s == SetOf(s.followers)
  {
    hide FromBits, IdxBw, TakeBytes;
    s := FollowerSet(0, 0, []);
    var n;
    ok, n := ReadBits(input, 6);
    if !ok || n > MAX_FOLLOWERS {
      return false, s;
    }
    ghost var goal := TakeBytes(input.Rest(), n);
    NoneTaken(input.Rest(), n, goal);
    s := FollowerSet(n, IdxBw(n), []);
    var j := 0;
    while j < s.size
      invariant j <= s.size == n && s == FollowerSet(n, IdxBw(n), s.followers) && |s.followers| == j && input.Valid()
      invariant After(s.followers, TakeBytes(input.Rest(), n - j)) == goal
    {
      TakeNext(s.followers, input.Rest(), n - j);
      var v;
      ok, v := ReadBits(input, 8);
      if !ok {
        return;
      }
      s := s.(followers := s.followers + [v]);
      j := j + 1;
    }
    AllTaken(s.followers, input.Rest());
    ok := true;
  }

  lemma NoneTaken(b: seq<bool>, n: nat, goal: SetRead)
    requires goal == TakeBytes(b, n)
    ensures After([], TakeBytes(b, n)) == goal
  {
    match goal {
      case NoSet =>
      case SetRead(g, _) => assert [] + g == g;
    }
  }

  lemma AllTaken(f: seq<byte>, b: seq<bool>)
    ensures After(f, TakeBytes(b, 0)) == SetRead(f, b)
  {
    assert f + [] == f;
  }

  /** What is read when the sets read so far come last. */
  function BeforeSets(r: SetsRead, d: Sets): SetsRead {
    match r
    case NoSets => NoSets
    case SetsRead(s, rest) => SetsRead(s + d, rest)
  }

  lemma ReadSetsNext(b: seq<bool>, n: nat, d: Sets)
    requires n > 0
    ensures match ReadSet(b)
            case NoSet => BeforeSets(ReadSets(b, n), d) == NoSets
            case SetRead(f, rest) => BeforeSets(ReadSets(b, n), d) == BeforeSets(ReadSets(rest, n - 1), [f] + d)
  {
    hide ReadSet;
    match ReadSet(b) {
      case NoSet =>
      case SetRead(f, rest) =>
        match ReadSets(rest, n - 1) {
          case NoSets =>
          case SetsRead(s, _) => assert s + [f] + d == s + ([f] + d);
        }
    }
  }

  /** The sets from n on. */
  function Followers(fsets: seq<FollowerSet>): (s: Sets)
    ensures |s| == |fsets|
  {
    seq(|fsets|, i requires 0 <= i < |fsets| => fsets[i].followers)
  }

  /** The sets that have been read, with their sizes and index widths. */
  ghost predicate Filled(fsets: seq<FollowerSet>, n: nat) {
    |fsets| == 256 && forall p :: n <= p < 256 ==> fsets[p] == SetOf(fsets[p].followers)
  }

  /** read_follower_sets() */
  method ReadFollowerSets(input: IStream) returns (ok: bool, fsets: array<FollowerSet>)
    requires input.Valid()
    modifies input`bitpos
    ensures input.Valid() && fresh(fsets) && ok == ReadSets(old(input.Rest()), 256).SetsRead?
    ensures ok ==> ReadSets(old(input.Rest()), 256) == SetsRead(Followers(fsets[..]), input.Rest()) && Filled(fsets[..], 0)
  {
    hide ReadSet, ReadSets, SetOf, Followers;
    ghost var goal := ReadSets(input.Rest(), 256);
    fsets := new FollowerSet[256](_ => FollowerSet(0, 0, []));
    var n := 256;
    NoSetsYet(fsets[256..], goal);
    while n > 0
      invariant n <= 256 && input.Valid() && Filled(fsets[..], n)
      invariant BeforeSets(ReadSets(input.Rest(), n), Followers(fsets[n..])) == goal
    {
      ReadSetsNext(input.Rest(), n, Followers(fsets[n..]));
      ghost var d := fsets[n..];
      var s;
      ok, s := ReadFollowerSet(input);
      if !ok {
        return;
      }
      n := n - 1;
      fsets[n] := s;
      assert fsets[n..] == [s] + d;
      FollowersFirst(s, d);
    }
    assert fsets[0..] == fsets[..];
    AllSetsRead(input.Rest(), fsets[..]);
    ok := true;
  }

  lemma NoSetsYet(none: seq<FollowerSet>, goal: SetsRead)
    requires none == []
    ensures BeforeSets(goal, Followers(none)) == goal
  {
    match goal {
      case NoSets =>
      case SetsRead(s, _) => assert s + [] == s;
    }
  }

  lemma FollowersFirst(s: FollowerSet, d: seq<FollowerSet>)
    ensures Followers([s] + d) == [s.followers] + Followers(d)
  {
  }

  lemma AllSetsRead(b: seq<bool>, fsets: seq<FollowerSet>)
    ensures BeforeSets(ReadSets(b, 0), Followers(fsets)) == SetsRead(Followers(fsets), b)
  {
    assert [] + Followers(fsets) == Followers(fsets);
  }

  // ---------------------------------------------------------------- bytes

  lemma NextByteShort(f: seq<byte>, b: seq<bool>)
    requires f != []
    ensures b == [] ==> NextByte(f, b) == NoByte
    ensures b != [] && b[0] ==> NextByte(f, b) == TakeByte(b[1..])
    ensures b != [] && !b[0] ==>
              var bw := IdxBw(|f|);
              && (|b| < 1 + bw ==> NextByte(f, b) == NoByte)
              && (|b| >= 1 + bw && FromBits(b[1..1 + bw]) >= |f| ==> NextByte(f, b) == NoByte)
              && (|b| >= 1 + bw && FromBits(b[1..1 + bw]) < |f| ==>
                    NextByte(f, b) == ByteRead(f[FromBits(b[1..1 + bw])], b[1 + bw..]))
  {
    hide FromBits, IdxBw;
  }

  /** A byte as it is, k bits on in the window. */
  method ReadPlain(input: IStream, bits: nat, k: nat, ghost w: nat) returns (ok: bool, b: byte)
    requires input.Valid() && k <= 1 && 8 <= w && k <= |input.Rest()| && bits == Window(input.Rest()[k..] + Bits.Zeros(8), w)
    modifies input`bitpos
    ensures input.Valid() && ok == TakeByte(old(input.Rest())[k..]).ByteRead?
    ensures ok ==> TakeByte(old(input.Rest())[k..]) == ByteRead(b, input.Rest())
  {
    hide FromBits, Window;
    ghost var rest := input.Rest();
    var v, after := TakeBits(bits, 8, rest[k..] + Bits.Zeros(8), w);
    ByteIs(rest[k..] + Bits.Zeros(8));
    TakenByte(rest[k..], Bits.Zeros(8));
    b := v;
    ok := input.Advance(k + 8);
    if ok {
      assert rest[k + 8..] == rest[k..][8..];
    }
  }

  /** A byte by its place among the followers. */
  method ReadFollower(input: IStream, set_: FollowerSet, bits: nat, ghost w: nat) returns (ok: bool, b: byte)
    requires input.Valid() && set_ == SetOf(set_.followers) && set_.size <= MAX_FOLLOWERS && set_.followers != []
    requires 8 <= w && bits == Window((input.Rest() + Bits.Zeros(16))[1..], w)
    requires input.Rest() != [] ==> !input.Rest()[0]
    modifies input`bitpos
    ensures input.Valid() && ok == NextByte(set_.followers, old(input.Rest())).ByteRead?
    ensures ok ==> NextByte(set_.followers, old(input.Rest())) == ByteRead(b, input.Rest())
  {
    IdxBwFits(set_.size);
    hide FromBits, Window, IdxBw, NextByte;
    ghost var rest := input.Rest();
    ghost var p := (rest + Bits.Zeros(16))[1..];
    NextByteShort(set_.followers, rest);
    var idx, after := TakeBits(bits, set_.idxBw, p, w);
    b := if idx < set_.size then set_.followers[idx] else 0;
    ok := input.Advance(1 + set_.idxBw);
    if ok {
      assert p[..set_.idxBw] == rest[1..1 + set_.idxBw];
      ok := idx < set_.size;
    }
  }

  /** read_next_byte() */
  method ReadNextByte(input: IStream, set_: FollowerSet) returns (ok: bool, b: byte)
    requires input.Valid() && set_ == SetOf(set_.followers) && set_.size <= MAX_FOLLOWERS
    modifies input`bitpos
    ensures input.Valid() && ok == NextByte(set_.followers, old(input.Rest())).ByteRead?
    ensures ok ==> NextByte(set_.followers, old(input.Rest())) == ByteRead(b, input.Rest())
  {
    hide FromBits, Window, IdxBw, TakeByte;
    ghost var rest, w := input.Rest(), 64 - input.bitpos % 8;
    ghost var p := rest + Bits.Zeros(16);
    var bits := input.PeekBits();
    if set_.size == 0 {
      assert rest[0..] == rest;
      WindowPadded(rest, w, 8);
      ok, b := ReadPlain(input, bits, 0, w);
      return;
    }
    hide NextByte;
    NextByteShort(set_.followers, rest);
    WindowPadded(rest, w, 16);
    var first, after := TakeBits(bits, 1, p, w);
    FirstBit(p);
    if first == 1 {
      AfterFirst(rest, w - 1);
      ok, b := ReadPlain(input, after, 1, w - 1);
    } else {
      ok, b := ReadFollower(input, set_, after, w - 1);
    }
  }

  lemma AfterFirst(rest: seq<bool>, w: nat)
    requires (rest + Bits.Zeros(16))[0]
    ensures rest != [] && Window((rest + Bits.Zeros(16))[1..], w) == Window(rest[1..] + Bits.Zeros(8), w)
  {
    assert rest != [];
    assert (rest + Bits.Zeros(16))[1..] == rest[1..] + Bits.Zeros(16);
    WindowPadded(rest[1..], w, 16);
    WindowPadded(rest[1..], w, 8);
  }

  lemma FirstBit(p: seq<bool>)
    requires p != []
    ensures FromBits(p[..1]) == BitValue(p[0])
  {
    assert p[..1] == [p[0]];
  }

  lemma TakenByte(b: seq<bool>, z: seq<bool>)
    requires |b| + |z| >= 8
    ensures |b| >= 8 ==> FromBits((b + z)[..8]) < 256 && TakeByte(b) == ByteRead(FromBits((b + z)[..8]), b[8..])
    ensures |b| < 8 ==> TakeByte(b) == NoByte
  {
    hide FromBits;
    if |b| >= 8 {
      ByteIs(b);
      assert (b + z)[..8] == b[..8];
    }
  }

  // ---------------------------------------------------------------- the stream

  /** The sets in the form in which they are kept. */
  ghost predicate HasSets(fsets: seq<FollowerSet>, sets: Sets) {
    SetsOk(sets) && |fsets| == 256 && forall p :: 0 <= p < 256 ==> fsets[p] == SetOf(sets[p])
  }

  /** The outcome of part of the work: what is left to do is what the goal has left to do. */
  ghost predicate Agreed(ok: bool, pos: nat, curr: byte, goal: Status<Output>, factor: nat, sets: Sets, bits: seq<bool>,
                         dst: seq<byte>, total: nat) {
    && 1 <= factor <= 4 && SetsOk(sets)
    && (!ok ==> goal == Err)
    && (ok ==> pos <= total <= |dst| && goal == ExpandFrom(factor, sets, curr, bits, dst[..pos], total))
  }

  /** The output of a back reference, with implicit zeros before the beginning. */
  method Backref(dst: array<byte>, dstPos: nat, dist: nat, len: nat, total: nat) returns (ok: bool)
    requires dstPos <= total <= dst.Length && 1 <= dist && 0 < len
    modifies dst
    ensures ok == (dstPos + len <= total)
    ensures ok ==> dst[..dstPos + len] == CopyBack(old(dst[..dstPos]), dist, len)
  {
    if RoundUp8(len) <= total - dstPos && dist <= dstPos {
      Lz77Codec.OutputBackref64(dst, dstPos, dist, len);
    } else if len > total - dstPos {
      return false;
    } else {
      CopyWithZeros(dst, dstPos, dist, len);
    }
    return true;
  }

  method CopyWithZeros(dst: array<byte>, dstPos: nat, dist: nat, len: nat)
    requires dstPos + len <= dst.Length && 1 <= dist
    modifies dst
    ensures dst[..dstPos + len] == CopyBack(old(dst[..dstPos]), dist, len)
  {
    hide CopyBack;
    ghost var out := dst[..dstPos];
    Lz77Codec.CopyBackNone(out, dist);
    var i := 0;
    while i < len
      invariant i <= len && dst[..dstPos + i] == CopyBack(out, dist, i)
    {
      CopyBackSnoc(out, dist, i);
      if dist > dstPos + i {
        dst[dstPos + i] := 0;
      } else {
        dst[dstPos + i] := dst[dstPos + i - dist];
      }
      assert dst[..dstPos + i + 1] == dst[..dstPos + i] + [dst[dstPos + i]];
      i := i + 1;
    }
  }

  /** Reads what follows an escape and V. */
  method ReadReference(input: IStream, fsets: array<FollowerSet>, factor: nat, v: byte, ghost sets: Sets)
    returns (ok: bool, dist: nat, len: nat, last: byte)
    requires input.Valid() && 1 <= factor <= 4 && HasSets(fsets[..], sets)
    modifies input`bitpos
    ensures input.Valid() && ok == ReadRef(factor, sets, v, old(input.Rest())).RefRead?
    ensures ok ==> ReadRef(factor, sets, v, old(input.Rest())) == RefRead(dist, len, last, input.Rest()) && dist >= 1 && len >= 3
  {
    hide NextByte, Lsb, Shr, SetOf, VMax;
    var curr := v;
    len := Lsb(v, VLenBits(factor));
    dist, last := 0, 0;
    SetAt(fsets[..], sets, curr);
    if len == VMax(factor) {
      ok, curr := ReadNextByte(input, fsets[curr]);
      if !ok {
        return;
      }
      len := len + curr;
      SetAt(fsets[..], sets, curr);
    }
    len := len + 3;
    ok, last := ReadNextByte(input, fsets[curr]);
    dist := Shr(v, VLenBits(factor)) * 256 + last + 1;
  }

  lemma SetAt(fsets: seq<FollowerSet>, sets: Sets, p: byte)
    requires HasSets(fsets, sets)
    ensures |fsets| == |sets| == 256 && fsets[p] == SetOf(sets[p]) && SetOf(sets[p]).size <= MAX_FOLLOWERS
    ensures fsets[p].followers == sets[p]
  {
  }

  lemma LiteralGoal(factor: nat, sets: Sets, prev: byte, bits: seq<bool>, out: seq<byte>, total: nat)
    requires 1 <= factor <= 4 && SetsOk(sets) && |out| < total
    ensures var goal, r := ExpandFrom(factor, sets, prev, bits, out, total), NextByte(sets[prev], bits);
            && (r.NoByte? ==> goal == Err)
            && (r.ByteRead? && r.value != DLE_BYTE ==> goal == ExpandFrom(factor, sets, r.value, r.rest, out + [r.value], total))
            && (r.ByteRead? && r.value == DLE_BYTE ==> goal == AfterDle(factor, sets, r.rest, out, total))
  {
    hide NextByte, ReadRef;
  }

  /** What there is to do after an escape byte. */
  function AfterDle(factor: nat, sets: Sets, bits: seq<bool>, out: seq<byte>, total: nat): Status<Output>
    requires 1 <= factor <= 4 && SetsOk(sets)
  {
    match NextByte(sets[DLE_BYTE], bits)
    case NoByte => Err
    case ByteRead(v, rest) =>
      if v == 0 then ExpandFrom(factor, sets, v, rest, out + [DLE_BYTE], total)
      else AfterRef(factor, sets, ReadRef(factor, sets, v, rest), out, total)
  }

  function AfterRef(factor: nat, sets: Sets, r: RefRead, out: seq<byte>, total: nat): Status<Output>
    requires 1 <= factor <= 4 && SetsOk(sets)
  {
    match r
    case NoRef => Err
    case RefRead(dist, len, last, after) =>
      if |out| + len > total then Err else ExpandFrom(factor, sets, last, after, CopyBack(out, dist, len), total)
  }

  /** A literal byte in the output. */
  method OutputByte(dst: array<byte>, dstPos: nat, b: byte)
    requires dstPos < dst.Length
    modifies dst
    ensures dst[..dstPos + 1] == old(dst[..dstPos]) + [b] && dst[..][..dstPos + 1] == dst[..dstPos + 1]
  {
    dst[dstPos] := b;
    assert dst[..dstPos + 1] == dst[..dstPos] + [b];
  }

  /** The part of the loop after an escape byte has been read. */
  method Escaped(input: IStream, fsets: array<FollowerSet>, factor: nat, dst: array<byte>, dstPos: nat, total: nat,
                 ghost sets: Sets, ghost goal: Status<Output>) returns (ok: bool, pos: nat, curr: byte)
    requires input.Valid() && 1 <= factor <= 4 && HasSets(fsets[..], sets) && dstPos < total <= dst.Length
    requires goal == AfterDle(factor, sets, input.Rest(), dst[..dstPos], total)
    requires (dst as object) != fsets
    modifies input`bitpos, dst
    ensures input.Valid() && Agreed(ok, pos, curr, goal, factor, sets, input.Rest(), dst[..], total)
    ensures ok ==> |input.Rest()| < |old(input.Rest())|
  {
    hide NextByte, ReadRef, SetOf, ExpandFrom, CopyBack;
    pos := dstPos;
    SetAt(fsets[..], sets, DLE_BYTE);
    ok, curr := ReadNextByte(input, fsets[DLE_BYTE]);
    if !ok {
      return;
    }
    if curr == 0 {
      OutputByte(dst, dstPos, DLE_BYTE);
      pos := dstPos + 1;
      return;
    }
    var v := curr;
    var dist, len;
    ok, dist, len, curr := ReadReference(input, fsets, factor, v, sets);
    if !ok {
      return;
    }
    ok := Backref(dst, dstPos, dist, len, total);
    if ok {
      pos := dstPos + len;
      assert dst[..][..pos] == dst[..pos];
    }
  }

  /** One turn of the loop of hwexpand(). */
  method ExpandStep(input: IStream, fsets: array<FollowerSet>, factor: nat, dst: array<byte>, dstPos: nat, total: nat, prev: byte,
                    ghost sets: Sets) returns (ok: bool, pos: nat, curr: byte)
    requires input.Valid() && 1 <= factor <= 4 && HasSets(fsets[..], sets) && dstPos < total <= dst.Length
    requires (dst as object) != fsets
    modifies input`bitpos, dst
    ensures input.Valid()
    ensures Agreed(ok, pos, curr, old(ExpandFrom(factor, sets, prev, input.Rest(), dst[..dstPos], total)), factor, sets,
                   input.Rest(), dst[..], total)
    ensures ok ==> |input.Rest()| < |old(input.Rest())|
  {
    hide NextByte, ReadRef, SetOf, ExpandFrom, CopyBack, AfterDle;
    pos := dstPos;
    LiteralGoal(factor, sets, prev, input.Rest(), dst[..dstPos], total);
    SetAt(fsets[..], sets, prev);
    ghost var goal := ExpandFrom(factor, sets, prev, input.Rest(), dst[..dstPos], total);
    ok, curr := ReadNextByte(input, fsets[prev]);
    if !ok {
      return;
    }
    if curr != DLE_BYTE {
      OutputByte(dst, dstPos, curr);
      pos := dstPos + 1;
    } else {
      ok, pos, curr := Escaped(input, fsets, factor, dst, dstPos, total, sets, goal);
    }
  }

  /** hwexpand(): on any input, the outcome is that of the format; on success the result is the number of
      bytes read, and dst begins with the total number of bytes. */
  method HwExpand(src: seq<byte>, total: nat, factor: nat, dst: array<byte>) returns (result: Status<nat>)
    requires 1 <= factor <= 4 && total <= dst.Length
    modifies dst
    ensures var model := Expanded(factor, BytesToBits(src), total);
            match result
            case Ok(used) => model.Ok? && dst[..total] == model.value.out && |model.value.rest| <= 8 * |src|
                             && used == RoundUp8(8 * |src| - |model.value.rest|) / 8
            case Err => model == Err
            case Full => false
  {
    hide ReadSets, ExpandFrom, BytesToBits, SetOf, Followers;
    var input := new IStream(src);
    var ok, fsets := ReadFollowerSets(input);
    if !ok {
      return Err;
    }
    ghost var sets := Followers(fsets[..]);
    assert HasSets(fsets[..], sets) by { SetsFilled(fsets[..], input.Rest(), BytesToBits(src)); }
    ghost var goal := ExpandFrom(factor, sets, 0, input.Rest(), [], total);
    var dstPos: nat, curr: byte := 0, 0;
    assert dst[..0] == [];
    while dstPos < total
      invariant input.Valid() && input.src == src && dstPos <= total && HasSets(fsets[..], sets)
      invariant goal == ExpandFrom(factor, sets, curr, input.Rest(), dst[..dstPos], total)
      decreases |input.Rest()|
    {
      ok, dstPos, curr := ExpandStep(input, fsets, factor, dst, dstPos, total, curr, sets);
      if !ok {
        return Err;
      }
      assert dst[..][..dstPos] == dst[..dstPos];
    }
    ExpandEnds(factor, sets, curr, input.Rest(), dst[..dstPos], total);
    return Ok(input.BytesRead());
  }

  lemma SetsFilled(fsets: seq<FollowerSet>, rest: seq<bool>, bits: seq<bool>)
    requires Filled(fsets, 0) && ReadSets(bits, 256) == SetsRead(Followers(fsets), rest)
    ensures HasSets(fsets, Followers(fsets))
  {
    hide ReadSets;
  }

  lemma ExpandEnds(factor: nat, sets: Sets, prev: byte, bits: seq<bool>, out: seq<byte>, total: nat)
    requires 1 <= factor <= 4 && SetsOk(sets) && |out| >= total
    ensures ExpandFrom(factor, sets, prev, bits, out, total) == Ok(Output(out, bits))
  {
  }
}
