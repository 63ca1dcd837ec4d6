/** The Reduce format (hwzip/reduce.c; APPNOTE section 5.2): a byte string with escapes for back
    references, each byte coded by its place among the likely followers of the byte before it. */
module ReduceFormat {
  import opened Bits
  import opened Outcome
  import opened Lz77

  const DLE_BYTE: byte := 144
  const MAX_FOLLOWERS: nat := 32

  // ---------------------------------------------------------------- bytes and followers

  /** follower_idx_bw() */
  function IdxBw(n: nat): nat {
    if n > 16 then 5 else if n > 8 then 4 else if n > 4 then 3 else if n > 2 then 2 else if n > 0 then 1 else 0
  }

  lemma IdxBwFits(n: nat)
    requires n <= MAX_FOLLOWERS
    ensures n <= Pow2(IdxBw(n)) && IdxBw(n) <= 5
  {
    assert Pow2(0) == 1 && Pow2(1) == 2 && Pow2(2) == 4 && Pow2(3) == 8 && Pow2(4) == 16 && Pow2(5) == 32;
  }

  /** The followers of each byte, in order. */
  type Sets = seq<seq<byte>>

  ghost predicate SetsOk(sets: Sets) {
    |sets| == 256 && forall p :: 0 <= p < 256 ==> |sets[p]| <= MAX_FOLLOWERS
  }

  datatype ByteRead = NoByte | ByteRead(value: byte, rest: seq<bool>)

  function TakeByte(bits: seq<bool>): ByteRead {
    if |bits| < 8 then NoByte
    else
      FromBitsBound(bits[..8]);
      assert Pow2(8) == 256;
      ByteRead(FromBits(bits[..8]), bits[8..])
  }

  /** read_next_byte() */
  function NextByte(followers: seq<byte>, bits: seq<bool>): (r: ByteRead)
    ensures r.ByteRead? ==> |r.rest| < |bits|
  {
    if followers == [] then TakeByte(bits)
    else if bits == [] then NoByte
    else if bits[0] then TakeByte(bits[1..])
    else
      var bw := IdxBw(|followers|);
      if |bits| < 1 + bw then NoByte
      else
        var i := FromBits(bits[1..1 + bw]);
        if i >= |followers| then NoByte else ByteRead(followers[i], bits[1 + bw..])
  }

  /** The place of a byte among the followers, or none. */
  function IndexOf(followers: seq<byte>, b: byte): (i: int)
    ensures -1 <= i < |followers|
    ensures i >= 0 ==> followers[i] == b
    ensures i < 0 ==> b !in followers
  {
    if followers == [] then -1
    else if followers[|followers| - 1] == b then |followers| - 1
    else IndexOf(followers[..|followers| - 1], b)
  }

  /** write_byte(), after the sets have been written. */
  function ByteBits(followers: seq<byte>, b: byte): (bits: seq<bool>)
    ensures |bits| <= 9
  {
    var i := IndexOf(followers, b);
    if i >= 0 then
      (if |followers| <= MAX_FOLLOWERS then IdxBwFits(|followers|); [false] + ToBits(i, IdxBw(|followers|)) else [])
    else if followers != [] then [true] + ToBits(b, 8)
    else ToBits(b, 8)
  }

  lemma ByteRound(b: byte, rest: seq<bool>)
    ensures TakeByte(ToBits(b, 8) + rest) == ByteRead(b, rest)
  {
    assert Pow2(8) == 256;
    FromToBits(b, 8);
    assert (ToBits(b, 8) + rest)[..8] == ToBits(b, 8);
  }

  /** Reading a byte inverts writing it. */
  lemma NextByteReads(followers: seq<byte>, b: byte, rest: seq<bool>)
    requires |followers| <= MAX_FOLLOWERS
    ensures NextByte(followers, ByteBits(followers, b) + rest) == ByteRead(b, rest)
  {
    var i, bw := IndexOf(followers, b), IdxBw(|followers|);
    if i >= 0 {
      IdxBwFits(|followers|);
      var bits := [false] + ToBits(i, bw) + rest;
      assert bits[1..1 + bw] == ToBits(i, bw) && bits[1 + bw..] == rest;
      FromToBits(i, bw);
    } else {
      ByteRound(b, rest);
      if followers != [] {
        assert ([true] + ToBits(b, 8) + rest)[1..] == ToBits(b, 8) + rest;
      }
    }
  }

  function BytesBits(sets: Sets, prev: byte, bytes: seq<byte>): seq<bool>
    requires SetsOk(sets)
    decreases |bytes|
  {
    if bytes == [] then [] else ByteBits(sets[prev], bytes[0]) + BytesBits(sets, bytes[0], bytes[1..])
  }

  /** The last byte, or the one before. */
  function LastByte(prev: byte, bytes: seq<byte>): byte {
    if bytes == [] then prev else bytes[|bytes| - 1]
  }

  lemma {:induction false} BytesBitsConcat(sets: Sets, prev: byte, a: seq<byte>, b: seq<byte>)
    requires SetsOk(sets)
    ensures BytesBits(sets, prev, a + b) == BytesBits(sets, prev, a) + BytesBits(sets, LastByte(prev, a), b)
    decreases |a|
  {
    hide ByteBits, SetsOk;
    if a == [] {
      assert a + b == b;
    } else {
      BytesBitsConcat(sets, a[0], a[1..], b);
      assert (a + b)[1..] == a[1..] + b;
    }
  }

  // ---------------------------------------------------------------- follower sets

  datatype SetRead = NoSet | SetRead(followers: seq<byte>, rest: seq<bool>)

  function TakeBytes(bits: seq<bool>, n: nat): (r: SetRead)
    ensures r.SetRead? ==> |r.followers| == n && |r.rest| <= |bits|
    decreases n
  {
    if n == 0 then SetRead([], bits)
    else
      match TakeByte(bits)
      case NoByte => NoSet
      case ByteRead(b, rest) =>
        match TakeBytes(rest, n - 1)
        case NoSet => NoSet
        case SetRead(f, rest') => SetRead([b] + f, rest')
  }

  function ReadSet(bits: seq<bool>): (r: SetRead)
    ensures r.SetRead? ==> |r.followers| <= MAX_FOLLOWERS && |r.rest| <= |bits|
  {
    if |bits| < 6 || FromBits(bits[..6]) > MAX_FOLLOWERS then NoSet
    else TakeBytes(bits[6..], FromBits(bits[..6]))
  }

  datatype SetsRead = NoSets | SetsRead(sets: Sets, rest: seq<bool>)

  /** read_follower_sets(): the sets of n bytes, the last byte's first. */
  function ReadSets(bits: seq<bool>, n: nat): (r: SetsRead)
    ensures r.SetsRead? ==> |r.sets| == n && |r.rest| <= |bits|
    ensures r.SetsRead? ==> forall p :: 0 <= p < n ==> |r.sets[p]| <= MAX_FOLLOWERS
    decreases n
  {
    if n == 0 then SetsRead([], bits)
    else
      match ReadSet(bits)
      case NoSet => NoSets
      case SetRead(f, rest) =>
        match ReadSets(rest, n - 1)
        case NoSets => NoSets
        case SetsRead(s, rest') => SetsRead(s + [f], rest')
  }

  function FollowerBits(followers: seq<byte>): seq<bool> {
    if followers == [] then [] else ToBits(followers[0], 8) + FollowerBits(followers[1..])
  }

  function SetBits(followers: seq<byte>): seq<bool> {
    ToBits(|followers|, 6) + FollowerBits(followers)
  }

  /** The sets of the first n bytes, the last of them first. */
  function SetsBits(sets: Sets, n: nat): seq<bool>
    requires n <= |sets|
  {
    if n == 0 then [] else SetBits(sets[n - 1]) + SetsBits(sets, n - 1)
  }

  lemma {:induction false} TakeBytesReads(followers: seq<byte>, rest: seq<bool>)
    ensures TakeBytes(FollowerBits(followers) + rest, |followers|) == SetRead(followers, rest)
  {
    hide TakeByte, ToBits;
    if followers == [] {
      assert [] + rest == rest;
    } else {
      var b, f := ToBits(followers[0], 8), followers[1..];
      var more := FollowerBits(f) + rest;
      assert FollowerBits(followers) + rest == b + more;
      ByteRound(followers[0], more);
      TakeBytesReads(f, rest);
      assert [followers[0]] + f == followers;
    }
  }

  lemma ReadSetReads(followers: seq<byte>, rest: seq<bool>)
    requires |followers| <= MAX_FOLLOWERS
    ensures ReadSet(SetBits(followers) + rest) == SetRead(followers, rest)
  {
    hide ToBits, FromBits, FollowerBits, TakeBytes;
    var n, f := ToBits(|followers|, 6), FollowerBits(followers);
    var bits := SetBits(followers) + rest;
    assert bits[..6] == n && bits[6..] == f + rest;
    assert Pow2(6) == 64;
    FromToBits(|followers|, 6);
    TakeBytesReads(followers, rest);
  }

  /** Reading the sets inverts writing them. */
  lemma {:induction false} ReadSetsReads(sets: Sets, n: nat, rest: seq<bool>)
    requires n <= |sets| && forall p :: 0 <= p < n ==> |sets[p]| <= MAX_FOLLOWERS
    ensures ReadSets(SetsBits(sets, n) + rest, n) == SetsRead(sets[..n], rest)
  {
    hide SetBits, ReadSet;
    if n == 0 {
      assert [] + rest == rest;
    } else {
      var f, more := SetBits(sets[n - 1]), SetsBits(sets, n - 1);
      assert f + more + rest == f + (more + rest);
      ReadSetReads(sets[n - 1], more + rest);
      ReadSetsReads(sets, n - 1, rest);
      assert sets[..n] == sets[..n - 1] + [sets[n - 1]];
    }
  }

  // ---------------------------------------------------------------- back references

  function VLenBits(factor: nat): nat
    requires 1 <= factor <= 4
  {
    8 - factor
  }

  /** The greatest number that the length bits of V can hold. */
  function VMax(factor: nat): (m: nat)
    requires 1 <= factor <= 4
    ensures m == if factor == 1 then 127 else if factor == 2 then 63 else if factor == 3 then 31 else 15
  {
    assert Pow2(7) == 128 && Pow2(6) == 64 && Pow2(5) == 32 && Pow2(4) == 16;
    Pow2(VLenBits(factor)) - 1
  }

  /** max_len() */
  function MaxLen(factor: nat): nat
    requires 1 <= factor <= 4
  {
    VMax(factor) + 255 + 3
  }

  /** max_dist() */
  function MaxDist(factor: nat): nat
    requires 1 <= factor <= 4
  {
    (Pow2(factor) - 1) * 256 + 255 + 1
  }

  /** The V byte: length in the low bits, the high part of the distance above them. */
  function VByte(factor: nat, dist: nat, len: nat): (v: nat)
    requires 1 <= factor <= 4 && 3 < len <= MaxLen(factor) && 1 <= dist <= MaxDist(factor)
    ensures 0 < v < 256
  {
    VByteFits(factor, dist, len);
    Min(len - 3, VMax(factor)) + Shl((dist - 1) / 256, VLenBits(factor))
  }

  lemma VByteFits(factor: nat, dist: nat, len: nat)
    requires 1 <= factor <= 4 && 3 < len <= MaxLen(factor) && 1 <= dist <= MaxDist(factor)
    ensures var low, high := Min(len - 3, VMax(factor)), (dist - 1) / 256;
            0 < low < Pow2(VLenBits(factor)) && high < Pow2(factor) && low + Shl(high, VLenBits(factor)) < 256
  {
    var low, high, k := Min(len - 3, VMax(factor)), (dist - 1) / 256, VLenBits(factor);
    assert high <= Pow2(factor) - 1;
    JoinBits(low, k, high, factor);
    assert Pow2(8) == 256;
  }

  /** What the decompressor does with V. */
  lemma VByteReads(factor: nat, dist: nat, len: nat)
    requires 1 <= factor <= 4 && 3 < len <= MaxLen(factor) && 1 <= dist <= MaxDist(factor)
    ensures Lsb(VByte(factor, dist, len), VLenBits(factor)) == Min(len - 3, VMax(factor))
    ensures Shr(VByte(factor, dist, len), VLenBits(factor)) == (dist - 1) / 256
  {
    VByteFits(factor, dist, len);
    JoinNumber(Min(len - 3, VMax(factor)), (dist - 1) / 256, VLenBits(factor));
  }

  ghost predicate TokenOk(factor: nat, t: Token)
    requires 1 <= factor <= 4
  {
    t.Ref? ==> 3 < t.len <= MaxLen(factor) && 1 <= t.dist <= MaxDist(factor)
  }

  /** The bytes of a token: escapes and what follows them. */
  function TokenBytes(factor: nat, t: Token): (s: seq<byte>)
    requires 1 <= factor <= 4 && TokenOk(factor, t)
    ensures s != []
  {
    match t
    case Lit(b) => if b == DLE_BYTE then [b, 0] else [b]
    case Ref(dist, len) =>
      [DLE_BYTE, VByte(factor, dist, len)]
      + (if len - 3 >= VMax(factor) then [len - 3 - VMax(factor)] else [])
      + [(dist - 1) % 256]
  }

  ghost predicate TokensOk(factor: nat, ts: seq<Token>)
    requires 1 <= factor <= 4
  {
    forall t :: t in ts ==> TokenOk(factor, t)
  }

  function TokensBytes(factor: nat, ts: seq<Token>): seq<byte>
    requires 1 <= factor <= 4 && TokensOk(factor, ts)
  {
    if ts == [] then [] else TokensBytes(factor, ts[..|ts| - 1]) + TokenBytes(factor, ts[|ts| - 1])
  }

  lemma {:induction false} TokensBytesFirst(factor: nat, t: Token, ts: seq<Token>)
    requires 1 <= factor <= 4 && TokensOk(factor, [t] + ts)
    ensures TokenOk(factor, t) && TokensOk(factor, ts)
    ensures TokensBytes(factor, [t] + ts) == TokenBytes(factor, t) + TokensBytes(factor, ts)
  {
    hide TokenBytes, TokenOk;
    var all := [t] + ts;
    assert all[0] == t && forall x :: x in ts ==> x in all;
    if ts == [] {
      assert all[..0] == [];
    } else {
      var n := |ts| - 1;
      assert all[..|all| - 1] == [t] + ts[..n];
      TokensBytesFirst(factor, t, ts[..n]);
    }
  }

  // ---------------------------------------------------------------- decompressing

  datatype RefRead = NoRef | RefRead(dist: nat, len: nat, last: byte, rest: seq<bool>)

  /** What follows an escape and V. */
  function ReadRef(factor: nat, sets: Sets, v: byte, bits: seq<bool>): (r: RefRead)
    requires 1 <= factor <= 4 && SetsOk(sets)
    ensures r.RefRead? ==> |r.rest| < |bits|
  {
    var low := Lsb(v, VLenBits(factor));
    if low == VMax(factor) then
      match NextByte(sets[v], bits)
      case NoByte => NoRef
      case ByteRead(b, rest) => ReadW(factor, sets, v, low + b + 3, b, rest)
    else ReadW(factor, sets, v, low + 3, v, bits)
  }

  function ReadW(factor: nat, sets: Sets, v: byte, len: nat, prev: byte, bits: seq<bool>): (r: RefRead)
    requires 1 <= factor <= 4 && SetsOk(sets)
    ensures r.RefRead? ==> |r.rest| < |bits|
  {
    match NextByte(sets[prev], bits)
    case NoByte => NoRef
    case ByteRead(w, rest) => RefRead(Shr(v, VLenBits(factor)) * 256 + w + 1, len, w, rest)
  }

  /** The loop of hwexpand(): prev is the byte read last. */
  function ExpandFrom(factor: nat, sets: Sets, prev: byte, bits: seq<bool>, out: seq<byte>, total: nat): Status<Output>
    requires 1 <= factor <= 4 && SetsOk(sets)
    decreases |bits|
  {
    if |out| >= total then Ok(Output(out, bits))
    else
      match NextByte(sets[prev], bits)
      case NoByte => Err
      case ByteRead(b, rest) =>
        if b != DLE_BYTE then ExpandFrom(factor, sets, b, rest, out + [b], total)
        else
          match NextByte(sets[b], rest)
          case NoByte => Err
          case ByteRead(v, rest') =>
            if v == 0 then ExpandFrom(factor, sets, v, rest', out + [DLE_BYTE], total)
            else
              match ReadRef(factor, sets, v, rest')
              case NoRef => Err
              case RefRead(dist, len, last, after) =>
                if |out| + len > total then Err
                else ExpandFrom(factor, sets, last, after, CopyBack(out, dist, len), total)
  }

  /** hwexpand() */
  function Expanded(factor: nat, bits: seq<bool>, total: nat): Status<Output>
    requires 1 <= factor <= 4
  {
    match ReadSets(bits, 256)
    case NoSets => Err
    case SetsRead(sets, rest) => ExpandFrom(factor, sets, 0, rest, [], total)
  }

  // ---------------------------------------------------------------- reading what was written

  /** Reading the bits of a token does what the token says; an escaped byte is never taken for a back
      reference, nor the other way round. */
  lemma TokenReads(factor: nat, sets: Sets, prev: byte, t: Token, out: seq<byte>, total: nat, rest: seq<bool>)
    requires 1 <= factor <= 4 && SetsOk(sets) && TokenOk(factor, t) && |Apply(out, t)| <= total
    ensures var s := TokenBytes(factor, t);
            ExpandFrom(factor, sets, prev, BytesBits(sets, prev, s) + rest, out, total) ==
            ExpandFrom(factor, sets, LastByte(prev, s), rest, Apply(out, t), total)
  {
    match t {
      case Lit(b) => LitReads(factor, sets, prev, b, out, total, rest);
      case Ref(dist, len) => RefReads(factor, sets, prev, dist, len, out, total, rest);
    }
  }

  lemma TwoBits(sets: Sets, prev: byte, a: byte, s: seq<byte>, rest: seq<bool>)
    requires SetsOk(sets)
    ensures BytesBits(sets, prev, [a] + s) + rest == ByteBits(sets[prev], a) + (BytesBits(sets, a, s) + rest)
    ensures NextByte(sets[prev], BytesBits(sets, prev, [a] + s) + rest) == ByteRead(a, BytesBits(sets, a, s) + rest)
  {
    hide ByteBits, NextByte;
    assert ([a] + s)[1..] == s;
    NextByteReads(sets[prev], a, BytesBits(sets, a, s) + rest);
  }

  lemma NoBits(sets: Sets, prev: byte, rest: seq<bool>)
    requires SetsOk(sets)
    ensures BytesBits(sets, prev, []) + rest == rest
  {
  }

  lemma LitReads(factor: nat, sets: Sets, prev: byte, b: byte, out: seq<byte>, total: nat, rest: seq<bool>)
    requires 1 <= factor <= 4 && SetsOk(sets) && |out| < total
    ensures var s := TokenBytes(factor, Lit(b));
            ExpandFrom(factor, sets, prev, BytesBits(sets, prev, s) + rest, out, total) ==
            ExpandFrom(factor, sets, LastByte(prev, s), rest, out + [b], total)
  {
    hide BytesBits, NextByte, ReadRef, SetsOk;
    if b == DLE_BYTE {
      assert [b, 0] == [b] + [0] && [0] == [0] + [];
      TwoBits(sets, prev, b, [0], rest);
      TwoBits(sets, b, 0, [], rest);
      NoBits(sets, 0, rest);
    } else {
      assert [b] == [b] + [];
      TwoBits(sets, prev, b, [], rest);
      NoBits(sets, b, rest);
    }
  }

  lemma DistBack(dist: nat)
    requires dist >= 1
    ensures (dist - 1) / 256 * 256 + (dist - 1) % 256 + 1 == dist
  {
  }

  lemma WReads(factor: nat, sets: Sets, dist: nat, len: nat, v: byte, l: nat, prev: byte, rest: seq<bool>)
    requires 1 <= factor <= 4 && SetsOk(sets) && 3 < len <= MaxLen(factor) && 1 <= dist <= MaxDist(factor)
    requires v == VByte(factor, dist, len)
    ensures var w := (dist - 1) % 256;
            ReadW(factor, sets, v, l, prev, BytesBits(sets, prev, [w]) + rest) == RefRead(dist, l, w, rest)
  {
    hide BytesBits, NextByte, SetsOk, VByte, Shr, Lsb;
    var w := (dist - 1) % 256;
    assert [w] == [w] + [];
    TwoBits(sets, prev, w, [], rest);
    NoBits(sets, w, rest);
    VByteReads(factor, dist, len);
    DistBack(dist);
  }

  /** What follows V in the bytes of a back reference. */
  function AfterV(factor: nat, dist: nat, len: nat): seq<byte>
    requires 1 <= factor <= 4 && 3 < len <= MaxLen(factor) && 1 <= dist <= MaxDist(factor)
  {
    (if len - 3 >= VMax(factor) then [len - 3 - VMax(factor)] else []) + [(dist - 1) % 256]
  }

  lemma ReadRefReads(factor: nat, sets: Sets, dist: nat, len: nat, v: byte, rest: seq<bool>)
    requires 1 <= factor <= 4 && SetsOk(sets) && 3 < len <= MaxLen(factor) && 1 <= dist <= MaxDist(factor)
    requires v == VByte(factor, dist, len)
    ensures ReadRef(factor, sets, v, BytesBits(sets, v, AfterV(factor, dist, len)) + rest)
         == RefRead(dist, len, (dist - 1) % 256, rest)
  {
    hide BytesBits, NextByte, SetsOk, VByte, Shr, Lsb, ReadW;
    var w: byte := (dist - 1) % 256;
    VByteReads(factor, dist, len);
    if len - 3 >= VMax(factor) {
      var e: byte := len - 3 - VMax(factor);
      TwoBits(sets, v, e, [w], rest);
      WReads(factor, sets, dist, len, v, len, e, rest);
    } else {
      assert [] + [w] == [w];
      WReads(factor, sets, dist, len, v, len, v, rest);
    }
  }

  /** One step of the loop that reads a back reference. */
  lemma ExpandRef(factor: nat, sets: Sets, prev: byte, bits: seq<bool>, bits': seq<bool>, v: byte, bits'': seq<bool>,
                  dist: nat, len: nat, w: byte, rest: seq<bool>, out: seq<byte>, total: nat)
    requires 1 <= factor <= 4 && SetsOk(sets)
    requires NextByte(sets[prev], bits) == ByteRead(DLE_BYTE, bits') && NextByte(sets[DLE_BYTE], bits') == ByteRead(v, bits'')
    requires v != 0 && ReadRef(factor, sets, v, bits'') == RefRead(dist, len, w, rest)
    requires |out| < total && |out| + len <= total
    ensures ExpandFrom(factor, sets, prev, bits, out, total) == ExpandFrom(factor, sets, w, rest, CopyBack(out, dist, len), total)
  {
    hide NextByte, ReadRef, SetsOk, CopyBack;
  }

  lemma RefBytes(factor: nat, prev: byte, dist: nat, len: nat)
    requires 1 <= factor <= 4 && 3 < len <= MaxLen(factor) && 1 <= dist <= MaxDist(factor)
    ensures var s := TokenBytes(factor, Ref(dist, len));
            s == [DLE_BYTE] + ([VByte(factor, dist, len)] + AfterV(factor, dist, len)) && LastByte(prev, s) == (dist - 1) % 256
  {
    hide VByte;
  }

  lemma RefReads(factor: nat, sets: Sets, prev: byte, dist: nat, len: nat, out: seq<byte>, total: nat, rest: seq<bool>)
    requires 1 <= factor <= 4 && SetsOk(sets) && 3 < len <= MaxLen(factor) && 1 <= dist <= MaxDist(factor)
    requires |out| + len <= total
    ensures var s := TokenBytes(factor, Ref(dist, len));
            ExpandFrom(factor, sets, prev, BytesBits(sets, prev, s) + rest, out, total) ==
            ExpandFrom(factor, sets, LastByte(prev, s), rest, CopyBack(out, dist, len), total)
  {
    hide BytesBits, NextByte, ReadRef, SetsOk, VByte, CopyBack, ExpandFrom, TokenBytes, LastByte, ByteBits, AfterV;
    var v, w: byte, s := VByte(factor, dist, len), (dist - 1) % 256, AfterV(factor, dist, len);
    RefBytes(factor, prev, dist, len);
    TwoBits(sets, prev, DLE_BYTE, [v] + s, rest);
    TwoBits(sets, DLE_BYTE, v, s, rest);
    ReadRefReads(factor, sets, dist, len, v, rest);
    var bits'', bits' := BytesBits(sets, v, s) + rest, BytesBits(sets, DLE_BYTE, [v] + s) + rest;
    ExpandRef(factor, sets, prev, BytesBits(sets, prev, [DLE_BYTE] + ([v] + s)) + rest, bits', v, bits'', dist, len, w, rest, out, total);
  }

  /** Reading the bits of all tokens expands them. */
  lemma {:induction false} TokensRead(factor: nat, sets: Sets, prev: byte, ts: seq<Token>, out: seq<byte>, total: nat, rest: seq<bool>)
    requires 1 <= factor <= 4 && SetsOk(sets) && TokensOk(factor, ts) && |Expand(out, ts)| == total
    ensures ExpandFrom(factor, sets, prev, BytesBits(sets, prev, TokensBytes(factor, ts)) + rest, out, total)
         == Ok(Output(Expand(out, ts), rest))
    decreases |ts|
  {
    hide BytesBits, SetsOk, Apply, TokenOk, TokenBytes, TokensBytes;
    if ts == [] {
      assert TokensBytes(factor, []) == [] by { NoTokenBytes(factor); }
      NoBits(sets, prev, rest);
    } else {
      hide ExpandFrom;
      var t, more := ts[0], ts[1..];
      assert ts == [t] + more;
      TokensBytesFirst(factor, t, more);
      var s, s' := TokenBytes(factor, t), TokensBytes(factor, more);
      BytesBitsConcat(sets, prev, s, s');
      var b, b' := BytesBits(sets, prev, s), BytesBits(sets, LastByte(prev, s), s');
      assert b + b' + rest == b + (b' + rest);
      ExpandGrows(Apply(out, t), more);
      TokenReads(factor, sets, prev, t, out, total, b' + rest);
      TokensRead(factor, sets, LastByte(prev, s), more, Apply(out, t), total, rest);
    }
  }

  lemma NoTokenBytes(factor: nat)
    requires 1 <= factor <= 4
    ensures TokensBytes(factor, []) == []
  {
  }

  /** The sets, and after them the bytes of the tokens, are read back as what the tokens stand for. */
  lemma ReducedReads(factor: nat, sets: Sets, ts: seq<Token>, src: seq<byte>, rest: seq<bool>)
    requires 1 <= factor <= 4 && SetsOk(sets) && TokensOk(factor, ts) && Expand([], ts) == src
    ensures Expanded(factor, SetsBits(sets, 256) + BytesBits(sets, 0, TokensBytes(factor, ts)) + rest, |src|)
         == Ok(Output(src, rest))
  {
    hide ReadSets, SetsBits, BytesBits, ExpandFrom;
    var b, body := SetsBits(sets, 256), BytesBits(sets, 0, TokensBytes(factor, ts));
    assert b + body + rest == b + (body + rest);
    ReadSetsReads(sets, 256, body + rest);
    assert sets[..256] == sets;
    TokensRead(factor, sets, 0, ts, [], |src|, rest);
  }
}
