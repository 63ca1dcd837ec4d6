/** hwreduce() and its helpers (hwzip/reduce.c, lines 208-486), updated in place. */
module ReduceCodec {
  import opened Bits
  import opened Bitstream
  import opened Lz77
  import opened ReduceFormat
  import opened Followers
  import Lz77Codec

  const RAW_BYTES_SZ: nat := 65536
  const NO_FOLLOWER_IDX: nat := 255

  /** The bytes that the follower sets are computed from. */
  function Head(all: seq<byte>): seq<byte> {
    if |all| <= RAW_BYTES_SZ then all else all[..RAW_BYTES_SZ]
  }

  /** Everything that is written for a byte string. */
  function ReducedBits(all: seq<byte>): seq<bool> {
    SetsBits(ChosenSets(Head(all)), 256) + BytesBits(ChosenSets(Head(all)), 0, all)
  }

  /** An entry of the table of follower indices. */
  function IdxEntry(followers: seq<byte>, b: byte): nat {
    var i := IndexOf(followers, b);
    if i < 0 then NO_FOLLOWER_IDX else i
  }

  lemma IndexOfSnoc(followers: seq<byte>, x: byte, b: byte)
    ensures IndexOf(followers + [x], b) == if x == b then |followers| else IndexOf(followers, b)
  {
    assert (followers + [x])[..|followers|] == followers;
  }

  // ---------------------------------------------------------------- counting

  /** The first loop of write_follower_sets(). */
  method CountFollowers(bytes: seq<byte>) returns (count: array2<nat>)
    ensures fresh(count) && count.Length0 == count.Length1 == 256
    ensures forall p, b :: 0 <= p < 256 && 0 <= b < 256 ==> count[p, b] == Follows(bytes, p, b)
  {
    hide Follows;
    count := new nat[256, 256]((_, _) => 0);
    NoFollows();
    var prev: byte := 0;
    var i := 0;
    assert bytes[..0] == [];
    while i < |bytes|
      invariant i <= |bytes| && prev == LastByte(0, bytes[..i])
      invariant forall p, b :: 0 <= p < 256 && 0 <= b < 256 ==> count[p, b] == Follows(bytes[..i], p, b)
    {
      var curr := bytes[i];
      assert bytes[..i + 1] == bytes[..i] + [curr];
      FollowsAll(bytes[..i], curr);
      count[prev, curr] := count[prev, curr] + 1;
      prev := curr;
      i := i + 1;
    }
    assert bytes[..i] == bytes;
  }

  lemma NoFollows()
    ensures forall p: nat, b: nat :: Follows([], p, b) == 0
  {
  }

  lemma FollowsAll(bytes: seq<byte>, c: byte)
    ensures forall p: nat, b: nat :: Follows(bytes + [c], p, b) == Follows(bytes, p, b) + if LastByte(0, bytes) == p && c == b then 1 else 0
  {
    hide Follows;
    forall p: nat, b: nat
      ensures Follows(bytes + [c], p, b) == Follows(bytes, p, b) + if LastByte(0, bytes) == p && c == b then 1 else 0
    {
      FollowsNext(bytes, c, p, b);
    }
  }

  // ---------------------------------------------------------------- the state

  /** reduce_state_t */
  class Reducer {
    const os: OStream
    const factor: nat
    var prevByte: byte
    var flushed: bool
    const rawBytes: array<byte>
    var numRawBytes: nat
    const followerIdx: array2<nat>
    const followerIdxBw: array<nat>
    /** All bytes to be written, and how many have been written or buffered. */
    ghost const all: seq<byte>
    ghost var pos: nat

    ghost predicate Shape() {
      && rawBytes.Length == RAW_BYTES_SZ && rawBytes != os.dst && followerIdxBw.Length == 256
      && followerIdx.Length0 == followerIdx.Length1 == 256
      && (os as object) != rawBytes && (os as object) != followerIdx && (os as object) != followerIdxBw
      && (os.dst as object) != followerIdx && (os.dst as object) != followerIdxBw
      && (rawBytes as object) != followerIdx && (rawBytes as object) != followerIdxBw && (followerIdx as object) != followerIdxBw
    }

    ghost function Sets(): Sets {
      ChosenSets(Head(all))
    }

    /** The tables for byte p are those for a set. */
    ghost predicate RowOk(p: nat, followers: seq<byte>)
      requires Shape() && p < 256
      reads followerIdx, followerIdxBw
    {
      && followerIdxBw[p] == IdxBw(|followers|)
      && forall b :: 0 <= b < 256 ==> followerIdx[p, b] == IdxEntry(followers, b)
    }

    ghost predicate TablesFrom(lo: nat)
      requires Shape()
      reads followerIdx, followerIdxBw
    {
      forall p :: lo <= p < 256 ==> RowOk(p, Sets()[p])
    }

    /** What has been written, and after it the bytes from k on, is all that is to be written. */
    ghost predicate Written(k: nat)
      requires Shape()
      reads this, os, os.dst, followerIdx, followerIdxBw
    {
      && os.Valid() && TablesFrom(0) && k <= |all|
      && os.written + BytesBits(Sets(), prevByte, all[k..]) == ReducedBits(all)
    }

    ghost predicate Buffered()
      requires Shape()
      reads this, os, os.dst, rawBytes
    {
      && os.Valid() && os.written == [] && prevByte == 0 && pos == numRawBytes < RAW_BYTES_SZ
      && pos <= |all| && rawBytes[..pos] == all[..pos]
    }

    ghost predicate Valid()
      reads this, os, os.dst, rawBytes, followerIdx, followerIdxBw
    {
      Shape() && if flushed then Written(pos) else Buffered()
    }

    constructor (dst: array<byte>, factor: nat, ghost all: seq<byte>)
      ensures Valid() && os.dst == dst && this.factor == factor && this.all == all && pos == 0 && !flushed
      ensures fresh(os) && fresh(rawBytes) && fresh(followerIdx) && fresh(followerIdxBw)
    {
      os := new OStream(dst);
      this.factor := factor;
      prevByte, flushed, numRawBytes, pos := 0, false, 0, 0;
      rawBytes := new byte[RAW_BYTES_SZ];
      followerIdx := new nat[256, 256];
      followerIdxBw := new nat[256];
      this.all := all;
    }

    // ------------------------------------------------------------ follower sets

    /** Sets up the row of the tables for byte p. */
    method SetRow(p: nat, fs: seq<Follower>, size: nat)
      requires Shape() && p < 256 && |fs| == 256 && size <= MAX_FOLLOWERS
      modifies followerIdx, followerIdxBw
      ensures RowOk(p, FirstBytes(fs, size))
      ensures forall q, b :: 0 <= q < 256 && 0 <= b < 256 && q != p ==> followerIdx[q, b] == old(followerIdx[q, b])
      ensures forall q :: 0 <= q < 256 && q != p ==> followerIdxBw[q] == old(followerIdxBw[q])
    {
      hide IndexOf;
      var i := 0;
      while i <= 255
        invariant i <= 256 && forall b :: 0 <= b < i ==> followerIdx[p, b] == NO_FOLLOWER_IDX
        invariant forall q, b :: 0 <= q < 256 && 0 <= b < 256 && q != p ==> followerIdx[q, b] == old(followerIdx[q, b])
        invariant forall q :: 0 <= q < 256 ==> followerIdxBw[q] == old(followerIdxBw[q])
      {
        followerIdx[p, i] := NO_FOLLOWER_IDX;
        i := i + 1;
      }
      NoIndex();
      assert FirstBytes(fs, 0) == [];
      i := 0;
      while i < size
        invariant i <= size && forall b :: 0 <= b < 256 ==> followerIdx[p, b] == IdxEntry(FirstBytes(fs, i), b)
        invariant forall q, b :: 0 <= q < 256 && 0 <= b < 256 && q != p ==> followerIdx[q, b] == old(followerIdx[q, b])
        invariant forall q :: 0 <= q < 256 ==> followerIdxBw[q] == old(followerIdxBw[q])
      {
        ghost var f, g := FirstBytes(fs, i), FirstBytes(fs, i + 1);
        assert g == f + [fs[i].b];
        NextEntry(f, g, fs[i].b);
        followerIdx[p, fs[i].b] := i;
        assert forall b :: 0 <= b < 256 ==> followerIdx[p, b] == IdxEntry(g, b);
        i := i + 1;
      }
      followerIdxBw[p] := IdxBw(size);
    }

    static lemma NoIndex()
      ensures forall b: byte :: IndexOf([], b) == -1
    {
    }

    static lemma NextEntry(f: seq<byte>, g: seq<byte>, x: byte)
      requires g == f + [x]
      ensures forall b: byte :: IdxEntry(g, b) == if x == b then |f| else IdxEntry(f, b)
    {
      hide IndexOf;
      forall b: byte
        ensures IdxEntry(g, b) == if x == b then |f| else IdxEntry(f, b)
      {
        IndexOfSnoc(f, x, b);
      }
    }

    /** Writes a follower set. */
    method WriteSet(followers: seq<byte>) returns (ok: bool)
      requires os.Valid() && |followers| <= MAX_FOLLOWERS
      modifies os, os.dst
      ensures os.Valid() && ok == (|old(os.written)| + |SetBits(followers)| <= 8 * os.dst.Length)
      ensures ok ==> os.written == old(os.written) + SetBits(followers)
    {
      hide ToBits, FollowerBits, Pow2, SetBits, OStream.Valid;
      ghost var total := os.written + SetBits(followers);
      SetParts(os.written, followers);
      ok := os.Write(|followers|, 6);
      if !ok {
        return;
      }
      var i := 0;
      while i < |followers|
        invariant i <= |followers| && os.Valid() && os.written + FollowerBits(followers[i..]) == total
      {
        FollowerNext(os.written, followers, i);
        ghost var w := os.written;
        ok := os.Write(followers[i], 8);
        if !ok {
          return;
        }
        assert os.written == w + ToBits(followers[i], 8);
        i := i + 1;
      }
      NoFollowerBits(os.written, followers, i);
      os.InRoom();
      ok := true;
    }

    static lemma SetParts(w: seq<bool>, followers: seq<byte>)
      requires |followers| <= MAX_FOLLOWERS
      ensures w + ToBits(|followers|, 6) + FollowerBits(followers[0..]) == w + SetBits(followers)
      ensures |SetBits(followers)| >= 6 && Pow2(6) == 64 && Pow2(8) == 256
    {
      hide ToBits, FollowerBits;
      Pow2Small();
      assert followers[0..] == followers;
    }

    static lemma FollowerNext(w: seq<bool>, followers: seq<byte>, i: nat)
      requires i < |followers|
      ensures w + FollowerBits(followers[i..]) == w + ToBits(followers[i], 8) + FollowerBits(followers[i + 1..])
      ensures |w + FollowerBits(followers[i..])| >= |w| + 8
    {
      hide ToBits;
      assert followers[i..][1..] == followers[i + 1..];
    }

    static lemma NoFollowerBits(w: seq<bool>, followers: seq<byte>, i: nat)
      requires i == |followers|
      ensures w + FollowerBits(followers[i..]) == w
    {
    }

    /** What write_follower_sets() does for one byte. */
    method WriteRow(p: nat, count: array2<nat>, ghost bytes: seq<byte>) returns (ok: bool)
      requires Shape() && os.Valid() && p < 256 && count.Length0 == count.Length1 == 256
      requires forall q, b :: 0 <= q < 256 && 0 <= b < 256 ==> count[q, b] == Follows(bytes, q, b)
      modifies os, os.dst, followerIdx, followerIdxBw
      ensures os.Valid() && RowOk(p, ChosenSet(bytes, p))
      ensures ok == (|old(os.written)| + |SetBits(ChosenSet(bytes, p))| <= 8 * os.dst.Length)
      ensures ok ==> os.written == old(os.written) + SetBits(ChosenSet(bytes, p))
      ensures forall q: nat, f: seq<byte> :: q < 256 && q != p && old(RowOk(q, f)) ==> RowOk(q, f)
    {
      hide Follows, Sort, BestSize, SetBits;
      var followers := [];
      var i := 0;
      while i <= 255
        invariant i <= 256 && |followers| == i && forall k :: 0 <= k < i ==> followers[k] == Follower(k, count[p, k])
      {
        followers := followers + [Follower(i, count[p, i])];
        i := i + 1;
      }
      assert followers == Row(bytes, p);
      followers := Sort(followers);
      var size := FindBestSize(followers);
      SetRow(p, followers, size);
      ok := WriteSet(FirstBytes(followers, size));
    }

    /** write_follower_sets(): the sets are those chosen for the buffered bytes. */
    method WriteFollowerSets() returns (ok: bool)
      requires Shape() && os.Valid() && numRawBytes <= RAW_BYTES_SZ && rawBytes[..numRawBytes] == Head(all)
      modifies os, os.dst, followerIdx, followerIdxBw
      ensures os.Valid() && ok == (|old(os.written)| + |SetsBits(Sets(), 256)| <= 8 * os.dst.Length)
      ensures ok ==> TablesFrom(0) && os.written == old(os.written) + SetsBits(Sets(), 256)
    {
      hide RowOk, SetBits, SetsBits, ChosenSet, Head, SetsOk;
      var bytes := rawBytes[..numRawBytes];
      var count := CountFollowers(bytes);
      ghost var total := os.written + SetsBits(Sets(), 256);
      var n := 256;
      while n > 0
        invariant n <= 256 && os.Valid() && TablesFrom(n) && os.written + SetsBits(Sets(), n) == total
        invariant forall q, b :: 0 <= q < 256 && 0 <= b < 256 ==> count[q, b] == Follows(bytes, q, b)
      {
        SetsNext(Sets(), n);
        ghost var w := os.written;
        ok := WriteRow(n - 1, count, bytes);
        if !ok {
          return;
        }
        assert w + (SetBits(Sets()[n - 1]) + SetsBits(Sets(), n - 1)) == w + SetBits(Sets()[n - 1]) + SetsBits(Sets(), n - 1);
        n := n - 1;
      }
      NoSets(Sets());
      assert os.written + [] == os.written;
      ok := true;
    }

    static lemma SetsNext(sets: Sets, n: nat)
      requires 0 < n <= |sets|
      ensures SetsBits(sets, n) == SetBits(sets[n - 1]) + SetsBits(sets, n - 1)
    {
    }

    static lemma NoSets(sets: Sets)
      ensures SetsBits(sets, 0) == []
    {
    }

    // ------------------------------------------------------------ bytes

    /** The number and width in which a byte is written. */
    static lemma Coded(followers: seq<byte>, b: byte, idx: nat, bw: nat)
      requires |followers| <= MAX_FOLLOWERS && idx == IdxEntry(followers, b) && bw == IdxBw(|followers|)
      ensures idx != NO_FOLLOWER_IDX ==> bw <= 5 && 2 * idx < Pow2(bw + 1) && ByteBits(followers, b) == ToBits(2 * idx, bw + 1)
      ensures idx == NO_FOLLOWER_IDX && bw != 0 ==> ByteBits(followers, b) == ToBits(2 * b + 1, 9)
      ensures idx == NO_FOLLOWER_IDX && bw == 0 ==> ByteBits(followers, b) == ToBits(b, 8)
    {
      if idx != NO_FOLLOWER_IDX {
        IdxBwFits(|followers|);
        assert 2 * idx / 2 == idx;
      } else if bw != 0 {
        var v: int := 2 * b + 1;
        assert v / 2 == b && v % 2 == 1;
      }
    }

    /** The second part of write_byte(): a byte goes out by way of the tables. */
    method WriteCoded(b: byte, ghost k: nat) returns (ok: bool)
      requires Shape() && Written(k) && k < |all| && all[k] == b
      modifies this`prevByte, os, os.dst
      ensures os.Valid() && (ok ==> Written(k + 1) && prevByte == b)
      ensures !ok ==> |ReducedBits(all)| > 8 * os.dst.Length
    {
      hide ToBits, ByteBits, BytesBits, ReducedBits, ChosenSets, IdxEntry, Pow2, IdxBw, SetsOk;
      Pow2Small();
      ghost var w, sets, prev := os.written, Sets(), prevByte;
      SetSize(sets, prev);
      assert RowOk(prev, sets[prev]);
      Coded(sets[prev], b, followerIdx[prev, b], followerIdxBw[prev]);
      BytesNext(sets, prev, all, k);
      var idx, bw := followerIdx[prevByte, b], followerIdxBw[prevByte];
      prevByte := b;
      if idx != NO_FOLLOWER_IDX {
        ok := os.Write(2 * idx, bw + 1);
      } else if bw != 0 {
        var v: nat := 2 * b + 1;
        ok := os.Write(v, 9);
      } else {
        ok := os.Write(b, 8);
      }
      Regrouped(w, ByteBits(sets[prev], b), BytesBits(sets, b, all[k + 1..]));
    }

    static lemma SetSize(sets: Sets, p: nat)
      requires SetsOk(sets) && p < 256
      ensures |sets| == 256 && |sets[p]| <= MAX_FOLLOWERS
    {
    }

    static lemma Regrouped(w: seq<bool>, b: seq<bool>, rest: seq<bool>)
      ensures w + b + rest == w + (b + rest)
    {
    }

    static lemma BytesNext(sets: Sets, prev: byte, all: seq<byte>, k: nat)
      requires SetsOk(sets) && k < |all|
      ensures |sets| == 256
      ensures BytesBits(sets, prev, all[k..]) == ByteBits(sets[prev], all[k]) + BytesBits(sets, all[k], all[k + 1..])
    {
      hide ByteBits;
      assert all[k..][1..] == all[k + 1..];
    }

    /** flush_raw_bytes() */
    method FlushRawBytes() returns (ok: bool)
      requires Shape() && os.Valid() && os.written == [] && prevByte == 0 && pos == numRawBytes <= RAW_BYTES_SZ
      requires pos <= |all| && rawBytes[..pos] == all[..pos] == Head(all)
      modifies this`flushed, this`prevByte, os, os.dst, followerIdx, followerIdxBw
      ensures flushed && os.Valid() && (ok ==> Valid())
      ensures !ok ==> |ReducedBits(all)| > 8 * os.dst.Length
    {
      hide BytesBits, ReducedBits, RowOk, SetsBits, Head, ChosenSets;
      flushed := true;
      AllBits(all);
      ok := WriteFollowerSets();
      if !ok {
        return;
      }
      assert all[0..] == all;
      var i := 0;
      while i < numRawBytes
        invariant i <= numRawBytes && flushed && Written(i) && rawBytes[..pos] == all[..pos]
      {
        assert rawBytes[i] == rawBytes[..pos][i] == all[..pos][i];
        ok := WriteCoded(rawBytes[i], i);
        if !ok {
          return;
        }
        i := i + 1;
      }
      ok := true;
    }

    static lemma AllBits(all: seq<byte>)
      ensures [] + SetsBits(ChosenSets(Head(all)), 256) + BytesBits(ChosenSets(Head(all)), 0, all) == ReducedBits(all)
      ensures |SetsBits(ChosenSets(Head(all)), 256)| <= |ReducedBits(all)|
    {
      hide SetsBits, BytesBits;
      assert [] + SetsBits(ChosenSets(Head(all)), 256) == SetsBits(ChosenSets(Head(all)), 256);
    }

    /** write_byte(): buffers the first 64 kilobytes, then writes. */
    method WriteByte(b: byte) returns (ok: bool)
      requires Valid() && pos < |all| && all[pos] == b
      modifies this, rawBytes, os, os.dst, followerIdx, followerIdxBw
      ensures os.Valid() && (ok ==> Valid() && pos == old(pos) + 1)
      ensures !ok ==> |ReducedBits(all)| > 8 * os.dst.Length
    {
      hide RowOk, BytesBits, ReducedBits, ChosenSets, Head;
      if !flushed {
        rawBytes[numRawBytes] := b;
        numRawBytes := numRawBytes + 1;
        pos := pos + 1;
        assert rawBytes[..pos] == all[..pos];
        if numRawBytes == RAW_BYTES_SZ {
          FullHead(all);
          ok := FlushRawBytes();
        } else {
          ok := true;
        }
      } else {
        ok := WriteCoded(b, pos);
        pos := pos + 1;
      }
    }

    static lemma FullHead(all: seq<byte>)
      requires RAW_BYTES_SZ <= |all|
      ensures Head(all) == all[..RAW_BYTES_SZ]
    {
      assert |all| == RAW_BYTES_SZ ==> all[..RAW_BYTES_SZ] == all;
    }

    // ------------------------------------------------------------ tokens

    /** The bytes s are next. */
    ghost predicate Next(s: seq<byte>)
      reads this
    {
      pos + |s| <= |all| && all[pos..pos + |s|] == s
    }

    static lemma NextByte(all: seq<byte>, pos: nat, s: seq<byte>)
      requires pos + |s| <= |all| && all[pos..pos + |s|] == s && s != []
      ensures all[pos] == s[0] && all[pos + 1..pos + 1 + |s[1..]|] == s[1..]
    {
      assert all[pos] == all[pos..pos + |s|][0];
      assert s[1..] == all[pos..pos + |s|][1..];
    }

    /** Writes the first of the bytes that are next. */
    method WriteNext(b: byte, ghost s: seq<byte>) returns (ok: bool)
      requires Valid() && Next(s) && s != [] && s[0] == b
      modifies this, rawBytes, os, os.dst, followerIdx, followerIdxBw
      ensures os.Valid() && (ok ==> Valid() && Next(s[1..]) && pos == old(pos) + 1)
      ensures !ok ==> |ReducedBits(all)| > 8 * os.dst.Length
    {
      hide Valid, ReducedBits;
      NextByte(all, pos, s);
      ok := WriteByte(b);
    }

    /** lit_callback() */
    method LitCallback(lit: byte) returns (ok: bool)
      requires Valid() && 1 <= factor <= 4 && Next(TokenBytes(factor, Lit(lit)))
      modifies this, rawBytes, os, os.dst, followerIdx, followerIdxBw
      ensures os.Valid() && (ok ==> Valid() && pos == old(pos) + |TokenBytes(factor, Lit(lit))|)
      ensures !ok ==> |ReducedBits(all)| > 8 * os.dst.Length
    {
      hide Valid, ReducedBits, Next;
      ghost var s := TokenBytes(factor, Lit(lit));
      ok := WriteNext(lit, s);
      if ok && lit == DLE_BYTE {
        assert s[1..] == [0];
        ok := WriteNext(0, [0]);
      }
    }

    /** backref_callback() */
    method BackrefCallback(dist: nat, len: nat) returns (ok: bool)
      requires Valid() && 1 <= factor <= 4 && ReduceFormat.TokenOk(factor, Ref(dist, len)) && Next(TokenBytes(factor, Ref(dist, len)))
      modifies this, rawBytes, os, os.dst, followerIdx, followerIdxBw
      ensures os.Valid() && (ok ==> Valid() && pos == old(pos) + |TokenBytes(factor, Ref(dist, len))|)
      ensures !ok ==> |ReducedBits(all)| > 8 * os.dst.Length
    {
      hide Valid, ReducedBits, Next, VMax;
      ghost var s := TokenBytes(factor, Ref(dist, len));
      var vMax := VMax(factor);
      VByteFits(factor, dist, len);
      ok := WriteNext(DLE_BYTE, s);
      if !ok {
        return;
      }
      var v: byte := Min(len - 3, vMax) + Shl((dist - 1) / 256, VLenBits(factor));
      ghost var s1 := s[1..];
      assert s1[0] == v == VByte(factor, dist, len);
      ok := WriteNext(v, s1);
      if !ok {
        return;
      }
      ghost var s2 := s1[1..];
      var w: byte := (dist - 1) % 256;
      if len - 3 >= vMax {
        var elb: byte := len - 3 - vMax;
        assert s2 == [elb] + [w];
        ok := WriteNext(elb, s2);
        if !ok {
          return;
        }
        assert s2[1..] == [w];
      } else {
        assert s2 == [w];
      }
      ok := WriteNext(w, [w]);
    }

    method Callback(t: Token) returns (ok: bool)
      requires Valid() && 1 <= factor <= 4 && ReduceFormat.TokenOk(factor, t) && Next(TokenBytes(factor, t))
      modifies this, rawBytes, os, os.dst, followerIdx, followerIdxBw
      ensures os.Valid() && (ok ==> Valid() && pos == old(pos) + |TokenBytes(factor, t)|)
      ensures !ok ==> |ReducedBits(all)| > 8 * os.dst.Length
    {
      match t {
        case Lit(b) => ok := LitCallback(b);
        case Ref(dist, len) => ok := BackrefCallback(dist, len);
      }
    }

    /** What hwreduce() does at the end: everything has been written. */
    method Finish() returns (ok: bool)
      requires Valid() && pos == |all|
      modifies this, os, os.dst, followerIdx, followerIdxBw
      ensures os.Valid() && ok == (|ReducedBits(all)| <= 8 * os.dst.Length)
      ensures ok ==> os.written == ReducedBits(all)
    {
      hide RowOk, BytesBits, ReducedBits, ChosenSets;
      ok := true;
      if !flushed {
        assert rawBytes[..pos] == all[..pos] == all;
        ok := FlushRawBytes();
      }
      if ok {
        assert all[pos..] == [];
        NoMore(Sets(), prevByte);
        assert os.written + [] == os.written;
      }
    }

    static lemma NoMore(sets: Sets, prev: byte)
      requires SetsOk(sets)
      ensures BytesBits(sets, prev, []) == []
    {
    }
  }

  /** The limits for a compression factor. */
  function Limits(factor: nat): Params
    requires 1 <= factor <= 4
  {
    Params(MaxDist(factor), MaxLen(factor), false)
  }

  /** The bytes in which a source is written, before they are coded. */
  ghost function SourceBytes(src: seq<byte>, factor: nat): seq<byte>
    requires 1 <= factor <= 4
  {
    SourceTokensOk(src, factor);
    TokensBytes(factor, Tokens(src, Limits(factor)))
  }

  lemma SourceTokensOk(src: seq<byte>, factor: nat)
    requires 1 <= factor <= 4
    ensures TokensOk(factor, Tokens(src, Limits(factor)))
  {
    hide Tokens, MaxDist, MaxLen;
    TokensExpand(src, Limits(factor));
    forall t | t in Tokens(src, Limits(factor))
      ensures ReduceFormat.TokenOk(factor, t)
    {
      assert Lz77.TokenOk(Limits(factor), t);
    }
  }

  /** The compressed form of a source. */
  ghost function Reduced(src: seq<byte>, factor: nat): seq<bool>
    requires 1 <= factor <= 4
  {
    ReducedBits(SourceBytes(src, factor))
  }

  /** The bytes of the tokens from i on come where the first i tokens end. */
  lemma TokensNext(factor: nat, ts: seq<Token>, i: nat, all: seq<byte>)
    requires 1 <= factor <= 4 && TokensOk(factor, ts) && i < |ts| && all == TokensBytes(factor, ts)
    ensures TokensOk(factor, ts[..i]) && TokensOk(factor, ts[..i + 1]) && ReduceFormat.TokenOk(factor, ts[i])
    ensures var n, s := |TokensBytes(factor, ts[..i])|, TokenBytes(factor, ts[i]);
            n + |s| <= |all| && all[n..n + |s|] == s && |TokensBytes(factor, ts[..i + 1])| == n + |s|
  {
    hide TokenBytes, ReduceFormat.TokenOk, TokensBytes;
    TokensSplit(factor, ts[..i], ts[i..]);
    assert ts[..i] + ts[i..] == ts;
    assert ts[i..] == [ts[i]] + ts[i + 1..];
    TokensBytesFirst(factor, ts[i], ts[i + 1..]);
    TokensSplit(factor, ts[..i + 1], ts[i + 1..]);
    assert ts[..i + 1] + ts[i + 1..] == ts;
    var a, s, b := TokensBytes(factor, ts[..i]), TokenBytes(factor, ts[i]), TokensBytes(factor, ts[i + 1..]);
    assert all == a + (s + b);
    assert all[|a|..|a| + |s|] == s;
  }

  lemma {:induction false} TokensSplit(factor: nat, a: seq<Token>, b: seq<Token>)
    requires 1 <= factor <= 4 && TokensOk(factor, a + b)
    ensures TokensOk(factor, a) && TokensOk(factor, b)
    ensures TokensBytes(factor, a + b) == TokensBytes(factor, a) + TokensBytes(factor, b)
    decreases |b|
  {
    hide TokenBytes, ReduceFormat.TokenOk;
    assert forall t :: t in a ==> t in a + b;
    assert forall t :: t in b ==> t in a + b;
    if b == [] {
      assert a + b == a;
      assert TokensBytes(factor, a) + [] == TokensBytes(factor, a);
    } else {
      var n := |b| - 1;
      assert (a + b)[..|a + b| - 1] == a + b[..n];
      TokensSplit(factor, a, b[..n]);
    }
  }

  /** hwreduce(): writes the compressed form of the source, or fails if it does not fit. */
  method HwReduce(src: seq<byte>, factor: nat, dst: array<byte>) returns (ok: bool, used: nat)
    requires 1 <= factor <= 4 && |src| <= Lz77Codec.NO_POS
    modifies dst
    ensures ok == (|Reduced(src, factor)| <= 8 * dst.Length)
    ensures ok ==> used == RoundUp8(|Reduced(src, factor)|) / 8
                   && BytesToBits(dst[..])[..|Reduced(src, factor)|] == Reduced(src, factor)
  {
    hide Lz77Codec.Called, Tokens, ReducedBits, BytesToBits, TokensBytes, TokensOk, ReduceFormat.TokenOk, TokenBytes;
    used := 0;
    ghost var all := SourceBytes(src, factor);
    SourceTokensOk(src, factor);
    SmallDist(factor);
    var s := new Reducer(dst, factor, all);
    var tokens;
    // The callbacks do not change what the matcher does, so all tokens are collected first, and the
    // callbacks called on them afterwards, in the same order and up to the first that fails.
    ok, tokens := Lz77Codec.Lz77Compress(src, Limits(factor), _ => true);
    Lz77Codec.AlwaysAccepted(ok, tokens, Tokens(src, Limits(factor)));
    var i := 0;
    assert tokens[..0] == [];
    NoTokenBytes(factor);
    TokensSplit(factor, [], tokens) by { assert [] + tokens == tokens; }
    while i < |tokens|
      invariant i <= |tokens| && s.Valid() && s.os.dst == dst && s.factor == factor && s.all == all
      invariant fresh(s) && fresh(s.os) && fresh(s.rawBytes) && fresh(s.followerIdx) && fresh(s.followerIdxBw)
      invariant TokensOk(factor, tokens[..i]) && s.pos == |TokensBytes(factor, tokens[..i])|
    {
      TokensNext(factor, tokens, i, all);
      ok := s.Callback(tokens[i]);
      if !ok {
        return;
      }
      i := i + 1;
    }
    assert tokens[..i] == tokens;
    ok := s.Finish();
    if ok {
      used := s.os.BytesWritten();
    }
  }

  lemma SmallDist(factor: nat)
    requires 1 <= factor <= 4
    ensures Limits(factor).Ok()
  {
    assert Pow2(1) == 2 && Pow2(2) == 4 && Pow2(3) == 8 && Pow2(4) == 16;
  }
}
