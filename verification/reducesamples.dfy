/** The numbers of the Reduce format (APPNOTE section 5.2), and what streams of hwzip/reduce_test.c stand for. */
module ReduceSamples {
  import opened Bits
  import opened Outcome
  import opened Lz77
  import opened ReduceFormat
  import opened Samples
  import Followers
  import ReduceCodec

  // ---------------------------------------------------------------- followers

  /** The width of an index is the least in which all indices can be written, and 1 if there is just one. */
  lemma IndexWidth(n: nat)
    requires n <= 32
    ensures n >= 2 ==> IdxBw(n) >= 1 && Pow2(IdxBw(n) - 1) < n <= Pow2(IdxBw(n))
    ensures IdxBw(1) == 1 && IdxBw(0) == 0
  {
    PowersOfTwo();
    hide Pow2;
  }

  /** Without followers a byte is in 8 bits; with followers it is in 8 bits after a one. */
  lemma PlainByteReads(followers: seq<byte>, b: byte, rest: seq<bool>)
    ensures followers == [] ==> NextByte(followers, ToBits(b, 8) + rest) == ByteRead(b, rest)
    ensures followers != [] ==> NextByte(followers, [true] + (ToBits(b, 8) + rest)) == ByteRead(b, rest)
  {
    hide ToBits, TakeByte, FromBits;
    ByteRound(b, rest);
    assert ([true] + (ToBits(b, 8) + rest))[1..] == ToBits(b, 8) + rest;
  }

  /** After a zero there is the index of a follower, in the least width; it must be that of a follower. */
  lemma FollowerReads(followers: seq<byte>, width: nat, i: nat, rest: seq<bool>)
    requires 1 <= |followers| <= 32 && i < Pow2(width)
    requires if |followers| == 1 then width == 1 else width >= 1 && Pow2(width - 1) < |followers| <= Pow2(width)
    ensures NextByte(followers, [false] + (ToBits(i, width) + rest))
         == if i < |followers| then ByteRead(followers[i], rest) else NoByte
  {
    hide ToBits, FromBits, TakeByte;
    IndexWidth(|followers|);
    WidthUnique(|followers|, width, IdxBw(|followers|));
    FieldFirst(i, width, rest);
    var bits := [false] + (ToBits(i, width) + rest);
    assert bits[1..1 + width] == (ToBits(i, width) + rest)[..width] && bits[1 + width..] == (ToBits(i, width) + rest)[width..];
  }

  lemma WidthUnique(n: nat, k: nat, l: nat)
    requires n == 1 ==> k == 1 && l == 1
    requires n >= 2 ==> k >= 1 && l >= 1 && Pow2(k - 1) < n <= Pow2(k) && Pow2(l - 1) < n <= Pow2(l)
    requires n >= 1
    ensures k == l
  {
    hide Pow2;
    if k < l {
      Pow2Mono(k, l - 1);
    } else if l < k {
      Pow2Mono(l, k - 1);
    }
  }

  // ---------------------------------------------------------------- follower sets

  /** The set of the last byte comes first: its size in 6 bits, at most 32, and the followers. */
  lemma SetReads(f: seq<byte>, rest: seq<bool>, k: nat)
    requires |f| < 64
    ensures var r := ReadSets(ToBits(|f|, 6) + (BytesToBits(f) + rest), k + 1);
            && (|f| > 32 ==> r == NoSets)
            && (|f| <= 32 && ReadSets(rest, k).SetsRead? ==> r == SetsRead(ReadSets(rest, k).sets + [f], ReadSets(rest, k).rest))
  {
    hide ToBits, FromBits, BytesToBits, TakeBytes;
    PowersOfTwo();
    FieldFirst(|f|, 6, BytesToBits(f) + rest);
    FollowersAre(f);
    TakeBytesReads(f, rest);
  }

  lemma {:induction false} FollowersAre(f: seq<byte>)
    ensures FollowerBits(f) == BytesToBits(f)
  {
    if f != [] {
      FollowersAre(f[1..]);
    }
  }

  function Empties(n: nat): (s: Sets)
    ensures |s| == n && forall p :: 0 <= p < n ==> s[p] == []
  {
    seq(n, _ => [])
  }

  /** Empty sets take 6 zeros each. */
  lemma {:induction false} EmptySets(n: nat, k: nat, rest: seq<bool>, sets: Sets, rest': seq<bool>)
    requires ReadSets(rest, k) == SetsRead(sets, rest')
    ensures ReadSets(Zeros(6 * n) + rest, k + n) == SetsRead(sets + Empties(n), rest')
  {
    hide ReadSets, FromBits;
    if n == 0 {
      assert Zeros(0) + rest == rest && sets + Empties(0) == sets;
    } else {
      EmptySets(n - 1, k, rest, sets, rest');
      var more := Zeros(6 * (n - 1)) + rest;
      assert Zeros(6 * n) + rest == Zeros(6) + ([] + more);
      assert ToBits(0, 6) == Zeros(6) by { SixZeros(); }
      SetReads([], more, k + n - 1);
      assert BytesToBits([]) == [] by { NoBytes(); }
      assert sets + Empties(n - 1) + [[]] == sets + Empties(n);
    }
  }

  lemma SixZeros()
    ensures ToBits(0, 6) == Zeros(6)
  {
    FromZeros(6);
    ToFromBits(Zeros(6));
  }

  // ---------------------------------------------------------------- bytes and back references

  /** A byte other than 144 stands for itself. */
  lemma LiteralExpands(factor: nat, sets: Sets, prev: byte, b: byte, bits: seq<bool>, rest: seq<bool>, out: seq<byte>, total: nat)
    requires 1 <= factor <= 4 && SetsOk(sets) && |out| < total
    requires NextByte(sets[prev], bits) == ByteRead(b, rest) && b != 144
    ensures ExpandFrom(factor, sets, prev, bits, out, total) == ExpandFrom(factor, sets, b, rest, out + [b], total)
  {
    hide NextByte, ReadRef, SetsOk;
  }

  /** After 144 a zero stands for a byte 144. */
  lemma EscapeExpands(factor: nat, sets: Sets, prev: byte, bits: seq<bool>, bits': seq<bool>, rest: seq<bool>, out: seq<byte>, total: nat)
    requires 1 <= factor <= 4 && SetsOk(sets) && |out| < total
    requires NextByte(sets[prev], bits) == ByteRead(144, bits') && NextByte(sets[144], bits') == ByteRead(0, rest)
    ensures ExpandFrom(factor, sets, prev, bits, out, total) == ExpandFrom(factor, sets, 0, rest, out + [144], total)
  {
    hide NextByte, ReadRef, SetsOk;
  }

  /** After 144 any other byte has the length less 3 in its 7, 6, 5 or 4 low bits, depending on the factor, and the
      high part of the distance less 1 above them.  If the low bits are all ones, a byte follows that is added to
      the length.  Then follows the low byte of the distance. */
  lemma ReferenceExpands(factor: nat, unit: nat, sets: Sets, prev: byte, low: nat, high: nat, extra: byte, w: byte,
                         b0: seq<bool>, b1: seq<bool>, b2: seq<bool>, b3: seq<bool>, rest: seq<bool>, out: seq<byte>, total: nat)
    requires 1 <= factor <= 4 && unit == [128, 64, 32, 16][factor - 1] && SetsOk(sets) && |out| < total
    requires low < unit && 0 < low + unit * high < 256
    requires NextByte(sets[prev], b0) == ByteRead(144, b1) && NextByte(sets[144], b1) == ByteRead(low + unit * high, b2)
    requires if low == unit - 1 then NextByte(sets[low + unit * high], b2) == ByteRead(extra, b3) else extra == 0 && b3 == b2
    requires NextByte(sets[if low == unit - 1 then extra else low + unit * high], b3) == ByteRead(w, rest)
    ensures ExpandFrom(factor, sets, prev, b0, out, total)
         == if |out| + (low + extra + 3) > total then Err
            else ExpandFrom(factor, sets, w, rest, CopyBack(out, 256 * high + w + 1, low + extra + 3), total)
  {
    hide NextByte, SetsOk, CopyBack, Lsb, Shr;
    VParts(factor, unit, low, high);
  }

  lemma VParts(factor: nat, unit: nat, low: nat, high: nat)
    requires 1 <= factor <= 4 && unit == [128, 64, 32, 16][factor - 1] && low < unit
    ensures Lsb(low + unit * high, VLenBits(factor)) == low && Shr(low + unit * high, VLenBits(factor)) == high
    ensures VMax(factor) == unit - 1
  {
    PowersOfTwo();
    JoinNumber(low, high, VLenBits(factor));
  }

  // ---------------------------------------------------------------- streams

  /** No byte has followers. */
  function Unfollowed(): (s: Sets)
    ensures SetsOk(s) && forall p :: 0 <= p < 256 ==> s[p] == []
  {
    Empties(256)
  }

  lemma PlainByte(prev: byte, b: byte, rest: seq<byte>, pad: seq<bool>)
    ensures NextByte(Unfollowed()[prev], BytesToBits([b] + rest) + pad) == ByteRead(b, BytesToBits(rest) + pad)
  {
    hide ToBits, BytesToBits, NextByte;
    BytesInOrder(b, rest);
    PlainByteReads([], b, BytesToBits(rest) + pad);
    assert ToBits(b, 8) + BytesToBits(rest) + pad == ToBits(b, 8) + (BytesToBits(rest) + pad);
  }

  /** A sequence of bytes other than 144. */
  lemma {:induction false} PlainBytes(factor: nat, prev: byte, s: seq<byte>, more: seq<byte>, pad: seq<bool>, out: seq<byte>, total: nat)
    requires 1 <= factor <= 4 && 144 !in s && |out| + |s| <= total
    ensures ExpandFrom(factor, Unfollowed(), prev, BytesToBits(s + more) + pad, out, total)
         == ExpandFrom(factor, Unfollowed(), LastByte(prev, s), BytesToBits(more) + pad, out + s, total)
    decreases |s|
  {
    hide BytesToBits, ExpandFrom, NextByte, Unfollowed;
    if s == [] {
      assert s + more == more && out + s == out;
    } else {
      assert s + more == [s[0]] + (s[1..] + more);
      PlainByte(prev, s[0], s[1..] + more, pad);
      LiteralExpands(factor, Unfollowed(), prev, s[0], BytesToBits(s + more) + pad, BytesToBits(s[1..] + more) + pad, out, total);
      PlainBytes(factor, s[0], s[1..], more, pad, out + [s[0]], total);
      assert out + [s[0]] + s[1..] == out + s;
    }
  }

  /** A stream without followers. */
  lemma NoFollowers(factor: nat, bits: seq<bool>, total: nat)
    requires 1 <= factor <= 4
    ensures Expanded(factor, Zeros(1536) + bits, total) == ExpandFrom(factor, Unfollowed(), 0, bits, [], total)
  {
    hide ReadSets, ExpandFrom, Zeros;
    NoneLeft(bits);
    EmptySets(256, 0, bits, [], bits);
    assert [] + Empties(256) == Unfollowed();
  }

  lemma NoneLeft(bits: seq<bool>)
    ensures ReadSets(bits, 0) == SetsRead([], bits)
  {
  }

  lemma ExpandEnds(factor: nat, sets: Sets, prev: byte, bits: seq<bool>, out: seq<byte>, total: nat)
    requires 1 <= factor <= 4 && SetsOk(sets) && |out| >= total
    ensures ExpandFrom(factor, sets, prev, bits, out, total) == Ok(Output(out, bits))
  {
  }

  /** An escaped byte 144, and a byte 65. */
  lemma EscapedStream(factor: nat, pad: seq<bool>)
    requires 1 <= factor <= 4
    ensures Expanded(factor, Zeros(1536) + (BytesToBits([144, 0, 65]) + pad), 2) == Ok(Output([144, 65], pad))
  {
    hide BytesToBits, ExpandFrom, NextByte, Expanded, Unfollowed, Zeros;
    NoFollowers(factor, BytesToBits([144, 0, 65]) + pad, 2);
    assert [144] + [0, 65] == [144, 0, 65] && [0] + [65] == [0, 65] && [65] + [] == [65];
    PlainByte(0, 144, [0, 65], pad);
    PlainByte(144, 0, [65], pad);
    EscapeExpands(factor, Unfollowed(), 0, BytesToBits([144, 0, 65]) + pad, BytesToBits([0, 65]) + pad, BytesToBits([65]) + pad, [], 2);
    PlainBytes(factor, 0, [65], [], pad, [144], 2);
    assert [] + [144] == [144] && [144] + [65] == [144, 65];
    assert BytesToBits([]) + pad == pad by { NoBytes(); }
    ExpandEnds(factor, Unfollowed(), 65, pad, [144, 65], 2);
  }

  /** "fa-la-l", a reference of length 7 and distance 6, and "!". */
  lemma OverlappingStream(pad: seq<bool>)
    ensures Expanded(4, Zeros(1536) + (BytesToBits([102, 97, 45, 108, 97, 45, 108, 144, 4, 5, 33]) + pad), 15)
         == Ok(Output([102, 97, 45, 108, 97, 45, 108, 97, 45, 108, 97, 45, 108, 97, 33], pad))
  {
    hide BytesToBits, ExpandFrom, NextByte, Expanded, Unfollowed, CopyBack, Zeros;
    var a, r: seq<byte>, b := [102, 97, 45, 108, 97, 45, 108], [144, 4, 5, 33], [102, 97, 45, 108, 97, 45, 108, 97, 45, 108, 97, 45, 108, 97];
    NoFollowers(4, BytesToBits([102, 97, 45, 108, 97, 45, 108, 144, 4, 5, 33]) + pad, 15);
    assert a + r == [102, 97, 45, 108, 97, 45, 108, 144, 4, 5, 33] && [] + a == a;
    PlainBytes(4, 0, a, r, pad, [], 15);
    assert [144] + [4, 5, 33] == r && [4] + [5, 33] == [4, 5, 33] && [5] + [33] == [5, 33] && [33] + [] == [33];
    PlainByte(108, 144, [4, 5, 33], pad);
    PlainByte(144, 4, [5, 33], pad);
    PlainByte(4, 5, [33], pad);
    ReferenceExpands(4, 16, Unfollowed(), 108, 4, 0, 0, 5, BytesToBits(r) + pad, BytesToBits([4, 5, 33]) + pad,
                     BytesToBits([5, 33]) + pad, BytesToBits([5, 33]) + pad, BytesToBits([33]) + pad, a, 15);
    SevenBack();
    PlainBytes(4, 5, [33], [], pad, b, 15);
    assert b + [33] == [102, 97, 45, 108, 97, 45, 108, 97, 45, 108, 97, 45, 108, 97, 33];
    assert BytesToBits([]) + pad == pad by { NoBytes(); }
    ExpandEnds(4, Unfollowed(), 33, pad, b + [33], 15);
  }

  lemma SevenBack()
    ensures CopyBack([102, 97, 45, 108, 97, 45, 108], 6, 7) == [102, 97, 45, 108, 97, 45, 108, 97, 45, 108, 97, 45, 108, 97]
  {
    hide CopyBack;
    var a: seq<byte> := [102, 97, 45, 108, 97, 45, 108, 97, 45, 108, 97, 45, 108, 97];
    CopyBackOccurrence(a, 7, 6, 7);
    assert a[..7] == [102, 97, 45, 108, 97, 45, 108];
  }

  // ---------------------------------------------------------------- followers of zero

  /** Only the byte 0 has followers: 65 to 69. */
  function ZeroFollowed(): (s: Sets)
    ensures SetsOk(s) && s[0] == [65, 66, 67, 68, 69] && forall p :: 0 < p < 256 ==> s[p] == []
  {
    [[65, 66, 67, 68, 69]] + Empties(255)
  }

  /** After the empty sets of 255 to 1, the set of 0, then its follower 4, and 255, which follows 69 in 8 bits. */
  lemma FollowerStream(factor: nat, pad: seq<bool>)
    requires 1 <= factor <= 4
    ensures Expanded(factor, Zeros(1530) + (ToBits(5, 6) + (BytesToBits([65, 66, 67, 68, 69])
                             + ([false] + ([false, false, true] + (ToBits(255, 8) + pad))))), 2)
         == Ok(Output([69, 255], pad))
  {
    hide ToBits, BytesToBits, ExpandFrom, NextByte, ReadSets, ZeroFollowed, Zeros;
    var f := [65, 66, 67, 68, 69];
    var bits := [false] + ([false, false, true] + (ToBits(255, 8) + pad));
    NoneLeft(bits);
    SetReads(f, bits, 0);
    assert [] + [f] == [f];
    EmptySets(255, 1, ToBits(5, 6) + (BytesToBits(f) + bits), [f], bits);
    assert [f] + Empties(255) == ZeroFollowed();
    PowersOfTwo();
    assert ToBits(4, 3) == [false, false, true] by { FourInThree(); }
    FollowerReads(f, 3, 4, ToBits(255, 8) + pad);
    LiteralExpands(factor, ZeroFollowed(), 0, 69, bits, ToBits(255, 8) + pad, [], 2);
    PlainByteReads([], 255, pad);
    LiteralExpands(factor, ZeroFollowed(), 69, 255, ToBits(255, 8) + pad, pad, [69], 2);
    assert [] + [69] == [69] && [69] + [255] == [69, 255];
    ExpandEnds(factor, ZeroFollowed(), 255, pad, [69, 255], 2);
  }

  lemma FourInThree()
    ensures ToBits(4, 3) == [false, false, true]
  {
  }

  // ---------------------------------------------------------------- the compressor

  /** References are as far and as long as the factor allows, and do not overlap; the sets are chosen for the first
      65536 bytes. */
  lemma CompressorLimits(factor: nat, all: seq<byte>)
    requires 1 <= factor <= 4
    ensures ReduceCodec.Limits(factor) == Params([512, 1024, 2048, 4096][factor - 1], [385, 321, 289, 273][factor - 1], false)
    ensures ReduceCodec.Head(all) == all[..Min(|all|, 65536)]
  {
    PowersOfTwo();
  }

  /** Each follower that is chosen for p occurs more often after p than all bytes that do not come before it in the
      set, or as often and is the lesser byte. */
  lemma FollowersInOrder(bytes: seq<byte>, p: nat, i: nat, b: byte)
    requires i < |Followers.ChosenSet(bytes, p)| && b !in Followers.ChosenSet(bytes, p)[..i + 1]
    ensures var s := Followers.ChosenSet(bytes, p);
            var x, y := Followers.Follows(bytes, p, s[i]), Followers.Follows(bytes, p, b);
            x > y || (x == y && s[i] < b)
  {
    hide Followers.Sort, Followers.BestSize, Followers.Sorted, Followers.DistinctBytes, Followers.Follows;
    var s, row, r := Followers.ChosenSet(bytes, p), Followers.Row(bytes, p), Followers.SortedRow(bytes, p);
    Followers.RowDistinct(bytes, p);
    Followers.SortSorts(row);
    Followers.SameElements(r, row, r[i]);
    assert row[b] in row;
    Followers.SameElements(row, r, row[b]);
    var k :| 0 <= k < |r| && r[k] == row[b];
    forall j | 0 <= j <= i
      ensures s[j] != b
    {
      assert s[..i + 1][j] == s[j];
    }
    assert s[Min(k, i)] != b;
    InOrder(r, i, k);
  }

  lemma InOrder(r: seq<Followers.Follower>, i: nat, k: nat)
    requires Followers.Sorted(r) && i < k < |r|
    ensures r[i].count > r[k].count || (r[i].count == r[k].count && r[i].b < r[k].b)
  {
  }
}
