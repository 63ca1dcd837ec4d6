/** Compressing and extracting the members of an archive (hwzip/zip.c, lines 455-532 and 560-616). */
module ZipRestore {
  import opened Bits
  import opened Outcome
  import opened ZipFormat
  import opened ZipArchive
  import Bitstream
  import Lzw
  import ShrinkCodec
  import UnshrinkCodec
  import ShrinkRoundTrip
  import Reduce = ReduceFormat
  import ReduceCodec
  import ExpandCodec
  import ReduceRoundTrip
  import Implode = ImplodeFormat
  import ImplodeCodec
  import ExplodeCodec
  import ImplodeRoundTrip
  import DeflateFormat
  import DeflateCodec
  import InflateCodec

  // ---------------------------------------------------------------- what a member stands for

  /** Decompression counts only if it reads all of the data and gives as many bytes as expected. */
  function Whole(r: Status<Output>, n: nat): Status<seq<byte>> {
    if r.Ok? && |r.value.rest| < 8 && |r.value.out| == n then Ok(r.value.out) else Err
  }

  /** zip_extract_member() */
  ghost function Restored(methodId: nat, mode: Implode.Mode, data: seq<byte>, n: nat): Status<seq<byte>>
    requires Supported(methodId)
  {
    var bits := BytesToBits(data);
    if methodId == STORE then Ok(data)
    else if methodId == SHRINK then Whole(Lzw.Unshrink(bits, n), n)
    else if methodId == IMPLODE then
      var r := Whole(Implode.Exploded(mode, Implode.LeastLen(mode, false), bits, n), n);
      if r.Ok? then r else Whole(Implode.Exploded(mode, Implode.LeastLen(mode, true), bits, n), n)
    else if methodId == DEFLATE then Whole(DeflateFormat.Inflate(bits, [], n), n)
    else Whole(Reduce.Expanded(methodId - 1, bits, n), n)
  }

  ghost function MemberData(m: Member): Status<seq<byte>>
    requires Supported(m.methodId)
  {
    Restored(m.methodId, Implode.Mode(m.impLargeWnd, m.impLitTree), m.compData, m.uncompSize)
  }

  lemma UsedAll(n: nat, rest: nat)
    requires rest <= 8 * n
    ensures RoundUp8(8 * n - rest) / 8 == n <==> rest < 8
  {
  }

  // ---------------------------------------------------------------- extracting

  method ExtractShrunk(data: seq<byte>, dst: array<byte>) returns (ok: bool)
    modifies dst
    ensures var r := Whole(Lzw.Unshrink(BytesToBits(data), dst.Length), dst.Length);
            ok == r.Ok? && (ok ==> dst[..] == r.value)
  {
    hide Lzw.Unshrink, BytesToBits;
    var s := UnshrinkCodec.HwUnshrink(data, dst);
    match s {
      case Ok(v) =>
        UsedAll(|data|, |Lzw.Unshrink(BytesToBits(data), dst.Length).value.rest|);
        ok := v.0 == |data| && v.1 == dst.Length;
        assert ok ==> dst[..][..dst.Length] == dst[..];
      case Full => ok := false;
      case Err => ok := false;
    }
  }

  method ExtractDeflated(data: seq<byte>, dst: array<byte>) returns (ok: bool)
    modifies dst
    ensures var r := Whole(DeflateFormat.Inflate(BytesToBits(data), [], dst.Length), dst.Length);
            ok == r.Ok? && (ok ==> dst[..] == r.value)
  {
    hide DeflateFormat.Inflate, BytesToBits;
    var s := InflateCodec.HwInflate(data, dst);
    match s {
      case Ok(v) =>
        UsedAll(|data|, |DeflateFormat.Inflate(BytesToBits(data), [], dst.Length).value.rest|);
        ok := v.0 == |data| && v.1 == dst.Length;
        assert ok ==> dst[..][..dst.Length] == dst[..];
      case Full => ok := false;
      case Err => ok := false;
    }
  }

  method ExtractReduced(data: seq<byte>, factor: nat, dst: array<byte>) returns (ok: bool)
    requires 1 <= factor <= 4
    modifies dst
    ensures var r := Whole(Reduce.Expanded(factor, BytesToBits(data), dst.Length), dst.Length);
            ok == r.Ok? && (ok ==> dst[..] == r.value)
  {
    hide Reduce.Expanded, BytesToBits;
    var s := ExpandCodec.HwExpand(data, dst.Length, factor, dst);
    ok := s.Ok? && s.value == |data|;
    assert dst[..dst.Length] == dst[..];
    if s.Ok? {
      UsedAll(|data|, |Reduce.Expanded(factor, BytesToBits(data), dst.Length).value.rest|);
    }
  }

  method ExtractImploded(data: seq<byte>, mode: Implode.Mode, pk101BugCompat: bool, dst: array<byte>) returns (ok: bool)
    modifies dst
    ensures var r := Whole(Implode.Exploded(mode, Implode.LeastLen(mode, pk101BugCompat), BytesToBits(data), dst.Length), dst.Length);
            ok == r.Ok? && (ok ==> dst[..] == r.value)
  {
    hide Implode.Exploded, BytesToBits, Implode.LeastLen;
    var s := ExplodeCodec.HwExplode(data, dst.Length, mode, pk101BugCompat, dst);
    ok := s.Ok? && s.value == |data|;
    assert dst[..dst.Length] == dst[..];
    if s.Ok? {
      UsedAll(|data|, |Implode.Exploded(mode, Implode.LeastLen(mode, pk101BugCompat), BytesToBits(data), dst.Length).value.rest|);
    }
  }

  /** zip_extract_member(): on any member, succeeds exactly if its data stand for the right number of
      bytes, and these are then in dst.  For imploded data the second attempt is for the files of old
      versions that got the least length of a match wrong. */
  method ZipExtractMember(m: Member, dst: array<byte>) returns (ok: bool)
    requires Supported(m.methodId) && dst.Length == m.uncompSize && |m.compData| == m.compSize
    requires m.methodId == STORE ==> m.compSize == m.uncompSize
    modifies dst
    ensures ok == MemberData(m).Ok? && (ok ==> dst[..] == MemberData(m).value)
  {
    hide Lzw.Unshrink, DeflateFormat.Inflate, Reduce.Expanded, Implode.Exploded, BytesToBits, Implode.LeastLen, Whole;
    if m.methodId == STORE {
      Bitstream.CopyBytes(dst, 0, m.compData);
      return true;
    } else if m.methodId == SHRINK {
      ok := ExtractShrunk(m.compData, dst);
    } else if m.methodId == IMPLODE {
      var mode := Implode.Mode(m.impLargeWnd, m.impLitTree);
      ok := ExtractImploded(m.compData, mode, false, dst);
      if !ok {
        ok := ExtractImploded(m.compData, mode, true, dst);
      }
    } else if m.methodId == DEFLATE {
      ok := ExtractDeflated(m.compData, dst);
    } else {
      ok := ExtractReduced(m.compData, m.methodId - 1, dst);
    }
  }

  // ---------------------------------------------------------------- compressing
  //
  // zip_write() lets the compressors write straight to their place in the archive, with one byte less room
  // than the file takes, and stores the file there if they fail.  Here each has a buffer of its own of that
  // size, whose contents WriteMember() copies to that place: success, data and size are the same.

  /** The room that compressed data may take. */
  function Room(src: seq<byte>): nat {
    if src == [] then 0 else |src| - 1
  }

  /** The requested method is used if and only if the compressed form is smaller than the file. */
  ghost predicate MethodUsed(src: seq<byte>, methodId: nat, used: nat) {
    if methodId == SHRINK then
      used == if src != [] && |Lzw.Shrink(src)| <= 8 * Room(src) then SHRINK else STORE
    else if REDUCE1 <= methodId <= REDUCE4 then
      used == if |ReduceCodec.Reduced(src, methodId - REDUCE1 + 1)| <= 8 * Room(src) then methodId else STORE
    else if methodId == IMPLODE then
      used == if ImplodeCodec.ImplodedFits(src, Implode.Mode(true, true), Room(src)) then IMPLODE else STORE
    else if methodId == DEFLATE then
      used == if DeflateCodec.DeflatedFits(src, Room(src)) then DEFLATE else STORE
    else
      used == STORE
  }

  /** The compressed bits, cut at a byte boundary, are the bits and less than a byte more. */
  lemma CutBits(buf: seq<byte>, bits: seq<bool>, used: nat) returns (rest: seq<bool>)
    requires |bits| <= 8 * |buf| && BytesToBits(buf)[..|bits|] == bits && used == RoundUp8(|bits|) / 8
    ensures used <= |buf| && BytesToBits(buf[..used]) == bits + rest && |rest| < 8
  {
    hide BytesToBits;
    BytesToBitsSplit(buf, used);
    var data := BytesToBits(buf[..used]);
    rest := data[|bits|..];
    assert data[..|bits|] == bits;
    assert data == bits + rest;
  }

  method TryShrink(src: seq<byte>) returns (ok: bool, data: seq<byte>)
    requires src != []
    ensures ok == (|Lzw.Shrink(src)| <= 8 * Room(src))
    ensures ok ==> |data| < |src| && Whole(Lzw.Unshrink(BytesToBits(data), |src|), |src|) == Ok(src)
  {
    hide Lzw.Unshrink, Lzw.Shrink, BytesToBits;
    var buf := new byte[Room(src)];
    var used;
    ok, used := ShrinkCodec.HwShrink(src, buf);
    data := [];
    if ok {
      data := buf[..used];
      assert buf[..][..used] == data;
      ghost var rest := CutBits(buf[..], Lzw.Shrink(src), used);
      assert (Lzw.Shrink(src) + rest)[..|Lzw.Shrink(src)|] == Lzw.Shrink(src);
      ShrinkRoundTrip.RoundTripOfBytes(src, data, |src|);
    }
  }

  method TryReduce(src: seq<byte>, factor: nat) returns (ok: bool, data: seq<byte>)
    requires 1 <= factor <= 4 && |src| < 0x1_0000_0000
    ensures ok == (|ReduceCodec.Reduced(src, factor)| <= 8 * Room(src))
    ensures ok ==> |data| <= |src| && Whole(Reduce.Expanded(factor, BytesToBits(data), |src|), |src|) == Ok(src)
  {
    hide Reduce.Expanded, ReduceCodec.Reduced, BytesToBits;
    var buf := new byte[Room(src)];
    var used;
    ok, used := ReduceCodec.HwReduce(src, factor, buf);
    data := [];
    if ok {
      ghost var rest := CutBits(buf[..], ReduceCodec.Reduced(src, factor), used);
      data := buf[..used];
      assert buf[..][..used] == data;
      ReduceRoundTrip.RoundTrip(src, factor, rest);
    }
  }

  method TryImplode(src: seq<byte>, mode: Implode.Mode) returns (ok: bool, data: seq<byte>)
    requires |src| < 0x1_0000_0000
    ensures ok == ImplodeCodec.ImplodedFits(src, mode, Room(src))
    ensures ok ==> |data| <= |src|
                   && Whole(Implode.Exploded(mode, Implode.LeastLen(mode, false), BytesToBits(data), |src|), |src|) == Ok(src)
  {
    hide Implode.Exploded, ImplodeCodec.Imploded, BytesToBits, Implode.FullCodes, Implode.InRange, ImplodeCodec.ChosenFor,
         ImplodeCodec.DoesNotFit, ImplodeCodec.ImplodedFits;
    var buf := new byte[Room(src)];
    var used;
    ghost var c;
    ok, used, c := ImplodeCodec.HwImplode(src, mode, buf);
    data := [];
    if ok {
      ghost var rest := CutBits(buf[..], ImplodeCodec.Imploded(src, mode, c), used);
      data := buf[..used];
      assert buf[..][..used] == data;
      ImplodeRoundTrip.RoundTrip(src, mode, c, rest);
    }
  }

  method TryDeflate(src: seq<byte>) returns (ok: bool, data: seq<byte>)
    requires |src| < 0x1_0000_0000
    ensures ok == DeflateCodec.DeflatedFits(src, Room(src))
    ensures ok ==> |data| <= |src| && Whole(DeflateFormat.Inflate(BytesToBits(data), [], |src|), |src|) == Ok(src)
  {
    hide DeflateFormat.Inflate, DeflateCodec.TooSmall, BytesToBits, DeflateCodec.LeastCostBlocks, DeflateCodec.BitsOf,
         DeflateCodec.DeflatedFits;
    var buf := new byte[Room(src)];
    var used;
    ghost var blocks;
    ok, used, blocks := DeflateCodec.HwDeflate(src, buf);
    data := [];
    if ok {
      data := buf[..used];
    }
  }

  /** A file to be put into an archive; its time has been converted and its checksum computed. */
  datatype File = File(name: seq<byte>, data: seq<byte>, modTime: uint16, modDate: uint16, crc32: nat)

  ghost predicate FileOk(f: File) {
    |f.name| < 0x1_0000 && 0 !in f.name && |f.data| < 0x1_0000_0000 && f.crc32 < 0x1_0000_0000
  }

  /** The mode that is encoded in the flags of a header. */
  function ModeOf(gpFlag: nat): Implode.Mode {
    Implode.Mode(gpFlag / 2 % 2 == 1, gpFlag / 4 % 2 == 1)
  }

  /** The flags and the version that go with a method: large window and code for literals for Implode, the second
      flag for Deflate, which alone needs version 2.0. */
  predicate Marked(methodId: nat, gpFlag: nat, extractVer: nat) {
    && gpFlag == (if methodId == IMPLODE then 6 else if methodId == DEFLATE then 2 else 0)
    && extractVer == if methodId == DEFLATE then 20 else 10
  }

  /** A member stands for a file, and takes no more room than it. */
  ghost predicate Packs(p: Packed, f: File) {
    && PackedOk(p) && p.head.name == f.name && p.head.modTime == f.modTime && p.head.modDate == f.modDate
    && p.head.crc32 == f.crc32 && p.head.uncompSize == |f.data| && |p.data| <= |f.data|
    && Marked(p.head.methodId, p.head.gpFlag, p.head.extractVer)
    && Restored(p.head.methodId, ModeOf(p.head.gpFlag), p.data, |f.data|) == Ok(f.data)
  }

  /** The data of a member, and its method, flags and version. */
  datatype Coded = Coded(methodId: nat, gpFlag: nat, extractVer: nat, data: seq<byte>)

  ghost predicate CodedOk(c: Coded, src: seq<byte>) {
    && Supported(c.methodId) && Marked(c.methodId, c.gpFlag, c.extractVer) && |c.data| <= |src|
    && (c.methodId == STORE ==> c.data == src)
    && Restored(c.methodId, ModeOf(c.gpFlag), c.data, |src|) == Ok(src)
  }

  /** Compresses with a method, if that makes the data smaller, else stores them. */
  method Code(src: seq<byte>, methodId: nat) returns (c: Coded)
    requires Supported(methodId) && |src| < 0x1_0000_0000
    ensures CodedOk(c, src) && MethodUsed(src, methodId, c.methodId)
  {
    hide Lzw.Shrink, ReduceCodec.Reduced, ImplodeCodec.ImplodedFits, DeflateCodec.DeflatedFits;
    hide Lzw.Unshrink, DeflateFormat.Inflate, Reduce.Expanded, Implode.Exploded, BytesToBits, Whole, Implode.LeastLen;
    var ok, data := false, [];
    if methodId == SHRINK && |src| > 0 {
      ok, data := TryShrink(src);
      c := Coded(SHRINK, 0, 10, data);
    } else if REDUCE1 <= methodId <= REDUCE4 {
      ok, data := TryReduce(src, methodId - REDUCE1 + 1);
      c := Coded(methodId, 0, 10, data);
    } else if methodId == IMPLODE {
      ok, data := TryImplode(src, Implode.Mode(true, true));
      c := Coded(IMPLODE, 6, 10, data);
    } else if methodId == DEFLATE {
      ok, data := TryDeflate(src);
      c := Coded(DEFLATE, 2, 20, data);
    }
    if !ok {
      c := Coded(STORE, 0, 10, src);
    }
  }

  /** The member for a file. */
  method Pack(f: File, methodId: nat) returns (p: Packed)
    requires FileOk(f) && Supported(methodId)
    ensures Packs(p, f) && MethodUsed(f.data, methodId, p.head.methodId)
  {
    hide Restored, MethodUsed;
    var c := Code(f.data, methodId);
    p := Packed(Lfh(c.extractVer, c.gpFlag, c.methodId, f.modTime, f.modDate, f.crc32, |c.data|, |f.data|, f.name, []), c.data);
    HeadInRange(p.head);
  }

  lemma HeadInRange(h: Lfh)
    requires h.extractVer < 0x1_0000 && h.gpFlag < 0x1_0000 && h.methodId < 0x1_0000 && h.modTime < 0x1_0000 && h.modDate < 0x1_0000
    requires h.crc32 < 0x1_0000_0000 && h.compSize < 0x1_0000_0000 && h.uncompSize < 0x1_0000_0000
    requires |h.name| < 0x1_0000 && |h.extra| < 0x1_0000
    ensures InRange(LfhSizes(), h.Values())
  {
  }

  /** Extracting the member of an archive gives the file back. */
  lemma PackedRestores(p: Packed, f: File, next: nat)
    requires Packs(p, f)
    ensures var m := MemberOf(p, next); m.name == f.name && m.uncompSize == |f.data| && MemberData(m) == Ok(f.data)
  {
    hide Lzw.Unshrink, DeflateFormat.Inflate, Reduce.Expanded, Implode.Exploded, BytesToBits, Whole, InRange;
  }
}
