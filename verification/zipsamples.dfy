/** The ZIP container in bytes (APPNOTE sections 4.3.7, 4.3.12 and 4.3.16), what the numbers in its headers mean,
    and the smallest archive. */
module ZipSamples {
  import opened Bits
  import opened Outcome
  import opened ZipFormat
  import opened ZipArchive
  import opened ZipRestore
  import Lzw
  import Implode = ImplodeFormat
  import Reduce = ReduceFormat
  import DeflateFormat
  import ImplodeCodec
  import ReduceCodec
  import DeflateCodec
  import ZipCodec

  // ---------------------------------------------------------------- headers

  /** A number in two bytes, the low one first. */
  function W(x: nat): (s: seq<byte>)
    ensures |s| == 2
  {
    [x % 256, x / 256 % 256]
  }

  /** A number in four bytes. */
  function D(x: nat): (s: seq<byte>)
    ensures |s| == 4
  {
    [x % 256, x / 256 % 256, x / 0x1_0000 % 256, x / 0x100_0000 % 256]
  }

  lemma FieldsAre(x: nat)
    ensures LeBytes(x, 2) == W(x) && LeBytes(x, 4) == D(x)
  {
    assert LeBytes(x / 256, 1) == [x / 256 % 256] + LeBytes(x / 256 / 256, 0);
    assert LeBytes(x / 256 / 256 / 256, 1) == [x / 256 / 256 / 256 % 256] + LeBytes(x / 256 / 256 / 256 / 256, 0);
    assert LeBytes(x / 256 / 256, 2) == [x / 256 / 256 % 256] + LeBytes(x / 256 / 256 / 256, 1);
    assert x / 256 / 256 == x / 0x1_0000 && x / 256 / 256 / 256 == x / 0x100_0000;
  }

  lemma FourFields(sizes: seq<nat>, values: seq<nat>, i: nat)
    requires i + 4 <= |sizes| == |values|
    ensures FieldsBytes(sizes[i..], values[i..])
         == LeBytes(values[i], sizes[i]) + LeBytes(values[i + 1], sizes[i + 1]) + LeBytes(values[i + 2], sizes[i + 2])
            + LeBytes(values[i + 3], sizes[i + 3]) + FieldsBytes(sizes[i + 4..], values[i + 4..])
  {
    hide LeBytes, FieldsBytes;
    ZipCodec.FieldsFirst(sizes, values, i);
    ZipCodec.FieldsFirst(sizes, values, i + 1);
    ZipCodec.FieldsFirst(sizes, values, i + 2);
    ZipCodec.FieldsFirst(sizes, values, i + 3);
    FiveParts(LeBytes(values[i], sizes[i]), LeBytes(values[i + 1], sizes[i + 1]), LeBytes(values[i + 2], sizes[i + 2]),
              LeBytes(values[i + 3], sizes[i + 3]), FieldsBytes(sizes[i + 4..], values[i + 4..]));
  }

  lemma FiveParts(a: seq<byte>, b: seq<byte>, c: seq<byte>, d: seq<byte>, e: seq<byte>)
    ensures a + (b + (c + (d + e))) == a + b + c + d + e
  {
  }

  lemma Signatures()
    ensures D(0x04034b50) == [0x50, 0x4B, 3, 4] && D(0x02014b50) == [0x50, 0x4B, 1, 2] && D(0x06054b50) == [0x50, 0x4B, 5, 6]
  {
  }

  /** The end of central directory record. */
  lemma EocdrInBytes(r: Eocdr)
    ensures EocdrBytes(r) == ([0x50, 0x4B, 5, 6] + W(r.diskNbr) + W(r.cdStartDisk) + W(r.diskCdEntries)
                              + (W(r.cdEntries) + D(r.cdSize) + D(r.cdOffset) + W(|r.comment|)))
                             + r.comment
  {
    hide FieldsBytes, LeBytes, W, D;
    var s, v := EocdrSizes(), r.Values();
    assert s[0..] == s && v[0..] == v;
    FourFields(s, v, 0);
    FourFields(s, v, 4);
    ZipCodec.NoFields(s[8..], v[8..]);
    Signatures();
    FieldsAre(0x06054b50);
    FieldsAre(r.diskNbr);
    FieldsAre(r.cdStartDisk);
    FieldsAre(r.diskCdEntries);
    FieldsAre(r.cdEntries);
    FieldsAre(r.cdSize);
    FieldsAre(r.cdOffset);
    FieldsAre(|r.comment|);
    NothingAfter(W(r.cdEntries) + D(r.cdSize) + D(r.cdOffset) + W(|r.comment|));
  }

  lemma NothingAfter(s: seq<byte>)
    ensures s + [] == s
  {
  }

  /** A local header. */
  lemma LfhInBytes(h: Lfh)
    ensures LfhBytes(h) == ([0x50, 0x4B, 3, 4] + W(h.extractVer) + W(h.gpFlag) + W(h.methodId)
                            + (W(h.modTime) + W(h.modDate) + D(h.crc32) + D(h.compSize)
                               + (D(h.uncompSize) + (W(|h.name|) + W(|h.extra|)))))
                           + (h.name + h.extra)
  {
    hide FieldsBytes, LeBytes, W, D;
    var s, v := LfhSizes(), h.Values();
    assert s[0..] == s && v[0..] == v;
    FourFields(s, v, 0);
    FourFields(s, v, 4);
    ZipCodec.FieldsFirst(s, v, 8);
    ZipCodec.FieldsFirst(s, v, 9);
    ZipCodec.FieldsFirst(s, v, 10);
    ZipCodec.NoFields(s[11..], v[11..]);
    Signatures();
    FieldsAre(0x04034b50);
    FieldsAre(h.extractVer);
    FieldsAre(h.gpFlag);
    FieldsAre(h.methodId);
    FieldsAre(h.modTime);
    FieldsAre(h.modDate);
    FieldsAre(h.crc32);
    FieldsAre(h.compSize);
    FieldsAre(h.uncompSize);
    FieldsAre(|h.name|);
    FieldsAre(|h.extra|);
    NothingAfter(W(|h.extra|));
  }

  lemma CfhFirst(h: Cfh)
    ensures var s, v := CfhSizes(), h.Values();
            FieldsBytes(s, v) == [0x50, 0x4B, 1, 2] + W(h.madeByVer) + W(h.extractVer) + W(h.gpFlag)
                                 + (W(h.methodId) + W(h.modTime) + W(h.modDate) + D(h.crc32) + FieldsBytes(s[8..], v[8..]))
  {
    hide FieldsBytes, LeBytes, W, D;
    var s, v := CfhSizes(), h.Values();
    assert s[0..] == s && v[0..] == v;
    FourFields(s, v, 0);
    FourFields(s, v, 4);
    Signatures();
    FieldsAre(0x02014b50);
    FieldsAre(h.madeByVer);
    FieldsAre(h.extractVer);
    FieldsAre(h.gpFlag);
    FieldsAre(h.methodId);
    FieldsAre(h.modTime);
    FieldsAre(h.modDate);
    FieldsAre(h.crc32);
  }

  lemma CfhSecond(h: Cfh)
    ensures var s, v := CfhSizes(), h.Values();
            FieldsBytes(s[8..], v[8..])
            == D(h.compSize) + D(h.uncompSize) + W(|h.name|) + W(|h.extra|)
               + (W(|h.comment|) + W(h.diskNbrStart) + W(h.intAttrs) + D(h.extAttrs) + D(h.lfhOffset))
  {
    hide FieldsBytes, LeBytes, W, D;
    var s, v := CfhSizes(), h.Values();
    FourFields(s, v, 8);
    FourFields(s, v, 12);
    ZipCodec.FieldsFirst(s, v, 16);
    ZipCodec.NoFields(s[17..], v[17..]);
    FieldsAre(h.compSize);
    FieldsAre(h.uncompSize);
    FieldsAre(|h.name|);
    FieldsAre(|h.extra|);
    FieldsAre(|h.comment|);
    FieldsAre(h.diskNbrStart);
    FieldsAre(h.intAttrs);
    FieldsAre(h.extAttrs);
    FieldsAre(h.lfhOffset);
    NothingAfter(D(h.lfhOffset));
  }

  /** A central header. */
  lemma CfhInBytes(h: Cfh)
    ensures CfhBytes(h) == ([0x50, 0x4B, 1, 2] + W(h.madeByVer) + W(h.extractVer) + W(h.gpFlag)
                            + (W(h.methodId) + W(h.modTime) + W(h.modDate) + D(h.crc32)
                               + (D(h.compSize) + D(h.uncompSize) + W(|h.name|) + W(|h.extra|)
                                  + (W(|h.comment|) + W(h.diskNbrStart) + W(h.intAttrs) + D(h.extAttrs) + D(h.lfhOffset)))))
                           + (h.name + (h.extra + h.comment))
  {
    hide FieldsBytes, W, D, CfhSizes, Cfh.Values;
    CfhFirst(h);
    CfhSecond(h);
  }

  /** The archive without members or comment: the record alone, 22 bytes. */
  lemma EmptyArchive()
    ensures Archive([], []) == [0x50, 0x4B, 5, 6, 0, 0, 0, 0, 0, 0, 0, 0, 0, 0, 0, 0, 0, 0, 0, 0, 0, 0]
    ensures ReadZip(Archive([], [])) == Parsed(Zip(Archive([], []), 0, [], 0, 0))
  {
    hide EocdrBytes, ReadZip, Archive;
    EmptyBytes();
    EmptyReads();
  }

  lemma EmptyBytes()
    ensures Archive([], []) == [0x50, 0x4B, 5, 6, 0, 0, 0, 0, 0, 0, 0, 0, 0, 0, 0, 0, 0, 0, 0, 0, 0, 0]
  {
    hide EocdrBytes, W, D;
    var r := EocdrOf([], []);
    assert r == Eocdr(0, 0, 0, 0, 0, 0, []);
    EocdrInBytes(r);
    EmptyRecord(W(0), D(0));
    ThreeParts(EocdrBytes(r));
  }

  lemma EmptyRecord(w: seq<byte>, d: seq<byte>)
    requires w == W(0) && d == D(0)
    ensures ([0x50, 0x4B, 5, 6] + w + w + w + (w + d + d + w)) + []
         == [0x50, 0x4B, 5, 6, 0, 0, 0, 0, 0, 0, 0, 0, 0, 0, 0, 0, 0, 0, 0, 0, 0, 0]
  {
    assert w == [0, 0] && d == [0, 0, 0, 0];
    hide W, D;
    assert [0x50, 0x4B, 5, 6] + w + w + w == [0x50, 0x4B, 5, 6, 0, 0, 0, 0, 0, 0];
    assert w + d + d + w == [0, 0, 0, 0, 0, 0, 0, 0, 0, 0, 0, 0];
  }

  lemma ThreeParts(s: seq<byte>)
    ensures [] + ([] + s) == s
  {
  }

  lemma EmptyReads()
    ensures ReadZip(Archive([], [])) == Parsed(Zip(Archive([], []), 0, [], 0, 0))
  {
    hide ReadZip, EocdrBytes, NoLaterSignature;
    assert LocalPart([]) == [] && CentralPart([], 0) == [];
    ArchiveReads([], [], Archive([], []));
  }

  /** An archive of one member: its local header and data, its central header, and the record, which has the number
      of members twice and the size and place of the central directory. */
  lemma OneMember(p: Packed, comment: seq<byte>)
    requires p.head.extra == []
    ensures var h := p.head;
            Archive([p], comment)
            == LfhBytes(h) + p.data
               + (CfhBytes(Cfh(h.extractVer, h.extractVer, h.gpFlag, h.methodId, h.modTime, h.modDate, h.crc32, h.compSize,
                               h.uncompSize, 0, 0, 32, 0, h.name, [], []))
                  + EocdrBytes(Eocdr(0, 0, 1, 1, 46 + |h.name|, 30 + |h.name| + |p.data|, comment)))
  {
    hide CfhBytes, LfhBytes, EocdrBytes;
    assert [p][..0] == [];
    assert LocalPart([]) == [] && CentralPart([p], 0) == [];
    StartWith(PackedBytes(p));
    StartWith(CfhBytes(CfhOf(p.head, 0)));
    assert LocalPart([p]) == PackedBytes(p);
    assert CentralPart([p], 1) == CfhBytes(CfhOf(p.head, 0));
  }

  lemma StartWith(s: seq<byte>)
    ensures [] + s == s
  {
  }

  // ---------------------------------------------------------------- finding the record

  /** The four bytes that the record begins with. */
  lemma SignatureIs(src: seq<byte>, o: nat)
    ensures SignatureAt(src, o) <==> o + 4 <= |src| && src[o] == 0x50 && src[o + 1] == 0x4B && src[o + 2] == 5 && src[o + 3] == 6
  {
    if o + 4 <= |src| {
      var b := src[o..o + 4];
      assert LeValue(b) == b[0] + 256 * LeValue(b[1..]);
      assert LeValue(b[1..]) == b[1] + 256 * LeValue(b[2..]);
      assert LeValue(b[2..]) == b[2] + 256 * LeValue(b[3..]);
      assert LeValue(b[3..]) == b[3] + 256 * LeValue(b[4..]);
    }
  }

  /** What counts is the last signature that leaves room for the 22 bytes of a record, if it is no more than 102400
      bytes before the place of a record without a comment. */
  lemma LastSignature(src: seq<byte>, o: nat)
    requires SignatureAt(src, o) && o + 22 <= |src| && forall x :: o < x && x + 22 <= |src| ==> !SignatureAt(src, x)
    ensures FindEocdr(src, 0) == if |src| - 22 - o <= 102400 then ReadEocdr(src, o, |src| - 22 - o) else Malformed
  {
    hide SignatureAt, ReadEocdr;
    if |src| - 22 - o <= 102400 {
      SearchReaches(src, o, 0);
    } else {
      SearchFails(src, 0);
    }
  }

  /** No signature is close enough to the end. */
  lemma {:induction false} SearchFails(src: seq<byte>, back: nat)
    requires forall x: nat :: x + 22 + back <= |src| <= x + 22 + 102400 ==> !SignatureAt(src, x)
    ensures FindEocdr(src, back) == Malformed
    decreases 102401 - back
  {
    hide SignatureAt, ReadEocdr;
    if back <= 102400 && |src| >= 22 + back {
      SearchFails(src, back + 1);
    }
  }

  // ---------------------------------------------------------------- members

  /** Central headers stand at os, each right after the one before, and all but the last place have a member. */
  ghost predicate Directory(src: seq<byte>, os: seq<nat>) {
    os != [] && forall i :: 0 <= i < |os| - 1 ==> HasMember(src, os[i]) && os[i + 1] == os[i] + ReadCfh(src, os[i]).value.Size()
  }

  lemma {:induction false} DirectoryChecked(src: seq<byte>, os: seq<nat>)
    requires Directory(src, os)
    ensures CheckMembers(src, |os| - 1, os[0]) == Parsed(os[|os| - 1])
    decreases |os|
  {
    hide HasMember, ReadCfh;
    if |os| > 1 {
      assert Directory(src, os[1..]);
      DirectoryChecked(src, os[1..]);
    }
  }

  lemma {:induction false} CheckedDirectory(src: seq<byte>, n: nat, o: nat) returns (os: seq<nat>)
    requires CheckMembers(src, n, o).Parsed?
    ensures |os| == n + 1 && os[0] == o && Directory(src, os)
    decreases n
  {
    hide MemberOk, ReadCfh;
    if n == 0 {
      os := [o];
    } else {
      var next := CheckedDirectory(src, n - 1, o + ReadCfh(src, o).value.Size());
      os := [o] + next;
    }
  }

  /** An archive is accepted if and only if the record says that there is one volume, which has all members, and
      there are as many central headers in a row as it says, each with a member. */
  lemma Accepted(src: seq<byte>)
    ensures ReadZip(src).Parsed? <==>
            FindEocdr(src, 0).Parsed?
            && var r := FindEocdr(src, 0).value;
               r.diskNbr == 0 && r.cdStartDisk == 0 && r.diskCdEntries == r.cdEntries
               && exists os :: |os| == r.cdEntries + 1 && os[0] == r.cdOffset && Directory(src, os)
    ensures ReadZip(src).Parsed? ==>
              var r, z := FindEocdr(src, 0).value, ReadZip(src).value;
              z.numMembers == r.cdEntries && z.comment == r.comment && z.membersBegin == r.cdOffset
  {
    hide FindEocdr, CheckMembers, Directory;
    if FindEocdr(src, 0).Parsed? {
      var r := FindEocdr(src, 0).value;
      if CheckMembers(src, r.cdEntries, r.cdOffset).Parsed? {
        var os := CheckedDirectory(src, r.cdEntries, r.cdOffset);
      }
      forall os | |os| == r.cdEntries + 1 && os[0] == r.cdOffset && Directory(src, os)
        ensures CheckMembers(src, r.cdEntries, r.cdOffset).Parsed?
      {
        DirectoryChecked(src, os);
      }
    }
  }

  /** A central header is in order if and only if the member is not encrypted, its method is one of 0 to 6 and 8, it
      has its full size if it is stored, it is on the first volume, there is no zero byte in its name, and there is a
      local header at the given place with all of the data after it. */
  lemma MemberAccepted(src: seq<byte>, it: nat)
    requires ReadCfh(src, it).Parsed?
    ensures var c := ReadCfh(src, it).value;
            var l := ReadLfh(src, c.lfhOffset);
            HasMember(src, it) <==>
            && c.gpFlag % 2 == 0
            && (c.methodId == 0 || c.methodId == 1 || 2 <= c.methodId <= 5 || c.methodId == 6 || c.methodId == 8)
            && (c.methodId == 0 ==> c.uncompSize == c.compSize)
            && c.diskNbrStart == 0 && (forall i :: 0 <= i < |c.name| ==> c.name[i] != 0)
            && l.Parsed? && c.lfhOffset + 30 + |l.value.name| + |l.value.extra| + c.compSize <= |src|
  {
    hide ReadLfh, ReadCfh;
  }

  /** What a member is: its data come after the local header; bits 1 and 2 of the flags are for the window and the
      literals of Implode; bit 4 of the attributes is for directories; the next member comes after its name, extra
      field and comment. */
  lemma MemberMeans(src: seq<byte>, it: nat)
    requires HasMember(src, it)
    ensures var c, m := ReadCfh(src, it).value, MemberAt(src, it);
            var l := ReadLfh(src, c.lfhOffset).value;
            var o := c.lfhOffset + 30 + |l.name| + |l.extra|;
            && o + c.compSize <= |src| && m.compData == src[o..o + c.compSize]
            && m.impLargeWnd == (c.methodId == 6 && Shr(c.gpFlag, 1) % 2 == 1)
            && m.impLitTree == (c.methodId == 6 && Shr(c.gpFlag, 2) % 2 == 1)
            && m.isDir == (Shr(c.extAttrs, 4) % 2 == 1)
            && m.next == it + 46 + |c.name| + |c.extra| + |c.comment|
            && m.name == c.name && m.compSize == c.compSize && m.uncompSize == c.uncompSize && m.methodId == c.methodId
            && m.modTime == c.modTime && m.modDate == c.modDate && m.crc32 == c.crc32 && m.madeByVer == c.madeByVer
            && m.comment == c.comment
  {
    hide ReadLfh, ReadCfh;
    var c := ReadCfh(src, it).value;
    ShrNibble(c.extAttrs);
    Shifts(c.gpFlag);
  }

  lemma Shifts(x: nat)
    ensures Shr(x, 1) == x / 2 && Shr(x, 2) == x / 4
  {
  }

  /** The methods by number: 0 for stored, 1 for Shrink, 2 to 5 for Reduce, 6 for Implode, with a second attempt, and
      8 for Deflate.  All data must be read, and the size must be right. */
  lemma MethodNumbers(m: nat, mode: Implode.Mode, data: seq<byte>, n: nat)
    requires Supported(m)
    ensures var bits := BytesToBits(data);
            && (m == 0 ==> Restored(m, mode, data, n) == Ok(data))
            && (m == 1 ==> Restored(m, mode, data, n) == Whole(Lzw.Unshrink(bits, n), n))
            && (2 <= m <= 5 ==> Restored(m, mode, data, n) == Whole(Reduce.Expanded(m - 1, bits, n), n))
            && (m == 8 ==> Restored(m, mode, data, n) == Whole(DeflateFormat.Inflate(bits, [], n), n))
            && (m == 6 ==>
                  var first, second := Whole(Implode.Exploded(mode, if mode.litTree then 3 else 2, bits, n), n),
                                       Whole(Implode.Exploded(mode, if mode.largeWnd then 3 else 2, bits, n), n);
                  Restored(m, mode, data, n) == if first.Ok? then first else second)
            && (m <= 6 || m == 8)
  {
    hide Lzw.Unshrink, Reduce.Expanded, DeflateFormat.Inflate, Implode.Exploded, BytesToBits, Whole;
  }

  /** What goes with the methods in the headers that are written. */
  lemma MethodMarks(p: Packed, f: File)
    requires Packs(p, f)
    ensures p.head.methodId == 6 ==> p.head.gpFlag == 6 && p.head.extractVer == 10
    ensures p.head.methodId == 8 ==> p.head.gpFlag == 2 && p.head.extractVer == 20
    ensures p.head.methodId != 6 && p.head.methodId != 8 ==> p.head.gpFlag == 0 && p.head.extractVer == 10
    ensures p.head.extra == [] && p.head.compSize == |p.data| <= p.head.uncompSize == |f.data|
  {
    hide Restored;
  }

  /** The size that always suffices: 22 bytes and the comment, and for each file 76 bytes, its name twice and its
      data. */
  lemma MaxSize(files: seq<File>, f: File, comment: seq<byte>)
    ensures ZipCodec.ArchiveSize([], comment) == 22 + |comment|
    ensures ZipCodec.ArchiveSize(files + [f], comment) == ZipCodec.ArchiveSize(files, comment) + 76 + 2 * |f.name| + |f.data|
  {
    SameSizes(files, f, |files|);
  }

  lemma {:induction false} SameSizes(files: seq<File>, f: File, n: nat)
    requires n <= |files|
    ensures ZipCodec.FilesSize(files + [f], n) == ZipCodec.FilesSize(files, n)
  {
    if n > 0 {
      SameSizes(files, f, n - 1);
    }
  }

  /** A member is in the requested method if and only if its compressed data are smaller than the file. */
  lemma SmallerOrStored(src: seq<byte>, m: nat, used: nat)
    requires MethodUsed(src, m, used) && Supported(m)
    ensures used == 0 || used == m
    ensures m == 1 ==> (used == 1 <==> src != [] && |Lzw.Shrink(src)| <= 8 * (|src| - 1))
    ensures 2 <= m <= 5 ==> (used == m <==> |ReduceCodec.Reduced(src, m - 1)| <= if src == [] then 0 else 8 * (|src| - 1))
    ensures m == 6 ==> (used == 6 <==> ImplodeCodec.ImplodedFits(src, Implode.Mode(true, true), if src == [] then 0 else |src| - 1))
    ensures m == 8 ==> (used == 8 <==> DeflateCodec.DeflatedFits(src, if src == [] then 0 else |src| - 1))
  {
    hide Lzw.Shrink, ReduceCodec.Reduced, ImplodeCodec.ImplodedFits, DeflateCodec.DeflatedFits;
  }
}
