/** zip_read(), zip_write() and zip_max_size() (hwzip/zip.c, lines 42-77, 103-300, 347-407 and 534-711), updated
    in place. */
module ZipCodec {
  import opened Bits
  import opened Bitstream
  import opened ZipFormat
  import opened ZipArchive
  import opened ZipRestore

  // ---------------------------------------------------------------- writing in place

  lemma SplicedParts<T>(d: seq<T>, before: seq<T>, p: nat, b: seq<T>)
    requires p + |b| <= |before| && d == before[..p] + b + before[p + |b|..]
    ensures d[..p + |b|] == before[..p] + b && d[p + |b|..] == before[p + |b|..]
  {
  }

  /** memcpy() of b to p; p' is the place after it. */
  method Put(dst: array<byte>, p: nat, b: seq<byte>) returns (p': nat)
    requires p + |b| <= dst.Length
    modifies dst
    ensures p' == p + |b| && dst[..p'] == old(dst[..p]) + b && dst[p'..] == old(dst[p'..])
  {
    ghost var before := dst[..];
    CopyBytes(dst, p, b);
    SplicedParts(dst[..], before, p, b);
    p' := p + |b|;
  }

  /** WRITE16() or WRITE32() */
  method PutNumber(dst: array<byte>, p: nat, x: nat, k: nat) returns (p': nat)
    requires p + k <= dst.Length
    modifies dst
    ensures p' == p + k && dst[..p'] == old(dst[..p]) + LeBytes(x, k) && dst[p'..] == old(dst[p'..])
  {
    ghost var before := dst[..];
    WriteLe(dst, p, k, x);
    p' := p + k;
    SplicedParts(dst[..], before, p, LeBytes(x, k));
  }

  lemma FieldsFirst(sizes: seq<nat>, values: seq<nat>, i: nat)
    requires i < |sizes| == |values|
    ensures FieldsBytes(sizes[i..], values[i..]) == LeBytes(values[i], sizes[i]) + FieldsBytes(sizes[i + 1..], values[i + 1..])
    ensures Total(sizes[i..]) == sizes[i] + Total(sizes[i + 1..])
  {
    assert sizes[i..][1..] == sizes[i + 1..] && values[i..][1..] == values[i + 1..];
  }

  lemma NoFields(sizes: seq<nat>, values: seq<nat>)
    requires |sizes| == |values| == 0
    ensures FieldsBytes(sizes, values) == [] && Total(sizes) == 0
  {
  }

  lemma Regrouped(w: seq<byte>, a: seq<byte>, b: seq<byte>)
    ensures w + (a + b) == w + a + b
  {
  }

  /** The WRITE16() and WRITE32() of a header, one for each field. */
  method PutFields(dst: array<byte>, p: nat, sizes: seq<nat>, values: seq<nat>) returns (q: nat)
    requires |sizes| == |values| && p + Total(sizes) <= dst.Length
    modifies dst
    ensures q == p + Total(sizes) && dst[..q] == old(dst[..p]) + FieldsBytes(sizes, values) && dst[q..] == old(dst[q..])
  {
    hide FieldsBytes, Total, LeBytes;
    q := p;
    assert sizes[0..] == sizes && values[0..] == values;
    ghost var end, tail := p + Total(sizes), dst[p + Total(sizes)..];
    var i := 0;
    while i < |sizes|
      invariant i <= |sizes| && q + Total(sizes[i..]) == end && dst[end..] == tail
      invariant dst[..q] + FieldsBytes(sizes[i..], values[i..]) == old(dst[..p]) + FieldsBytes(sizes, values)
    {
      FieldsFirst(sizes, values, i);
      Regrouped(dst[..q], LeBytes(values[i], sizes[i]), FieldsBytes(sizes[i + 1..], values[i + 1..]));
      ghost var before := dst[..];
      q := PutNumber(dst, q, values[i], sizes[i]);
      LaterTail(dst, before, q, end);
      i := i + 1;
    }
    NoFields(sizes[i..], values[i..]);
    assert dst[..q] + [] == dst[..q];
  }

  lemma LaterTail(dst: array<byte>, before: seq<byte>, q: nat, end: nat)
    requires q <= end <= dst.Length == |before| && dst[q..] == before[q..]
    ensures dst[end..] == before[end..]
  {
    assert dst[end..] == dst[q..][end - q..];
    assert before[end..] == before[q..][end - q..];
  }

  /** write_lfh() */
  method WriteLfh(dst: array<byte>, p: nat, h: Lfh) returns (q: nat)
    requires p + |LfhBytes(h)| <= dst.Length
    modifies dst
    ensures q == p + |LfhBytes(h)| && dst[..q] == old(dst[..p]) + LfhBytes(h) && dst[q..] == old(dst[q..])
  {
    hide FieldsBytes, Total;
    LfhTotal();
    ghost var before, end, fields := dst[..], p + |LfhBytes(h)|, FieldsBytes(LfhSizes(), h.Values());
    q := PutFields(dst, p, LfhSizes(), h.Values());
    LaterTail(dst, before, q, end);
    q := Put(dst, q, h.name);
    LaterTail(dst, before, q, end);
    q := Put(dst, q, h.extra);
    assert before[..p] + fields + h.name + h.extra == before[..p] + (fields + (h.name + h.extra));
  }

  /** write_cfh() */
  method WriteCfh(dst: array<byte>, p: nat, h: Cfh) returns (q: nat)
    requires p + |CfhBytes(h)| <= dst.Length
    modifies dst
    ensures q == p + |CfhBytes(h)| && dst[..q] == old(dst[..p]) + CfhBytes(h)
  {
    hide FieldsBytes, Total;
    CfhTotal();
    ghost var before, fields := dst[..], FieldsBytes(CfhSizes(), h.Values());
    q := PutFields(dst, p, CfhSizes(), h.Values());
    q := Put(dst, q, h.name);
    q := Put(dst, q, h.extra);
    q := Put(dst, q, h.comment);
    assert before[..p] + fields + h.name + h.extra + h.comment == before[..p] + (fields + (h.name + (h.extra + h.comment)));
  }

  /** write_eocdr() */
  method WriteEocdr(dst: array<byte>, p: nat, r: Eocdr) returns (q: nat)
    requires p + |EocdrBytes(r)| <= dst.Length
    modifies dst
    ensures q == p + |EocdrBytes(r)| && dst[..q] == old(dst[..p]) + EocdrBytes(r)
  {
    hide FieldsBytes, Total;
    EocdrTotal();
    ghost var before, fields := dst[..], FieldsBytes(EocdrSizes(), r.Values());
    q := PutFields(dst, p, EocdrSizes(), r.Values());
    q := Put(dst, q, r.comment);
    assert before[..p] + fields + r.comment == before[..p] + (fields + r.comment);
  }

  // ---------------------------------------------------------------- zip_max_size()

  /** What the first n files take at most: two headers with the name each, and the uncompressed data. */
  function FilesSize(files: seq<File>, n: nat): nat
    requires n <= |files|
  {
    if n == 0 then 0
    else FilesSize(files, n - 1) + CFH_BASE_SZ + LFH_BASE_SZ + 2 * |files[n - 1].name| + |files[n - 1].data|
  }

  function ArchiveSize(files: seq<File>, comment: seq<byte>): nat {
    EOCDR_BASE_SZ + |comment| + FilesSize(files, |files|)
  }

  /** zip_max_size(): 0 if a name, the comment, or everything together, is too long. */
  method ZipMaxSize(files: seq<File>, comment: seq<byte>) returns (size: nat)
    ensures size != 0 <==> && |comment| < 0x1_0000 && ArchiveSize(files, comment) < 0x1_0000_0000
                           && (forall f :: f in files ==> |f.name| < 0x1_0000)
    ensures size != 0 ==> size == ArchiveSize(files, comment)
  {
    if |comment| > 0xFFFF {
      return 0;
    }
    var total := EOCDR_BASE_SZ + |comment|;
    var i := 0;
    while i < |files|
      invariant i <= |files| && total == EOCDR_BASE_SZ + |comment| + FilesSize(files, i)
      invariant forall k :: 0 <= k < i ==> |files[k].name| < 0x1_0000
    {
      if |files[i].name| > 0xFFFF {
        assert files[i] in files;
        return 0;
      }
      total := total + CFH_BASE_SZ + |files[i].name|;
      total := total + LFH_BASE_SZ + |files[i].name|;
      total := total + |files[i].data|;
      i := i + 1;
    }
    size := if total > 0xFFFF_FFFF then 0 else total;
  }

  // ---------------------------------------------------------------- zip_write()

  /** The members made so far stand for the files. */
  ghost predicate AllPacked(ps: seq<Packed>, files: seq<File>) {
    |ps| <= |files| && forall k :: 0 <= k < |ps| ==> Packs(ps[k], files[k])
  }

  /** Each member is in the requested method, or stored if it would not be smaller. */
  ghost predicate AllWith(ps: seq<Packed>, files: seq<File>, methodId: nat) {
    |ps| <= |files| && forall k :: 0 <= k < |ps| ==> MethodUsed(files[k].data, methodId, ps[k].head.methodId)
  }

  lemma WithNext(ps: seq<Packed>, p: Packed, files: seq<File>, methodId: nat)
    requires AllWith(ps, files, methodId) && |ps| < |files| && MethodUsed(files[|ps|].data, methodId, p.head.methodId)
    ensures AllWith(ps + [p], files, methodId)
  {
    hide MethodUsed;
  }

  /** The central headers of the first n files. */
  function CentralSize(files: seq<File>, n: nat): nat
    requires n <= |files|
  {
    if n == 0 then 0 else CentralSize(files, n - 1) + CFH_BASE_SZ + |files[n - 1].name|
  }

  lemma PackedNext(ps: seq<Packed>, p: Packed, files: seq<File>)
    requires AllPacked(ps, files) && |ps| < |files| && Packs(p, files[|ps|])
    requires |LocalPart(ps)| + CentralSize(files, |ps|) <= FilesSize(files, |ps|)
    ensures AllPacked(ps + [p], files) && LocalPart(ps + [p]) == LocalPart(ps) + PackedBytes(p)
    ensures |LocalPart(ps + [p])| + CentralSize(files, |ps| + 1) <= FilesSize(files, |ps| + 1)
  {
    hide Packs, InRange, PackedBytes;
    assert (ps + [p])[..|ps|] == ps;
    PackedSize(p, files[|ps|]);
  }

  lemma PackedSize(p: Packed, f: File)
    requires Packs(p, f)
    ensures |PackedBytes(p)| <= LFH_BASE_SZ + |f.name| + |f.data| && |p.head.name| == |f.name|
  {
    hide Restored, InRange;
  }

  lemma {:induction false} FilesMonotone(files: seq<File>, m: nat, n: nat)
    requires m <= n <= |files|
    ensures FilesSize(files, m) <= FilesSize(files, n)
    decreases n
  {
    if m < n {
      FilesMonotone(files, m, n - 1);
    }
  }

  /** Writes the data of a member, and then its header before them. */
  method WriteMember(dst: array<byte>, p: nat, m: Packed) returns (q: nat)
    requires p + |PackedBytes(m)| <= dst.Length && m.head.extra == []
    modifies dst
    ensures q == p + |PackedBytes(m)| && dst[..q] == old(dst[..p]) + PackedBytes(m)
  {
    hide LfhBytes;
    ghost var before := dst[..];
    var dataDst := p + LFH_BASE_SZ + |m.head.name|;
    q := Put(dst, dataDst, m.data);
    assert dst[..dataDst] == before[..dataDst];
    ghost var withData := dst[..];
    var end := WriteLfh(dst, p, m.head);
    MemberParts(dst, before, withData, p, dataDst, q, m);
  }

  lemma MemberParts(dst: array<byte>, before: seq<byte>, withData: seq<byte>, p: nat, o: nat, q: nat, m: Packed)
    requires p <= o <= q <= dst.Length == |before| == |withData| && o == p + |LfhBytes(m.head)| && q == o + |m.data|
    requires withData[..q] == before[..o] + m.data
    requires dst[..o] == withData[..p] + LfhBytes(m.head) && dst[o..] == withData[o..]
    ensures dst[..q] == before[..p] + PackedBytes(m)
  {
    hide LfhBytes;
    assert withData[..p] == withData[..q][..p] == before[..p];
    assert m.data == withData[..q][o..] == withData[o..][..q - o] == dst[o..][..q - o];
    assert dst[..q] == dst[..o] + dst[o..][..q - o];
    assert before[..p] + LfhBytes(m.head) + m.data == before[..p] + (LfhBytes(m.head) + m.data);
  }

  /** The first loop of zip_write(): local headers and data. */
  method WriteLocals(dst: array<byte>, files: seq<File>, methodId: nat) returns (p: nat, ghost ps: seq<Packed>)
    requires FilesSize(files, |files|) <= dst.Length && Supported(methodId) && forall f :: f in files ==> FileOk(f)
    modifies dst
    ensures p == |LocalPart(ps)| <= dst.Length && dst[..p] == LocalPart(ps) && |ps| == |files| && AllPacked(ps, files)
    ensures AllWith(ps, files, methodId)
    ensures p + CentralSize(files, |files|) <= FilesSize(files, |files|)
  {
    hide AllPacked, AllWith, MethodUsed, Packs, FileOk, LocalPart, FilesSize, CentralSize, PackedBytes;
    p, ps := 0, [];
    NothingPacked(files, methodId);
    assert dst[..0] == [];
    var i := 0;
    while i < |files|
      invariant i == |ps| <= |files| && p == |LocalPart(ps)| <= FilesSize(files, i) && AllPacked(ps, files)
      invariant FilesSize(files, i) <= dst.Length && dst[..p] == LocalPart(ps)
      invariant p + CentralSize(files, i) <= FilesSize(files, i) && AllWith(ps, files, methodId)
    {
      assert files[i] in files;
      var m := Pack(files[i], methodId);
      PackedNext(ps, m, files);
      WithNext(ps, m, files, methodId);
      FilesMonotone(files, i + 1, |files|);
      NoExtra(m, files[i]);
      p := WriteMember(dst, p, m);
      ps := ps + [m];
      i := i + 1;
    }
  }

  lemma NothingPacked(files: seq<File>, methodId: nat)
    ensures AllPacked([], files) && AllWith([], files, methodId) && LocalPart([]) == [] && FilesSize(files, 0) == 0 && CentralSize(files, 0) == 0
  {
  }

  lemma NoExtra(p: Packed, f: File)
    requires Packs(p, f)
    ensures p.head.extra == []
  {
    hide Restored, InRange;
  }

  lemma CentralGrows(ps: seq<Packed>, files: seq<File>, i: nat)
    requires AllPacked(ps, files) && i < |ps| && |CentralPart(ps, i)| == CentralSize(files, i)
    ensures var c := CfhOf(ps[i].head, |LocalPart(ps[..i])|);
            CentralPart(ps, i + 1) == CentralPart(ps, i) + CfhBytes(c) && |CfhBytes(c)| == CFH_BASE_SZ + |files[i].name|
    ensures |CentralPart(ps, i + 1)| == CentralSize(files, i + 1)
    ensures |LocalPart(ps[..i + 1])| == |LocalPart(ps[..i])| + LFH_BASE_SZ + |ps[i].head.name| + |ps[i].data|
    ensures |ps[i].data| == ps[i].head.compSize && InRange(LfhSizes(), ps[i].head.Values())
  {
    hide Restored, InRange, LfhBytes, CfhBytes;
    assert Packs(ps[i], files[i]);
    assert ps[..i + 1][..i] == ps[..i];
    CfhSize(ps[i].head, |LocalPart(ps[..i])|);
  }

  lemma {:induction false} CentralMonotone(files: seq<File>, m: nat, n: nat)
    requires m <= n <= |files|
    ensures CentralSize(files, m) <= CentralSize(files, n)
    decreases n
  {
    if m < n {
      CentralMonotone(files, m, n - 1);
    }
  }

  /** The second loop: central headers, from the local headers as they are read back. */
  method WriteCentral(dst: array<byte>, start: nat, ghost ps: seq<Packed>, files: seq<File>) returns (p: nat)
    requires |ps| == |files| && AllPacked(ps, files) && start == |LocalPart(ps)| && start <= dst.Length
    requires dst[..start] == LocalPart(ps) && start + CentralSize(files, |files|) <= dst.Length
    modifies dst
    ensures p == EocdrOffset(ps) == start + CentralSize(files, |files|)
    ensures dst[..p] == LocalPart(ps) + CentralPart(ps, |ps|)
  {
    hide AllPacked, LocalPart, CentralPart, CentralSize, CfhBytes, ReadLfh, InRange;
    NoneCentral(ps);
    NothingCentral(ps, files);
    assert LocalPart(ps) + [] == LocalPart(ps);
    p := start;
    var i, lfhOffset := 0, 0;
    while i < |files|
      invariant i <= |files| && p == start + CentralSize(files, i) <= dst.Length && |CentralPart(ps, i)| == CentralSize(files, i)
      invariant dst[..p] == LocalPart(ps) + CentralPart(ps, i) && lfhOffset == |LocalPart(ps[..i])|
    {
      CentralGrows(ps, files, i);
      CentralMonotone(files, i + 1, |files|);
      HeadReads(dst[..], dst[..p], ps, CentralPart(ps, i), i);
      var lfh := ReadLfh(dst[..], lfhOffset);
      var h := lfh.value;
      Regrouped(LocalPart(ps), CentralPart(ps, i), CfhBytes(CfhOf(h, lfhOffset)));
      p := WriteCfh(dst, p, CfhOf(h, lfhOffset));
      lfhOffset := lfhOffset + LFH_BASE_SZ + |h.name| + h.compSize;
      i := i + 1;
    }
  }

  lemma NothingCentral(ps: seq<Packed>, files: seq<File>)
    ensures CentralSize(files, 0) == 0 && |LocalPart(ps[..0])| == 0
  {
  }

  /** A local header in what has been written so far. */
  lemma HeadReads(d: seq<byte>, w: seq<byte>, ps: seq<Packed>, rest: seq<byte>, i: nat)
    requires i < |ps| && w == LocalPart(ps) + rest && w <= d && InRange(LfhSizes(), ps[i].head.Values())
    ensures ReadLfh(d, |LocalPart(ps[..i])|) == Parsed(ps[i].head)
  {
    hide LocalPart, ReadLfh, InRange, LfhBytes;
    assert At(d, 0, LocalPart(ps)) by {
      assert d[0..|LocalPart(ps)|] == w[..|LocalPart(ps)|];
    }
    LocalAt(ps, i, d);
    AtParts(d, |LocalPart(ps[..i])|, LfhBytes(ps[i].head), ps[i].data);
    LfhReads(d, |LocalPart(ps[..i])|, ps[i].head);
  }

  lemma ArchiveFits(ps: seq<Packed>, files: seq<File>, comment: seq<byte>)
    requires AllPacked(ps, files) && |ps| == |files| < 0x1_0000 && |comment| < 0x1_0000
    requires EocdrOffset(ps) + EOCDR_BASE_SZ + |comment| < 0x1_0000_0000
    ensures ArchiveOk(ps, comment) && |Archive(ps, comment)| == EocdrOffset(ps) + EOCDR_BASE_SZ + |comment|
  {
    hide Restored, InRange, LocalPart, CentralPart, EocdrBytes;
    ArchiveParts(ps, comment, Archive(ps, comment));
    forall p | p in ps
      ensures PackedOk(p)
    {
      var k :| 0 <= k < |ps| && ps[k] == p;
      assert Packs(ps[k], files[k]);
    }
  }

  /** zip_write(): an archive of members that stand for the files, in order, each in the requested method unless
      that would not make it smaller; it takes no more room than zip_max_size() says. */
  method ZipWrite(dst: array<byte>, files: seq<File>, comment: seq<byte>, methodId: nat) returns (used: nat, ghost ps: seq<Packed>)
    requires |files| < 0x1_0000 && Supported(methodId) && forall f :: f in files ==> FileOk(f)
    requires |comment| < 0x1_0000 && ArchiveSize(files, comment) < 0x1_0000_0000 && ArchiveSize(files, comment) <= dst.Length
    modifies dst
    ensures |ps| == |files| && AllPacked(ps, files) && AllWith(ps, files, methodId) && ArchiveOk(ps, comment)
    ensures used == |Archive(ps, comment)| <= ArchiveSize(files, comment) && dst[..used] == Archive(ps, comment)
  {
    hide AllPacked, AllWith, FileOk, LocalPart, CentralPart, FilesSize, CentralSize, EocdrBytes, PackedOk;
    var cdOffset;
    cdOffset, ps := WriteLocals(dst, files, methodId);
    var p := WriteCentral(dst, cdOffset, ps, files);
    ArchiveFits(ps, files, comment);
    ghost var eocdr := EocdrOf(ps, comment);
    EocdrSize(eocdr);
    Regrouped(LocalPart(ps), CentralPart(ps, |ps|), EocdrBytes(eocdr));
    used := WriteEocdr(dst, p, Eocdr(0, 0, |files|, |files|, p - cdOffset, cdOffset, comment));
  }

  lemma EocdrSize(r: Eocdr)
    ensures |EocdrBytes(r)| == EOCDR_BASE_SZ + |r.comment|
  {
  }

  // ---------------------------------------------------------------- zip_read()

  /** find_eocdr() */
  method FindEocdr(src: seq<byte>) returns (r: Parsed<Eocdr>)
    ensures r == ZipFormat.FindEocdr(src, 0)
  {
    hide ReadEocdr, SignatureAt;
    var backOffset := 0;
    while backOffset <= MAX_BACK_OFFSET
      invariant backOffset <= MAX_BACK_OFFSET + 1 && ZipFormat.FindEocdr(src, backOffset) == ZipFormat.FindEocdr(src, 0)
    {
      if |src| < EOCDR_BASE_SZ + backOffset {
        return Malformed;
      }
      var o: nat := |src| - EOCDR_BASE_SZ - backOffset;
      if SignatureAt(src, o) {
        return ReadEocdr(src, o, backOffset);
      }
      backOffset := backOffset + 1;
    }
    return Malformed;
  }

  /** zip_read(): on any input, accepts what the format says. */
  method ZipRead(src: seq<byte>) returns (zip: Parsed<Zip>)
    ensures zip == ReadZip(src)
  {
    hide ZipFormat.FindEocdr, MemberOk, ReadCfh;
    var eocdr := FindEocdr(src);
    if eocdr.Malformed? {
      return Malformed;
    }
    var r := eocdr.value;
    if r.diskNbr != 0 || r.cdStartDisk != 0 || r.diskCdEntries != r.cdEntries {
      return Malformed;
    }
    var offset: nat, i := r.cdOffset, 0;
    while i < r.cdEntries
      invariant i <= r.cdEntries && CheckMembers(src, r.cdEntries - i, offset) == CheckMembers(src, r.cdEntries, r.cdOffset)
    {
      var cfh := ReadCfh(src, offset);
      if cfh.Malformed? || !MemberOk(src, cfh.value) {
        return Malformed;
      }
      offset := offset + cfh.value.Size();
      i := i + 1;
    }
    return Parsed(Zip(src, r.cdEntries, r.comment, r.cdOffset, offset));
  }

  /** Iterates over the members of an archive, from members_begin to members_end. */
  method ListMembers(zip: Zip) returns (ms: seq<Member>)
    requires CheckMembers(zip.src, zip.numMembers, zip.membersBegin) == Parsed(zip.membersEnd)
    ensures ms == MembersFrom(zip.src, zip.numMembers, zip.membersBegin)
  {
    hide MemberAt, HasMember, CheckMembers, MembersFrom, AtMember;
    ms := [];
    var it := zip.membersBegin;
    ghost var src, end, n: nat := zip.src, zip.membersEnd, zip.numMembers;
    ghost var all := MembersFrom(src, n, it);
    StartOf(all);
    IteratorStep(src, n, it, end);
    while it != zip.membersEnd
      invariant it <= end && CheckMembers(src, n, it) == Parsed(end)
      invariant ms + MembersFrom(src, n, it) == all
      decreases end - it
    {
      IteratorStep(src, n, it, end);
      NextMember(src, n, it, end, ms);
      var m := MemberAt(zip.src, it);
      ms := ms + [m];
      it := m.next;
      n := n - 1;
    }
    IteratorStep(src, n, it, end);
    NoMembers(src, n, it);
    EndOf(ms);
  }

  lemma StartOf(s: seq<Member>)
    ensures [] + s == s
  {
  }

  lemma EndOf(s: seq<Member>)
    ensures s + [] == s
  {
  }

  /** What comes after a member, and what there is up to it. */
  lemma NextMember(src: seq<byte>, n: nat, it: nat, end: nat, ms: seq<Member>)
    requires AtMember(src, n, it, end)
    ensures n > 0 && HasMember(src, it) && CheckMembers(src, n, it).Parsed?
    ensures var m := MemberAt(src, it);
            && it < m.next <= end && CheckMembers(src, n - 1, m.next) == Parsed(end)
            && ms + MembersFrom(src, n, it) == ms + [m] + MembersFrom(src, n - 1, m.next)
  {
    hide MemberAt, HasMember, CheckMembers, MembersFrom;
  }

  lemma NoMembers(src: seq<byte>, n: nat, it: nat)
    requires n == 0
    ensures CheckMembers(src, n, it).Parsed? && MembersFrom(src, n, it) == []
  {
  }
}
