/** What zip_read() and zip_member() make of an archive, and the archives that zip_write() makes
    (hwzip/zip.c, lines 347-453 and 534-679). */
module ZipArchive {
  import opened Bits
  import opened ZipFormat

  const STORE: nat := 0
  const SHRINK: nat := 1
  const REDUCE1: nat := 2
  const REDUCE4: nat := 5
  const IMPLODE: nat := 6
  const DEFLATE: nat := 8
  const EXT_ATTR_DIR: nat := 16
  const EXT_ATTR_ARC: nat := 32

  /** The values of method_t. */
  predicate Supported(methodId: nat) {
    methodId <= IMPLODE || methodId == DEFLATE
  }

  // ---------------------------------------------------------------- reading

  /** zip_t */
  datatype Zip = Zip(src: seq<byte>, numMembers: nat, comment: seq<byte>, membersBegin: nat, membersEnd: nat)

  /** What zip_read() checks of a member. */
  predicate MemberOk(src: seq<byte>, c: Cfh) {
    && c.gpFlag % 2 == 0 && Supported(c.methodId) && (c.methodId == STORE ==> c.uncompSize == c.compSize)
    && c.diskNbrStart == 0 && 0 !in c.name
    && var l := ReadLfh(src, c.lfhOffset); l.Parsed? && DataOffset(l.value, c.lfhOffset) + c.compSize <= |src|
  }

  predicate HasMember(src: seq<byte>, it: nat) {
    ReadCfh(src, it).Parsed? && MemberOk(src, ReadCfh(src, it).value)
  }

  /** The loop of zip_read(): where the central directory ends. */
  function CheckMembers(src: seq<byte>, n: nat, offset: nat): Parsed<nat> {
    if n == 0 then Parsed(offset)
    else if HasMember(src, offset) then CheckMembers(src, n - 1, offset + ReadCfh(src, offset).value.Size())
    else Malformed
  }

  /** zip_read() */
  function ReadZip(src: seq<byte>): Parsed<Zip> {
    match FindEocdr(src, 0)
    case Malformed => Malformed
    case Parsed(r) =>
      if r.diskNbr != 0 || r.cdStartDisk != 0 || r.diskCdEntries != r.cdEntries then Malformed
      else
        match CheckMembers(src, r.cdEntries, r.cdOffset)
        case Malformed => Malformed
        case Parsed(end) => Parsed(Zip(src, r.cdEntries, r.comment, r.cdOffset, end))
  }

  /** zipmemb_t */
  datatype Member = Member(name: seq<byte>, modTime: nat, modDate: nat, compSize: nat, compData: seq<byte>, madeByVer: nat,
                           methodId: nat, impLargeWnd: bool, impLitTree: bool, uncompSize: nat, crc32: nat,
                           comment: seq<byte>, isDir: bool, next: nat)

  /** zip_member() */
  function MemberAt(src: seq<byte>, it: nat): (m: Member)
    requires HasMember(src, it)
    ensures Supported(m.methodId) && |m.compData| == m.compSize && (m.methodId == STORE ==> m.uncompSize == m.compSize)
  {
    var c := ReadCfh(src, it).value;
    var o := DataOffset(ReadLfh(src, c.lfhOffset).value, c.lfhOffset);
    Member(c.name, c.modTime, c.modDate, c.compSize, src[o..o + c.compSize], c.madeByVer, c.methodId,
           c.methodId == IMPLODE && c.gpFlag / 2 % 2 == 1, c.methodId == IMPLODE && c.gpFlag / 4 % 2 == 1,
           c.uncompSize, c.crc32, c.comment, c.extAttrs / EXT_ATTR_DIR % 2 == 1, it + c.Size())
  }

  /** The n members from it on. */
  function MembersFrom(src: seq<byte>, n: nat, it: nat): (ms: seq<Member>)
    requires CheckMembers(src, n, it).Parsed?
    ensures |ms| == n
  {
    if n == 0 then [] else [MemberAt(src, it)] + MembersFrom(src, n - 1, it + ReadCfh(src, it).value.Size())
  }

  /** There is a member at it, and the others come after it. */
  ghost predicate AtMember(src: seq<byte>, n: nat, it: nat, end: nat) {
    && n > 0 && CheckMembers(src, n, it).Parsed? && HasMember(src, it)
    && var m := MemberAt(src, it);
       && it < m.next <= end && CheckMembers(src, n - 1, m.next) == Parsed(end)
       && MembersFrom(src, n, it) == [m] + MembersFrom(src, n - 1, m.next)
  }

  /** In any archive that can be read, an iterator that has not come to the end is at a member, and comes
      closer to the end: what zip_member() asserts holds, and iterating takes as many steps as there are
      members. */
  lemma IteratorStep(src: seq<byte>, n: nat, it: nat, end: nat)
    requires CheckMembers(src, n, it) == Parsed(end)
    ensures it <= end && (it == end <==> n == 0)
    ensures it != end ==> AtMember(src, n, it, end)
  {
    hide HasMember, MemberAt, CheckMembers, MembersFrom;
    EndAfter(src, n, it, end);
    CheckNext(src, n, it);
    if n > 0 {
      EndAfter(src, n - 1, MemberAt(src, it).next, end);
    }
  }

  lemma CheckNext(src: seq<byte>, n: nat, it: nat)
    requires CheckMembers(src, n, it).Parsed?
    ensures n == 0 ==> CheckMembers(src, n, it).value == it
    ensures n > 0 ==>
              HasMember(src, it)
              && var m := MemberAt(src, it);
                 it < m.next && CheckMembers(src, n - 1, m.next) == CheckMembers(src, n, it)
                 && MembersFrom(src, n, it) == [m] + MembersFrom(src, n - 1, m.next)
  {
    hide MemberOk, ReadCfh;
  }

  /** All members have the data that they say. */
  lemma {:induction false} MembersComplete(src: seq<byte>, n: nat, it: nat)
    requires CheckMembers(src, n, it).Parsed?
    ensures forall m :: m in MembersFrom(src, n, it) ==>
              Supported(m.methodId) && |m.compData| == m.compSize && (m.methodId == STORE ==> m.uncompSize == m.compSize)
    decreases n
  {
    hide HasMember, MemberAt, CheckMembers, MembersFrom;
    CheckNext(src, n, it);
    if n > 0 {
      MembersComplete(src, n - 1, MemberAt(src, it).next);
    } else {
      assert MembersFrom(src, n, it) == [];
    }
  }

  lemma {:induction false} EndAfter(src: seq<byte>, n: nat, it: nat, end: nat)
    requires CheckMembers(src, n, it) == Parsed(end)
    ensures it + n * CFH_BASE_SZ <= end
    decreases n
  {
    hide MemberOk, ReadCfh;
    if n > 0 {
      EndAfter(src, n - 1, it + ReadCfh(src, it).value.Size(), end);
    }
  }

  // ---------------------------------------------------------------- writing

  /** A local header and the data after it. */
  datatype Packed = Packed(head: Lfh, data: seq<byte>)

  function PackedBytes(p: Packed): (s: seq<byte>)
    ensures |s| == LFH_BASE_SZ + |p.head.name| + |p.head.extra| + |p.data|
  {
    LfhBytes(p.head) + p.data
  }

  /** The local headers and data. */
  function LocalPart(ps: seq<Packed>): seq<byte> {
    if ps == [] then [] else LocalPart(ps[..|ps| - 1]) + PackedBytes(ps[|ps| - 1])
  }

  /** The central header made from a local one. */
  function CfhOf(h: Lfh, offset: nat): Cfh {
    Cfh(h.extractVer, h.extractVer, h.gpFlag, h.methodId, h.modTime, h.modDate, h.crc32, h.compSize, h.uncompSize,
        0, 0, EXT_ATTR_ARC, offset, h.name, [], [])
  }

  /** The central headers of the first n members. */
  function CentralPart(ps: seq<Packed>, n: nat): seq<byte>
    requires n <= |ps|
  {
    if n == 0 then [] else CentralPart(ps, n - 1) + CfhBytes(CfhOf(ps[n - 1].head, |LocalPart(ps[..n - 1])|))
  }

  function EocdrOf(ps: seq<Packed>, comment: seq<byte>): Eocdr {
    Eocdr(0, 0, |ps|, |ps|, |CentralPart(ps, |ps|)|, |LocalPart(ps)|, comment)
  }

  /** What zip_write() writes. */
  function Archive(ps: seq<Packed>, comment: seq<byte>): seq<byte> {
    LocalPart(ps) + (CentralPart(ps, |ps|) + EocdrBytes(EocdrOf(ps, comment)))
  }

  ghost predicate PackedOk(p: Packed) {
    && InRange(LfhSizes(), p.head.Values()) && p.head.extra == [] && |p.data| == p.head.compSize
    && p.head.gpFlag % 2 == 0 && Supported(p.head.methodId)
    && (p.head.methodId == STORE ==> p.head.uncompSize == p.head.compSize) && 0 !in p.head.name
  }

  /** An archive whose sizes and numbers fit in their fields. */
  ghost predicate ArchiveOk(ps: seq<Packed>, comment: seq<byte>) {
    && (forall p :: p in ps ==> PackedOk(p))
    && |ps| < 0x1_0000 && |comment| < 0x1_0000 && |Archive(ps, comment)| < 0x1_0000_0000
  }

  /** Where the end of central directory record is. */
  function EocdrOffset(ps: seq<Packed>): nat {
    |LocalPart(ps)| + |CentralPart(ps, |ps|)|
  }

  /** A member as it is found in an archive. */
  function MemberOf(p: Packed, next: nat): Member {
    var h := p.head;
    Member(h.name, h.modTime, h.modDate, h.compSize, p.data, h.extractVer, h.methodId,
           h.methodId == IMPLODE && h.gpFlag / 2 % 2 == 1, h.methodId == IMPLODE && h.gpFlag / 4 % 2 == 1,
           h.uncompSize, h.crc32, [], false, next)
  }

  // ---------------------------------------------------------------- reading what was written

  lemma {:induction false} LocalAt(ps: seq<Packed>, i: nat, src: seq<byte>)
    requires i < |ps| && At(src, 0, LocalPart(ps))
    ensures At(src, |LocalPart(ps[..i])|, PackedBytes(ps[i])) && |LocalPart(ps[..i])| <= |LocalPart(ps)|
    decreases |ps|
  {
    hide At, PackedBytes;
    var n := |ps| - 1;
    AtParts(src, 0, LocalPart(ps[..n]), PackedBytes(ps[n]));
    if i < n {
      LocalAt(ps[..n], i, src);
      assert ps[..n][..i] == ps[..i];
    }
  }

  lemma {:induction false} CentralAt(ps: seq<Packed>, i: nat, n: nat, src: seq<byte>, o: nat)
    requires i < n <= |ps| && At(src, o, CentralPart(ps, n))
    ensures At(src, o + |CentralPart(ps, i)|, CfhBytes(CfhOf(ps[i].head, |LocalPart(ps[..i])|)))
    decreases n
  {
    hide At, CfhBytes, LocalPart;
    AtParts(src, o, CentralPart(ps, n - 1), CfhBytes(CfhOf(ps[n - 1].head, |LocalPart(ps[..n - 1])|)));
    if i < n - 1 {
      CentralAt(ps, i, n - 1, src, o);
    }
  }

  lemma CfhInRange(h: Lfh, offset: nat)
    requires InRange(LfhSizes(), h.Values()) && offset < 0x1_0000_0000
    ensures InRange(CfhSizes(), CfhOf(h, offset).Values())
  {
    var v := h.Values();
    assert forall i :: 0 <= i < 11 ==> v[i] < Limit(LfhSizes()[i]);
    assert v[1] < Limit(2) && v[2] < Limit(2) && v[3] < Limit(2) && v[4] < Limit(2) && v[5] < Limit(2) && v[9] < Limit(2);
    assert v[6] < Limit(4) && v[7] < Limit(4) && v[8] < Limit(4);
  }

  lemma CfhSize(h: Lfh, offset: nat)
    ensures CfhOf(h, offset).Size() == CFH_BASE_SZ + |h.name|
  {
  }

  /** A member is found at it, and what comes next. */
  ghost predicate EntryIs(src: seq<byte>, it: nat, p: Packed, next: nat) {
    && HasMember(src, it) && MemberAt(src, it) == MemberOf(p, next)
    && it + ReadCfh(src, it).value.Size() == next
  }

  /** Members are found from it on, and after them the end. */
  ghost predicate EntriesAre(src: seq<byte>, it: nat, ps: seq<Packed>, end: nat) {
    && CheckMembers(src, |ps|, it) == Parsed(end)
    && var ms := MembersFrom(src, |ps|, it); forall k :: 0 <= k < |ps| ==> ms[k] == MemberOf(ps[k], ms[k].next)
  }

  lemma EntriesNext(src: seq<byte>, it: nat, p: Packed, next: nat, ps: seq<Packed>, end: nat)
    requires EntryIs(src, it, p, next) && EntriesAre(src, next, ps, end)
    ensures EntriesAre(src, it, [p] + ps, end)
  {
    hide HasMember, MemberAt, ReadCfh, MemberOf;
    assert CheckMembers(src, |ps| + 1, it) == Parsed(end);
    var ms, all := MembersFrom(src, |ps|, next), MembersFrom(src, |ps| + 1, it);
    assert all == [MemberAt(src, it)] + ms;
    MemberNext(p, next);
    forall k | 0 <= k < |ps| + 1
      ensures all[k] == MemberOf(([p] + ps)[k], all[k].next)
    {
      assert k > 0 ==> all[k] == ms[k - 1];
    }
  }

  lemma MemberNext(p: Packed, next: nat)
    ensures MemberOf(p, next).next == next
  {
  }

  lemma NoEntries(src: seq<byte>, it: nat)
    ensures EntriesAre(src, it, [], it)
  {
  }

  /** The entry of member i in an archive. */
  lemma EntryReads(ps: seq<Packed>, comment: seq<byte>, src: seq<byte>, i: nat)
    requires ArchiveOk(ps, comment) && src == Archive(ps, comment) && i < |ps|
    ensures var it := |LocalPart(ps)| + |CentralPart(ps, i)|;
            EntryIs(src, it, ps[i], |LocalPart(ps)| + |CentralPart(ps, i + 1)|)
  {
    hide LocalPart, CentralPart, EocdrBytes, CfhBytes, LfhBytes, InRange, ReadCfh, ReadLfh, At;
    var it, o := |LocalPart(ps)| + |CentralPart(ps, i)|, |LocalPart(ps[..i])|;
    assert PackedOk(ps[i]);
    ArchiveParts(ps, comment, src);
    LocalAt(ps, i, src);
    CentralAt(ps, i, |ps|, src, |LocalPart(ps)|);
    CfhInRange(ps[i].head, o);
    CfhReads(src, it, CfhOf(ps[i].head, o));
    AtParts(src, o, LfhBytes(ps[i].head), ps[i].data);
    LfhReads(src, o, ps[i].head);
    FieldAt(src, o + |LfhBytes(ps[i].head)|, ps[i].data);
    CentralNext(ps, i);
  }

  lemma CentralNext(ps: seq<Packed>, i: nat)
    requires i < |ps|
    ensures |CentralPart(ps, i + 1)| == |CentralPart(ps, i)| + CfhOf(ps[i].head, |LocalPart(ps[..i])|).Size()
  {
    hide LocalPart;
  }

  lemma ArchiveParts(ps: seq<Packed>, comment: seq<byte>, src: seq<byte>)
    requires src == Archive(ps, comment)
    ensures At(src, 0, LocalPart(ps)) && At(src, |LocalPart(ps)|, CentralPart(ps, |ps|))
    ensures At(src, EocdrOffset(ps), EocdrBytes(EocdrOf(ps, comment)))
    ensures |src| == EocdrOffset(ps) + EOCDR_BASE_SZ + |comment| && |LocalPart(ps)| <= |src|
  {
    hide LocalPart, CentralPart, EocdrBytes;
    var a, b, c := LocalPart(ps), CentralPart(ps, |ps|), EocdrBytes(EocdrOf(ps, comment));
    assert src[0..0 + |a + (b + c)|] == src;
    AtParts(src, 0, a, b + c);
    AtParts(src, |a|, b, c);
  }

  /** The members from i on are found, in order, and after them the end. */
  lemma {:induction false} EntriesRead(ps: seq<Packed>, comment: seq<byte>, src: seq<byte>, i: nat)
    requires ArchiveOk(ps, comment) && src == Archive(ps, comment) && i <= |ps|
    ensures var it := |LocalPart(ps)| + |CentralPart(ps, i)|;
            EntriesAre(src, it, ps[i..], EocdrOffset(ps))
    decreases |ps| - i
  {
    hide LocalPart, CentralPart, EntryIs, EntriesAre, ArchiveOk, Archive;
    var it := |LocalPart(ps)| + |CentralPart(ps, i)|;
    if i < |ps| {
      EntryReads(ps, comment, src, i);
      EntriesRead(ps, comment, src, i + 1);
      EntriesNext(src, it, ps[i], |LocalPart(ps)| + |CentralPart(ps, i + 1)|, ps[i + 1..], EocdrOffset(ps));
      assert ps[i..] == [ps[i]] + ps[i + 1..];
    } else {
      assert ps[i..] == [] && it == EocdrOffset(ps);
      NoEntries(src, it);
    }
  }

  /** An archive is read back as it was written, with its comment and all its members in order, if and
      only if no signature comes after that of the end of central directory record; without a comment this
      is always so. */
  lemma ArchiveReads(ps: seq<Packed>, comment: seq<byte>, src: seq<byte>)
    requires ArchiveOk(ps, comment) && src == Archive(ps, comment)
    ensures ReadZip(src) == Parsed(Zip(src, |ps|, comment, |LocalPart(ps)|, EocdrOffset(ps)))
            <==> NoLaterSignature(src, EocdrOffset(ps))
    ensures comment == [] ==> NoLaterSignature(src, EocdrOffset(ps))
    ensures EntriesAre(src, |LocalPart(ps)|, ps, EocdrOffset(ps))
  {
    hide LocalPart, CentralPart, EocdrBytes, InRange, CheckMembers, MembersFrom, NoLaterSignature, FindEocdr, MemberOf, At;
    NoneCentral(ps);
    EntriesRead(ps, comment, src, 0);
    assert ps[0..] == ps;
    ArchiveParts(ps, comment, src);
    EocdrInRange(ps, comment);
    FindsIff(src, EocdrOffset(ps), EocdrOf(ps, comment));
    if FindEocdr(src, 0).Parsed? && !NoLaterSignature(src, EocdrOffset(ps)) {
      OtherComment(src, EocdrOffset(ps), |comment|);
    }
  }

  lemma NoneCentral(ps: seq<Packed>)
    ensures CentralPart(ps, 0) == []
  {
  }

  lemma EocdrInRange(ps: seq<Packed>, comment: seq<byte>)
    requires ArchiveOk(ps, comment)
    ensures InRange(EocdrSizes(), EocdrOf(ps, comment).Values())
  {
    hide LocalPart, CentralPart, EocdrBytes;
    ArchiveParts(ps, comment, Archive(ps, comment));
  }

  /** A record found by a later signature has another comment. */
  lemma OtherComment(src: seq<byte>, o: nat, n: nat)
    requires |src| == o + EOCDR_BASE_SZ + n && n < 0x1_0000 && !NoLaterSignature(src, o)
    ensures var r := FindEocdr(src, 0); r.Parsed? ==> |r.value.comment| < n
  {
    hide FindEocdr, SignatureAt;
    var x :| o < x && x + EOCDR_BASE_SZ <= |src| && SignatureAt(src, x);
    SearchStops(src, o, x, 0);
  }
}
