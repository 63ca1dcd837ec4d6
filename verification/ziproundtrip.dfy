/** Writing an archive and reading it, with all methods. */
module ZipRoundTrip {
  import opened Bits
  import opened Outcome
  import opened ZipFormat
  import opened ZipArchive
  import opened ZipRestore
  import opened ZipCodec

  /** A member that stands for a file: its name and its data, as extracting it gives them. */
  ghost predicate StandsFor(m: Member, f: File) {
    && m.name == f.name && m.uncompSize == |f.data| && m.crc32 == f.crc32 && m.modTime == f.modTime && m.modDate == f.modDate
    && Supported(m.methodId) && MemberData(m) == Ok(f.data)
  }

  lemma PackedStandsFor(p: Packed, f: File, next: nat)
    requires Packs(p, f)
    ensures StandsFor(MemberOf(p, next), f)
  {
    hide Restored, MemberData;
    PackedRestores(p, f, next);
  }

  /** What zip_write() writes is read back with all files in order, if and only if no signature follows
      that of the end of central directory record; without a comment none does. */
  lemma FilesRestored(ps: seq<Packed>, files: seq<File>, comment: seq<byte>, src: seq<byte>)
    requires AllPacked(ps, files) && |ps| == |files| && ArchiveOk(ps, comment) && src == Archive(ps, comment)
    ensures ReadZip(src) == Parsed(Zip(src, |files|, comment, |LocalPart(ps)|, EocdrOffset(ps)))
            <==> NoLaterSignature(src, EocdrOffset(ps))
    ensures comment == [] ==> NoLaterSignature(src, EocdrOffset(ps))
    ensures CheckMembers(src, |files|, |LocalPart(ps)|) == Parsed(EocdrOffset(ps))
    ensures forall k :: 0 <= k < |files| ==> StandsFor(MembersFrom(src, |files|, |LocalPart(ps)|)[k], files[k])
  {
    hide ReadZip, StandsFor, ArchiveOk, Archive, MemberOf, CheckMembers, MembersFrom, Packs, NoLaterSignature, LocalPart, CentralPart;
    ArchiveReads(ps, comment, src);
    var ms := MembersFrom(src, |files|, |LocalPart(ps)|);
    forall k | 0 <= k < |files|
      ensures StandsFor(ms[k], files[k])
    {
      assert Packs(ps[k], files[k]);
      PackedStandsFor(ps[k], files[k], ms[k].next);
    }
  }

  /** A comment can make an archive unreadable, or read as another one: one that ends like a record. */
  lemma CommentMisleads(ps: seq<Packed>, comment: seq<byte>, src: seq<byte>)
    requires ArchiveOk(ps, comment) && src == Archive(ps, comment)
    requires |comment| == EOCDR_BASE_SZ && comment[..4] == LeBytes(EOCDR_SIGNATURE, 4)
    ensures ReadZip(src) != Parsed(Zip(src, |ps|, comment, |LocalPart(ps)|, EocdrOffset(ps)))
  {
    hide ReadZip, ArchiveOk, Archive, LocalPart, CentralPart, FieldsBytes, LeBytes, LeValue;
    ArchiveReads(ps, comment, src);
    ArchiveParts(ps, comment, src);
    var o := EocdrOffset(ps);
    var fields := FieldsBytes(EocdrSizes(), EocdrOf(ps, comment).Values());
    EocdrTotal();
    AtParts(src, o, fields, comment);
    AtTake(src, o + EOCDR_BASE_SZ, comment, 4);
    LeRound(EOCDR_SIGNATURE, 4);
    assert SignatureAt(src, o + EOCDR_BASE_SZ);
  }

  /** Puts files into an archive and gets them back, names and data, with any method; a buffer of the size
      that zip_max_size() gives is large enough. */
  method ZipThenUnzip(files: seq<File>, methodId: nat) returns (ok: bool, out: seq<(seq<byte>, seq<byte>)>)
    requires |files| < 0x1_0000 && Supported(methodId) && forall f :: f in files ==> FileOk(f)
    ensures ok <==> ArchiveSize(files, []) < 0x1_0000_0000
    ensures ok ==> |out| == |files| && forall k :: 0 <= k < |files| ==> out[k] == (files[k].name, files[k].data)
  {
    hide AllPacked, ArchiveOk, ReadZip, NoLaterSignature, StandsFor, MembersFrom, CheckMembers, FilesSize, LocalPart, CentralPart, Archive;
    out := [];
    var size := ZipMaxSize(files, []);
    NamesShort(files);
    if size == 0 {
      return false, [];
    }
    var dst := new byte[size];
    var used;
    ghost var ps;
    used, ps := ZipWrite(dst, files, [], methodId);
    var src := dst[..used];
    FilesRestored(ps, files, [], src);
    var zip := ZipRead(src);
    var ms := ListMembers(zip.value);
    MembersComplete(src, |files|, |LocalPart(ps)|);
    out := Extract(ms, files);
    ok := true;
  }

  lemma NamesShort(files: seq<File>)
    requires forall f :: f in files ==> FileOk(f)
    ensures forall f :: f in files ==> |f.name| < 0x1_0000
  {
  }

  /** Extracts all members. */
  method Extract(ms: seq<Member>, ghost files: seq<File>) returns (out: seq<(seq<byte>, seq<byte>)>)
    requires |ms| == |files| && forall k :: 0 <= k < |ms| ==> StandsFor(ms[k], files[k])
    requires forall m :: m in ms ==> |m.compData| == m.compSize && (m.methodId == STORE ==> m.compSize == m.uncompSize)
    ensures |out| == |files| && forall k :: 0 <= k < |files| ==> out[k] == (files[k].name, files[k].data)
  {
    hide MemberData;
    out := [];
    var i := 0;
    while i < |ms|
      invariant i == |out| <= |ms| && forall k :: 0 <= k < i ==> out[k] == (files[k].name, files[k].data)
    {
      assert StandsFor(ms[i], files[i]) && ms[i] in ms;
      var buf := new byte[ms[i].uncompSize];
      var ok := ZipExtractMember(ms[i], buf);
      out := out + [(ms[i].name, buf[..])];
      i := i + 1;
    }
  }
}
