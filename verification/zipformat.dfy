/** The ZIP container (hwzip/zip.c; APPNOTE sections 4.3.7, 4.3.12 and 4.3.16): local headers and data, a
    central directory that points to them, and at the end a record that points to the directory. */
module ZipFormat {
  import opened Bits

  datatype Parsed<T> = Malformed | Parsed(value: T)

  // ---------------------------------------------------------------- fields

  function Total(sizes: seq<nat>): nat {
    if sizes == [] then 0 else sizes[0] + Total(sizes[1..])
  }

  lemma TotalStep(s: seq<nat>, i: nat)
    requires i <= |s|
    ensures i == 0 ==> Total(s) == Total(s[i..])
    ensures i == |s| ==> Total(s[i..]) == 0
    ensures i < |s| ==> Total(s[i..]) == s[i] + Total(s[i + 1..])
  {
    assert s[0..] == s;
    if i < |s| {
      assert s[i..][1..] == s[i + 1..];
    }
  }

  /** Four more sizes, or as many as there are. */
  lemma TotalNext(s: seq<nat>, i: nat)
    requires i <= |s|
    ensures i == 0 ==> Total(s) == Total(s[i..])
    ensures i == |s| ==> Total(s[i..]) == 0
    ensures i + 1 == |s| ==> Total(s[i..]) == s[i]
    ensures i + 3 == |s| ==> Total(s[i..]) == s[i] + s[i + 1] + s[i + 2]
    ensures i + 4 <= |s| ==> Total(s[i..]) == s[i] + s[i + 1] + s[i + 2] + s[i + 3] + Total(s[i + 4..])
  {
    hide Total;
    TotalStep(s, i);
    if i < |s| {
      TotalStep(s, i + 1);
    }
    if i + 3 <= |s| {
      TotalStep(s, i + 2);
      TotalStep(s, i + 3);
    }
  }

  /** Little-endian numbers of these sizes, one after the other: WRITE16() and WRITE32(). */
  function FieldsBytes(sizes: seq<nat>, values: seq<nat>): (s: seq<byte>)
    requires |sizes| == |values|
    ensures |s| == Total(sizes)
  {
    if sizes == [] then [] else LeBytes(values[0], sizes[0]) + FieldsBytes(sizes[1..], values[1..])
  }

  /** READ16() and READ32() */
  function ReadFields(src: seq<byte>, o: nat, sizes: seq<nat>): (values: seq<nat>)
    requires o + Total(sizes) <= |src|
    ensures |values| == |sizes|
    decreases |src|, |sizes|
  {
    if sizes == [] then [] else [LeValue(src[o..o + sizes[0]])] + ReadFields(src, o + sizes[0], sizes[1..])
  }

  /** Every value fits in its field. */
  ghost predicate InRange(sizes: seq<nat>, values: seq<nat>) {
    |sizes| == |values| && forall i :: 0 <= i < |sizes| ==> values[i] < Limit(sizes[i])
  }

  function Limit(size: nat): nat {
    if size == 2 then 0x1_0000 else if size == 4 then 0x1_0000_0000 else 0
  }

  lemma LimitIs(size: nat)
    ensures Limit(size) > 0 ==> Limit(size) == Pow2(8 * size)
  {
    hide Pow2;
    Pow2Word();
    Pow2Add(16, 16);
  }

  /** The bytes b are in src from o on. */
  ghost predicate At(src: seq<byte>, o: nat, b: seq<byte>) {
    o + |b| <= |src| && src[o..o + |b|] == b
  }

  lemma AtParts(src: seq<byte>, o: nat, a: seq<byte>, b: seq<byte>)
    requires At(src, o, a + b)
    ensures At(src, o, a) && At(src, o + |a|, b)
  {
    var c := src[o..o + |a + b|];
    assert src[o..o + |a|] == c[..|a|] == a;
    assert src[o + |a|..o + |a| + |b|] == c[|a|..] == b;
  }

  lemma AtTake(src: seq<byte>, o: nat, b: seq<byte>, n: nat)
    requires At(src, o, b) && n <= |b|
    ensures At(src, o, b[..n])
  {
    assert b == b[..n] + b[n..];
    AtParts(src, o, b[..n], b[n..]);
  }

  lemma LeRound(x: nat, k: nat)
    requires x < Limit(k)
    ensures LeValue(LeBytes(x, k)) == x
  {
    LimitIs(k);
    LeValueIsFromBits(LeBytes(x, k));
    LeBytesBits(x, k);
    FromToBits(x, 8 * k);
  }

  /** Reading fields inverts writing them. */
  lemma {:induction false} FieldsRead(src: seq<byte>, o: nat, sizes: seq<nat>, values: seq<nat>)
    requires InRange(sizes, values) && At(src, o, FieldsBytes(sizes, values))
    ensures ReadFields(src, o, sizes) == values
    decreases |sizes|
  {
    hide LeBytes, LeValue, Limit, At;
    FieldsFit(src, o, sizes, values);
    if sizes != [] {
      var b, more := LeBytes(values[0], sizes[0]), FieldsBytes(sizes[1..], values[1..]);
      AtParts(src, o, b, more);
      LeRound(values[0], sizes[0]);
      FieldAt(src, o, b);
      FieldsRead(src, o + sizes[0], sizes[1..], values[1..]);
    }
  }

  lemma FieldsFit(src: seq<byte>, o: nat, sizes: seq<nat>, values: seq<nat>)
    requires |sizes| == |values| && At(src, o, FieldsBytes(sizes, values))
    ensures o + Total(sizes) <= |src|
  {
  }

  lemma FieldAt(src: seq<byte>, o: nat, b: seq<byte>)
    requires At(src, o, b)
    ensures o + |b| <= |src| && src[o..o + |b|] == b
  {
  }

  // ---------------------------------------------------------------- local headers

  const LFH_SIGNATURE: nat := 0x04034b50
  const LFH_BASE_SZ: nat := 30
  /** Fields 0, 6, 7 and 8 take four bytes, the others two. */
  function LfhSizes(): seq<nat> {
    seq(11, i => if i == 0 || 6 <= i <= 8 then 4 else 2)
  }

  /** struct lfh */
  datatype Lfh = Lfh(extractVer: nat, gpFlag: nat, methodId: nat, modTime: nat, modDate: nat, crc32: nat,
                     compSize: nat, uncompSize: nat, name: seq<byte>, extra: seq<byte>)
  {
    function Values(): seq<nat> {
      [LFH_SIGNATURE, extractVer, gpFlag, methodId, modTime, modDate, crc32, compSize, uncompSize, |name|, |extra|]
    }
  }

  lemma LfhTotal()
    ensures Total(LfhSizes()) == LFH_BASE_SZ
  {
    hide Total;
    var s := LfhSizes();
    TotalNext(s, 0);
    TotalNext(s, 4);
    TotalNext(s, 8);
  }

  /** What write_lfh() writes. */
  function LfhBytes(h: Lfh): (s: seq<byte>)
    ensures |s| == LFH_BASE_SZ + |h.name| + |h.extra|
  {
    LfhTotal();
    FieldsBytes(LfhSizes(), h.Values()) + (h.name + h.extra)
  }

  /** read_lfh() */
  function ReadLfh(src: seq<byte>, offset: nat): Parsed<Lfh> {
    if offset > |src| || |src| - offset < LFH_BASE_SZ then Malformed
    else
      LfhTotal();
      var v, o := ReadFields(src, offset, LfhSizes()), offset + LFH_BASE_SZ;
      if v[0] != LFH_SIGNATURE || |src| - o < v[9] + v[10] then Malformed
      else Parsed(Lfh(v[1], v[2], v[3], v[4], v[5], v[6], v[7], v[8], src[o..o + v[9]], src[o + v[9]..o + v[9] + v[10]]))
  }

  /** Where the data are. */
  function DataOffset(h: Lfh, offset: nat): nat {
    offset + LFH_BASE_SZ + |h.name| + |h.extra|
  }

  lemma LfhReads(src: seq<byte>, o: nat, h: Lfh)
    requires InRange(LfhSizes(), h.Values()) && At(src, o, LfhBytes(h))
    ensures ReadLfh(src, o) == Parsed(h)
  {
    hide FieldsBytes, ReadFields, InRange, Total;
    LfhTotal();
    var fields := FieldsBytes(LfhSizes(), h.Values());
    AtParts(src, o, fields, h.name + h.extra);
    AtParts(src, o + LFH_BASE_SZ, h.name, h.extra);
    FieldsRead(src, o, LfhSizes(), h.Values());
  }

  // ---------------------------------------------------------------- central headers

  const CFH_SIGNATURE: nat := 0x02014b50
  const CFH_BASE_SZ: nat := 46
  /** Fields 0, 7, 8, 9, 15 and 16 take four bytes, the others two. */
  function CfhSizes(): seq<nat> {
    seq(17, i => if i == 0 || 7 <= i <= 9 || i >= 15 then 4 else 2)
  }

  /** struct cfh */
  datatype Cfh = Cfh(madeByVer: nat, extractVer: nat, gpFlag: nat, methodId: nat, modTime: nat, modDate: nat, crc32: nat,
                     compSize: nat, uncompSize: nat, diskNbrStart: nat, intAttrs: nat, extAttrs: nat, lfhOffset: nat,
                     name: seq<byte>, extra: seq<byte>, comment: seq<byte>)
  {
    function Values(): seq<nat> {
      [CFH_SIGNATURE, madeByVer, extractVer, gpFlag, methodId, modTime, modDate, crc32, compSize, uncompSize,
       |name|, |extra|, |comment|, diskNbrStart, intAttrs, extAttrs, lfhOffset]
    }

    function Size(): nat {
      CFH_BASE_SZ + |name| + |extra| + |comment|
    }
  }

  lemma CfhTotal()
    ensures Total(CfhSizes()) == CFH_BASE_SZ
  {
    hide Total;
    var s := CfhSizes();
    TotalNext(s, 0);
    TotalNext(s, 4);
    TotalNext(s, 8);
    TotalNext(s, 12);
    TotalNext(s, 16);
  }

  /** What write_cfh() writes. */
  function CfhBytes(h: Cfh): (s: seq<byte>)
    ensures |s| == h.Size()
  {
    CfhTotal();
    FieldsBytes(CfhSizes(), h.Values()) + (h.name + (h.extra + h.comment))
  }

  /** read_cfh() */
  function ReadCfh(src: seq<byte>, offset: nat): (r: Parsed<Cfh>)
    ensures r.Parsed? ==> offset + r.value.Size() <= |src|
  {
    if offset > |src| || |src| - offset < CFH_BASE_SZ then Malformed
    else
      CfhTotal();
      CfhFrom(src, offset + CFH_BASE_SZ, ReadFields(src, offset, CfhSizes()))
  }

  function CfhFrom(src: seq<byte>, o: nat, v: seq<nat>): (r: Parsed<Cfh>)
    requires |v| == 17 && o <= |src|
    ensures r.Parsed? ==> o + r.value.Size() - CFH_BASE_SZ <= |src|
  {
    var extra, comment, end := o + v[10], o + v[10] + v[11], o + v[10] + v[11] + v[12];
    if v[0] != CFH_SIGNATURE || |src| < end then Malformed
    else Parsed(Cfh(v[1], v[2], v[3], v[4], v[5], v[6], v[7], v[8], v[9], v[13], v[14], v[15], v[16],
                    src[o..extra], src[extra..comment], src[comment..end]))
  }

  lemma CfhReads(src: seq<byte>, o: nat, h: Cfh)
    requires InRange(CfhSizes(), h.Values()) && At(src, o, CfhBytes(h))
    ensures ReadCfh(src, o) == Parsed(h)
  {
    hide FieldsBytes, ReadFields, InRange, Total;
    CfhTotal();
    var fields := FieldsBytes(CfhSizes(), h.Values());
    AtParts(src, o, fields, h.name + (h.extra + h.comment));
    AtParts(src, o + CFH_BASE_SZ, h.name, h.extra + h.comment);
    AtParts(src, o + CFH_BASE_SZ + |h.name|, h.extra, h.comment);
    FieldsRead(src, o, CfhSizes(), h.Values());
  }

  // ---------------------------------------------------------------- the end of the central directory

  const EOCDR_SIGNATURE: nat := 0x06054b50
  const EOCDR_BASE_SZ: nat := 22
  /** Fields 0, 5 and 6 take four bytes, the others two. */
  function EocdrSizes(): seq<nat> {
    seq(8, i => if i == 0 || 5 <= i <= 6 then 4 else 2)
  }
  const MAX_BACK_OFFSET: nat := 102400

  /** struct eocdr */
  datatype Eocdr = Eocdr(diskNbr: nat, cdStartDisk: nat, diskCdEntries: nat, cdEntries: nat, cdSize: nat, cdOffset: nat,
                         comment: seq<byte>)
  {
    function Values(): seq<nat> {
      [EOCDR_SIGNATURE, diskNbr, cdStartDisk, diskCdEntries, cdEntries, cdSize, cdOffset, |comment|]
    }
  }

  lemma EocdrTotal()
    ensures Total(EocdrSizes()) == EOCDR_BASE_SZ
  {
    hide Total;
    var s := EocdrSizes();
    TotalNext(s, 0);
    TotalNext(s, 4);
    TotalNext(s, 8);
  }

  /** What write_eocdr() writes. */
  function EocdrBytes(r: Eocdr): (s: seq<byte>)
    ensures |s| == EOCDR_BASE_SZ + |r.comment|
  {
    EocdrTotal();
    FieldsBytes(EocdrSizes(), r.Values()) + r.comment
  }

  /** There is a signature at o. */
  predicate SignatureAt(src: seq<byte>, o: nat) {
    o + 4 <= |src| && LeValue(src[o..o + 4]) == EOCDR_SIGNATURE
  }

  /** The record at o, with a signature, that ends back bytes before the end; its comment must fit there. */
  function ReadEocdr(src: seq<byte>, o: nat, back: nat): Parsed<Eocdr>
    requires o + EOCDR_BASE_SZ + back <= |src|
  {
    EocdrTotal();
    var v, c := ReadFields(src, o, EocdrSizes()), o + EOCDR_BASE_SZ;
    if v[7] > back then Malformed else Parsed(Eocdr(v[1], v[2], v[3], v[4], v[5], v[6], src[c..c + v[7]]))
  }

  /** find_eocdr(), from this distance from the end on. */
  function FindEocdr(src: seq<byte>, back: nat): Parsed<Eocdr>
    decreases MAX_BACK_OFFSET + 1 - back
  {
    if back > MAX_BACK_OFFSET || |src| < EOCDR_BASE_SZ + back then Malformed
    else
      var o: nat := |src| - EOCDR_BASE_SZ - back;
      if SignatureAt(src, o) then ReadEocdr(src, o, back) else FindEocdr(src, back + 1)
  }

  lemma EocdrReads(src: seq<byte>, o: nat, r: Eocdr)
    requires InRange(EocdrSizes(), r.Values()) && At(src, o, EocdrBytes(r)) && |src| == o + EOCDR_BASE_SZ + |r.comment|
    ensures SignatureAt(src, o) && ReadEocdr(src, o, |r.comment|) == Parsed(r)
  {
    hide FieldsBytes, ReadFields, InRange, Total;
    EocdrTotal();
    AtParts(src, o, FieldsBytes(EocdrSizes(), r.Values()), r.comment);
    FieldsRead(src, o, EocdrSizes(), r.Values());
    FirstField(src, o, EocdrSizes());
  }

  lemma FirstField(src: seq<byte>, o: nat, sizes: seq<nat>)
    requires o + Total(sizes) <= |src| && sizes != []
    ensures o + sizes[0] <= |src| && ReadFields(src, o, sizes)[0] == LeValue(src[o..o + sizes[0]])
  {
  }

  /** After the record that was written, closer to the end, there is nothing that looks like one. */
  ghost predicate NoLaterSignature(src: seq<byte>, o: nat) {
    forall x :: o < x && x + EOCDR_BASE_SZ <= |src| ==> !SignatureAt(src, x)
  }

  lemma {:induction false} SearchReaches(src: seq<byte>, o: nat, back: nat)
    requires o + EOCDR_BASE_SZ + back <= |src| <= o + EOCDR_BASE_SZ + MAX_BACK_OFFSET && SignatureAt(src, o)
    requires NoLaterSignature(src, o)
    ensures FindEocdr(src, back) == ReadEocdr(src, o, |src| - EOCDR_BASE_SZ - o)
    decreases |src| - back
  {
    hide ReadEocdr, SignatureAt;
    var x: nat := |src| - EOCDR_BASE_SZ - back;
    if x > o {
      SearchReaches(src, o, back + 1);
    }
  }

  /** A signature closer to the end is taken instead, and its record has a shorter comment, if any. */
  lemma {:induction false} SearchStops(src: seq<byte>, o: nat, x: nat, back: nat)
    requires o < x && x + EOCDR_BASE_SZ + back <= |src| <= o + EOCDR_BASE_SZ + MAX_BACK_OFFSET && SignatureAt(src, x)
    ensures var r := FindEocdr(src, back); r.Parsed? ==> |r.value.comment| < |src| - EOCDR_BASE_SZ - o
    decreases |src| - back
  {
    hide SignatureAt, ReadFields;
    var y: nat := |src| - EOCDR_BASE_SZ - back;
    if !SignatureAt(src, y) {
      SearchStops(src, o, x, back + 1);
    }
  }

  /** The record is found if and only if its comment, or the end of the record together with the comment,
      holds no signature that leaves room for a record; without a comment it always is. */
  lemma FindsIff(src: seq<byte>, o: nat, r: Eocdr)
    requires InRange(EocdrSizes(), r.Values()) && At(src, o, EocdrBytes(r)) && |src| == o + EOCDR_BASE_SZ + |r.comment|
    ensures FindEocdr(src, 0) == Parsed(r) <==> NoLaterSignature(src, o)
    ensures r.comment == [] ==> NoLaterSignature(src, o)
  {
    hide FindEocdr, SignatureAt, ReadEocdr;
    CommentFits(r);
    EocdrReads(src, o, r);
    if NoLaterSignature(src, o) {
      SearchReaches(src, o, 0);
    } else {
      var x :| o < x && x + EOCDR_BASE_SZ <= |src| && SignatureAt(src, x);
      SearchStops(src, o, x, 0);
    }
  }

  lemma CommentFits(r: Eocdr)
    requires InRange(EocdrSizes(), r.Values())
    ensures |r.comment| < 0x1_0000
  {
    assert EocdrSizes()[7] == 2 && r.Values()[7] == |r.comment|;
  }
}
