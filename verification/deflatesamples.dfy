/** The numbers of the Deflate format as sections 3.2.3 to 3.2.7 of RFC 1951 give them, and what streams with
    blocks of the three kinds stand for. */
module DeflateSamples {
  import opened Bits
  import opened Outcome
  import opened Huffman
  import opened Lz77
  import opened DeflateTables
  import opened CodeLengths
  import opened DeflateFormat
  import opened Samples
  import opened Reversal
  import HuffmanSamples
  import InflateCodec
  import DeflateCodec
  import DeflateDynamic

  // ---------------------------------------------------------------- lengths and distances

  /** The table for lengths in closed form: four codes for each number of extra bits, which share the range. */
  lemma LengthTable(k: nat)
    requires k < 29
    ensures k < 4 ==> LEN_EBITS[k] == 0 && BASE_LEN[k] == 3 + k
    ensures 4 <= k < 28 ==> LEN_EBITS[k] == k / 4 - 1 && BASE_LEN[k] == 3 + (4 + k % 4) * Pow2(k / 4 - 1)
    ensures k == 28 ==> LEN_EBITS[k] == 0 && BASE_LEN[k] == 258
  {
    SmallPowers();
    hide Pow2;
  }

  /** The table for distances in closed form: two codes for each number of extra bits. */
  lemma DistanceTable(k: nat)
    requires k < 30
    ensures k < 2 ==> DIST_EBITS[k] == 0 && BASE_DIST[k] == 1 + k
    ensures k >= 2 ==> DIST_EBITS[k] == k / 2 - 1 && BASE_DIST[k] == 1 + (2 + k % 2) * Pow2(k / 2 - 1)
  {
    SmallPowers();
    hide Pow2;
  }

  // ---------------------------------------------------------------- the fixed codes

  lemma FixedCounts(l: nat)
    ensures Count(FixedLitlenLengths(), l) == if l == 7 then 24 else if l == 8 then 152 else if l == 9 then 112 else 0
  {
    hide Count;
    HuffmanSamples.FourRuns(FixedLitlenLengths(), 144, 256, 280, 8, 9, 7, 8, l);
  }

  lemma FixedFirsts()
    ensures var l := FixedLitlenLengths(); First(l, 7) == 0 && First(l, 8) == 0x30 && First(l, 9) == 0x190
  {
    hide Count, FixedLitlenLengths;
    var l := FixedLitlenLengths();
    forall k: nat
      ensures Count(l, k) == if k == 7 then 24 else if k == 8 then 152 else if k == 9 then 112 else 0
    {
      FixedCounts(k);
    }
    assert Used(l, 0) == Used(l, 1) == Used(l, 2) == Used(l, 3) == 0;
    assert Used(l, 4) == Used(l, 5) == Used(l, 6) == 0;
    assert Used(l, 7) == 24;
    assert Used(l, 8) == 200;
  }

  lemma FixedRank(s: nat)
    requires s < 288
    ensures Rank(FixedLitlenLengths(), s)
         == if s < 144 then s else if s < 256 then s - 144 else if s < 280 then s - 256 else s - 280 + 144
  {
    hide Count;
    var l := FixedLitlenLengths();
    assert l[..0] == [] && Count([], l[s]) == 0 by { CountNone([], l[s]); }
    HuffmanSamples.CountSegment(l, l[s], 0, Min(s, 144), 8);
    if s >= 144 {
      HuffmanSamples.CountSegment(l, l[s], 144, Min(s, 256), 9);
    }
    if s >= 256 {
      HuffmanSamples.CountSegment(l, l[s], 256, Min(s, 280), 7);
    }
    if s >= 280 {
      HuffmanSamples.CountSegment(l, l[s], 280, s, 8);
    }
  }

  /** The fixed code as the table of section 3.2.6 of RFC 1951 lists it. */
  lemma FixedCode(s: nat)
    requires s < 288
    ensures Codeword(FixedLitlenLengths(), s)
         == if s < 144 then MsbBits(0x30 + s, 8)
            else if s < 256 then MsbBits(0x190 + (s - 144), 9)
            else if s < 280 then MsbBits(s - 256, 7)
            else MsbBits(0xC0 + (s - 280), 8)
  {
    hide Count, First, MsbBits, Rank;
    FixedFirsts();
    FixedRank(s);
  }

  lemma FixedDistCode(s: nat)
    requires s < 32
    ensures Codeword(FixedDistLengths(), s) == MsbBits(s, 5)
  {
    hide Count, MsbBits;
    var l := FixedDistLengths();
    assert l[..0] == [] && Count([], 5) == 0 by { CountNone([], 5); }
    HuffmanSamples.CountSegment(l, 5, 0, s, 5);
    assert First(l, 5) == 0 by {
      forall k: nat | k < 5
        ensures Count(l, k) == 0
      {
        CountNone(l, k);
      }
    }
  }

  // ---------------------------------------------------------------- symbols

  /** After the symbol 257 + k, the extra bits x of a length: what the table in closed form says. */
  lemma LengthReads(k: nat, x: nat, len: nat, more: seq<bool>, dist: seq<nat>)
    requires 4 <= k < 28 && x < Pow2(k / 4 - 1) && len == 3 + (4 + k % 4) * Pow2(k / 4 - 1) + x
    ensures ReadReference(k, ToBits(x, k / 4 - 1) + more, dist) == ReadAfterLength(more, dist, len)
  {
    hide ReadAfterLength, Pow2, ToBits, FromBits;
    LengthTable(k);
    FieldFirst(x, k / 4 - 1, more);
  }

  /** The lengths 3 to 6 and 258 have no extra bits. */
  lemma PlainLengthReads(k: nat, more: seq<bool>, dist: seq<nat>)
    requires k < 4 || k == 28
    ensures ReadReference(k, more, dist) == ReadAfterLength(more, dist, if k == 28 then 258 else 3 + k)
  {
    hide ReadAfterLength, Pow2, ToBits, FromBits;
    LengthTable(k);
    NoExtra(more);
  }

  lemma NoExtra(more: seq<bool>)
    ensures more[..0] == [] && more[0..] == more && FromBits([]) == 0
  {
  }

  /** After a symbol for a distance, its extra bits y. */
  lemma DistanceReads(k: nat, y: nat, distance: nat, rest: seq<bool>, len: nat)
    requires 2 <= k < 30 && y < Pow2(k / 2 - 1) && distance == 1 + (2 + k % 2) * Pow2(k / 2 - 1) + y
    ensures ReadDistance(k, ToBits(y, k / 2 - 1) + rest, len) == Reference(distance, len, rest)
  {
    hide Pow2, ToBits, FromBits;
    DistanceTable(k);
    FieldFirst(y, k / 2 - 1, rest);
  }

  /** The distances 1 and 2 have no extra bits, and the symbols 30 and 31 are errors. */
  lemma PlainDistanceReads(k: nat, rest: seq<bool>, len: nat)
    requires k < 2 || k >= 30
    ensures k < 2 ==> ReadDistance(k, rest, len) == Reference(1 + k, len, rest)
    ensures k >= 30 ==> ReadDistance(k, rest, len) == NoReference
  {
    hide Pow2, ToBits, FromBits;
    if k < 30 {
      DistanceTable(k);
    }
    NoExtra(rest);
  }

  /** Symbols below 256 are bytes, 256 is the end of the block, those up to 285 begin a back reference, which
      must not reach back beyond the beginning, and 286 and 287 are errors. */
  lemma SymbolReads(litlen: seq<nat>, dist: seq<nat>, s: nat, rest: seq<bool>, out: seq<byte>, cap: nat)
    requires DeflateFormat.Codes(litlen, dist) && s < |litlen| && litlen[s] > 0 && |out| <= cap
    ensures var r := InfBlock(Codeword(litlen, s) + rest, out, cap, litlen, dist);
            && (s < 256 ==> r == if |out| < cap then InfBlock(rest, out + [s], cap, litlen, dist) else Full)
            && (s == 256 ==> r == Ok(Output(out, rest)))
            && (s >= 286 ==> r == Err)
            && (257 <= s <= 285 ==>
                  var ref := ReadReference(s - 257, rest, dist);
                  r == if ref.NoReference? || ref.dist > |out| then Err
                       else if |out| + ref.len > cap then Full
                       else InfBlock(ref.rest, CopyBack(out, ref.dist, ref.len), cap, litlen, dist))
  {
    hide Fits, LengthsOk, Codeword, Decode, ReadReference, CopyBack;
    DecodeCodeword(litlen, s, rest);
  }

  lemma AfterLengthReads(dist: seq<nat>, d: nat, rest: seq<bool>, len: nat)
    requires LengthsOk(dist) && Fits(dist) && d < |dist| && dist[d] > 0
    ensures ReadAfterLength(Codeword(dist, d) + rest, dist, len) == ReadDistance(d, rest, len)
  {
    hide Fits, LengthsOk, Codeword, Decode, ReadDistance;
    DecodeCodeword(dist, d, rest);
  }

  // ---------------------------------------------------------------- blocks

  /** The first bit of a block says whether it is the last one, the next two what is in it. */
  lemma KindReads(final: bool, kind: nat, rest: seq<bool>, out: seq<byte>, cap: nat)
    requires kind < 4
    ensures var r := Inflate([final] + ToBits(kind, 2) + rest, out, cap);
            var contents := if kind == 0 then InfStored(rest, out, cap)
                            else if kind == 1 then InfBlock(rest, out, cap, FixedLitlenLengths(), FixedDistLengths())
                            else if kind == 2 && ReadHeader(rest).Header? then
                              var h := ReadHeader(rest); InfBlock(h.rest, out, cap, h.litlen, h.dist)
                            else Err;
            r == if contents.Ok? && !final then Inflate(contents.value.rest, contents.value.out, cap) else contents
  {
    hide ToBits, FromBits, InfStored, InfBlock, ReadHeader;
    var bits := [final] + ToBits(kind, 2) + rest;
    assert bits == [final] + (ToBits(kind, 2) + rest);
    assert Pow2(2) == 4;
    FieldFirst(kind, 2, rest);
    assert bits[1..3] == (ToBits(kind, 2) + rest)[..2] && bits[3..] == (ToBits(kind, 2) + rest)[2..];
  }

  lemma TwoFields(n: nat, m: nat, body: seq<bool>)
    requires n < 0x1_0000 && m < 0x1_0000
    ensures var b := ToBits(n, 16) + (ToBits(m, 16) + body);
            |b| == 32 + |body| && FromBits(b[..16]) == n && FromBits(b[16..32]) == m && b[32..] == body
  {
    hide ToBits, FromBits, Pow2;
    Pow2Word();
    FieldFirst(n, 16, ToBits(m, 16) + body);
    FieldFirst(m, 16, body);
    var b := ToBits(n, 16) + (ToBits(m, 16) + body);
    assert b[16..32] == b[16..][..16] && b[32..] == b[16..][16..];
  }

  lemma DataBits(b: seq<bool>, data: seq<byte>, n: nat)
    requires |b| >= 32 && b[32..] == BytesToBits(data) && n <= |data|
    ensures BitsToBytes(b[32..32 + 8 * n]) == data[..n] && b[32 + 8 * n..] == BytesToBits(data[n..])
  {
    hide BytesToBits, BitsToBytes;
    assert b[32..32 + 8 * n] == b[32..][..8 * n] && b[32 + 8 * n..] == b[32..][8 * n..];
    BytesToBitsSplit(data, n);
    BitsToBytesRound(data[..n]);
  }

  lemma AlignedContents(n: nat, m: nat, data: seq<byte>, cap: nat)
    requires n < 0x1_0000 && m < 0x1_0000
    ensures InfAligned(ToBits(n, 16) + (ToBits(m, 16) + BytesToBits(data)), [], cap)
         == if m != 0xFFFF - n || |data| < n then Err
            else if n > cap then Full
            else Ok(Output(data[..n], BytesToBits(data[n..])))
  {
    hide ToBits, FromBits, BytesToBits, BitsToBytes, Pow2;
    TwoFields(n, m, BytesToBits(data));
    if |data| >= n {
      DataBits(ToBits(n, 16) + (ToBits(m, 16) + BytesToBits(data)), data, n);
      assert [] + data[..n] == data[..n];
    }
  }

  lemma StoredContents(pad: seq<bool>, n: nat, m: nat, data: seq<byte>, cap: nat)
    requires n < 0x1_0000 && m < 0x1_0000 && |pad| == 5
    ensures InfStored(pad + (ToBits(n, 16) + (ToBits(m, 16) + BytesToBits(data))), [], cap)
         == if m != 0xFFFF - n || |data| < n then Err
            else if n > cap then Full
            else Ok(Output(data[..n], BytesToBits(data[n..])))
  {
    hide ToBits, BytesToBits, InfAligned;
    var b := ToBits(n, 16) + (ToBits(m, 16) + BytesToBits(data));
    StoredAligned(pad, b, cap, |data|);
    AlignedContents(n, m, data, cap);
  }

  lemma StoredAligned(pad: seq<bool>, b: seq<bool>, cap: nat, n: nat)
    requires |pad| == 5 && |b| == 32 + 8 * n
    ensures InfStored(pad + b, [], cap) == InfAligned(b, [], cap)
  {
    hide InfAligned;
    assert |pad + b| == 8 * (4 + n) + 5;
    assert (pad + b)[5..] == b;
  }

  /** Two bytes of a number. */
  lemma WordBits(n: nat, rest: seq<byte>)
    requires n < 0x1_0000
    ensures BytesToBits([n % 256, n / 256] + rest) == ToBits(n, 16) + BytesToBits(rest)
  {
    hide ToBits;
    var lo: byte, hi: byte := n % 256, n / 256;
    BytesToBitsConcat([lo, hi], rest);
    assert LeBytes(n / 256, 1) == [hi] + LeBytes(n / 256 / 256, 0);
    assert LeBytes(n, 2) == [lo, hi];
    LeBytesBits(n, 2);
  }

  /** A last block with data as they are: the bits of the kind and the padding make a byte of 1, then follow the
      length n and a number that must be its complement, the low byte of each first, and the data. */
  lemma StoredStream(n: nat, m: nat, data: seq<byte>, cap: nat)
    requires n < 0x1_0000 && m < 0x1_0000
    ensures Inflate(BytesToBits([1] + ([n % 256, n / 256] + ([m % 256, m / 256] + data))), [], cap)
         == if m != 0xFFFF - n || |data| < n then Err
            else if n > cap then Full
            else Ok(Output(data[..n], BytesToBits(data[n..])))
  {
    hide ToBits, BytesToBits, InfStored, Inflate;
    BytesInOrder(1, [n % 256, n / 256] + ([m % 256, m / 256] + data));
    WordBits(n, [m % 256, m / 256] + data);
    WordBits(m, data);
    ByteOrder(1, true, false, false, false, false, false, false, false);
    var pad, body := [false, false, false, false, false], ToBits(n, 16) + (ToBits(m, 16) + BytesToBits(data));
    assert ToBits(0, 2) == [false, false] by { TwoZeros(); }
    assert ToBits(1, 8) == [true] + ToBits(0, 2) + pad;
    assert [true] + ToBits(0, 2) + pad + body == [true] + ToBits(0, 2) + (pad + body);
    KindReads(true, 0, pad + body, [], cap);
    StoredContents(pad, n, m, data, cap);
  }

  /** "Hello" in a block of its own. */
  lemma HelloStream()
    ensures Inflate(BytesToBits([1] + ([5, 0] + ([0xFA, 0xFF] + [72, 101, 108, 108, 111]))), [], 5)
         == Ok(Output([72, 101, 108, 108, 111], []))
  {
    hide BytesToBits, Inflate;
    StoredStream(5, 0xFFFA, [72, 101, 108, 108, 111], 5);
    assert [72, 101, 108, 108, 111][5..] == [] && [72, 101, 108, 108, 111][..5] == [72, 101, 108, 108, 111];
    NoBytes();
  }

  lemma TwoZeros()
    ensures ToBits(0, 2) == [false, false]
  {
  }

  lemma FixedBits()
    ensures Codeword(FixedLitlenLengths(), 97) == [true, false, false, true, false, false, false, true]
    ensures Codeword(FixedLitlenLengths(), 265) == [false, false, false, true, false, false, true]
    ensures Codeword(FixedLitlenLengths(), 256) == [false, false, false, false, false, false, false]
    ensures Codeword(FixedDistLengths(), 0) == [false, false, false, false, false]
  {
    hide MsbBits, Codeword;
    FixedCode(97);
    FixedCode(265);
    FixedCode(256);
    FixedDistCode(0);
    HuffmanSamples.FourBits(9, true, false, false, true);
    HuffmanSamples.FourMore(9, 4, false, false, false, true);
    HuffmanSamples.ThreeBits(0, false, false, false);
    HuffmanSamples.FourMore(0, 3, true, false, false, true);
    HuffmanSamples.FourMore(0, 3, false, false, false, false);
    HuffmanSamples.OneBit(false);
    HuffmanSamples.FourMore(0, 1, false, false, false, false);
  }

  /** The four bytes, cut where symbols begin. */
  lemma FixedStreamBytes()
    ensures ToBits(0x4B, 8) == [true] + ([true, false] + [true, false, false, true, false])
    ensures ToBits(0x44, 8) == [false, false, true] + [false, false, false, true, false]
    ensures ToBits(0x02, 8) == [false, true] + ([false] + [false, false, false, false, false])
    ensures ToBits(0x00, 8) == [false, false, false, false, false, false, false] + [false]
  {
    hide ToBits;
    ByteOrder(0x4B, true, true, false, true, false, false, true, false);
    ByteOrder(0x44, false, false, true, false, false, false, true, false);
    ByteOrder(0x02, false, true, false, false, false, false, false, false);
    ByteOrder(0x00, false, false, false, false, false, false, false, false);
  }

  lemma FourBytes(a: byte, b: byte, c: byte, d: byte)
    ensures BytesToBits([a, b, c, d]) == ToBits(a, 8) + (ToBits(b, 8) + (ToBits(c, 8) + ToBits(d, 8)))
  {
    hide ToBits, BytesToBits;
    BytesInOrder(a, [b, c, d]);
    BytesInOrder(b, [c, d]);
    BytesInOrder(c, [d]);
    BytesInOrder(d, []);
    assert [a] + [b, c, d] == [a, b, c, d] && [b] + [c, d] == [b, c, d] && [c] + [d] == [c, d] && [d] + [] == [d];
    assert BytesToBits([]) == [] by { NoBytes(); }
    assert ToBits(d, 8) + [] == ToBits(d, 8);
  }

  lemma Recut(f: seq<bool>, k: seq<bool>, x: seq<bool>, x': seq<bool>, y: seq<bool>, y': seq<bool>, z: seq<bool>, w: seq<bool>,
              e: seq<bool>, p: seq<bool>)
    ensures (f + (k + x)) + ((x' + y) + ((y' + (z + w)) + (e + p))) == f + k + ((x + x') + ((y + y') + (z + (w + (e + p)))))
  {
    assert (f + (k + x)) + ((x' + y) + ((y' + (z + w)) + (e + p))) == f + k + (x + ((x' + y) + ((y' + (z + w)) + (e + p))));
    assert x + ((x' + y) + ((y' + (z + w)) + (e + p))) == (x + x') + (y + ((y' + (z + w)) + (e + p)));
    assert y + ((y' + (z + w)) + (e + p)) == (y + y') + (z + (w + (e + p)));
  }

  lemma FixedFit()
    ensures DeflateFormat.Codes(FixedLitlenLengths(), FixedDistLengths())
  {
    InflateCodec.FixedFit();
  }

  /** A byte repeated by a reference to itself. */
  lemma {:induction false} CopySame(out: seq<byte>, b: byte, len: nat)
    requires out != [] && forall i :: 0 <= i < |out| ==> out[i] == b
    ensures var r := CopyBack(out, 1, len); |r| == |out| + len && forall i :: 0 <= i < |r| ==> r[i] == b
    decreases len
  {
    if len > 0 {
      CopySame(out + [b], b, len - 1);
    }
  }

  /** What a block has in it: a byte 97, a reference of length 11 and distance 1, and the end. */
  lemma FixedBody(pad: seq<bool>)
    ensures var l, d := FixedLitlenLengths(), FixedDistLengths();
            InfBlock(Codeword(l, 97) + (Codeword(l, 265) + ([false] + (Codeword(d, 0) + (Codeword(l, 256) + pad)))), [], 12, l, d)
            == Ok(Output([97, 97, 97, 97, 97, 97, 97, 97, 97, 97, 97, 97], pad))
  {
    hide ToBits, FromBits, Codeword, InfBlock, CopyBack, ReadAfterLength, ReadReference, ReadDistance, Fits;
    var l, d := FixedLitlenLengths(), FixedDistLengths();
    FixedFit();
    var end := Codeword(l, 256) + pad;
    var ref := [false] + (Codeword(d, 0) + end);
    SymbolReads(l, d, 97, Codeword(l, 265) + ref, [], 12);
    assert [] + [97] == [97];
    SymbolReads(l, d, 265, ref, [97], 12);
    assert ToBits(0, 1) == [false] by { OneZero(); }
    LengthReads(8, 0, 11, Codeword(d, 0) + end, d);
    AfterLengthReads(d, 0, end, 11);
    PlainDistanceReads(0, end, 11);
    CopySame([97], 97, 11);
    assert CopyBack([97], 1, 11) == [97, 97, 97, 97, 97, 97, 97, 97, 97, 97, 97, 97];
    SymbolReads(l, d, 256, pad, [97, 97, 97, 97, 97, 97, 97, 97, 97, 97, 97, 97], 12);
  }

  lemma OneZero()
    ensures ToBits(0, 1) == [false]
  {
  }

  /** A block in the fixed codes. */
  lemma FixedStream()
    ensures Inflate(BytesToBits([0x4B, 0x44, 0x02, 0x00]), [], 12)
         == Ok(Output([97, 97, 97, 97, 97, 97, 97, 97, 97, 97, 97, 97], [false]))
  {
    hide ToBits, FromBits, BytesToBits, Inflate, Codeword, InfBlock, FixedLitlenLengths, FixedDistLengths;
    var l, d := FixedLitlenLengths(), FixedDistLengths();
    var x, x', y, y' := [true, false, false, true, false], [false, false, true], [false, false, false, true, false], [false, true];
    FixedBits();
    assert Codeword(l, 97) == x + x' && Codeword(l, 265) == y + y';
    FourBytes(0x4B, 0x44, 0x02, 0x00);
    FixedStreamBytes();
    KindOne();
    Recut([true], [true, false], x, x', y, y', [false], Codeword(d, 0), Codeword(l, 256), [false]);
    var body := Codeword(l, 97) + (Codeword(l, 265) + ([false] + (Codeword(d, 0) + (Codeword(l, 256) + [false]))));
    KindReads(true, 1, body, [], 12);
    FixedBody([false]);
  }

  lemma KindOne()
    ensures ToBits(1, 2) == [true, false]
  {
  }

  // ---------------------------------------------------------------- the compressor

  /** References are as far and as long as the format allows, and may overlap. */
  lemma CompressorLimits()
    ensures DeflateCodec.LIMITS == Params(32768, 258, true)
  {
  }

  /** A block stands for 65534 bytes at most, and for less only if the next token would make it more or there is
      none; of the kinds that take the fewest bits, a stored block comes first and one with codes of its own last. */
  lemma BlockChosen(b: DeflateCodec.Block, src: seq<byte>, all: seq<Token>, n: nat, bitPos: nat, from: nat, final: bool)
    requires DeflateCodec.LeastCostBlock(b, src, all, n, bitPos, from, final)
    ensures b.bytes <= 65534 && n + |b.tokens| <= |all| && (final <==> n + |b.tokens| == |all|)
    ensures !final ==> var t := all[n + |b.tokens|]; b.bytes + (if t.Lit? then 1 else t.len) > 65534
    ensures var k := b.costs;
            var kind := if k.stored <= k.fixed && k.stored <= k.dynamic then 0 else if k.fixed <= k.dynamic then 1 else 2;
            |b.bits| == (if kind == 0 then k.stored else if kind == 1 then k.fixed else k.dynamic)
            && [final] + ToBits(kind, 2) <= b.bits
  {
    hide DeflateCodec.CostsAre, DeflateDynamic.MadeFor, DeflateCodec.BlockWritten, BodyBits, StoredBits, ToBits;
  }
}
