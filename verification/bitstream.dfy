/** The LSB-first bit streams of hwzip/bitstream.h, over mutable byte arrays.

    Each stream has an abstract value: the bits written so far, or the bits not read yet. */
module Bitstream {
  import opened Bits

  /** Reads k bytes from p on as a little-endian number: read64le() for k == 8, the byte-by-byte
      loop of the slow paths for what is left of the buffer. */
  method ReadLe(a: array<byte>, p: nat, k: nat) returns (x: nat)
    requires p + k <= a.Length
    ensures x == LeValue(a[p..p + k])
  {
    x := 0;
    var i := 0;
    while i < k
      invariant i <= k
      invariant x == LeValue(a[p..p + i])
    {
      LeValueSnoc(a[p..p + i], a[p + i]);
      assert a[p..p + i + 1] == a[p..p + i] + [a[p + i]];
      x := x + Pow2(8 * i) * a[p + i];
      i := i + 1;
    }
  }

  /** Stores the k low bytes of x from p on: write64le() for k == 8, or the loop of the slow path. */
  method WriteLe(a: array<byte>, p: nat, k: nat, x: nat)
    requires p + k <= a.Length
    modifies a
    ensures a[..] == old(a[..p]) + LeBytes(x, k) + old(a[p + k..])
  {
    var i := 0;
    while i < k
      invariant i <= k
      invariant a[..p] == old(a[..p])
      invariant a[p..p + i] == LeBytes(x, k)[..i]
      invariant a[p + k..] == old(a[p + k..])
    {
      LeBytesAt(x, k, i);
      a[p + i] := Shr(x, 8 * i) % 256;
      assert a[p..p + i + 1] == a[p..p + i] + [a[p + i]];
      i := i + 1;
    }
    assert a[..] == a[..p] + a[p..p + k] + a[p + k..];
  }

  /** memcpy() of the bytes of src to position p. */
  method CopyBytes(a: array<byte>, p: nat, src: seq<byte>)
    requires p + |src| <= a.Length
    modifies a
    ensures a[..] == old(a[..p]) + src + old(a[p + |src|..])
  {
    var i := 0;
    while i < |src|
      invariant i <= |src|
      invariant a[..p] == old(a[..p])
      invariant a[p..p + i] == src[..i]
      invariant a[p + |src|..] == old(a[p + |src|..])
    {
      a[p + i] := src[i];
      assert a[p..p + i + 1] == a[p..p + i] + [a[p + i]];
      i := i + 1;
    }
    assert a[..] == a[..p] + a[p..p + |src|] + a[p + |src|..];
  }

  /** The read-modify-write of ostream_write() on the k bytes at p: keeps the bits below `shift`,
      puts n bits above them and zeros above those. */
  method MergeBits(a: array<byte>, p: nat, k: nat, shift: nat, bits: nat, n: nat)
    requires p + k <= a.Length && bits < Pow2(n) && shift + n <= 8 * k
    modifies a
    ensures BytesToBits(a[..])[..8 * p + shift + n]
         == old(BytesToBits(a[..]))[..8 * p + shift] + ToBits(bits, n)
  {
    ghost var lo, word, hi := a[..p], a[p..p + k], a[p + k..];
    assert a[..] == lo + word + hi;
    var x := ReadLe(a, p, k);
    x := Lsb(x, shift) + Pow2(shift) * bits;
    Appended(lo, word, hi, shift, bits, n, x);
    WriteLe(a, p, k, x);
  }

  // ---------------------------------------------------------------- output

  class OStream {
    const dst: array<byte>
    var bitpos: nat
    /** The bits written so far. */
    ghost var written: seq<bool>

    ghost predicate Valid()
      reads this, dst
    {
      && |written| == bitpos <= 8 * dst.Length
      && BytesToBits(dst[..])[..bitpos] == written
    }

    lemma InRoom()
      requires Valid()
      ensures |written| == bitpos <= 8 * dst.Length
    {
    }

    /** ostream_init() */
    constructor (dst: array<byte>)
      ensures Valid() && this.dst == dst && written == []
    {
      this.dst := dst;
      bitpos := 0;
      written := [];
    }

    /** ostream_bytes_written() */
    function BytesWritten(): nat
      reads this
    {
      RoundUp8(bitpos) / 8
    }

    /** ostream_write(): appends the n low bits of `bits`, or leaves everything as it is when there
        is no room for them. */
    method Write(bits: nat, n: nat) returns (ok: bool)
      requires Valid() && n <= 57 && bits < Pow2(n)
      modifies this, dst
      ensures Valid()
      ensures ok == (|old(written)| + n <= 8 * dst.Length)
      ensures written == if ok then old(written) + ToBits(bits, n) else old(written)
      ensures !ok ==> unchanged(this, dst)
    {
      if 8 * dst.Length - bitpos < n {
        return false;
      }
      var p := bitpos / 8;
      var shift := bitpos % 8;
      // A whole 64-bit word where one is available, else as many bytes as there are.
      var k := if dst.Length - p >= 8 then 8 else dst.Length - p;
      MergeBits(dst, p, k, shift, bits, n);
      bitpos := bitpos + n;
      written := written + ToBits(bits, n);
      return true;
    }

    /** ostream_write_bytes_aligned(): pads with the bits already there up to a byte boundary, then
        appends the bytes of src. */
    method WriteBytesAligned(src: seq<byte>) returns (ok: bool, ghost pad: seq<bool>)
      requires Valid()
      modifies this, dst
      ensures Valid()
      ensures ok == (RoundUp8(|old(written)|) + 8 * |src| <= 8 * dst.Length)
      ensures ok ==> |pad| == RoundUp8(|old(written)|) - |old(written)|
                     && written == old(written) + pad + BytesToBits(src)
      ensures !ok ==> unchanged(this, dst)
    {
      if 8 * dst.Length - RoundUp8(bitpos) < 8 * |src| {
        return false, [];
      }
      ghost var before, pos := dst[..], bitpos;
      bitpos := RoundUp8(bitpos);
      var p := bitpos / 8;
      CopyBytes(dst, p, src);
      bitpos := bitpos + 8 * |src|;
      AlignedAppend(before, pos, p, src);
      ok, pad := true, BytesToBits(before)[pos..8 * p];
      written := written + pad + BytesToBits(src);
    }
  }

  /** Merging a word between the bytes a and c appends n bits at bit shift of the word; no bit is
      shifted out. */
  lemma Appended(a: seq<byte>, word: seq<byte>, c: seq<byte>, shift: nat, bits: nat, n: nat, x: nat)
    requires bits < Pow2(n) && shift + n <= 8 * |word|
    requires x == Lsb(LeValue(word), shift) + Pow2(shift) * bits
    ensures x < Pow2(8 * |word|)
    ensures BytesToBits(a + LeBytes(x, |word|) + c)[..8 * |a| + shift + n]
         == BytesToBits(a + word + c)[..8 * |a| + shift] + ToBits(bits, n)
  {
    MergeWord(word, shift, bits, n, x);
    Respell(a, word, c, LeBytes(x, |word|), shift, ToBits(bits, n));
  }

  lemma Respell(a: seq<byte>, word: seq<byte>, c: seq<byte>, merged: seq<byte>, shift: nat, v: seq<bool>)
    requires |merged| == |word| && shift + |v| <= 8 * |word|
    requires BytesToBits(merged) == BytesToBits(word)[..shift] + v + Zeros(8 * |word| - shift - |v|)
    ensures BytesToBits(a + merged + c)[..8 * |a| + shift + |v|]
         == BytesToBits(a + word + c)[..8 * |a| + shift] + v
  {
    Splice(a, merged, c);
    Splice(a, word, c);
    Grown(BytesToBits(a), BytesToBits(word), BytesToBits(c), shift, v, Zeros(8 * |word| - shift - |v|));
  }

  lemma Grown<T>(a: seq<T>, word: seq<T>, c: seq<T>, shift: nat, v: seq<T>, z: seq<T>)
    requires shift <= |word|
    ensures (a + (word[..shift] + v + z) + c)[..|a| + shift + |v|] == (a + word + c)[..|a| + shift] + v
  {
    var merged := word[..shift] + v + z;
    assert (a + merged + c)[..|a| + shift + |v|] == a + (word[..shift] + v);
    assert (a + word + c)[..|a| + shift] == a + word[..shift];
  }

  lemma AlignedAppend(before: seq<byte>, pos: nat, p: nat, src: seq<byte>)
    requires pos <= 8 * p && p + |src| <= |before|
    ensures BytesToBits(before[..p] + src + before[p + |src|..])[..8 * p + 8 * |src|]
         == BytesToBits(before)[..pos] + BytesToBits(before)[pos..8 * p] + BytesToBits(src)
  {
    Splice(before[..p], src, before[p + |src|..]);
    BytesToBitsSplit(before, p);
    PrefixCut(BytesToBits(before), pos, 8 * p);
  }

  lemma PrefixCut<T>(s: seq<T>, i: nat, j: nat)
    requires i <= j <= |s|
    ensures s[..j] == s[..i] + s[i..j]
  {
  }

  /** A byte string cut in three. */
  lemma Cut(s: seq<byte>, p: nat, k: nat)
    requires p + k <= |s|
    ensures s == s[..p] + s[p..p + k] + s[p + k..]
  {
  }

  lemma Splice(a: seq<byte>, b: seq<byte>, c: seq<byte>)
    ensures BytesToBits(a + b + c) == BytesToBits(a) + BytesToBits(b) + BytesToBits(c)
  {
    BytesToBitsConcat(a, b);
    BytesToBitsConcat(a + b, c);
  }

  // ---------------------------------------------------------------- input

  class IStream {
    const src: seq<byte>
    var bitpos: nat

    ghost predicate Valid()
      reads this
    {
      bitpos <= 8 * |src|
    }

    /** The bits not read yet. */
    ghost function Rest(): (b: seq<bool>)
      requires Valid()
      reads this
      ensures |b| == 8 * |src| - bitpos
    {
      BytesToBits(src)[bitpos..]
    }

    /** istream_init() */
    constructor (src: seq<byte>)
      ensures Valid() && this.src == src && bitpos == 0 && Rest() == BytesToBits(src)
    {
      this.src := src;
      bitpos := 0;
    }

    /** istream_bytes_read() */
    function BytesRead(): nat
      reads this
    {
      RoundUp8(bitpos) / 8
    }

    /** istream_bits(): at least 57 of the next bits, or all that are left. */
    method PeekBits() returns (bits: nat)
      requires Valid()
      ensures bits == Window(Rest(), 64 - bitpos % 8)
    {
      var next := bitpos / 8;
      // A whole 64-bit word where one is available, else as many bytes as there are.
      var k := if |src| - next >= 8 then 8 else |src| - next;
      bits := 0;
      var i := 0;
      while i < k
        invariant i <= k
        invariant bits == LeValue(src[next..next + i])
      {
        LeValueSnoc(src[next..next + i], src[next + i]);
        assert src[next..next + i + 1] == src[next..next + i] + [src[next + i]];
        bits := bits + Pow2(8 * i) * src[next + i];
        i := i + 1;
      }
      WordWindow(src, next, k, bitpos % 8);
      bits := Shr(bits, bitpos % 8);
    }

    /** istream_advance() */
    method Advance(n: nat) returns (ok: bool)
      requires Valid()
      modifies this`bitpos
      ensures Valid()
      ensures ok == (n <= |old(Rest())|)
      ensures ok ==> bitpos == old(bitpos) + n && Rest() == old(Rest())[n..]
      ensures !ok ==> bitpos == old(bitpos)
    {
      if 8 * |src| - bitpos < n {
        return false;
      }
      bitpos := bitpos + n;
      return true;
    }

    /** istream_byte_align(); the result is the index of the next whole byte. */
    method ByteAlign() returns (next: nat)
      requires Valid()
      modifies this`bitpos
      ensures Valid() && next <= |src| && bitpos == 8 * next == RoundUp8(old(bitpos))
      ensures Rest() == old(Rest())[RoundUp8(old(bitpos)) - old(bitpos)..]
    {
      bitpos := RoundUp8(bitpos);
      next := bitpos / 8;
    }
  }

  /** The number shown by the first n bits of a stream; a stream that ends early is zero-padded. */
  ghost function Window(rest: seq<bool>, n: nat): nat {
    FromBits(if |rest| < n then rest else rest[..n])
  }

  /** The word of k bytes at byte next, shifted down, is the window at bit 8 * next + shift. */
  lemma WordWindow(src: seq<byte>, next: nat, k: nat, shift: nat)
    requires next + k <= |src| && k == if |src| - next >= 8 then 8 else |src| - next
    requires shift < 8 && 8 * next + shift <= 8 * |src|
    ensures Shr(LeValue(src[next..next + k]), shift)
         == Window(BytesToBits(src)[8 * next + shift..], 64 - shift)
  {
    hide LeValue, Shr, BytesToBits, FromBits;
    var word := src[next..next + k];
    LeValueIsFromBits(word);
    FromBitsSplit(BytesToBits(word), shift);
    Cut(src, next, k);
    Splice(src[..next], word, src[next + k..]);
    Shown(BytesToBits(src[..next]), BytesToBits(word), BytesToBits(src[next + k..]), shift);
  }

  lemma Shown<T>(a: seq<T>, word: seq<T>, c: seq<T>, shift: nat)
    requires shift <= |word| && (|word| == 64 || (|word| < 64 && c == []))
    ensures var rest := (a + word + c)[|a| + shift..];
            word[shift..] == if |rest| < 64 - shift then rest else rest[..64 - shift]
  {
    assert (a + word + c)[|a| + shift..] == word[shift..] + c;
  }

  /** Taking the n low bits of a window reads the next n bits of the stream. */
  lemma WindowRead(rest: seq<bool>, w: nat, n: nat)
    requires n <= w
    ensures n <= |rest| ==> Lsb(Window(rest, w), n) == FromBits(rest[..n])
    ensures Lsb(Window(rest, w), n) < Pow2(n)
    ensures n <= |rest| ==> Shr(Window(rest, w), n) == Window(rest[n..], w - n)
  {
    var shown := if |rest| < w then rest else rest[..w];
    LsbBits(FromBits(shown), n);
    FromBitsBound(ToBits(FromBits(shown), n));
    if n <= |rest| {
      FromBitsSplit(shown, n);
      assert shown[..n] == rest[..n];
      assert shown[n..] == if |rest[n..]| < w - n then rest[n..] else rest[n..][..w - n];
    }
  }

  /** What a stream shows is what it would show with zeros after its end. */
  lemma WindowPadded(rest: seq<bool>, w: nat, k: nat)
    ensures Window(rest, w) == Window(rest + Zeros(k), w)
  {
    if |rest| < w {
      var n := Min(k, w - |rest|);
      FromBitsPadded(rest, n);
      var shown := if |rest + Zeros(k)| < w then rest + Zeros(k) else (rest + Zeros(k))[..w];
      assert shown == rest + Zeros(n);
    } else {
      assert (rest + Zeros(k))[..w] == rest[..w];
    }
  }

  /** Takes the next n bits from a window of p. */
  method TakeBits(bits: nat, n: nat, ghost p: seq<bool>, ghost w: nat) returns (v: nat, after: nat)
    requires bits == Window(p, w) && n <= w && n <= |p|
    ensures v == FromBits(p[..n]) && after == Window(p[n..], w - n)
  {
    hide Lsb, Shr, Window;
    WindowRead(p, w, n);
    v := Lsb(bits, n);
    after := Shr(bits, n);
  }

  /** Reads n bits, or fails at the end of the stream. */
  method ReadBits(input: IStream, n: nat) returns (ok: bool, v: nat)
    requires input.Valid() && n <= 57
    modifies input`bitpos
    ensures input.Valid() && ok == (n <= |old(input.Rest())|)
    ensures ok ==> v == FromBits(old(input.Rest())[..n]) && input.Rest() == old(input.Rest())[n..]
  {
    var bits := input.PeekBits();
    WindowRead(input.Rest(), 64 - input.bitpos % 8, n);
    v := Lsb(bits, n);
    ok := input.Advance(n);
  }
}
