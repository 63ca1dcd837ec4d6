/** Bytes, bit strings and the little-endian arithmetic of hwzip/bits.h.

    A bit string is a `seq<bool>`, least significant bit first.  The shifts, masks and disjoint ORs
    of the C code are written as products, remainders, quotients and sums of powers of two. */
module Bits {

  type byte = x: int | 0 <= x < 256

  /** An unsigned integer of the C type uint16_t. */
  type uint16 = x: int | 0 <= x < 0x1_0000

  function Pow2(n: nat): (r: nat)
    ensures r >= 1
  {
    if n == 0 then 1 else 2 * Pow2(n - 1)
  }

  function Min(a: nat, b: nat): nat {
    if a < b then a else b
  }

  function BitValue(b: bool): nat {
    if b then 1 else 0
  }

  /** The n least significant bits of v, least significant first. */
  function ToBits(v: nat, n: nat): (b: seq<bool>)
    ensures |b| == n
  {
    if n == 0 then [] else [v % 2 == 1] + ToBits(v / 2, n - 1)
  }

  /** The number a bit string stands for. */
  function FromBits(b: seq<bool>): nat {
    if b == [] then 0 else BitValue(b[0]) + 2 * FromBits(b[1..])
  }

  function Zeros(n: nat): (z: seq<bool>)
    ensures |z| == n
  {
    seq(n, _ => false)
  }

  /** The bits of a byte string: the LSB-first reading order of every stream in the library. */
  function BytesToBits(s: seq<byte>): (b: seq<bool>)
    ensures |b| == 8 * |s|
  {
    if s == [] then [] else ToBits(s[0], 8) + BytesToBits(s[1..])
  }

  /** lsb(): the n least significant bits of x, as a number. */
  function Lsb(x: nat, n: nat): nat {
    if n == 0 then 0 else x % 2 + 2 * Lsb(x / 2, n - 1)
  }

  /** x >> n. */
  function Shr(x: nat, n: nat): nat {
    if n == 0 then x else Shr(x / 2, n - 1)
  }

  /** x << n. */
  function Shl(x: nat, n: nat): nat {
    Pow2(n) * x
  }

  /** round_up() to a multiple of 8. */
  function RoundUp8(x: nat): (r: nat)
    ensures r % 8 == 0 && x <= r < x + 8
  {
    (x + 7) / 8 * 8
  }

  /** read16le() of the bytes at i. */
  function Read16le(s: seq<byte>, i: nat): nat
    requires i + 2 <= |s|
  {
    var lo: int, hi: int := s[i], s[i + 1];
    lo + 256 * hi
  }

  /** The little-endian number in a byte string: what the byte-by-byte loops and read64le() compute. */
  function LeValue(s: seq<byte>): nat {
    if s == [] then 0 else s[0] + 256 * LeValue(s[1..])
  }

  /** The k low bytes of x in little-endian order: what the byte loops and write64le() store. */
  function LeBytes(x: nat, k: nat): (s: seq<byte>)
    ensures |s| == k
  {
    if k == 0 then [] else [x % 256] + LeBytes(x / 256, k - 1)
  }

  // ---------------------------------------------------------------- powers of two

  lemma MulAssoc(a: int, b: int, c: int)
    ensures a * (b * c) == (a * b) * c
  {
  }

  lemma Distribute(a: nat, b: nat, c: nat)
    ensures a * (b + c) == a * b + a * c
  {
  }

  lemma {:induction false} Pow2Add(m: nat, n: nat)
    ensures Pow2(m + n) == Pow2(m) * Pow2(n)
  {
    if m > 0 {
      Pow2Add(m - 1, n);
      MulAssoc(2, Pow2(m - 1), Pow2(n));
    }
  }

  lemma {:induction false} Pow2Mono(m: nat, n: nat)
    requires m <= n
    ensures Pow2(m) <= Pow2(n)
  {
    if m < n {
      Pow2Mono(m, n - 1);
    }
  }

  lemma Pow2Small()
    ensures Pow2(1) == 2 && Pow2(3) == 8 && Pow2(4) == 16 && Pow2(5) == 32 && Pow2(6) == 64
    ensures Pow2(7) == 128 && Pow2(8) == 256 && Pow2(9) == 512
  {
    assert Pow2(4) == 16;
  }

  lemma Pow2Word()
    ensures Pow2(8) == 0x100 && Pow2(15) == 0x8000 && Pow2(16) == 0x1_0000
  {
    assert Pow2(8) == 0x100;
    Pow2Add(8, 8);
    assert Pow2(16) == 2 * Pow2(15);
  }

  // ---------------------------------------------------------------- bit strings and numbers

  lemma {:induction false} FromBitsBound(b: seq<bool>)
    ensures FromBits(b) < Pow2(|b|)
  {
    if b != [] {
      FromBitsBound(b[1..]);
    }
  }

  lemma {:induction false} FromToBits(v: nat, n: nat)
    requires v < Pow2(n)
    ensures FromBits(ToBits(v, n)) == v
  {
    if n > 0 {
      FromToBits(v / 2, n - 1);
      assert ToBits(v, n)[1..] == ToBits(v / 2, n - 1);
    }
  }

  lemma {:induction false} ToFromBits(b: seq<bool>)
    ensures ToBits(FromBits(b), |b|) == b
  {
    if b != [] {
      ToFromBits(b[1..]);
      var v := FromBits(b);
      assert v / 2 == FromBits(b[1..]);
      assert b == [b[0]] + b[1..];
    }
  }

  lemma {:induction false} FromBitsConcat(a: seq<bool>, b: seq<bool>)
    ensures FromBits(a + b) == FromBits(a) + Pow2(|a|) * FromBits(b)
  {
    if a == [] {
      assert a + b == b;
    } else {
      FromBitsConcat(a[1..], b);
      assert (a + b)[1..] == a[1..] + b;
      MulAssoc(2, Pow2(|a| - 1), FromBits(b));
    }
  }

  /** Masking and shifting a number cuts its bit string in two. */
  lemma {:induction false} FromBitsSplit(b: seq<bool>, n: nat)
    requires n <= |b|
    ensures Lsb(FromBits(b), n) == FromBits(b[..n])
    ensures Shr(FromBits(b), n) == FromBits(b[n..])
  {
    if n > 0 {
      FromBitsSplit(b[1..], n - 1);
      assert b[..n][1..] == b[1..][..n - 1];
      assert b[n..] == b[1..][n - 1..];
    }
  }

  lemma {:induction false} FromZeros(n: nat)
    ensures FromBits(Zeros(n)) == 0
  {
    if n > 0 {
      FromZeros(n - 1);
      assert Zeros(n)[1..] == Zeros(n - 1);
    }
  }

  lemma FromBitsPadded(b: seq<bool>, n: nat)
    ensures FromBits(b + Zeros(n)) == FromBits(b)
  {
    FromBitsConcat(b, Zeros(n));
    FromZeros(n);
  }

  /** Writing a number with room to spare pads its bit string with zeros. */
  lemma ToBitsPadded(b: seq<bool>, n: nat)
    requires |b| <= n
    ensures ToBits(FromBits(b), n) == b + Zeros(n - |b|)
  {
    FromBitsPadded(b, n - |b|);
    ToFromBits(b + Zeros(n - |b|));
  }

  // ---------------------------------------------------------------- bytes

  lemma {:induction false} BytesToBitsConcat(s: seq<byte>, t: seq<byte>)
    ensures BytesToBits(s + t) == BytesToBits(s) + BytesToBits(t)
  {
    if s == [] {
      assert s + t == t;
    } else {
      BytesToBitsConcat(s[1..], t);
      var h := ToBits(s[0], 8);
      calc {
        BytesToBits(s + t);
        { assert (s + t)[1..] == s[1..] + t; }
        h + (BytesToBits(s[1..]) + BytesToBits(t));
        (h + BytesToBits(s[1..])) + BytesToBits(t);
      }
    }
  }

  lemma BytesToBitsSplit(s: seq<byte>, i: nat)
    requires i <= |s|
    ensures BytesToBits(s[..i]) == BytesToBits(s)[..8 * i]
    ensures BytesToBits(s[i..]) == BytesToBits(s)[8 * i..]
  {
    assert s == s[..i] + s[i..];
    BytesToBitsConcat(s[..i], s[i..]);
  }

  lemma {:induction false} LeValueIsFromBits(s: seq<byte>)
    ensures LeValue(s) == FromBits(BytesToBits(s))
  {
    if s != [] {
      LeValueIsFromBits(s[1..]);
      FromBitsConcat(ToBits(s[0], 8), BytesToBits(s[1..]));
      assert Pow2(8) == 256;
      FromToBits(s[0], 8);
    }
  }

  lemma {:induction false} ToBitsSplit(r: nat, q: nat, m: nat, n: nat)
    requires r < Pow2(m)
    ensures ToBits(r + Pow2(m) * q, m + n) == ToBits(r, m) + ToBits(q, n)
    decreases m
  {
    if m > 0 {
      ToBitsSplit(r / 2, q, m - 1, n);
      var x := r + Pow2(m) * q;
      MulAssoc(2, Pow2(m - 1), q);
      assert x / 2 == r / 2 + Pow2(m - 1) * q && x % 2 == r % 2;
      assert ToBits(x / 2, m + n - 1) == ToBits(r / 2, m - 1) + ToBits(q, n);
      assert ToBits(x, m + n) == [x % 2 == 1] + ToBits(x / 2, m + n - 1);
    }
  }

  lemma {:induction false} LeBytesBits(x: nat, k: nat)
    ensures BytesToBits(LeBytes(x, k)) == ToBits(x, 8 * k)
  {
    if k > 0 {
      LeBytesBits(x / 256, k - 1);
      assert Pow2(8) == 256;
      ToBitsSplit(x % 256, x / 256, 8, 8 * (k - 1));
      assert LeBytes(x, k)[1..] == LeBytes(x / 256, k - 1);
    }
  }

  /** Appending a most significant byte. */
  lemma {:induction false} LeValueSnoc(s: seq<byte>, b: byte)
    ensures LeValue(s + [b]) == LeValue(s) + Pow2(8 * |s|) * b
  {
    if s != [] {
      LeValueSnoc(s[1..], b);
      assert (s + [b])[1..] == s[1..] + [b];
      assert Pow2(8) == 256;
      Pow2Add(8, 8 * |s[1..]|);
      MulAssoc(256, Pow2(8 * |s[1..]|), b);
    } else {
      assert s + [b] == [b];
      assert LeValue([b]) == b + 256 * LeValue([]);
    }
  }

  /** Byte i of a little-endian number. */
  lemma {:induction false} LeBytesAt(x: nat, k: nat, i: nat)
    requires i < k
    ensures LeBytes(x, k)[i] == Shr(x, 8 * i) % 256
  {
    if i > 0 {
      LeBytesAt(x / 256, k - 1, i - 1);
      ShrByte(x);
      ShrShr(x, 8, 8 * (i - 1));
    }
  }

  lemma ShrNibble(x: nat)
    ensures Shr(x, 4) == x / 16
  {
    assert Shr(x, 4) == Shr(x / 2, 3) == Shr(x / 4, 2) == Shr(x / 8, 1) == Shr(x / 16, 0);
  }

  lemma ShrByte(x: nat)
    ensures Shr(x, 8) == x / 256
  {
    ShrShr(x, 4, 4);
    ShrNibble(x);
    ShrNibble(x / 16);
  }

  lemma {:induction false} ShrShr(x: nat, m: nat, n: nat)
    ensures Shr(Shr(x, m), n) == Shr(x, m + n)
  {
    if m > 0 {
      ShrShr(x / 2, m - 1, n);
    }
  }

  lemma {:induction false} LsbBits(x: nat, n: nat)
    ensures Lsb(x, n) == FromBits(ToBits(x, n))
  {
    if n > 0 {
      LsbBits(x / 2, n - 1);
      assert ToBits(x, n)[1..] == ToBits(x / 2, n - 1);
    }
  }

  /** A number is cut in two by masking and shifting, and put together again. */
  lemma {:induction false} SplitNumber(x: nat, n: nat)
    ensures x == Lsb(x, n) + Pow2(n) * Shr(x, n)
    ensures Lsb(x, n) < Pow2(n)
  {
    if n > 0 {
      SplitNumber(x / 2, n - 1);
      MulAssoc(2, Pow2(n - 1), Shr(x, n));
    }
  }

  lemma {:induction false} JoinNumber(low: nat, high: nat, n: nat)
    requires low < Pow2(n)
    ensures Lsb(low + Pow2(n) * high, n) == low
    ensures Shr(low + Pow2(n) * high, n) == high
  {
    if n > 0 {
      JoinNumber(low / 2, high, n - 1);
      MulAssoc(2, Pow2(n - 1), high);
      var x := low + Pow2(n) * high;
      assert x / 2 == low / 2 + Pow2(n - 1) * high && x % 2 == low % 2;
    }
  }

  lemma {:induction false} ShrBound(x: nat, n: nat, m: nat)
    requires n <= m && x < Pow2(m)
    ensures Shr(x, n) < Pow2(m - n)
    decreases n
  {
    if n > 0 {
      ShrBound(x / 2, n - 1, m - 1);
    }
  }

  /** Comparing with a shifted number. */
  lemma {:induction false} ShrLess(x: nat, n: nat, y: nat)
    ensures x < Pow2(n) * y <==> Shr(x, n) < y
  {
    if n > 0 {
      ShrLess(x / 2, n - 1, y);
      MulAssoc(2, Pow2(n - 1), y);
    }
  }

  lemma {:induction false} JoinBound(low: nat, k: nat, high: nat, n: nat)
    requires k <= n && low < Pow2(k) && high < Pow2(n - k)
    ensures low + Pow2(k) * high < Pow2(n)
  {
    if k > 0 {
      JoinBound(low / 2, k - 1, high, n - 1);
      MulAssoc(2, Pow2(k - 1), high);
    }
  }

  /** Putting n bits above k bits: what the encoders do with OR and shift to write several values at once. */
  lemma JoinBits(low: nat, k: nat, high: nat, n: nat)
    requires low < Pow2(k) && high < Pow2(n)
    ensures low + Shl(high, k) < Pow2(k + n)
    ensures ToBits(low + Shl(high, k), k + n) == ToBits(low, k) + ToBits(high, n)
  {
    JoinBound(low, k, high, k + n);
    ToBitsSplit(low, high, k, n);
  }

  /** One word of ostream_write(): the low shift bits are kept, n bits go above them, the rest of
      the word becomes zero and nothing is lost at the top. */
  lemma MergeWord(s: seq<byte>, shift: nat, bits: nat, n: nat, x: nat)
    requires bits < Pow2(n) && shift + n <= 8 * |s|
    requires x == Lsb(LeValue(s), shift) + Pow2(shift) * bits
    ensures x < Pow2(8 * |s|)
    ensures BytesToBits(LeBytes(x, |s|))
         == BytesToBits(s)[..shift] + ToBits(bits, n) + Zeros(8 * |s| - shift - n)
  {
    var all := BytesToBits(s)[..shift] + ToBits(bits, n);
    MergedValue(s, shift, bits, n);
    assert x == FromBits(all);
    FromBitsBound(all);
    Pow2Mono(|all|, 8 * |s|);
    LeBytesBits(x, |s|);
    ToBitsPadded(all, 8 * |s|);
  }

  lemma MergedValue(s: seq<byte>, shift: nat, bits: nat, n: nat)
    requires bits < Pow2(n) && shift <= 8 * |s|
    ensures Lsb(LeValue(s), shift) + Pow2(shift) * bits
         == FromBits(BytesToBits(s)[..shift] + ToBits(bits, n))
  {
    var low := BytesToBits(s)[..shift];
    assert Lsb(LeValue(s), shift) == FromBits(low) by {
      LeValueIsFromBits(s);
      FromBitsSplit(BytesToBits(s), shift);
    }
    assert FromBits(low + ToBits(bits, n)) == FromBits(low) + Pow2(shift) * bits by {
      FromToBits(bits, n);
      FromBitsConcat(low, ToBits(bits, n));
    }
  }
}
