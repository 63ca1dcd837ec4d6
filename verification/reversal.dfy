/** Bit strings read from the most significant bit on, and reverse16() (hwzip/bits.h, lines 12-27) with
    the table it uses (hwzip/generate_tables.c, lines 9-24). */
module Reversal {
  import opened Bits

  function Reverse(b: seq<bool>): (r: seq<bool>)
    ensures |r| == |b|
  {
    if b == [] then [] else Reverse(b[1..]) + [b[0]]
  }

  lemma {:induction false} ReverseAt(b: seq<bool>, i: nat)
    requires i < |b|
    ensures Reverse(b)[i] == b[|b| - 1 - i]
  {
    if i < |b| - 1 {
      ReverseAt(b[1..], i);
    }
  }

  lemma ReverseTwice(b: seq<bool>)
    ensures Reverse(Reverse(b)) == b
  {
    forall i | 0 <= i < |b|
      ensures Reverse(Reverse(b))[i] == b[i]
    {
      ReverseAt(Reverse(b), i);
      ReverseAt(b, |b| - 1 - i);
    }
  }

  lemma ReverseSnoc(b: seq<bool>, x: bool)
    ensures Reverse(b + [x]) == [x] + Reverse(b)
  {
    forall i | 0 <= i <= |b|
      ensures Reverse(b + [x])[i] == ([x] + Reverse(b))[i]
    {
      ReverseAt(b + [x], i);
      if i > 0 {
        ReverseAt(b, i - 1);
      }
    }
  }

  /** The number a bit string stands for, its first bit being the most significant. */
  function MsbValue(b: seq<bool>): nat {
    FromBits(Reverse(b))
  }

  function MsbBits(v: nat, n: nat): (b: seq<bool>)
    ensures |b| == n
  {
    Reverse(ToBits(v, n))
  }

  lemma MsbRound(v: nat, n: nat)
    requires v < Pow2(n)
    ensures MsbValue(MsbBits(v, n)) == v
  {
    ReverseTwice(ToBits(v, n));
    FromToBits(v, n);
  }

  lemma MsbValueRound(b: seq<bool>)
    ensures MsbBits(MsbValue(b), |b|) == b
  {
    ToFromBits(Reverse(b));
    ReverseTwice(b);
  }

  /** One bit more. */
  lemma MsbValueNext(b: seq<bool>, l: nat)
    requires l < |b|
    ensures MsbValue(b[..l + 1]) == 2 * MsbValue(b[..l]) + BitValue(b[l])
  {
    ReverseSnoc(b[..l], b[l]);
    assert b[..l + 1] == b[..l] + [b[l]];
    assert ([b[l]] + Reverse(b[..l]))[1..] == Reverse(b[..l]);
  }

  // ---------------------------------------------------------------- reversing numbers

  /** An entry of reverse8_tbl. */
  function Reverse8(x: nat): (r: nat)
    ensures r < 256
  {
    FromBitsBound(Reverse(ToBits(x, 8)));
    assert Pow2(8) == 256;
    FromBits(Reverse(ToBits(x, 8)))
  }

  /** reverse8(), which generates the table: bit i becomes bit 7 - i. */
  method MakeReverse8(x: byte) returns (res: nat)
    ensures res == Reverse8(x)
  {
    ghost var b := ToBits(x, 8);
    res := 0;
    var i := 0;
    while i < 8
      invariant i <= 8
      invariant res == Pow2(8 - i) * FromBits(Reverse(b[..i]))
    {
      ReverseSnoc(b[..i], b[i]);
      assert b[..i + 1] == b[..i] + [b[i]];
      assert ([b[i]] + Reverse(b[..i]))[1..] == Reverse(b[..i]);
      BitAt(x, 8, i);
      Doubled(8 - i, b[i], FromBits(Reverse(b[..i])));
      if Shr(x, i) % 2 == 1 {
        res := res + Pow2(8 - 1 - i);
      }
      i := i + 1;
    }
    assert b[..8] == b;
  }

  lemma {:induction false} BitAt(x: nat, n: nat, i: nat)
    requires i < n
    ensures ToBits(x, n)[i] == (Shr(x, i) % 2 == 1)
  {
    if i > 0 {
      BitAt(x / 2, n - 1, i - 1);
    }
  }

  lemma Doubled(k: nat, b: bool, v: nat)
    requires k > 0
    ensures Pow2(k - 1) * (BitValue(b) + 2 * v) == Pow2(k) * v + if b then Pow2(k - 1) else 0
  {
    MulAssoc(Pow2(k - 1), 2, v);
  }

  /** reverse16() */
  function Reverse16(x: nat, n: nat): nat
    requires n <= 16
  {
    Shr(Pow2(8) * Reverse8(x % 256) + Reverse8(x / 256), 16 - n)
  }

  lemma {:induction false} ReverseConcat(a: seq<bool>, b: seq<bool>)
    ensures Reverse(a + b) == Reverse(b) + Reverse(a)
  {
    if a == [] {
      assert a + b == b && Reverse(b) + [] == Reverse(b);
    } else {
      ReverseConcat(a[1..], b);
      assert (a + b)[1..] == a[1..] + b;
    }
  }

  /** The bits of an n-bit number are reversed, whatever n. */
  lemma Reverse16Bits(x: nat, n: nat)
    requires n <= 16 && x < Pow2(n)
    ensures Reverse16(x, n) == MsbValue(ToBits(x, n)) < Pow2(n)
    ensures ToBits(Reverse16(x, n), n) == MsbBits(x, n)
  {
    hide ToBits, FromBits, Reverse, Pow2, Shr;
    var b := ToBits(x, n);
    var all := b + Zeros(16 - n);
    WholeReversed(x);
    FromToBits(x, n);
    ToBitsPadded(b, 16);
    assert ToBits(x, 16) == all;
    ReverseConcat(b, Zeros(16 - n));
    FromBitsSplit(Reverse(all), 16 - n);
    assert Reverse(all)[16 - n..] == Reverse(b);
    FromBitsBound(Reverse(b));
    ToFromBits(Reverse(b));
  }

  lemma WholeReversed(x: nat)
    ensures Pow2(8) * Reverse8(x % 256) + Reverse8(x / 256) == FromBits(Reverse(ToBits(x, 16)))
  {
    hide Reverse;
    assert Pow2(8) == 256;
    ToBitsSplit(x % 256, x / 256, 8, 8);
    ReverseConcat(ToBits(x % 256, 8), ToBits(x / 256, 8));
    FromBitsConcat(Reverse(ToBits(x / 256, 8)), Reverse(ToBits(x % 256, 8)));
  }
}
