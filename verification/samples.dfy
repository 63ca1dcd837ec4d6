/** Reading the fields of a stream, and the order of bits and bytes in it. */
module Samples {
  import opened Bits

  /** A number that fits in the width of its field is what is read back from there. */
  lemma FieldFirst(v: nat, n: nat, more: seq<bool>)
    requires v < Pow2(n)
    ensures var bits := ToBits(v, n) + more;
            |bits| >= n && FromBits(bits[..n]) == v && bits[n..] == more
  {
    hide FromBits, ToBits, Pow2;
    FromToBits(v, n);
    assert (ToBits(v, n) + more)[..n] == ToBits(v, n);
  }

  lemma LowBit(v: nat, n: nat, b: bool, w: nat)
    requires v == BitValue(b) + 2 * w
    ensures ToBits(v, n + 1) == [b] + ToBits(w, n)
  {
  }

  /** The bits of a byte, the one of weight 1 first. */
  lemma ByteOrder(b: byte, b0: bool, b1: bool, b2: bool, b3: bool, b4: bool, b5: bool, b6: bool, b7: bool)
    requires b == BitValue(b0) + 2 * BitValue(b1) + 4 * BitValue(b2) + 8 * BitValue(b3)
                  + 16 * BitValue(b4) + 32 * BitValue(b5) + 64 * BitValue(b6) + 128 * BitValue(b7)
    ensures ToBits(b, 8) == [b0, b1, b2, b3, b4, b5, b6, b7]
  {
    hide ToBits, BitValue;
    var high := BitValue(b4) + 2 * BitValue(b5) + 4 * BitValue(b6) + 8 * BitValue(b7);
    NibbleOrder(b, 4, b0, b1, b2, b3, high);
    NibbleOrder(high, 0, b4, b5, b6, b7, 0);
    assert ToBits(0, 0) == [];
  }

  lemma NibbleOrder(v: nat, n: nat, b0: bool, b1: bool, b2: bool, b3: bool, high: nat)
    requires v == BitValue(b0) + 2 * BitValue(b1) + 4 * BitValue(b2) + 8 * BitValue(b3) + 16 * high
    ensures ToBits(v, n + 4) == [b0, b1, b2, b3] + ToBits(high, n)
  {
    hide ToBits, BitValue;
    var v3 := BitValue(b3) + 2 * high;
    var v2 := BitValue(b2) + 2 * v3;
    var v1 := BitValue(b1) + 2 * v2;
    LowBit(v, n + 3, b0, v1);
    LowBit(v1, n + 2, b1, v2);
    LowBit(v2, n + 1, b2, v3);
    LowBit(v3, n, b3, high);
  }

  /** The bits of the first byte come first. */
  lemma BytesInOrder(b: byte, s: seq<byte>)
    ensures BytesToBits([b] + s) == ToBits(b, 8) + BytesToBits(s)
  {
    assert ([b] + s)[1..] == s;
  }

  lemma NoBytes()
    ensures BytesToBits([]) == []
  {
  }

  lemma PowersOfTwo()
    ensures Pow2(0) == 1 && Pow2(1) == 2 && Pow2(2) == 4 && Pow2(3) == 8 && Pow2(4) == 16 && Pow2(5) == 32 && Pow2(6) == 64
    ensures Pow2(7) == 128 && Pow2(8) == 256 && Pow2(9) == 512 && Pow2(10) == 1024
  {
    Pow2Small();
  }
}
