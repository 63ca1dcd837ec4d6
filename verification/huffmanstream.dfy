/** Decoding a symbol from the bits shown by istream_bits(), which are zero-padded at the end of the
    stream, as all decompressors of hwzip do. */
module HuffmanStream {
  import opened Bits
  import opened Bitstream
  import opened Huffman
  import opened HuffmanDecoder

  lemma WindowBits(p: seq<bool>, w: nat, n: nat)
    requires n <= w && n <= |p|
    ensures ToBits(Lsb(Window(p, w), n), n) == p[..n]
  {
    WindowRead(p, w, n);
    ToFromBits(p[..n]);
  }

  lemma {:induction false} FindSymbolShort(lengths: seq<nat>, p: seq<bool>, n: nat)
    requires LengthsOk(lengths) && n <= |lengths| && |p| >= MAX_BITS
    ensures FindSymbol(lengths, p[..MAX_BITS], n) == FindSymbol(lengths, p, n)
  {
    hide Codeword;
    if n > 0 {
      FindSymbolShort(lengths, p, n - 1);
      PrefixOfTake(Codeword(lengths, n - 1), p, MAX_BITS);
    }
  }

  lemma PrefixOfTake(c: seq<bool>, p: seq<bool>, n: nat)
    requires |c| <= n <= |p|
    ensures c <= p[..n] <==> c <= p
  {
    if c <= p {
      assert c == p[..|c|] == p[..n][..|c|];
    }
    if c <= p[..n] {
      assert c == p[..n][..|c|] == p[..|c|];
    }
  }

  /** Decodes a symbol from the low 16 bits of a window of p. */
  method DecodeWindow(d: Decoder, bits: nat, ghost p: seq<bool>, ghost w: nat, ghost lengths: seq<nat>)
    returns (sym: int, used: nat)
    requires d.For(lengths) && Fits(lengths) && bits == Window(p, w) && MAX_BITS <= w && MAX_BITS <= |p|
    ensures used <= MAX_BITS && Shr(bits, used) == Window(p[used..], w - used)
    ensures match Huffman.Decode(lengths, p)
            case NoSymbol => sym == -1 && used == 0
            case Symbol(s, rest) => sym == s && used == lengths[s] && rest == p[used..]
  {
    hide Fits, Lsb, Shr, Window, ToBits, FindSymbol, TableOk, SymsOk, SentinelsOk, OffsetsOk, Accepted;
    WindowRead(p, w, MAX_BITS);
    WindowBits(p, w, MAX_BITS);
    FindSymbolShort(lengths, p, |lengths|);
    sym, used := d.Decode(Lsb(bits, MAX_BITS), lengths);
    WindowRead(p, w, used);
  }

  /** Decoding from a stream with zeros after it gives what decoding from the stream gives, unless it
      needs those zeros. */
  lemma DecodePadded(lengths: seq<nat>, b: seq<bool>, z: seq<bool>)
    requires LengthsOk(lengths) && Fits(lengths)
    ensures match Huffman.Decode(lengths, b + z)
            case NoSymbol => Huffman.Decode(lengths, b) == NoSymbol
            case Symbol(s, rest) =>
              if lengths[s] <= |b| then Huffman.Decode(lengths, b) == Symbol(s, b[lengths[s]..]) && rest == b[lengths[s]..] + z
              else Huffman.Decode(lengths, b) == NoSymbol
  {
    hide Codeword, Fits, LengthsOk;
    AboutFindSymbol(lengths, b, |lengths|);
    AboutFindSymbol(lengths, b + z, |lengths|);
    var s := FindSymbol(lengths, b, |lengths|);
    if s >= 0 {
      PrefixKept(Codeword(lengths, s), b, z);
      DecodeIs(lengths, b + z, s);
    } else {
      var t := FindSymbol(lengths, b + z, |lengths|);
      if t >= 0 && lengths[t] <= |b| {
        BeginsBefore(lengths, t, b, z);
      }
    }
  }

  lemma BeginsBefore(lengths: seq<nat>, t: nat, b: seq<bool>, z: seq<bool>)
    requires Begins(lengths, t, b + z) && lengths[t] <= |b|
    ensures Begins(lengths, t, b)
  {
    hide Codeword;
    assert (b + z)[..lengths[t]] == b[..lengths[t]];
  }

  lemma PrefixKept(c: seq<bool>, b: seq<bool>, z: seq<bool>)
    requires c <= b
    ensures c <= b + z && (b + z)[|c|..] == b[|c|..] + z
  {
    assert (b + z)[..|c|] == b[..|c|];
  }
}
