/** huffman_decoder_init() and huffman_decode() (hwzip/huffman.c, lines 6-92, and hwzip/huffman.h, lines
    22-88): a lookup table for short codewords, and canonical decoding for the others. */
module HuffmanDecoder {
  import opened Bits
  import opened Reversal
  import opened Huffman

  const TABLE_BITS: nat := 8
  const TABLE_SIZE: nat := 256

  // ---------------------------------------------------------------- the tables on sequences

  /** The codewords shorter than l, that is, the index of the first symbol of length l. */
  function Before(lengths: seq<nat>, l: nat): (c: nat)
    ensures c <= |lengths|
  {
    if lengths == [] then 0
    else Before(lengths[..|lengths| - 1], l) + if 0 < lengths[|lengths| - 1] < l then 1 else 0
  }

  lemma {:induction false} BeforeNext(lengths: seq<nat>, l: nat)
    requires l > 0
    ensures Before(lengths, l + 1) == Before(lengths, l) + Count(lengths, l)
  {
    if lengths != [] {
      BeforeNext(lengths[..|lengths| - 1], l);
    }
  }

  lemma {:induction false} BeforeMonotone(lengths: seq<nat>, l: nat, m: nat)
    requires l <= m
    ensures Before(lengths, l) <= Before(lengths, m)
  {
    if lengths != [] {
      BeforeMonotone(lengths[..|lengths| - 1], l, m);
    }
  }

  /** Where a symbol is in the order of the codewords. */
  function Index(lengths: seq<nat>, s: nat): (i: nat)
    requires s < |lengths| && lengths[s] > 0
    ensures i < |lengths|
  {
    RankBelow(lengths, s);
    BeforeNext(lengths, lengths[s]);
    Before(lengths, lengths[s]) + Rank(lengths, s)
  }

  lemma IndexInjective(lengths: seq<nat>, s: nat, t: nat)
    requires s < |lengths| && t < |lengths| && lengths[s] > 0 && lengths[t] > 0 && Index(lengths, s) == Index(lengths, t)
    ensures s == t
  {
    hide Before, Count;
    RankBelow(lengths, s);
    RankBelow(lengths, t);
    BeforeNext(lengths, lengths[s]);
    BeforeNext(lengths, lengths[t]);
    if lengths[s] < lengths[t] {
      BeforeMonotone(lengths, lengths[s] + 1, lengths[t]);
    } else if lengths[t] < lengths[s] {
      BeforeMonotone(lengths, lengths[t] + 1, lengths[s]);
    } else {
      RankInjective(lengths, s, t);
    }
  }

  datatype Entry = Entry(sym: nat, len: nat)

  /** The symbol s has a codeword of at most 8 bits, which the bits of the index x begin with. */
  ghost predicate Short(lengths: seq<nat>, s: nat, x: nat) {
    s < |lengths| && 0 < lengths[s] <= TABLE_BITS && Codeword(lengths, s) <= ToBits(x, TABLE_BITS)
  }

  /** The lookup table, for the first n symbols. */
  ghost predicate TableOk(table: seq<Entry>, lengths: seq<nat>, n: nat) {
    && |table| == TABLE_SIZE
    && forall x :: 0 <= x < TABLE_SIZE ==> SlotOk(table[x], lengths, n, x)
  }

  ghost predicate SlotOk(e: Entry, lengths: seq<nat>, n: nat, x: nat) {
    && (e.len != 0 ==> e.sym < n && Short(lengths, e.sym, x) && e.len == lengths[e.sym])
    && (e.len == 0 ==> forall s :: 0 <= s < n ==> !Short(lengths, s, x))
  }

  ghost predicate SymsOk(syms: seq<nat>, lengths: seq<nat>, n: nat) {
    && |syms| == MAX_SYMBOLS && n <= |lengths| <= MAX_SYMBOLS
    && forall s :: 0 <= s < n && lengths[s] > 0 ==> syms[Index(lengths, s)] == s
  }

  /** A difference of two numbers of the C type uint16_t. */
  function Minus16(a: nat, b: nat): nat {
    (a as int - b) % 0x1_0000
  }

  /** The first codeword of length l, as it wraps around. */
  function First16(lengths: seq<nat>, l: nat): nat {
    First(lengths, l) % 0x1_0000
  }

  /** sentinel_bits: the first number of 16 bits that lies beyond the codewords of length l. */
  ghost predicate SentinelsOk(sentinel: seq<nat>, lengths: seq<nat>, n: nat) {
    && |sentinel| == MAX_BITS + 1
    && forall l :: 1 <= l <= n && l <= MAX_BITS ==>
         sentinel[l] == Shl(First16(lengths, l) + Count(lengths, l), MAX_BITS - l)
  }

  /** offset_first_sym_idx: index of the first symbol less first codeword, modulo 2^16. */
  ghost predicate OffsetsOk(offset: seq<nat>, lengths: seq<nat>, n: nat) {
    && |offset| == MAX_BITS + 1
    && forall l :: 1 <= l <= n && l <= MAX_BITS ==> offset[l] == Minus16(Before(lengths, l), First16(lengths, l))
  }

  // ---------------------------------------------------------------- acceptable lengths

  /** The check for length l, with the first codeword as it is after wrapping around at 2^16. */
  ghost predicate LengthFits(lengths: seq<nat>, l: nat) {
    Count(lengths, l) != 0 ==> First16(lengths, l) + Count(lengths, l) <= Pow2(l)
  }

  ghost predicate Accepted(lengths: seq<nat>, n: nat) {
    forall l :: 1 <= l <= n ==> LengthFits(lengths, l)
  }

  lemma {:induction false} AcceptedFits(lengths: seq<nat>, n: nat)
    requires n < MAX_BITS
    ensures Accepted(lengths, n) <==> Used(lengths, n) <= Pow2(n)
  {
    if n > 0 {
      AcceptedFits(lengths, n - 1);
      Pow2Mono(n, MAX_BITS - 1);
      Pow2Word();
      if Accepted(lengths, n) {
        assert Accepted(lengths, n - 1) && LengthFits(lengths, n);
      } else if Used(lengths, n) <= Pow2(n) {
        assert Accepted(lengths, n - 1);
        assert LengthFits(lengths, n);
      }
    }
  }

  /** Lengths are accepted if and only if the Kraft sum is at most 1, or if codewords of at most 15 bits
      use up everything: then 16-bit codewords are not noticed. */
  lemma AcceptedIff(lengths: seq<nat>)
    requires LengthsOk(lengths)
    ensures Accepted(lengths, MAX_BITS) <==> Fits(lengths) || Used(lengths, MAX_BITS - 1) == Pow2(MAX_BITS - 1)
  {
    hide Count;
    Pow2Word();
    AcceptedFits(lengths, MAX_BITS - 1);
    assert Accepted(lengths, MAX_BITS) <==> Accepted(lengths, MAX_BITS - 1) && LengthFits(lengths, MAX_BITS);
  }

  /** For codes without 16-bit codewords, such as those of Deflate, the check is exact. */
  lemma AcceptedExactly(lengths: seq<nat>)
    requires forall s :: 0 <= s < |lengths| ==> lengths[s] < MAX_BITS
    requires |lengths| <= MAX_SYMBOLS
    ensures Accepted(lengths, MAX_BITS) <==> Fits(lengths)
  {
    CountNone(lengths, MAX_BITS);
    AcceptedIff(lengths);
    assert Pow2(MAX_BITS) == 2 * Pow2(MAX_BITS - 1);
  }

  /** In general it is not: these lengths are accepted, but there is no such code. */
  lemma AcceptedTooMany(lengths: seq<nat>)
    requires lengths == [1, 1, 16]
    ensures LengthsOk(lengths) && Accepted(lengths, MAX_BITS) && !Fits(lengths)
  {
    hide Accepted, Count, Used, Pow2;
    UsedUp(lengths, MAX_BITS - 1);
    UsedNext(lengths, MAX_BITS);
    CountThree(lengths, MAX_BITS);
    AcceptedIff(lengths);
    Pow2Word();
  }

  lemma UsedNext(lengths: seq<nat>, l: nat)
    requires l > 0
    ensures Used(lengths, l) == 2 * Used(lengths, l - 1) + Count(lengths, l)
  {
  }

  lemma {:induction false} UsedUp(lengths: seq<nat>, l: nat)
    requires lengths == [1, 1, 16] && 1 <= l < MAX_BITS
    ensures Used(lengths, l) == Pow2(l)
  {
    hide Count;
    CountThree(lengths, l);
    if l > 1 {
      UsedUp(lengths, l - 1);
    }
  }

  lemma CountThree(lengths: seq<nat>, l: nat)
    requires lengths == [1, 1, 16]
    ensures Count(lengths, l) == if l == 1 then 2 else if l == 16 then 1 else 0
  {
    CountNext(lengths, 0, l);
    CountNext(lengths, 1, l);
    CountNext(lengths, 2, l);
    assert lengths[..0] == [] && lengths[..3] == lengths;
  }

  // ---------------------------------------------------------------- the lookup table

  /** In terms of the index: its low bits are the codeword, least significant bit first. */
  lemma ShortIs(lengths: seq<nat>, s: nat, c: nat, x: nat)
    requires s < |lengths| && 0 < lengths[s] <= TABLE_BITS && x < TABLE_SIZE
    requires Code(lengths, s) < Pow2(lengths[s]) && c == Reverse16(Code(lengths, s), lengths[s])
    ensures c < Pow2(lengths[s])
    ensures Short(lengths, s, x) <==> Lsb(x, lengths[s]) == c
  {
    hide Reverse16, Code;
    var l := lengths[s];
    Reverse16Bits(Code(lengths, s), l);
    LsbBits(x, l);
    ToBitsPrefix(x, l, TABLE_BITS);
    SplitNumber(x, l);
    assert Codeword(lengths, s) == ToBits(c, l);
    if ToBits(c, l) == ToBits(x, l) {
      FromToBits(c, l);
    } else if Lsb(x, l) == c {
      LsbBits(x, l);
      ToFromBits(ToBits(x, l));
    }
  }

  lemma {:induction false} ToBitsPrefix(x: nat, l: nat, n: nat)
    requires l <= n
    ensures ToBits(x, n)[..l] == ToBits(x, l)
  {
    if l > 0 {
      ToBitsPrefix(x / 2, l - 1, n - 1);
    }
  }

  /** The slots in which table_insert() has put a symbol so far. */
  ghost predicate Inserted(was: seq<Entry>, now: seq<Entry>, e: Entry, c: nat, n: nat) {
    && |was| == |now| == TABLE_SIZE
    && forall x :: 0 <= x < TABLE_SIZE ==> now[x] == if Lsb(x, e.len) == c && Shr(x, e.len) < n then e else was[x]
  }

  lemma InsertedNext(was: seq<Entry>, now: seq<Entry>, e: Entry, c: nat, n: nat)
    requires Inserted(was, now, e, c, n) && c < Pow2(e.len) && e.len <= TABLE_BITS && n < Pow2(TABLE_BITS - e.len)
    ensures c + Pow2(e.len) * n < TABLE_SIZE
    ensures Inserted(was, now[c + Pow2(e.len) * n := e], e, c, n + 1)
  {
    hide Lsb, Shr;
    var i := c + Pow2(e.len) * n;
    JoinBound(c, e.len, n, TABLE_BITS);
    JoinNumber(c, n, e.len);
    Pow2Word();
    forall x | 0 <= x < TABLE_SIZE
      ensures now[i := e][x] == if Lsb(x, e.len) == c && Shr(x, e.len) < n + 1 then e else was[x]
    {
      SplitNumber(x, e.len);
    }
  }

  lemma TableNext(was: seq<Entry>, now: seq<Entry>, lengths: seq<nat>, s: nat, c: nat)
    requires TableOk(was, lengths, s) && s < |lengths| && 0 < lengths[s] <= TABLE_BITS
    requires Used(lengths, MAX_BITS - 1) <= Pow2(MAX_BITS - 1)
    requires c == Reverse16(Code(lengths, s), lengths[s])
    requires Inserted(was, now, Entry(s, lengths[s]), c, Pow2(TABLE_BITS - lengths[s]))
    ensures TableOk(now, lengths, s + 1)
  {
    hide Used, Code, Reverse16, Lsb, Shr, Codeword, Pow2;
    CodeBelow(lengths, s, MAX_BITS - 1);
    forall x | 0 <= x < TABLE_SIZE
      ensures SlotOk(now[x], lengths, s + 1, x)
    {
      Pow2Word();
      ShrBound(x, lengths[s], TABLE_BITS);
      ShortIs(lengths, s, c, x);
      assert SlotOk(was[x], lengths, s, x);
      SlotNext(was[x], now[x], lengths, s, x);
    }
  }

  lemma SlotNext(was: Entry, now: Entry, lengths: seq<nat>, s: nat, x: nat)
    requires SlotOk(was, lengths, s, x) && s < |lengths| && 0 < lengths[s]
    requires now == if Short(lengths, s, x) then Entry(s, lengths[s]) else was
    ensures SlotOk(now, lengths, s + 1, x)
  {
  }

  // ---------------------------------------------------------------- initialisation

  /** How many codewords there are of each length; zero-length codewords are ignored. */
  ghost predicate CountsOk(count: seq<nat>, lengths: seq<nat>) {
    && |count| == MAX_BITS + 1 && count[0] == 0
    && forall l :: 1 <= l <= MAX_BITS ==> count[l] == Count(lengths, l)
  }

  method CountLengths(lengths: seq<nat>) returns (count: array<nat>)
    requires LengthsOk(lengths)
    ensures fresh(count) && CountsOk(count[..], lengths)
  {
    hide Count;
    count := new nat[MAX_BITS + 1](_ => 0);
    CountEmpty(lengths[..0]);
    var i := 0;
    while i < |lengths|
      invariant i <= |lengths|
      invariant forall l :: 0 <= l <= MAX_BITS ==> count[l] == Count(lengths[..i], l)
    {
      ghost var was := count[..];
      count[lengths[i]] := count[lengths[i]] + 1;
      forall l | 0 <= l <= MAX_BITS
        ensures count[l] == Count(lengths[..i + 1], l)
      {
        assert was[l] == Count(lengths[..i], l);
        CountNext(lengths, i, l);
      }
      i := i + 1;
    }
    assert lengths[..i] == lengths;
    count[0] := 0;
  }

  lemma CountEmpty(lengths: seq<nat>)
    requires lengths == []
    ensures forall l :: Count(lengths, l) == 0
  {
  }

  class Decoder {
    const table: array<Entry>
    const sentinelBits: array<nat>
    const offsetFirstSymIdx: array<nat>
    const syms: array<nat>

    ghost predicate Shape() {
      && table.Length == TABLE_SIZE && syms.Length == MAX_SYMBOLS
      && sentinelBits.Length == offsetFirstSymIdx.Length == MAX_BITS + 1
      && sentinelBits != offsetFirstSymIdx && sentinelBits != syms && offsetFirstSymIdx != syms
    }

    /** An object that is none of the tables. */
    ghost predicate Avoids(o: object) {
      o != table && o != sentinelBits && o != offsetFirstSymIdx && o != syms
    }

    /** The tables are those for a code with these codeword lengths. */
    ghost predicate For(lengths: seq<nat>)
      reads table, sentinelBits, offsetFirstSymIdx, syms
    {
      && Shape() && LengthsOk(lengths) && Accepted(lengths, MAX_BITS)
      && TableOk(table[..], lengths, |lengths|) && SymsOk(syms[..], lengths, |lengths|)
      && SentinelsOk(sentinelBits[..], lengths, MAX_BITS) && OffsetsOk(offsetFirstSymIdx[..], lengths, MAX_BITS)
    }

    constructor ()
      ensures Shape() && fresh(table) && fresh(sentinelBits) && fresh(offsetFirstSymIdx) && fresh(syms)
    {
      table := new Entry[TABLE_SIZE](_ => Entry(0, 0));
      sentinelBits := new nat[MAX_BITS + 1];
      offsetFirstSymIdx := new nat[MAX_BITS + 1];
      syms := new nat[MAX_SYMBOLS];
    }

    /** table_insert(): all ways of padding the codeword to 8 bits. */
    method TableInsert(sym: nat, len: nat, codeword: nat, ghost lengths: seq<nat>)
      requires Shape() && LengthsOk(lengths) && Accepted(lengths, MAX_BITS) && TableOk(table[..], lengths, sym)
      requires sym < |lengths| && 0 < len == lengths[sym] <= TABLE_BITS && codeword == Code(lengths, sym)
      modifies table
      ensures TableOk(table[..], lengths, sym + 1)
    {
      hide TableOk, Inserted, Accepted, LengthsOk, Code, Used, Reverse16, Pow2;
      ghost var was := table[..];
      var c := Reverse16(codeword, len);
      var padLen := TABLE_BITS - len;
      InsertedNone(was, lengths, sym, c);
      var padding := 0;
      while padding < Pow2(padLen)
        invariant padding <= Pow2(padLen)
        invariant Inserted(was, table[..], Entry(sym, len), c, padding)
      {
        InsertedNext(was, table[..], Entry(sym, len), c, padding);
        table[c + Pow2(len) * padding] := Entry(sym, len);
        padding := padding + 1;
      }
      TableNext(was, table[..], lengths, sym, c);
    }

    /** The second loop of huffman_decoder_init(): the first codeword of each length, if there are
        enough codewords, and what canonical decoding needs. */
    method FirstCodes(lengths: seq<nat>, count: array<nat>) returns (ok: bool, code: array<nat>, symIdx: array<nat>)
      requires Shape() && LengthsOk(lengths) && CountsOk(count[..], lengths)
      requires count != sentinelBits && count != offsetFirstSymIdx
      modifies sentinelBits, offsetFirstSymIdx
      ensures fresh(code) && fresh(symIdx) && code != symIdx
      ensures ok == Accepted(lengths, MAX_BITS)
      ensures ok ==> SentinelsOk(sentinelBits[..], lengths, MAX_BITS) && OffsetsOk(offsetFirstSymIdx[..], lengths, MAX_BITS)
      ensures ok ==> NextOk(code[..], symIdx[..], lengths, 0)
    {
      hide CountsOk, SentinelsOk, OffsetsOk, FirstsOk, Accepted, LengthFits, LengthsOk, Pow2;
      code := new nat[MAX_BITS + 1](_ => 0);
      symIdx := new nat[MAX_BITS + 1](_ => 0);
      FirstsNone(sentinelBits[..], offsetFirstSymIdx[..], code[..], symIdx[..], lengths);
      var l := 1;
      while l <= MAX_BITS
        invariant 1 <= l <= MAX_BITS + 1 && CountsOk(count[..], lengths)
        invariant FirstsOk(sentinelBits[..], offsetFirstSymIdx[..], code[..], symIdx[..], lengths, l - 1)
        invariant Accepted(lengths, l - 1)
      {
        ok := ComputeFirst(lengths, count, code, symIdx, l);
        if !ok {
          return;
        }
        l := l + 1;
      }
      FirstsDone(sentinelBits[..], offsetFirstSymIdx[..], code[..], symIdx[..], lengths);
      ok := true;
    }

    /** One turn of that loop. */
    method ComputeFirst(lengths: seq<nat>, count: array<nat>, code: array<nat>, symIdx: array<nat>, l: nat) returns (ok: bool)
      requires Shape() && LengthsOk(lengths) && CountsOk(count[..], lengths) && 1 <= l <= MAX_BITS
      requires count !in {sentinelBits, offsetFirstSymIdx, code, symIdx} && code !in {sentinelBits, offsetFirstSymIdx, symIdx}
      requires symIdx !in {sentinelBits, offsetFirstSymIdx}
      requires FirstsOk(sentinelBits[..], offsetFirstSymIdx[..], code[..], symIdx[..], lengths, l - 1) && Accepted(lengths, l - 1)
      modifies sentinelBits, offsetFirstSymIdx, code, symIdx
      ensures ok ==> FirstsOk(sentinelBits[..], offsetFirstSymIdx[..], code[..], symIdx[..], lengths, l)
      ensures if ok then Accepted(lengths, l) else !Accepted(lengths, MAX_BITS)
    {
      hide SentinelsOk, OffsetsOk, FirstsOk, CountsOk, Accepted, LengthsOk, Shl, First16, Before, Count, Minus16;
      ghost var sentinels, offsets, codes, indexes := sentinelBits[..], offsetFirstSymIdx[..], code[..], symIdx[..];
      Sizes(sentinels, offsets, codes, indexes, count[..], lengths, l - 1);
      FirstStep(sentinels, offsets, codes, indexes, count[..], lengths, l,
                (code[l - 1] + count[l - 1]) * 2 % 0x1_0000, symIdx[l - 1] + count[l - 1]);
      code[l] := (code[l - 1] + count[l - 1]) * 2 % 0x1_0000;
      AcceptedNext(lengths, l);
      if count[l] != 0 && code[l] + count[l] - 1 > Pow2(l) - 1 {
        return false;
      }
      sentinelBits[l] := Shl(code[l] + count[l], MAX_BITS - l);
      symIdx[l] := symIdx[l - 1] + count[l - 1];
      offsetFirstSymIdx[l] := Minus16(symIdx[l], code[l]);
      return true;
    }

    /** The third loop: sorts the symbols by their codewords, and fills the lookup table. */
    method Fill(lengths: seq<nat>, code: array<nat>, symIdx: array<nat>)
      requires Shape() && LengthsOk(lengths) && Accepted(lengths, MAX_BITS)
      requires NextOk(code[..], symIdx[..], lengths, 0) && TableOk(table[..], lengths, 0)
      requires code !in {syms, symIdx} && symIdx != syms
      modifies table, syms, code, symIdx
      ensures TableOk(table[..], lengths, |lengths|) && SymsOk(syms[..], lengths, |lengths|)
    {
      hide TableOk, SymsOk, NextOk, Accepted;
      SymsNone(syms[..], lengths);
      var i := 0;
      while i < |lengths|
        invariant i <= |lengths|
        invariant NextOk(code[..], symIdx[..], lengths, i) && TableOk(table[..], lengths, i) && SymsOk(syms[..], lengths, i)
      {
        Place(lengths, code, symIdx, i);
        i := i + 1;
      }
    }

    method Place(lengths: seq<nat>, code: array<nat>, symIdx: array<nat>, i: nat)
      requires Shape() && LengthsOk(lengths) && Accepted(lengths, MAX_BITS) && i < |lengths|
      requires code !in {syms, symIdx} && symIdx != syms
      requires NextOk(code[..], symIdx[..], lengths, i) && TableOk(table[..], lengths, i) && SymsOk(syms[..], lengths, i)
      modifies table, syms, code, symIdx
      ensures NextOk(code[..], symIdx[..], lengths, i + 1) && TableOk(table[..], lengths, i + 1) && SymsOk(syms[..], lengths, i + 1)
    {
      hide TableOk, SymsOk, NextOk, Accepted, Index, Code;
      var l := lengths[i];
      NextNext(code[..], symIdx[..], lengths, i);
      if l == 0 {
        Skip(table[..], syms[..], lengths, i);
        return;
      }
      SymsNext(syms[..], lengths, i);
      syms[symIdx[l]] := i;
      symIdx[l] := symIdx[l] + 1;
      if l <= TABLE_BITS {
        TableInsert(i, l, code[l], lengths);
        code[l] := (code[l] + 1) % 0x1_0000;
      } else {
        SkipLong(table[..], lengths, i);
      }
    }

    /** huffman_decoder_init(): fails exactly on lengths that do not pass its check, and else sets up the
        tables for the code. */
    method Init(lengths: seq<nat>) returns (ok: bool)
      requires Shape() && LengthsOk(lengths)
      modifies table, sentinelBits, offsetFirstSymIdx, syms
      ensures ok == Accepted(lengths, MAX_BITS)
      ensures ok ==> For(lengths)
    {
      hide TableOk, SymsOk, NextOk, Accepted, LengthsOk, CountsOk, SentinelsOk, OffsetsOk;
      var i := 0;
      while i < TABLE_SIZE
        invariant i <= TABLE_SIZE
        invariant forall k :: 0 <= k < i ==> table[k].len == 0
      {
        table[i] := table[i].(len := 0);
        i := i + 1;
      }
      TableNone(table[..], lengths);
      var count := CountLengths(lengths);
      var code, symIdx;
      ok, code, symIdx := FirstCodes(lengths, count);
      if ok {
        Fill(lengths, code, symIdx);
      }
    }

    /** huffman_decode(): exactly the symbol whose codeword the bits begin with, or -1 if there is none. */
    method Decode(bits: nat, ghost lengths: seq<nat>) returns (sym: int, usedBits: nat)
      requires For(lengths) && Fits(lengths) && bits < Pow2(MAX_BITS)
      ensures sym == FindSymbol(lengths, ToBits(bits, MAX_BITS), |lengths|)
      ensures usedBits == if sym < 0 then 0 else lengths[sym]
    {
      hide TableOk, SymsOk, Accepted, Fits, SentinelsOk, OffsetsOk, Pow2, FindSymbol, Lsb, SlotOk;
      LookupIs(table[..], lengths, bits);
      var lookupBits := Lsb(bits, TABLE_BITS);
      var e := table[lookupBits];
      if e.len != 0 {
        return e.sym, e.len;
      }
      Reverse16Bits(bits, MAX_BITS);
      sym, usedBits := DecodeLong(Reverse16(bits, MAX_BITS), lengths, ToBits(bits, MAX_BITS));
    }

    /** Canonical decoding of a codeword of more than 8 bits: bits are now most significant bit first. */
    method DecodeLong(bits: nat, ghost lengths: seq<nat>, ghost b: seq<bool>) returns (sym: int, usedBits: nat)
      requires For(lengths) && Fits(lengths) && |b| == MAX_BITS && bits == MsbValue(b)
      requires MsbValue(b[..TABLE_BITS]) >= Used(lengths, TABLE_BITS)
      ensures sym == FindSymbol(lengths, b, |lengths|)
      ensures usedBits == if sym < 0 then 0 else lengths[sym]
    {
      hide TableOk, SymsOk, Accepted, Fits, SentinelsOk, OffsetsOk, FindSymbol, Used, MsbValue, Shr, LengthsOk;
      var l := TABLE_BITS + 1;
      while l <= MAX_BITS
        invariant TABLE_BITS < l <= MAX_BITS + 1
        invariant MsbValue(b[..l - 1]) >= Used(lengths, l - 1)
      {
        LongIs(sentinelBits[..], offsetFirstSymIdx[..], syms[..], lengths, b, bits, l);
        if bits < sentinelBits[l] {
          var symIdx := (offsetFirstSymIdx[l] + Shr(bits, MAX_BITS - l)) % 0x1_0000;
          return syms[symIdx], l;
        }
        l := l + 1;
      }
      NoneBegins(lengths, b);
      return -1, 0;
    }
  }

  lemma TableBits(x: nat)
    ensures ToBits(Lsb(x, TABLE_BITS), TABLE_BITS) == ToBits(x, MAX_BITS)[..TABLE_BITS]
    ensures Lsb(x, TABLE_BITS) < TABLE_SIZE
  {
    LsbBits(x, TABLE_BITS);
    ToFromBits(ToBits(x, TABLE_BITS));
    ToBitsPrefix(x, TABLE_BITS, MAX_BITS);
    SplitNumber(x, TABLE_BITS);
    Pow2Word();
  }

  /** A slot of the lookup table decides about all codewords of up to 8 bits. */
  lemma LookupIs(table: seq<Entry>, lengths: seq<nat>, x: nat)
    requires LengthsOk(lengths) && Fits(lengths) && TableOk(table, lengths, |lengths|)
    ensures |table| == TABLE_SIZE && Lsb(x, TABLE_BITS) < TABLE_SIZE
    ensures var b, e := ToBits(x, MAX_BITS), table[Lsb(x, TABLE_BITS)];
            && (e.len != 0 ==> e.sym < |lengths| && e.len == lengths[e.sym] && e.sym == FindSymbol(lengths, b, |lengths|))
            && (e.len == 0 ==> MsbValue(b[..TABLE_BITS]) >= Used(lengths, TABLE_BITS))
  {
    hide Codeword, Fits, FindSymbol, Used, MsbValue, Lsb;
    TableBits(x);
    var b, i := ToBits(x, MAX_BITS), Lsb(x, TABLE_BITS);
    var e := table[i];
    assert SlotOk(e, lengths, |lengths|, i);
    if e.len != 0 {
      assert Begins(lengths, e.sym, b);
      DecodeIs(lengths, b, e.sym);
    } else if MsbValue(b[..TABLE_BITS]) < Used(lengths, TABLE_BITS) {
      var s := SomeBegins(lengths, b, TABLE_BITS);
      BeginsShort(lengths, s, x);
    }
  }

  lemma BeginsShort(lengths: seq<nat>, s: nat, x: nat)
    requires Begins(lengths, s, ToBits(x, MAX_BITS)) && lengths[s] <= TABLE_BITS
    ensures Short(lengths, s, Lsb(x, TABLE_BITS))
  {
    hide Codeword;
    TableBits(x);
  }

  lemma {:induction false} MsbValueBound(b: seq<bool>)
    ensures MsbValue(b) < Pow2(|b|)
  {
    FromBitsBound(Reverse(b));
  }

  /** Shifting keeps the first bits. */
  lemma MsbShift(b: seq<bool>, l: nat)
    requires l <= |b|
    ensures Shr(MsbValue(b), |b| - l) == MsbValue(b[..l])
  {
    FromBitsSplit(Reverse(b), |b| - l);
    assert b == b[..l] + b[l..];
    ReverseConcat(b[..l], b[l..]);
    assert Reverse(b)[|b| - l..] == Reverse(b[..l]);
  }

  /** One turn of canonical decoding: the sentinel tells whether there is a codeword of this length,
      and the offset leads to its symbol. */
  lemma LongIs(sentinel: seq<nat>, offset: seq<nat>, syms: seq<nat>, lengths: seq<nat>, b: seq<bool>, v: nat, l: nat)
    requires LengthsOk(lengths) && Fits(lengths) && |b| == MAX_BITS && v == MsbValue(b)
    requires TABLE_BITS < l <= MAX_BITS
    requires SentinelsOk(sentinel, lengths, MAX_BITS) && OffsetsOk(offset, lengths, MAX_BITS) && SymsOk(syms, lengths, |lengths|)
    requires MsbValue(b[..l - 1]) >= Used(lengths, l - 1)
    ensures |sentinel| == |offset| == MAX_BITS + 1 && |syms| == MAX_SYMBOLS
    ensures v >= sentinel[l] ==> MsbValue(b[..l]) >= Used(lengths, l)
    ensures v < sentinel[l] ==>
              var i := (offset[l] + Shr(v, MAX_BITS - l)) % 0x1_0000;
              i < MAX_SYMBOLS && syms[i] < |lengths| && lengths[syms[i]] == l
              && syms[i] == FindSymbol(lengths, b, |lengths|)
  {
    hide Codeword, Fits, FindSymbol, Used, MsbValue, Shr, Pow2, Index;
    MsbShift(b, l);
    assert sentinel[l] == Shl(First16(lengths, l) + Count(lengths, l), MAX_BITS - l);
    ShrLess(v, MAX_BITS - l, First16(lengths, l) + Count(lengths, l));
    NotWrapped(lengths, b, l);
    if v < sentinel[l] {
      var s := AtLength(lengths, b, l);
      DecodeIs(lengths, b, s);
      assert offset[l] == Minus16(Before(lengths, l), First16(lengths, l));
      IndexAt(lengths, s, Shr(v, MAX_BITS - l), offset[l]);
    }
  }

  lemma IndexAt(lengths: seq<nat>, s: nat, code: nat, offset: nat)
    requires LengthsOk(lengths) && s < |lengths| && lengths[s] > 0
    requires First(lengths, lengths[s]) == First16(lengths, lengths[s]) <= code
    requires Rank(lengths, s) == code - First(lengths, lengths[s])
    requires offset == Minus16(Before(lengths, lengths[s]), First16(lengths, lengths[s]))
    ensures (offset + code) % 0x1_0000 == Index(lengths, s)
  {
    hide Before, Rank, Used;
  }

  /** If no shorter codeword begins the bits, the first codeword of this length has not wrapped. */
  lemma NotWrapped(lengths: seq<nat>, b: seq<bool>, l: nat)
    requires |b| == MAX_BITS && 0 < l <= MAX_BITS && MsbValue(b[..l - 1]) >= Used(lengths, l - 1)
    ensures First(lengths, l) == First16(lengths, l) <= MsbValue(b[..l])
    ensures Used(lengths, l) == First16(lengths, l) + Count(lengths, l)
  {
    hide MsbValue, Pow2;
    MsbValueNext(b, l - 1);
    MsbValueBound(b[..l]);
    Pow2Mono(l, MAX_BITS);
    Pow2Word();
  }

  /** Bits beyond all codewords begin with none. */
  lemma NoneBegins(lengths: seq<nat>, b: seq<bool>)
    requires LengthsOk(lengths) && Fits(lengths) && |b| == MAX_BITS && MsbValue(b[..MAX_BITS]) >= Used(lengths, MAX_BITS)
    ensures FindSymbol(lengths, b, |lengths|) == -1
  {
    hide Codeword, FindSymbol, Used, MsbValue, Pow2;
    AboutFindSymbol(lengths, b, |lengths|);
    var s := FindSymbol(lengths, b, |lengths|);
    if s >= 0 {
      CodeBelow(lengths, s, MAX_BITS);
      assert b[..lengths[s]] == Codeword(lengths, s);
      StaysBelow(lengths, b, lengths[s], MAX_BITS);
    }
  }

  ghost predicate FirstsOk(sentinel: seq<nat>, offset: seq<nat>, code: seq<nat>, symIdx: seq<nat>, lengths: seq<nat>, n: nat) {
    && SentinelsOk(sentinel, lengths, n) && OffsetsOk(offset, lengths, n)
    && |code| == |symIdx| == MAX_BITS + 1
    && (forall l :: 0 <= l <= n && l <= MAX_BITS ==> code[l] == First16(lengths, l))
    && (forall l :: 0 <= l <= n && l <= MAX_BITS ==> symIdx[l] == Before(lengths, l))
  }

  lemma FirstsNone(sentinel: seq<nat>, offset: seq<nat>, code: seq<nat>, symIdx: seq<nat>, lengths: seq<nat>)
    requires |sentinel| == |offset| == |code| == |symIdx| == MAX_BITS + 1 && code[0] == symIdx[0] == 0
    ensures FirstsOk(sentinel, offset, code, symIdx, lengths, 0) && Accepted(lengths, 0)
  {
    BeforeNone(lengths, 0);
  }

  lemma {:induction false} BeforeNone(lengths: seq<nat>, l: nat)
    requires l <= 1
    ensures Before(lengths, l) == 0
  {
    if lengths != [] {
      BeforeNone(lengths[..|lengths| - 1], l);
    }
  }

  lemma FirstNext(lengths: seq<nat>, count: seq<nat>, l: nat)
    requires CountsOk(count, lengths) && 1 <= l <= MAX_BITS
    ensures First16(lengths, l) == (First16(lengths, l - 1) + count[l - 1]) * 2 % 0x1_0000
    ensures Before(lengths, l) == Before(lengths, l - 1) + count[l - 1]
  {
    hide Count;
    if l == 1 {
      BeforeNone(lengths, 0);
      BeforeNone(lengths, 1);
    } else {
      BeforeNext(lengths, l - 1);
    }
  }

  lemma FirstStep(sentinel: seq<nat>, offset: seq<nat>, code: seq<nat>, symIdx: seq<nat>, count: seq<nat>, lengths: seq<nat>,
                  l: nat, c: nat, s: nat)
    requires 1 <= l <= MAX_BITS && FirstsOk(sentinel, offset, code, symIdx, lengths, l - 1) && CountsOk(count, lengths)
    requires |code| == |symIdx| == |count| == MAX_BITS + 1
    requires c == (code[l - 1] + count[l - 1]) * 2 % 0x1_0000 && s == symIdx[l - 1] + count[l - 1]
    ensures |sentinel| == |offset| == MAX_BITS + 1 && c == First16(lengths, l) && count[l] == Count(lengths, l)
    ensures FirstsOk(sentinel[l := Shl(c + count[l], MAX_BITS - l)], offset[l := Minus16(s, c)],
                     code[l := c], symIdx[l := s], lengths, l)
  {
    hide First16, Before, Count, Shl, Minus16;
    FirstNext(lengths, count, l);
  }

  lemma Sizes(sentinel: seq<nat>, offset: seq<nat>, code: seq<nat>, symIdx: seq<nat>, count: seq<nat>, lengths: seq<nat>, n: nat)
    requires FirstsOk(sentinel, offset, code, symIdx, lengths, n) && CountsOk(count, lengths)
    ensures |sentinel| == |offset| == |code| == |symIdx| == |count| == MAX_BITS + 1
  {
  }

  lemma AcceptedNext(lengths: seq<nat>, l: nat)
    requires 1 <= l <= MAX_BITS && Accepted(lengths, l - 1)
    ensures LengthFits(lengths, l) ==> Accepted(lengths, l)
    ensures !LengthFits(lengths, l) ==> !Accepted(lengths, MAX_BITS)
  {
    hide LengthFits;
  }

  /** Where the next symbol of each length goes, and its codeword if it is short. */
  ghost predicate NextOk(code: seq<nat>, symIdx: seq<nat>, lengths: seq<nat>, i: nat) {
    && |code| == |symIdx| == MAX_BITS + 1 && i <= |lengths|
    && (forall l :: 1 <= l <= MAX_BITS ==> symIdx[l] == Before(lengths, l) + Count(lengths[..i], l))
    && (forall l :: 1 <= l <= TABLE_BITS ==> code[l] == First(lengths, l) + Count(lengths[..i], l))
  }

  lemma FirstsDone(sentinel: seq<nat>, offset: seq<nat>, code: seq<nat>, symIdx: seq<nat>, lengths: seq<nat>)
    requires FirstsOk(sentinel, offset, code, symIdx, lengths, MAX_BITS) && Accepted(lengths, MAX_BITS)
    ensures SentinelsOk(sentinel, lengths, MAX_BITS) && OffsetsOk(offset, lengths, MAX_BITS)
    ensures NextOk(code, symIdx, lengths, 0)
  {
    hide LengthFits, Before, Used, Pow2, SentinelsOk, OffsetsOk;
    CountEmpty(lengths[..0]);
    forall l | 1 <= l <= TABLE_BITS
      ensures code[l] == First(lengths, l)
    {
      assert code[l] == First16(lengths, l);
      FirstFits(lengths, l);
    }
  }

  lemma FirstFits(lengths: seq<nat>, l: nat)
    requires Accepted(lengths, MAX_BITS) && 1 <= l < MAX_BITS
    ensures First(lengths, l) < 0x1_0000
  {
    hide LengthFits, Used, Pow2;
    assert Accepted(lengths, l - 1);
    AcceptedFits(lengths, l - 1);
    Pow2Mono(l - 1, MAX_BITS - 2);
    Pow2Word();
    assert Pow2(MAX_BITS - 2) < 0x8000 by { Pow2Less(MAX_BITS - 1); }
  }

  lemma Pow2Less(n: nat)
    requires n > 0
    ensures Pow2(n - 1) < Pow2(n)
  {
  }

  lemma NextNext(code: seq<nat>, symIdx: seq<nat>, lengths: seq<nat>, i: nat)
    requires NextOk(code, symIdx, lengths, i) && i < |lengths| && LengthsOk(lengths) && Accepted(lengths, MAX_BITS)
    ensures |code| == |symIdx| == MAX_BITS + 1
    ensures var l := lengths[i];
            && (l == 0 ==> NextOk(code, symIdx, lengths, i + 1))
            && (l > 0 ==> symIdx[l] == Index(lengths, i) && symIdx[l] < MAX_SYMBOLS)
            && (0 < l <= TABLE_BITS ==>
                  && code[l] == Code(lengths, i) && (code[l] + 1) % 0x1_0000 == code[l] + 1
                  && NextOk(code[l := code[l] + 1], symIdx[l := symIdx[l] + 1], lengths, i + 1))
            && (l > TABLE_BITS ==> NextOk(code, symIdx[l := symIdx[l] + 1], lengths, i + 1))
  {
    hide Before, First, Count, Accepted;
    forall k | 0 <= k <= MAX_BITS
      ensures Count(lengths[..i + 1], k) == Count(lengths[..i], k) + if lengths[i] == k then 1 else 0
    {
      CountNext(lengths, i, k);
    }
    if 0 < lengths[i] <= TABLE_BITS {
      ShortCodeFits(lengths, i);
    }
  }

  lemma ShortCodeFits(lengths: seq<nat>, s: nat)
    requires s < |lengths| && 0 < lengths[s] <= TABLE_BITS && Accepted(lengths, MAX_BITS)
    ensures Code(lengths, s) < 0x100
  {
    hide LengthFits, Used, Pow2, Code;
    assert Accepted(lengths, MAX_BITS - 1);
    AcceptedFits(lengths, MAX_BITS - 1);
    CodeBelow(lengths, s, MAX_BITS - 1);
    Pow2Mono(lengths[s], TABLE_BITS);
    Pow2Word();
  }

  lemma SymsNone(syms: seq<nat>, lengths: seq<nat>)
    requires |syms| == MAX_SYMBOLS && LengthsOk(lengths)
    ensures SymsOk(syms, lengths, 0)
  {
  }

  lemma SymsNext(syms: seq<nat>, lengths: seq<nat>, i: nat)
    requires SymsOk(syms, lengths, i) && i < |lengths| && lengths[i] > 0
    ensures Index(lengths, i) < |syms| && SymsOk(syms[Index(lengths, i) := i], lengths, i + 1)
  {
    hide Index;
    forall s | 0 <= s < i && lengths[s] > 0
      ensures Index(lengths, s) != Index(lengths, i)
    {
      if Index(lengths, s) == Index(lengths, i) {
        IndexInjective(lengths, s, i);
      }
    }
  }

  /** A symbol without a codeword changes nothing. */
  lemma Skip(table: seq<Entry>, syms: seq<nat>, lengths: seq<nat>, i: nat)
    requires i < |lengths| && lengths[i] == 0 && TableOk(table, lengths, i) && SymsOk(syms, lengths, i)
    ensures TableOk(table, lengths, i + 1) && SymsOk(syms, lengths, i + 1)
  {
    hide Index;
    SkipLong(table, lengths, i);
  }

  lemma SkipLong(table: seq<Entry>, lengths: seq<nat>, i: nat)
    requires i < |lengths| && !(0 < lengths[i] <= TABLE_BITS) && TableOk(table, lengths, i)
    ensures TableOk(table, lengths, i + 1)
  {
    forall x | 0 <= x < TABLE_SIZE
      ensures SlotOk(table[x], lengths, i + 1, x)
    {
      assert SlotOk(table[x], lengths, i, x);
    }
  }

  lemma TableNone(table: seq<Entry>, lengths: seq<nat>)
    requires |table| == TABLE_SIZE && forall k :: 0 <= k < TABLE_SIZE ==> table[k].len == 0
    ensures TableOk(table, lengths, 0)
  {
  }

  lemma InsertedNone(was: seq<Entry>, lengths: seq<nat>, s: nat, c: nat)
    requires LengthsOk(lengths) && Accepted(lengths, MAX_BITS) && TableOk(was, lengths, s)
    requires s < |lengths| && 0 < lengths[s] <= TABLE_BITS && c == Reverse16(Code(lengths, s), lengths[s])
    ensures Inserted(was, was, Entry(s, lengths[s]), c, 0)
    ensures Used(lengths, MAX_BITS - 1) <= Pow2(MAX_BITS - 1) && c < Pow2(lengths[s])
  {
    hide Used, Code, Reverse16, Pow2, LengthFits;
    assert Accepted(lengths, MAX_BITS - 1);
    AcceptedFits(lengths, MAX_BITS - 1);
    CodeBelow(lengths, s, MAX_BITS - 1);
    Reverse16Bits(Code(lengths, s), lengths[s]);
  }
}
