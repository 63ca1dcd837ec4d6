/** The numbers of the Shrink format, and what streams of hwzip/shrink_test.c stand for. */
module ShrinkSamples {
  import opened Bits
  import opened Outcome
  import opened Lzw
  import opened Samples

  // ---------------------------------------------------------------- reading codes

  lemma AboveControl(size: nat)
    requires size >= 9
    ensures Pow2(size) >= 512
  {
    Pow2Small();
    Pow2Mono(9, size);
  }

  /** A code other than 256 is read in the present size, 9 to 13 bits. */
  lemma CodeReads(c: nat, d: Dict, rest: seq<bool>)
    requires 9 <= d.size <= 13 && c < Pow2(d.size) && c != 256
    ensures ReadCode(ToBits(c, d.size) + rest, d) == Code(c, rest, d)
  {
    hide Pow2, ToBits, FromBits, Dict.Cleared;
    FieldFirst(c, d.size, rest);
  }

  /** After a code 256, a 1 makes codes longer by one bit, up to 13 bits, and a 2 is a partial clearing;
      any other number is an error. */
  lemma ControlReads(v: nat, d: Dict, rest: seq<bool>)
    requires 9 <= d.size <= 13 && v < Pow2(d.size)
    ensures var r := ReadCode(ToBits(256, d.size) + (ToBits(v, d.size) + rest), d);
            && (v == 1 && d.size < 13 ==> r == ReadCode(rest, d.(size := d.size + 1)))
            && (v == 1 && d.size == 13 ==> r == Bad)
            && (v == 2 ==> r == ReadCode(rest, d.Cleared()))
            && (v != 1 && v != 2 ==> r == Bad)
  {
    hide Pow2, ToBits, FromBits, Dict.Cleared;
    AboveControl(d.size);
    FieldFirst(256, d.size, ToBits(v, d.size) + rest);
    FieldFirst(v, d.size, rest);
  }

  /** The stream ends where there is no whole code any more, but not between the two parts of a control. */
  lemma ReadEnds(d: Dict, rest: seq<bool>)
    requires 9 <= d.size <= 13 && |rest| < d.size
    ensures ReadCode(rest, d) == End(rest)
    ensures ReadCode(ToBits(256, d.size) + rest, d) == Bad
  {
    hide Pow2, ToBits, FromBits, Dict.Cleared;
    AboveControl(d.size);
    FieldFirst(256, d.size, rest);
  }

  // ---------------------------------------------------------------- codes in use

  lemma {:induction false} NothingDropped(codes: seq<nat>, used: set<nat>)
    requires forall c :: c in codes ==> c !in used
    ensures NotIn(codes, used) == codes
  {
    if codes != [] {
      assert codes[0] in codes && forall c :: c in codes[1..] ==> c in codes;
      NothingDropped(codes[1..], used);
    }
  }

  /** The codes from `from` to 8191. */
  function Codes(from: nat): (q: seq<nat>)
    requires from <= 8192
    ensures |q| == 8192 - from && forall i :: 0 <= i < |q| ==> q[i] == from + i
  {
    seq(8192 - from, i requires 0 <= i < 8192 - from => from + i)
  }

  /** The codes from `from` on, if none of them is in use. */
  lemma AllFree(used: set<nat>, from: nat)
    requires from <= 8192 && forall c :: c in used ==> c < from
    ensures FreeCodes(used, from) == Codes(from)
  {
    var codes := seq(MAX_CODE + 1 - from, i => from + i);
    NothingDropped(codes, used);
  }

  /** A fresh dictionary has no codes, gives out 257 to 8191 in this order, and reads codes of 9 bits. */
  lemma FreshDict()
    ensures NewDict() == Dict(9, map[], Codes(257))
  {
    hide FreeCodes;
    AllFree({}, 257);
  }

  /** A partial clearing keeps a code exactly if some code has it as its prefix, and makes all other codes
      from 257 to 8191 available again, in ascending order. */
  lemma ClearedIs(d: Dict)
    ensures var d' := d.Cleared();
            && d'.size == d.size
            && (forall c :: c in d'.table <==> c in d.table && exists k :: k in d.table && d.table[k].prefix == c)
            && (forall c :: c in d'.table ==> d'.table[c] == d.table[c])
            && (forall c :: c in d'.queue <==> 257 <= c <= 8191 && !exists k :: k in d.table && d.table[k].prefix == c)
            && (forall i, j :: 0 <= i < j < |d'.queue| ==> d'.queue[i] < d'.queue[j])
  {
    hide FreeFor;
    AboutFree(TablePrefixes(d.table));
  }

  lemma AddNext(size: nat, t: Table, from: nat, e: Entry)
    requires from < 8192
    ensures Dict(size, t, Codes(from)).Added(e) == Dict(size, t[from := e], Codes(from + 1))
  {
    assert Codes(from)[1..] == Codes(from + 1);
  }

  // ---------------------------------------------------------------- decompressing

  /** A code for the string s outputs s; the next code that is free is given to the previous string and the
      first byte of s. */
  lemma Emits(c: nat, s: seq<byte>, size: nat, t: Table, from: nat, p: Previous, rest: seq<bool>,
              out: seq<byte>, out': seq<byte>, cap: nat)
    requires 9 <= size <= 13 && c < Pow2(size) && c != 256 && from < 8192 && p.Ok() && out' == out + s && |out'| <= cap
    requires Spells(t[from := Entry(p.code, p.last[0])], c, s)
    ensures s != []
    ensures Decode(ToBits(c, size) + rest, Dict(size, t, Codes(from)), p, out, cap)
         == Decode(rest, Dict(size, t[from := Entry(p.code, s[0])], Codes(from + 1)), Previous(c, s), out', cap)
  {
    hide Pow2, ToBits, Spells, Codes, Dict.Added, ReadCode;
    var d := Dict(size, t, Codes(from));
    CodeReads(c, d, rest);
    AddNext(size, t, from, Entry(p.code, p.last[0]));
    DecodeStep(ToBits(c, size) + rest, d, p, out, cap, Code(c, rest, d), s);
    AddNext(size, t, from, Entry(p.code, s[0]));
  }

  /** Without room for its string, a code is not an error but the output is full. */
  lemma NoRoom(c: nat, s: seq<byte>, size: nat, t: Table, from: nat, p: Previous, rest: seq<bool>, out: seq<byte>, cap: nat)
    requires 9 <= size <= 13 && c < Pow2(size) && c != 256 && from < 8192 && p.Ok() && |out| <= cap < |out| + |s|
    requires Spells(t[from := Entry(p.code, p.last[0])], c, s)
    ensures Decode(ToBits(c, size) + rest, Dict(size, t, Codes(from)), p, out, cap) == Full
  {
    hide Pow2, ToBits, Spells, Codes, Dict.Added, ReadCode;
    var d := Dict(size, t, Codes(from));
    CodeReads(c, d, rest);
    AddNext(size, t, from, Entry(p.code, p.last[0]));
    DecodeTooLong(ToBits(c, size) + rest, d, p, out, cap, s);
  }

  /** Without any room left, the next code is not even looked up; before the end of the stream that is no error. */
  lemma AlreadyFull(c: nat, d: Dict, p: Previous, rest: seq<bool>, out: seq<byte>)
    requires 9 <= d.size <= 13 && c < Pow2(d.size) && c != 256 && p.Ok()
    ensures Decode(ToBits(c, d.size) + rest, d, p, out, |out|) == Full
    ensures |rest| < d.size ==> Decode(rest, d, p, out, |out|) == Ok(Output(out, rest))
  {
    hide Pow2, ToBits, Spells, ReadCode;
    CodeReads(c, d, rest);
    if |rest| < d.size {
      DecodeEnd(rest, d, p, out, |out|);
    }
  }

  /** A code that stands for nothing is an error. */
  lemma Fails(c: nat, size: nat, t: Table, from: nat, view: Table, p: Previous, rest: seq<bool>, out: seq<byte>, cap: nat)
    requires 9 <= size <= 13 && c < Pow2(size) && c != 256 && from < 8192 && p.Ok() && |out| < cap
    requires view == t[from := Entry(p.code, p.last[0])] && forall s: seq<byte> :: !Spells(view, c, s)
    ensures Decode(ToBits(c, size) + rest, Dict(size, t, Codes(from)), p, out, cap) == Err
  {
    hide Pow2, ToBits, Spells, Codes, Dict.Added, ReadCode;
    var d := Dict(size, t, Codes(from));
    CodeReads(c, d, rest);
    AddNext(size, t, from, Entry(p.code, p.last[0]));
  }

  /** The controls between two codes. */
  lemma Controls(v: nat, d: Dict, p: Previous, rest: seq<bool>, out: seq<byte>, cap: nat)
    requires 9 <= d.size <= 13 && v < Pow2(d.size) && p.Ok()
    ensures var r := Decode(ToBits(256, d.size) + (ToBits(v, d.size) + rest), d, p, out, cap);
            && (v == 1 && d.size < 13 ==> r == Decode(rest, d.(size := d.size + 1), p, out, cap))
            && (v == 1 && d.size == 13 ==> r == Err)
            && (v == 2 ==> r == Decode(rest, d.Cleared(), p, out, cap))
            && (v != 1 && v != 2 ==> r == Err)
  {
    hide Pow2, ToBits, Spells, Codes, Dict.Added, ReadCode, Dict.Cleared;
    ControlReads(v, d, rest);
    SameReading(ToBits(256, d.size) + (ToBits(v, d.size) + rest), d, rest, d.(size := d.size + 1), p, out, cap);
    SameReading(ToBits(256, d.size) + (ToBits(v, d.size) + rest), d, rest, d.Cleared(), p, out, cap);
  }

  lemma SameReading(bits: seq<bool>, d: Dict, bits': seq<bool>, d': Dict, p: Previous, out: seq<byte>, cap: nat)
    requires d.Ok() && p.Ok()
    ensures ReadCode(bits, d) == Bad ==> Decode(bits, d, p, out, cap) == Err
    ensures d'.Ok() && ReadCode(bits, d) == ReadCode(bits', d') ==>
              Decode(bits, d, p, out, cap) == Decode(bits', d', p, out, cap)
  {
    hide Spells, ReadCode, Dict.Added;
  }

  /** The first code is a byte. */
  lemma Starts(c: nat, rest: seq<bool>, cap: nat)
    requires c < 512 && c != 256 && cap > 0
    ensures c < 256 ==> Unshrink(ToBits(c, 9) + rest, cap) == Decode(rest, NewDict(), Previous(c, [c]), [c], cap)
    ensures c > 256 ==> Unshrink(ToBits(c, 9) + rest, cap) == Err
  {
    hide Pow2, ToBits, FreeFor, Decode, ReadCode;
    Pow2Small();
    CodeReads(c, NewDict(), rest);
  }

  // ---------------------------------------------------------------- streams

  /** Codes become longer: 65, then the control, then 66 and 67 in 10 bits. */
  lemma LongerCodes(pad: seq<bool>)
    requires |pad| < 10
    ensures Unshrink(ToBits(65, 9) + (ToBits(256, 9) + (ToBits(1, 9) + (ToBits(66, 10) + (ToBits(67, 10) + pad)))), 3)
         == Ok(Output([65, 66, 67], pad))
  {
    hide ToBits, Decode, Pow2, FreeFor;
    var last := ToBits(67, 10) + pad;
    PowersOfTwo();
    FreshDict();
    var t: Table := map[];
    Starts(65, ToBits(256, 9) + (ToBits(1, 9) + (ToBits(66, 10) + last)), 3);
    Controls(1, Dict(9, t, Codes(257)), Previous(65, [65]), ToBits(66, 10) + last, [65], 3);
    Emits(66, [66], 10, t, 257, Previous(65, [65]), last, [65], [65, 66], 3);
    t := t[257 := Entry(65, 66)];
    Emits(67, [67], 10, t, 258, Previous(66, [66]), pad, [65, 66], [65, 66, 67], 3);
    DecodeEnd(pad, Dict(10, t[258 := Entry(66, 67)], Codes(259)), Previous(67, [67]), [65, 66, 67], 3);
  }

  lemma Two(t: Table, c: nat, a: byte, b: byte)
    requires c > 256 && c in t && t[c] == Entry(a, b)
    ensures Spells(t, c, [a, b])
  {
    assert [a, b][..1] == [a];
  }

  lemma Three(t: Table, c: nat, prefix: nat, a: byte, b: byte, e: byte)
    requires c > 256 && c in t && t[c] == Entry(prefix, e) && Spells(t, prefix, [a, b])
    ensures Spells(t, c, [a, b, e])
  {
    assert [a, b, e][..2] == [a, b];
  }

  /** The first code that is added is 257: "abc", 257 and 259 are "abcabca". */
  lemma AddedCodes(pad: seq<bool>)
    requires |pad| < 9
    ensures Unshrink(ToBits(97, 9) + (ToBits(98, 9) + (ToBits(99, 9) + (ToBits(257, 9) + (ToBits(259, 9) + pad)))), 7)
         == Ok(Output([97, 98, 99, 97, 98, 99, 97], pad))
  {
    hide ToBits, Decode, Pow2, FreeFor;
    var last := ToBits(259, 9) + pad;
    PowersOfTwo();
    FreshDict();
    var t: Table := map[];
    Starts(97, ToBits(98, 9) + (ToBits(99, 9) + (ToBits(257, 9) + last)), 7);
    Emits(98, [98], 9, t, 257, Previous(97, [97]), ToBits(99, 9) + (ToBits(257, 9) + last), [97], [97, 98], 7);
    t := t[257 := Entry(97, 98)];
    Emits(99, [99], 9, t, 258, Previous(98, [98]), ToBits(257, 9) + last, [97, 98], [97, 98, 99], 7);
    t := t[258 := Entry(98, 99)];
    Two(t[259 := Entry(99, 99)], 257, 97, 98);
    Emits(257, [97, 98], 9, t, 259, Previous(99, [99]), last, [97, 98, 99], [97, 98, 99, 97, 98], 7);
    t := t[259 := Entry(99, 97)];
    Two(t[260 := Entry(257, 97)], 259, 99, 97);
    Emits(259, [99, 97], 9, t, 260, Previous(257, [97, 98]), pad,
          [97, 98, 99, 97, 98], [97, 98, 99, 97, 98, 99, 97], 7);
    DecodeEnd(pad, Dict(9, t[260 := Entry(257, 99)], Codes(261)), Previous(259, [99, 97]), [97, 98, 99, 97, 98, 99, 97], 7);
  }

  /** A code that has not been given out is an error. */
  lemma UnknownCode(rest: seq<bool>)
    ensures Unshrink(ToBits(97, 9) + (ToBits(98, 9) + (ToBits(456, 9) + rest)), 100) == Err
    ensures Unshrink(ToBits(257, 9) + rest, 100) == Err
  {
    hide ToBits, Decode, Pow2, FreeFor;
    PowersOfTwo();
    FreshDict();
    var t: Table := map[];
    Starts(257, rest, 100);
    Starts(97, ToBits(98, 9) + (ToBits(456, 9) + rest), 100);
    Emits(98, [98], 9, t, 257, Previous(97, [97]), ToBits(456, 9) + rest, [97], [97, 98], 100);
    t := t[257 := Entry(97, 98)];
    Fails(456, 9, t, 258, t[258 := Entry(98, 98)], Previous(98, [98]), rest, [97, 98], 100);
  }

  /** A code that is used while it is added: "anb", 257 ("an") and 260 ("ana"). */
  lemma PendingCode(pad: seq<bool>)
    requires |pad| < 9
    ensures Unshrink(ToBits(97, 9) + (ToBits(110, 9) + (ToBits(98, 9) + (ToBits(257, 9) + (ToBits(260, 9) + pad)))), 8)
         == Ok(Output([97, 110, 98, 97, 110, 97, 110, 97], pad))
  {
    hide ToBits, Decode, Pow2, FreeFor;
    var last := ToBits(260, 9) + pad;
    PowersOfTwo();
    FreshDict();
    var t: Table := map[];
    Starts(97, ToBits(110, 9) + (ToBits(98, 9) + (ToBits(257, 9) + last)), 8);
    Emits(110, [110], 9, t, 257, Previous(97, [97]), ToBits(98, 9) + (ToBits(257, 9) + last), [97], [97, 110], 8);
    t := t[257 := Entry(97, 110)];
    Emits(98, [98], 9, t, 258, Previous(110, [110]), ToBits(257, 9) + last, [97, 110], [97, 110, 98], 8);
    t := t[258 := Entry(110, 98)];
    Two(t[259 := Entry(98, 98)], 257, 97, 110);
    Emits(257, [97, 110], 9, t, 259, Previous(98, [98]), last, [97, 110, 98], [97, 110, 98, 97, 110], 8);
    t := t[259 := Entry(98, 97)];
    Two(t[260 := Entry(257, 97)], 257, 97, 110);
    Three(t[260 := Entry(257, 97)], 260, 257, 97, 110, 97);
    Emits(260, [97, 110, 97], 9, t, 260, Previous(257, [97, 110]), pad,
          [97, 110, 98, 97, 110], [97, 110, 98, 97, 110, 97, 110, 97], 8);
    DecodeEnd(pad, Dict(9, t[260 := Entry(257, 97)], Codes(261)), Previous(260, [97, 110, 97]),
              [97, 110, 98, 97, 110, 97, 110, 97], 8);
  }

  lemma FirstClearing()
    ensures Dict(9, map[257 := Entry(97, 98), 258 := Entry(98, 97)], Codes(259)).Cleared() == Dict(9, map[], Codes(257))
  {
    hide FreeCodes;
    var t: Table := map[257 := Entry(97, 98), 258 := Entry(98, 97)];
    assert ClearTable(t) == map[];
    AllFree(TablePrefixes(t), 257);
  }

  lemma SecondClearing()
    ensures Dict(9, map[257 := Entry(257, 97), 258 := Entry(97, 98)], Codes(259)).Cleared()
         == Dict(9, map[257 := Entry(257, 97)], Codes(258))
  {
    hide FreeCodes;
    var t: Table := map[257 := Entry(257, 97), 258 := Entry(97, 98)];
    assert t[257].prefix == 257;
    assert ClearTable(t) == map[257 := Entry(257, 97)];
    FreeCodesStep(TablePrefixes(t), 257);
    AllFree(TablePrefixes(t), 258);
    assert [] + Codes(258) == Codes(258);
  }

  lemma AfterClearing(pad: seq<bool>)
    requires |pad| < 9
    ensures Decode(ToBits(97, 9) + (ToBits(98, 9) + (ToBits(256, 9) + (ToBits(2, 9) + (ToBits(120, 9) + (ToBits(258, 9) + pad))))),
                   Dict(9, map[], Codes(257)), Previous(257, [97, 98]), [97, 98, 97, 98], 9)
         == Ok(Output([97, 98, 97, 98, 97, 98, 120, 98, 120], pad))
  {
    hide ToBits, Decode, Pow2, FreeFor, Dict.Cleared;
    PowersOfTwo();
    var last := ToBits(258, 9) + pad;
    var clear := ToBits(256, 9) + (ToBits(2, 9) + (ToBits(120, 9) + last));
    var t: Table := map[];
    Emits(97, [97], 9, t, 257, Previous(257, [97, 98]), ToBits(98, 9) + clear, [97, 98, 97, 98], [97, 98, 97, 98, 97], 9);
    t := t[257 := Entry(257, 97)];
    Emits(98, [98], 9, t, 258, Previous(97, [97]), clear, [97, 98, 97, 98, 97], [97, 98, 97, 98, 97, 98], 9);
    SecondClearing();
    t := map[257 := Entry(257, 97)];
    Controls(2, Dict(9, t[258 := Entry(97, 98)], Codes(259)), Previous(98, [98]), ToBits(120, 9) + last,
             [97, 98, 97, 98, 97, 98], 9);
    Emits(120, [120], 9, t, 258, Previous(98, [98]), last, [97, 98, 97, 98, 97, 98], [97, 98, 97, 98, 97, 98, 120], 9);
    t := t[258 := Entry(98, 120)];
    Two(t[259 := Entry(120, 120)], 258, 98, 120);
    Emits(258, [98, 120], 9, t, 259, Previous(120, [120]), pad,
          [97, 98, 97, 98, 97, 98, 120], [97, 98, 97, 98, 97, 98, 120, 98, 120], 9);
    DecodeEnd(pad, Dict(9, t[259 := Entry(120, 98)], Codes(260)), Previous(258, [98, 120]),
              [97, 98, 97, 98, 97, 98, 120, 98, 120], 9);
  }

  /** A partial clearing drops 257 ("ab") and 258 ("ba"), which no code builds on; the previous code, 257, is
      then added to as it stands and builds on itself, so that the next clearing keeps it and drops 258.
      What is added after that is again 258 ("bx"). */
  lemma ClearedCodes(pad: seq<bool>)
    requires |pad| < 9
    ensures Unshrink(ToBits(97, 9) + (ToBits(98, 9) + (ToBits(257, 9) + (ToBits(256, 9) + (ToBits(2, 9)
                     + (ToBits(97, 9) + (ToBits(98, 9) + (ToBits(256, 9) + (ToBits(2, 9)
                     + (ToBits(120, 9) + (ToBits(258, 9) + pad)))))))))), 9)
         == Ok(Output([97, 98, 97, 98, 97, 98, 120, 98, 120], pad))
  {
    hide ToBits, Decode, Pow2, FreeFor, Dict.Cleared;
    var last := ToBits(120, 9) + (ToBits(258, 9) + pad);
    var later := ToBits(97, 9) + (ToBits(98, 9) + (ToBits(256, 9) + (ToBits(2, 9) + last)));
    var clear := ToBits(256, 9) + (ToBits(2, 9) + later);
    PowersOfTwo();
    FreshDict();
    var t: Table := map[];
    Starts(97, ToBits(98, 9) + (ToBits(257, 9) + clear), 9);
    Emits(98, [98], 9, t, 257, Previous(97, [97]), ToBits(257, 9) + clear, [97], [97, 98], 9);
    t := t[257 := Entry(97, 98)];
    Two(t[258 := Entry(98, 98)], 257, 97, 98);
    Emits(257, [97, 98], 9, t, 258, Previous(98, [98]), clear, [97, 98], [97, 98, 97, 98], 9);
    FirstClearing();
    Controls(2, Dict(9, map[257 := Entry(97, 98), 258 := Entry(98, 97)], Codes(259)), Previous(257, [97, 98]), later,
             [97, 98, 97, 98], 9);
    AfterClearing(pad);
  }

  // ---------------------------------------------------------------- compressing

  /** A string has one code at most. */
  lemma {:induction false} OneCode(h: Index, t: Table, c: nat, c': nat, s: seq<byte>)
    requires Inverse(h, t) && Spells(t, c, s) && Spells(t, c', s)
    ensures c == c'
    decreases |s|
  {
    if |s| > 1 {
      OneCode(h, t, t[c].prefix, t[c'].prefix, s[..|s| - 1]);
      assert t[c] == t[c'];
    }
  }

  /** A beginning of a string that has a code has one. */
  lemma {:induction false} BeginningSpelled(t: Table, c: nat, s: seq<byte>, n: nat) returns (c': nat)
    requires Spells(t, c, s) && 1 <= n <= |s|
    ensures Spells(t, c', s[..n])
    decreases |s|
  {
    if n == |s| {
      assert s[..n] == s;
      c' := c;
    } else {
      c' := BeginningSpelled(t, t[c].prefix, s[..|s| - 1], n);
      assert s[..|s| - 1][..n] == s[..n];
    }
  }

  lemma ExtensionKnown(h: Index, t: Table, c: nat, s: seq<byte>, b: byte, c': nat)
    requires Inverse(h, t) && Spells(t, c, s) && Spells(t, c', s + [b])
    ensures Entry(c, b) in h
  {
    SpellsCode(t, c, s);
    assert (s + [b])[..|s|] == s;
    OneCode(h, t, t[c'].prefix, c, s);
    assert t[c'] == Entry(c, b);
  }

  /** What cannot be extended is longest. */
  lemma NoLonger(h: Index, t: Table, c: nat, s: seq<byte>, left: seq<byte>, c2: nat, s2: seq<byte>)
    requires Inverse(h, t) && Spells(t, c, s) && (left != [] ==> Entry(c, left[0]) !in h)
    requires Spells(t, c2, s2) && s2 <= s + left
    ensures |s2| <= |s|
  {
    hide Inverse, Spells;
    if |s2| > |s| {
      var c3 := BeginningSpelled(t, c2, s2, |s| + 1);
      assert s2[..|s| + 1] == s + [left[0]];
      ExtensionKnown(h, t, c, s, left[0], c3);
    }
  }

  /** What the compressor writes next, in terms of the decompressor's dictionary: a partial clearing if and only
      if no code is left, and then, with a new code for the previous string and the next byte, the code of the
      longest string that has one. */
  lemma WritesLongest(e: Encoder, d: Dict, p: Previous, rest: seq<byte>)
    returns (e': Encoder, d': Dict, c: nat, s: seq<byte>, left: seq<byte>)
    requires InStep(e, d, p, rest) && rest != []
    ensures d' == (if d.queue == [] then d.Cleared() else d).Added(Entry(p.code, rest[0]))
    ensures rest == s + left && s != [] && Spells(d'.table, c, s) && e'.Ok() && IsCode(c)
    ensures forall c2, s2 :: Spells(d'.table, c2, s2) && s2 <= rest ==> |s2| <= |s|
    ensures EncodeAfter(e, p.code, rest)
         == (if d.queue == [] then ToBits(256, d.size) + ToBits(2, d.size) else []) + (CodeBits(c, d.size) + EncodeAfter(e', c, left))
    ensures InStep(e', d'.(size := SizeAfter(c, d.size)), Previous(c, s), left)
  {
    hide ToBits, FreeFor, CodeBits, Encode, Inverse, Spells;
    SameAfterMiss(e, d, Entry(p.code, rest[0]));
    var e2 := e.Refilled().Added(Entry(p.code, rest[0]));
    d' := Lzw.Refilled(d).Added(Entry(p.code, rest[0]));
    c, s, left := FreshMatch(e2, d'.table, rest);
    SameResized(e2, d', SizeAfter(c, d.size));
    e' := e2.(size := SizeAfter(c, d.size));
    forall c2, s2 | Spells(d'.table, c2, s2) && s2 <= rest
      ensures |s2| <= |s|
    {
      NoLonger(e2.index, d'.table, c, s, left, c2, s2);
    }
  }

  /** A code is written in the present size if it fits in it; if not, the size is raised first. */
  lemma CodeWritten(code: nat, size: nat)
    requires code <= 8191 && 9 <= size <= 13
    ensures code < Pow2(size) ==> CodeBits(code, size) == ToBits(code, size) && SizeAfter(code, size) == size
    ensures code >= Pow2(size) ==>
              size < 13 && SizeAfter(code, size) == SizeAfter(code, size + 1)
              && CodeBits(code, size) == ToBits(256, size) + ToBits(1, size) + CodeBits(code, size + 1)
  {
    hide ToBits;
    LargestCode();
  }

  /** The compressor begins with the first byte in 9 bits and a fresh dictionary, and ends after the last code. */
  lemma ShrinkBegins(b: byte, rest: seq<byte>, e: Encoder, c: nat)
    requires e.Ok() && IsCode(c)
    ensures Shrink([]) == [] && EncodeAfter(e, c, []) == []
    ensures Shrink([b] + rest) == ToBits(b, 9) + EncodeAfter(NewEncoder(), b, rest)
    ensures InStep(NewEncoder(), NewDict(), Previous(b, [b]), rest)
  {
    hide ToBits, FreeFor;
    assert Pow2(9) == 512 by { Pow2Small(); }
    assert ([b] + rest)[1..] == rest;
    AboutFree({});
  }
}
