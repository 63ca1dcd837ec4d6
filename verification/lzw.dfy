/** Shrink and Unshrink (hwzip/shrink.c, PKWARE APPNOTE section 5.1) as functions on bit strings,
    and the round trip between them.

    The compressor keeps a map from (prefix code, byte) to code, the decompressor a map from code to
    (prefix code, byte), one insertion behind; both keep a queue of the codes still to be given out.
    What a code stands for is defined by walking prefixes only. */
module Lzw {
  import opened Bits
  import opened Outcome

  const MIN_CODE_SIZE: nat := 9
  const MAX_CODE_SIZE: nat := 13
  const MAX_CODE: nat := 8191
  const CONTROL_CODE: nat := 256
  const INC_CODE_SIZE: nat := 1
  const PARTIAL_CLEAR: nat := 2
  const INVALID_CODE: uint16 := 0xFFFF

  datatype Entry = Entry(prefix: nat, ext: byte)
  /** The compressor's dictionary. */
  type Index = map<Entry, nat>
  /** The decompressor's dictionary. */
  type Table = map<nat, Entry>

  predicate IsCode(c: nat) {
    c <= MAX_CODE && c != CONTROL_CODE
  }

  // ---------------------------------------------------------------- dictionaries

  /** Codes from `from` on that are not in use, in ascending order. */
  function FreeCodes(used: set<nat>, from: nat): seq<nat>
    requires from <= MAX_CODE + 1
  {
    NotIn(seq(MAX_CODE + 1 - from, i => from + i), used)
  }

  /** What remains of the codes when those in use are dropped. */
  function NotIn(codes: seq<nat>, used: set<nat>): seq<nat> {
    if codes == [] then []
    else (if codes[0] in used then [] else [codes[0]]) + NotIn(codes[1..], used)
  }

  /** All codes but those in use. */
  function FreeFor(used: set<nat>): seq<nat> {
    FreeCodes(used, CONTROL_CODE + 1)
  }

  lemma AboutFree(used: set<nat>)
    ensures forall c :: c in FreeFor(used) <==> CONTROL_CODE < c <= MAX_CODE && c !in used
    ensures Ascending(FreeFor(used))
  {
    hide FreeCodes, NotIn;
    AboutFreeCodes(used, CONTROL_CODE + 1);
  }

  lemma FreeCodesStep(used: set<nat>, from: nat)
    requires from <= MAX_CODE
    ensures FreeCodes(used, from) == (if from in used then [] else [from]) + FreeCodes(used, from + 1)
  {
    var codes := seq(MAX_CODE + 1 - from, i => from + i);
    assert codes[1..] == seq(MAX_CODE - from, i => from + 1 + i);
  }

  lemma {:induction false} AboutFreeCodes(used: set<nat>, from: nat)
    requires from <= MAX_CODE + 1
    ensures forall c :: c in FreeCodes(used, from) <==> from <= c <= MAX_CODE && c !in used
    ensures Ascending(FreeCodes(used, from))
    decreases MAX_CODE + 1 - from
  {
    if from <= MAX_CODE {
      hide FreeCodes;
      AboutFreeCodes(used, from + 1);
      FreeCodesStep(used, from);
      var more := FreeCodes(used, from + 1);
      assert forall i :: 0 <= i < |more| ==> more[i] in more;
    }
  }

  predicate Ascending(q: seq<nat>) {
    forall i, j :: 0 <= i < j < |q| ==> q[i] < q[j]
  }

  function IndexPrefixes(h: Index): set<nat> {
    set e | e in h :: e.prefix
  }

  function TablePrefixes(t: Table): set<nat> {
    set c | c in t :: t[c].prefix
  }

  /** Partial clearing keeps exactly the codes that are a prefix of some code. */
  function ClearIndex(h: Index): Index {
    map e | e in h && h[e] in IndexPrefixes(h) :: h[e]
  }

  function ClearTable(t: Table): Table {
    map c | c in t && c in TablePrefixes(t) :: t[c]
  }

  function Tail(q: seq<nat>): seq<nat> {
    if q == [] then [] else q[1..]
  }

  /** s is what code c stands for: the walk from c through its prefixes down to a literal byte
      yields s backwards. */
  ghost predicate Spells(t: Table, c: nat, s: seq<byte>)
    decreases |s|
  {
    if |s| <= 1 then |s| == 1 && s[0] == c
    else c > CONTROL_CODE && c in t && t[c].ext == s[|s| - 1] && Spells(t, t[c].prefix, s[..|s| - 1])
  }

  // ---------------------------------------------------------------- Shrink

  /** The state of hwshrink() between two codes. */
  datatype Encoder = Encoder(index: Index, queue: seq<nat>, size: nat) {
    predicate Ok() {
      && MIN_CODE_SIZE <= size <= MAX_CODE_SIZE
      && (forall e :: e in index ==> CONTROL_CODE < index[e] <= MAX_CODE && IsCode(e.prefix))
      && (forall c :: c in queue ==> CONTROL_CODE < c <= MAX_CODE)
      && (forall e :: e in index ==> index[e] !in queue)
      && Ascending(queue)
    }

    /** shrink_partial_clear(), if no code is left. */
    function Refilled(): (r: Encoder)
      requires Ok()
      ensures r.Ok()
    {
      if queue == [] then
        AboutFree(IndexPrefixes(index));
        Encoder(ClearIndex(index), FreeFor(IndexPrefixes(index)), size)
      else this
    }

    /** The next free code, if there is one, is given to e. */
    function Added(e: Entry): (r: Encoder)
      requires Ok() && IsCode(e.prefix)
      ensures r.Ok()
    {
      if queue == [] then this
      else
        assert queue[0] in queue && queue[0] !in queue[1..];
        assert forall c :: c in queue[1..] ==> c in queue;
        Encoder(index[e := queue[0]], queue[1..], size)
    }

    /** The control codes written before the code that follows a miss. */
    function Control(): seq<bool> {
      if queue == [] then ToBits(CONTROL_CODE, size) + ToBits(PARTIAL_CLEAR, size) else []
    }
  }

  /** write_code(): the code, preceded by as many "increase code size" controls as it needs. */
  function CodeBits(code: nat, size: nat): (b: seq<bool>)
    requires code <= MAX_CODE && size <= MAX_CODE_SIZE
    decreases MAX_CODE_SIZE - size
  {
    if code < Pow2(size) then ToBits(code, size)
    else
      LargestCode();
      ToBits(CONTROL_CODE, size) + ToBits(INC_CODE_SIZE, size) + CodeBits(code, size + 1)
  }

  /** The code size after write_code(). */
  function SizeAfter(code: nat, size: nat): (r: nat)
    requires code <= MAX_CODE && size <= MAX_CODE_SIZE
    ensures size <= r <= MAX_CODE_SIZE && code < Pow2(r)
    decreases MAX_CODE_SIZE - size
  {
    if code < Pow2(size) then size
    else
      LargestCode();
      SizeAfter(code, size + 1)
  }

  lemma LargestCode()
    ensures Pow2(MAX_CODE_SIZE) == MAX_CODE + 1
  {
  }

  /** The compressor with curr as the longest code matched so far and rest still to be read. */
  function Encode(e: Encoder, curr: nat, rest: seq<byte>): seq<bool>
    requires e.Ok() && IsCode(curr)
    decreases |rest|, 2
  {
    if rest != [] && Entry(curr, rest[0]) in e.index then Encode(e, e.index[Entry(curr, rest[0])], rest[1..])
    else CodeBits(curr, e.size) + EncodeAfter(e.(size := SizeAfter(curr, e.size)), curr, rest)
  }

  /** The compressor after writing curr, which cannot be extended: unless the source is at its end, a
      partial clearing when no code is left, a new code when there is one, and a fresh match. */
  function EncodeAfter(e: Encoder, curr: nat, rest: seq<byte>): seq<bool>
    requires e.Ok() && IsCode(curr)
    decreases |rest|, 1
  {
    if rest == [] then []
    else e.Control() + Encode(e.Refilled().Added(Entry(curr, rest[0])), rest[0], rest[1..])
  }

  function NewEncoder(): (e: Encoder)
    ensures e.Ok()
  {
    AboutFree({});
    Encoder(map[], FreeFor({}), MIN_CODE_SIZE)
  }

  /** hwshrink(): the bits written for src. */
  function Shrink(src: seq<byte>): seq<bool> {
    if src == [] then [] else Encode(NewEncoder(), src[0], src[1..])
  }

  // ---------------------------------------------------------------- Unshrink

  /** A code size, table and queue, as read_code() may change them. */
  datatype Dict = Dict(size: nat, table: Table, queue: seq<nat>) {
    predicate Ok() {
      1 <= size <= MAX_CODE_SIZE
    }

    /** unshrink_partial_clear() */
    function Cleared(): Dict {
      Dict(size, ClearTable(table), FreeFor(TablePrefixes(table)))
    }

    /** The next free code, if there is one, is given to e. */
    function Added(e: Entry): Dict {
      if queue == [] then this else Dict(size, table[queue[0] := e], queue[1..])
    }
  }

  datatype Reading =
    | End(rest: seq<bool>)
    | Bad
    | Code(code: nat, rest: seq<bool>, dict: Dict)

  /** read_code() */
  function ReadCode(bits: seq<bool>, d: Dict): (r: Reading)
    requires d.Ok()
    ensures r.End? ==> |r.rest| <= |bits|
    ensures r.Code? ==> |r.rest| < |bits| && r.dict.Ok() && r.code != CONTROL_CODE
    decreases |bits|
  {
    if |bits| < d.size then End(bits)
    else
      var code, rest := FromBits(bits[..d.size]), bits[d.size..];
      if code != CONTROL_CODE then Code(code, rest, d)
      else if |rest| < d.size then Bad
      else
        var control, rest' := FromBits(rest[..d.size]), rest[d.size..];
        if control == INC_CODE_SIZE && d.size < MAX_CODE_SIZE then ReadCode(rest', d.(size := d.size + 1))
        else if control == PARTIAL_CLEAR then ReadCode(rest', d.Cleared())
        else Bad
  }

  /** How reading a code goes on. */
  lemma ReadCodeIs(bits: seq<bool>, d: Dict)
    requires d.Ok()
    ensures |bits| < d.size ==> ReadCode(bits, d) == End(bits)
    ensures |bits| >= d.size ==>
              var code, rest := FromBits(bits[..d.size]), bits[d.size..];
              && (code != CONTROL_CODE ==> ReadCode(bits, d) == Code(code, rest, d))
              && (code == CONTROL_CODE && |rest| < d.size ==> ReadCode(bits, d) == Bad)
              && (code == CONTROL_CODE && |rest| >= d.size ==>
                    var control, rest' := FromBits(rest[..d.size]), rest[d.size..];
                    ReadCode(bits, d) == if control == INC_CODE_SIZE && d.size < MAX_CODE_SIZE then ReadCode(rest', d.(size := d.size + 1))
                                         else if control == PARTIAL_CLEAR then ReadCode(rest', d.Cleared())
                                         else Bad)
  {
    hide FromBits, TablePrefixes, ClearTable, FreeFor;
  }

  /** The code read last and the string it stood for. */
  datatype Previous = Previous(code: nat, last: seq<byte>) {
    predicate Ok() {
      last != []
    }

    /** The entry about to be added, if the string that follows starts with b. */
    function Extended(b: byte): Entry {
      Entry(code, b)
    }
  }

  /** The table in which a code is looked up: with the code that is about to be added, for the
      previous string extended with its own first byte, which only the case KwKwK can refer to. */
  function Lookup(d: Dict, p: Previous): Table
    requires p.Ok()
  {
    d.Added(p.Extended(p.last[0])).table
  }

  /** The loop of hwunshrink() after the code p.code, which stood for p.last. */
  ghost function Decode(bits: seq<bool>, d: Dict, p: Previous, out: seq<byte>, cap: nat): Status<Output>
    requires d.Ok() && p.Ok()
    decreases |bits|
  {
    match ReadCode(bits, d)
    case End(rest) => Ok(Output(out, rest))
    case Bad => Err
    case Code(code, rest, d') =>
      if |out| == cap then Full
      else if forall s :: !Spells(Lookup(d', p), code, s) then Err
      else
        var s :| Spells(Lookup(d', p), code, s);
        if cap - |out| < |s| then Full
        else Decode(rest, d'.Added(p.Extended(s[0])), Previous(code, s), out + s, cap)
  }

  function NewDict(): Dict {
    Dict(MIN_CODE_SIZE, map[], FreeFor({}))
  }

  /** hwunshrink() */
  ghost function Unshrink(bits: seq<bool>, cap: nat): Status<Output> {
    match ReadCode(bits, NewDict())
    case End(rest) => Ok(Output([], rest))
    case Bad => Err
    case Code(code, rest, d) =>
      if code > 255 then Err
      else if cap == 0 then Full
      else Decode(rest, d, Previous(code, [code]), [code], cap)
  }

  // ---------------------------------------------------------------- strings of codes

  /** A code stands for at most one string. */
  lemma {:induction false} SpellsUnique(t: Table, c: nat, s: seq<byte>, w: seq<byte>)
    requires Spells(t, c, s) && Spells(t, c, w)
    ensures s == w
    decreases |s|
  {
    if |s| > 1 && |w| > 1 {
      SpellsUnique(t, t[c].prefix, s[..|s| - 1], w[..|w| - 1]);
      assert s == s[..|s| - 1] + [s[|s| - 1]];
      assert w == w[..|w| - 1] + [w[|w| - 1]];
    }
  }

  /** New codes do not change what the old ones stand for. */
  lemma {:induction false} SpellsExtended(t: Table, t': Table, c: nat, s: seq<byte>)
    requires Spells(t, c, s)
    requires forall k :: k in t ==> k in t' && t'[k] == t[k]
    ensures Spells(t', c, s)
    decreases |s|
  {
    if |s| > 1 {
      SpellsExtended(t, t', t[c].prefix, s[..|s| - 1]);
    }
  }

  /** Codes that survive a partial clearing stand for what they stood for. */
  lemma {:induction false} SpellsCleared(t: Table, c: nat, s: seq<byte>)
    requires Spells(t, c, s) && (c <= 255 || c in ClearTable(t))
    ensures Spells(ClearTable(t), c, s)
    decreases |s|
  {
    if |s| > 1 {
      var p := t[c].prefix;
      assert p in TablePrefixes(t);
      SpellsCode(t, p, s[..|s| - 1]);
      SpellsCleared(t, p, s[..|s| - 1]);
    }
  }

  lemma SpellsCode(t: Table, c: nat, s: seq<byte>)
    requires Spells(t, c, s)
    ensures c > 255 ==> c > CONTROL_CODE && c in t && |s| > 1
  {
  }

  lemma SpellsNext(t: Table, c: nat, w: seq<byte>, next: nat, b: byte)
    requires Spells(t, c, w) && next > CONTROL_CODE && next in t && t[next] == Entry(c, b)
    ensures Spells(t, next, w + [b])
  {
    var s := w + [b];
    assert s[..|s| - 1] == w;
  }

  /** A code that is its own prefix stands for nothing. */
  lemma {:induction false} SelfPrefixSpellsNothing(t: Table, c: nat, s: seq<byte>)
    requires c in t && t[c].prefix == c && c > CONTROL_CODE
    ensures !Spells(t, c, s)
    decreases |s|
  {
    if |s| > 1 {
      SelfPrefixSpellsNothing(t, c, s[..|s| - 1]);
    }
  }

  /** With a code n for (prev, b) added, a string that starts with b is spelled in the same way when n
      stands for prev's string extended with its own first byte: the case KwKwK. */
  lemma {:induction false} SpellsPending(t: Table, n: nat, p: Previous, b: byte, c: nat, s: seq<byte>)
    requires n !in t && n > CONTROL_CODE && p.Ok()
    requires p.code <= 255 || p.code in t ==> Spells(t, p.code, p.last)
    requires Spells(t[n := p.Extended(b)], c, s) && s[0] == b
    ensures Spells(t[n := p.Extended(p.last[0])], c, s)
    decreases |s|
  {
    var t2 := t[n := p.Extended(b)];
    if |s| > 1 {
      SpellsPending(t, n, p, b, t2[c].prefix, s[..|s| - 1]);
      if c == n {
        if p.code == n {
          SelfPrefixSpellsNothing(t2, n, s);
        }
        SpellsCode(t2, p.code, s[..|s| - 1]);
        SpellsExtended(t, t2, p.code, p.last);
        SpellsUnique(t2, p.code, p.last, s[..|s| - 1]);
      }
    }
  }

  // ---------------------------------------------------------------- the two dictionaries

  /** The two dictionaries hold the same codes. */
  ghost predicate Inverse(h: Index, t: Table) {
    && (forall e :: e in h ==> h[e] in t && t[h[e]] == e)
    && (forall c :: c in t ==> t[c] in h && h[t[c]] == c)
  }

  lemma SamePrefixes(h: Index, t: Table)
    requires Inverse(h, t)
    ensures IndexPrefixes(h) == TablePrefixes(t)
  {
    forall p | p in IndexPrefixes(h)
      ensures p in TablePrefixes(t)
    {
      var e :| e in h && e.prefix == p;
      assert h[e] in t;
    }
    forall p | p in TablePrefixes(t)
      ensures p in IndexPrefixes(h)
    {
      var c :| c in t && t[c].prefix == p;
      assert t[c] in h;
    }
  }

  lemma ClearInverse(h: Index, t: Table)
    requires Inverse(h, t)
    ensures Inverse(ClearIndex(h), ClearTable(t))
  {
    SamePrefixes(h, t);
  }

  /** Compressor and decompressor with the same code size, queue and codes. */
  ghost predicate SameDict(e: Encoder, d: Dict) {
    e.Ok() && d == Dict(e.size, d.table, e.queue) && Inverse(e.index, d.table)
  }

  /** The dictionary of the decompressor after the controls that follow a miss. */
  function Refilled(d: Dict): Dict {
    if d.queue == [] then d.Cleared() else d
  }

  lemma SameRefilled(e: Encoder, d: Dict)
    requires SameDict(e, d)
    ensures SameDict(e.Refilled(), Refilled(d))
    ensures var d' := Refilled(d); d'.queue != [] ==> d'.queue[0] !in d'.table && d'.queue[0] > CONTROL_CODE
  {
    ClearInverse(e.index, d.table);
    SamePrefixes(e.index, d.table);
    AboutFree(TablePrefixes(d.table));
    var d' := Refilled(d);
    assert d'.queue != [] ==> d'.queue[0] in d'.queue;
  }

  lemma SameAdded(e: Encoder, d: Dict, entry: Entry)
    requires SameDict(e, d) && IsCode(entry.prefix) && entry !in e.index
    requires d.queue != [] ==> d.queue[0] !in d.table
    ensures SameDict(e.Added(entry), d.Added(entry))
  {
  }

  lemma SameAfterMiss(e: Encoder, d: Dict, entry: Entry)
    requires SameDict(e, d) && IsCode(entry.prefix) && entry !in e.index
    ensures SameDict(e.Refilled().Added(entry), Refilled(d).Added(entry))
  {
    SameRefilled(e, d);
    SameAdded(e.Refilled(), Refilled(d), entry);
  }

  lemma SameResized(e: Encoder, d: Dict, size: nat)
    requires SameDict(e, d) && MIN_CODE_SIZE <= size <= MAX_CODE_SIZE
    ensures SameDict(e.(size := size), d.(size := size))
  {
  }

  // ---------------------------------------------------------------- reading what was written

  lemma Reassociate<T>(a: seq<T>, b: seq<T>, c: seq<T>, d: seq<T>)
    ensures a + b + c + d == a + b + (c + d)
  {
  }

  lemma Regroup<T>(a: seq<T>, b: seq<T>, c: seq<T>, d: seq<T>)
    ensures a + (b + c) + d == a + (b + (c + d))
  {
  }

  lemma Assoc<T>(a: seq<T>, b: seq<T>, c: seq<T>)
    ensures a + b + c == a + (b + c)
  {
  }

  lemma ReadControl(control: nat, size: nat, more: seq<bool>)
    requires MIN_CODE_SIZE <= size && control < 256
    ensures var bits := ToBits(CONTROL_CODE, size) + ToBits(control, size) + more;
            && FromBits(bits[..size]) == CONTROL_CODE
            && FromBits(bits[size..][..size]) == control
            && bits[size..][size..] == more
  {
    hide ToBits, FromBits, Pow2;
    var bits := ToBits(CONTROL_CODE, size) + ToBits(control, size) + more;
    Pow2Small();
    Pow2Mono(9, size);
    FromToBits(CONTROL_CODE, size);
    FromToBits(control, size);
    assert bits[..size] == ToBits(CONTROL_CODE, size);
    assert bits[size..] == ToBits(control, size) + more;
  }

  /** read_code() recovers what write_code() wrote, and the code size. */
  lemma {:induction false} ReadWritten(code: nat, d: Dict, tail: seq<bool>)
    requires IsCode(code) && MIN_CODE_SIZE <= d.size <= MAX_CODE_SIZE
    ensures ReadCode(CodeBits(code, d.size) + tail, d) == Code(code, tail, d.(size := SizeAfter(code, d.size)))
    decreases MAX_CODE_SIZE - d.size
  {
    if code < Pow2(d.size) {
      var bits := ToBits(code, d.size) + tail;
      assert bits[..d.size] == ToBits(code, d.size) && bits[d.size..] == tail;
      FromToBits(code, d.size);
    } else {
      var more := CodeBits(code, d.size + 1);
      ReadControl(INC_CODE_SIZE, d.size, more + tail);
      Reassociate(ToBits(CONTROL_CODE, d.size), ToBits(INC_CODE_SIZE, d.size), more, tail);
      ReadWritten(code, d.(size := d.size + 1), tail);
    }
  }

  /** After a miss, the decompressor finds the controls and the code that the compressor wrote. */
  lemma ReadMiss(e: Encoder, d: Dict, code: nat, more: seq<bool>)
    requires SameDict(e, d) && IsCode(code)
    ensures ReadCode(e.Control() + (CodeBits(code, e.size) + more), d)
         == Code(code, more, Refilled(d).(size := SizeAfter(code, e.size)))
  {
    var rest := CodeBits(code, e.size) + more;
    if e.queue == [] {
      ReadControl(PARTIAL_CLEAR, e.size, rest);
      ReadWritten(code, d.Cleared(), more);
    } else {
      assert [] + rest == rest;
      ReadWritten(code, d, more);
    }
  }

  // ---------------------------------------------------------------- the round trip

  /** The longest match from curr on: the code it ends in, and the bytes it takes and leaves. */
  lemma {:induction false} Match(e: Encoder, t: Table, curr: nat, w: seq<byte>, rest: seq<byte>)
    returns (c: nat, taken: seq<byte>, left: seq<byte>)
    requires e.Ok() && IsCode(curr) && Inverse(e.index, t) && Spells(t, curr, w)
    ensures IsCode(c) && rest == taken + left && Spells(t, c, w + taken)
    ensures Encode(e, curr, rest) == CodeBits(c, e.size) + EncodeAfter(e.(size := SizeAfter(c, e.size)), c, left)
    ensures left != [] ==> Entry(c, left[0]) !in e.index
    decreases |rest|
  {
    if rest == [] || Entry(curr, rest[0]) !in e.index {
      assert w + [] == w;
      c, taken, left := curr, [], rest;
    } else {
      var next := e.index[Entry(curr, rest[0])];
      SpellsNext(t, curr, w, next, rest[0]);
      c, taken, left := Match(e, t, next, w + [rest[0]], rest[1..]);
      Prepend(w, rest, taken, left);
      taken := [rest[0]] + taken;
    }
  }

  lemma Prepend(w: seq<byte>, rest: seq<byte>, taken: seq<byte>, left: seq<byte>)
    requires rest != [] && rest[1..] == taken + left
    ensures w + [rest[0]] + taken == w + ([rest[0]] + taken)
    ensures rest == [rest[0]] + taken + left
  {
  }

  /** The code the compressor finds next is known to the decompressor, or is the one it is about to
      add: it stands for the same string in both views. */
  lemma KnownNext(d: Dict, p: Previous, c: nat, s: seq<byte>)
    requires Spells(d.table, p.code, p.last) && p.Ok()
    requires var d' := Refilled(d); d'.queue != [] ==> d'.queue[0] !in d'.table && d'.queue[0] > CONTROL_CODE
    requires s != [] && Spells(Refilled(d).Added(p.Extended(s[0])).table, c, s)
    ensures Spells(Lookup(Refilled(d), p), c, s)
  {
    var d' := Refilled(d);
    if d'.queue != [] {
      if d.queue == [] && (p.code <= 255 || p.code in d'.table) {
        SpellsCleared(d.table, p.code, p.last);
      }
      SpellsPending(d'.table, d'.queue[0], p, s[0], c, s);
    }
  }

  /** One code read and its string output. */
  lemma DecodeStep(bits: seq<bool>, d: Dict, p: Previous, out: seq<byte>, cap: nat, r: Reading, s: seq<byte>)
    requires d.Ok() && p.Ok() && r == ReadCode(bits, d) && r.Code?
    requires Spells(Lookup(r.dict, p), r.code, s) && |out| + |s| <= cap
    ensures s != []
    ensures Decode(bits, d, p, out, cap)
         == Decode(r.rest, r.dict.Added(p.Extended(s[0])), Previous(r.code, s), out + s, cap)
  {
    forall w | Spells(Lookup(r.dict, p), r.code, w)
      ensures w == s
    {
      SpellsUnique(Lookup(r.dict, p), r.code, s, w);
    }
  }

  /** A code whose string is longer than the room that is left. */
  lemma DecodeTooLong(bits: seq<bool>, d: Dict, p: Previous, out: seq<byte>, cap: nat, s: seq<byte>)
    requires d.Ok() && p.Ok() && ReadCode(bits, d).Code?
    requires Spells(Lookup(ReadCode(bits, d).dict, p), ReadCode(bits, d).code, s) && |s| > cap - |out|
    ensures Decode(bits, d, p, out, cap) == Full
  {
    var r := ReadCode(bits, d);
    forall w | Spells(Lookup(r.dict, p), r.code, w)
      ensures w == s
    {
      SpellsUnique(Lookup(r.dict, p), r.code, s, w);
    }
  }

  lemma DecodeEnd(bits: seq<bool>, d: Dict, p: Previous, out: seq<byte>, cap: nat)
    requires d.Ok() && p.Ok() && |bits| < d.size
    ensures Decode(bits, d, p, out, cap) == Ok(Output(out, bits))
  {
  }

  /** Compressor and decompressor in step: the one has just written p.code and cannot extend it, the
      other has just read it. */
  ghost predicate InStep(e: Encoder, d: Dict, p: Previous, rest: seq<byte>) {
    && SameDict(e, d) && p.Ok() && IsCode(p.code) && Spells(d.table, p.code, p.last)
    && (rest != [] ==> Entry(p.code, rest[0]) !in e.index)
  }

  /** The compressor's half of a step: a fresh match takes the bytes s, and ends in the code c. */
  lemma FreshMatch(e: Encoder, t: Table, rest: seq<byte>)
    returns (c: nat, s: seq<byte>, left: seq<byte>)
    requires e.Ok() && Inverse(e.index, t) && rest != []
    ensures IsCode(c) && rest == s + left && s != [] && Spells(t, c, s)
    ensures Encode(e, rest[0], rest[1..])
         == CodeBits(c, e.size) + EncodeAfter(e.(size := SizeAfter(c, e.size)), c, left)
    ensures left != [] ==> Entry(c, left[0]) !in e.index
  {
    var taken;
    c, taken, left := Match(e, t, rest[0], [rest[0]], rest[1..]);
    s := [rest[0]] + taken;
    Prepend([], rest, taken, left);
  }

  /** The decompressor's half of a step: it reads the code c, and outputs the bytes s. */
  lemma ReadStep(e: Encoder, d: Dict, p: Previous, c: nat, s: seq<byte>, later: seq<bool>, out: seq<byte>, cap: nat)
    requires SameDict(e, d) && p.Ok() && Spells(d.table, p.code, p.last)
    requires IsCode(c) && s != [] && Spells(Refilled(d).Added(p.Extended(s[0])).table, c, s)
    requires |out| + |s| <= cap
    ensures var d' := Refilled(d).Added(p.Extended(s[0])).(size := SizeAfter(c, e.size));
            d'.Ok()
            && Decode(e.Control() + (CodeBits(c, e.size) + later), d, p, out, cap)
               == Decode(later, d', Previous(c, s), out + s, cap)
  {
    SameRefilled(e, d);
    ReadMiss(e, d, c, later);
    KnownNext(d, p, c, s);
    var r := Code(c, later, Refilled(d).(size := SizeAfter(c, e.size)));
    DecodeStep(e.Control() + (CodeBits(c, e.size) + later), d, p, out, cap, r, s);
  }

  /** One step of both sides, after which they are in step again. */
  lemma Step(e: Encoder, d: Dict, p: Previous, rest: seq<byte>, out: seq<byte>, cap: nat, tail: seq<bool>)
    returns (e': Encoder, d': Dict, c: nat, s: seq<byte>, left: seq<byte>)
    requires InStep(e, d, p, rest) && rest != [] && |out| + |rest| <= cap
    ensures rest == s + left && s != [] && InStep(e', d', Previous(c, s), left)
    ensures Decode(EncodeAfter(e, p.code, rest) + tail, d, p, out, cap)
         == Decode(EncodeAfter(e', c, left) + tail, d', Previous(c, s), out + s, cap)
  {
    var entry := Entry(p.code, rest[0]);
    SameAfterMiss(e, d, entry);
    var e2, d2 := e.Refilled().Added(entry), Refilled(d).Added(entry);
    c, s, left := FreshMatch(e2, d2.table, rest);
    SameResized(e2, d2, SizeAfter(c, e.size));
    e', d' := e2.(size := SizeAfter(c, e.size)), d2.(size := SizeAfter(c, e.size));
    Regroup(e.Control(), CodeBits(c, e.size), EncodeAfter(e', c, left), tail);
    ReadStep(e, d, p, c, s, EncodeAfter(e', c, left) + tail, out, cap);
  }

  /** From there on the decompressor reads everything the compressor will write, and gives back
      exactly the bytes the compressor will take. */
  lemma {:induction false} Run(e: Encoder, d: Dict, p: Previous, rest: seq<byte>, out: seq<byte>, cap: nat, tail: seq<bool>)
    requires InStep(e, d, p, rest) && |out| + |rest| <= cap && |tail| < MIN_CODE_SIZE
    ensures Decode(EncodeAfter(e, p.code, rest) + tail, d, p, out, cap) == Ok(Output(out + rest, tail))
    decreases |rest|
  {
    if rest == [] {
      assert [] + tail == tail && out + [] == out;
      DecodeEnd(tail, d, p, out, cap);
    } else {
      var e', d', c, s, left := Step(e, d, p, rest, out, cap, tail);
      Run(e', d', Previous(c, s), left, out + s, cap, tail);
      Assoc(out, s, left);
    }
  }

  /** The first code is a literal, and takes the decompressor to where the loops are in step. */
  lemma FirstCode(c: byte, rest: seq<byte>, cap: nat, tail: seq<bool>)
    requires 1 + |rest| <= cap && |tail| < MIN_CODE_SIZE
    ensures Unshrink(Encode(NewEncoder(), c, rest) + tail, cap) == Ok(Output([c] + rest, tail))
  {
    var size := SizeAfter(c, MIN_CODE_SIZE);
    var e, d := NewEncoder().(size := size), NewDict().(size := size);
    var later := EncodeAfter(e, c, rest);
    Assoc(CodeBits(c, MIN_CODE_SIZE), later, tail);
    ReadWritten(c, NewDict(), later + tail);
    Run(e, d, Previous(c, [c]), rest, [c], cap, tail);
  }

  /** Unshrinking what was shrunk gives back the source, and leaves only the padding unread. */
  lemma RoundTrip(src: seq<byte>, cap: nat, tail: seq<bool>)
    requires |src| <= cap && |tail| < MIN_CODE_SIZE
    ensures Unshrink(Shrink(src) + tail, cap) == Ok(Output(src, tail))
  {
    if src == [] {
      assert Shrink(src) + tail == tail;
    } else {
      assert src == [src[0]] + src[1..];
      FirstCode(src[0], src[1..], cap, tail);
    }
  }
}
