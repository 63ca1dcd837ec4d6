/** The code table of hwunshrink() (hwzip/shrink.c, lines 261-307) as a sequence of slots, and what ties
    it to the decompressor of the model: a code whose length is known is not spelled out again by
    walking its prefixes, but copied from where it was last output. */
module CodeTable {
  import opened Bits
  import opened Lzw
  import opened Outcome

  const UNKNOWN_LEN: uint16 := 0xFFFF
  /** The longest string a code can stand for: a literal and one byte for each other code. */
  const MAX_STRING: nat := 7936

  /** struct codetab_t */
  datatype CodeSlot = CodeSlot(prefix: uint16, ext: byte, len: uint16, lastDstPos: nat)

  /** The string that starts at the last position of a code. */
  function WindowOf(x: CodeSlot, out: seq<byte>): seq<byte>
    requires x.lastDstPos + x.len <= |out|
  {
    out[x.lastDstPos..x.lastDstPos + x.len]
  }

  predicate SelfPrefix(t: Table, c: nat) {
    c in t && t[c].prefix == c
  }

  /** A code that can be output by copying. */
  ghost predicate Known(s: seq<CodeSlot>, t: Table, c: nat)
    requires |s| == MAX_CODE + 1
  {
    c in t && !SelfPrefix(t, c) && c <= MAX_CODE && s[c].len != UNKNOWN_LEN
  }

  ghost predicate SlotOk(s: seq<CodeSlot>, t: Table, out: seq<byte>, c: nat)
    requires |s| == MAX_CODE + 1 && c in t && c <= MAX_CODE
  {
    && IsCode(t[c].prefix) && t[c] == Entry(s[c].prefix, s[c].ext)
    && (Known(s, t, c) ==> s[c].lastDstPos + s[c].len <= |out| && Spells(t, c, WindowOf(s[c], out))
                           && (t[c].prefix <= 255 || Known(s, t, t[c].prefix)))
    && (s[c].len == UNKNOWN_LEN ==> t[c].prefix > CONTROL_CODE && t[c].prefix != c
                                    && (t[c].prefix in t ==> Known(s, t, t[c].prefix)))
  }

  /** The slots s describe the codes of t, given the output so far. */
  ghost predicate Sound(s: seq<CodeSlot>, t: Table, out: seq<byte>) {
    && |s| == MAX_CODE + 1
    && (forall c :: c in t ==> CONTROL_CODE < c <= MAX_CODE)
    && (forall c :: 0 <= c <= 255 ==> s[c].prefix == c && s[c].ext == c && s[c].len == 1)
    && (forall c :: 255 < c <= MAX_CODE ==> (c in t <==> s[c].prefix != INVALID_CODE))
    && (forall c :: c in t ==> SlotOk(s, t, out, c))
  }

  ghost predicate QueueOk(t: Table, q: seq<nat>) {
    (forall c :: c in q ==> CONTROL_CODE < c <= MAX_CODE && c !in t) && Ascending(q)
  }

  /** The previous code is still in the table, or a partial clearing has just removed it. */
  ghost predicate PrevOk(s: seq<CodeSlot>, t: Table, q: seq<nat>, out: seq<byte>, p: Previous)
    requires |s| == MAX_CODE + 1
  {
    && p.Ok() && IsCode(p.code) && |p.last| <= MAX_STRING
    && s[p.code].len == |p.last| && s[p.code].lastDstPos + |p.last| == |out|
    && out[|out| - |p.last|..] == p.last
    && if p.code <= 255 || p.code in t then Spells(t, p.code, p.last)
       else forall c :: c in t ==> t[c].prefix !in q
  }

  // ---------------------------------------------------------------- the length of strings

  /** The codes met when walking the prefixes of c are distinct. */
  lemma {:induction false} Chain(t: Table, c: nat, s: seq<byte>) returns (codes: set<nat>)
    requires Spells(t, c, s)
    ensures |codes| + 1 == |s| && codes <= t.Keys
    ensures forall x :: x in codes ==> exists k :: 0 <= k <= |s| && Spells(t, x, s[..k])
    decreases |s|
  {
    if |s| == 1 {
      codes := {};
    } else {
      var w := s[..|s| - 1];
      var rest := Chain(t, t[c].prefix, w);
      forall x | x in rest
        ensures x != c && exists k :: 0 <= k <= |s| && Spells(t, x, s[..k])
      {
        var k :| 0 <= k <= |w| && Spells(t, x, w[..k]);
        assert w[..k] == s[..k];
        if x == c {
          SpellsUnique(t, c, s, w[..k]);
        }
      }
      assert s[..|s|] == s;
      codes := rest + {c};
    }
  }

  lemma {:induction false} CodesBelow(codes: set<nat>, lo: nat, hi: nat)
    requires lo <= hi && forall c :: c in codes ==> lo <= c < hi
    ensures |codes| <= hi - lo
  {
    if lo < hi {
      CodesBelow(codes - {hi - 1}, lo, hi - 1);
    } else {
      assert codes == {};
    }
  }

  /** No string is longer than the table allows, so lengths fit in 16 bits and never look unknown. */
  lemma StringFits(t: Table, c: nat, s: seq<byte>)
    requires Spells(t, c, s) && forall k :: k in t ==> CONTROL_CODE < k <= MAX_CODE
    ensures |s| <= MAX_STRING
  {
    var codes := Chain(t, c, s);
    CodesBelow(codes, CONTROL_CODE + 1, MAX_CODE + 1);
  }

  // ---------------------------------------------------------------- changes of the table

  /** More output does not disturb anything. */
  lemma SoundMore(s: seq<CodeSlot>, t: Table, out: seq<byte>, more: seq<byte>)
    requires Sound(s, t, out)
    ensures Sound(s, t, out + more)
  {
    forall c | c in t
      ensures SlotOk(s, t, out + more, c)
    {
      assert SlotOk(s, t, out, c);
      if Known(s, t, c) {
        assert WindowOf(s[c], out + more) == WindowOf(s[c], out);
      }
    }
  }

  /** The slot given to a new code after p: of unknown length if p is gone. */
  function NewSlot(s: seq<CodeSlot>, t: Table, p: Previous, n: nat, b: byte): CodeSlot
    requires |s| == MAX_CODE + 1 && IsCode(p.code) && |p.last| <= MAX_STRING
  {
    CodeSlot(p.code, b, if p.code <= 255 || p.code in t || p.code == n then |p.last| + 1 else UNKNOWN_LEN,
             s[p.code].lastDstPos)
  }

  lemma NextCode(t: Table, q: seq<nat>)
    requires QueueOk(t, q) && q != []
    ensures CONTROL_CODE < q[0] <= MAX_CODE && q[0] !in t
  {
    assert q[0] in q;
  }

  /** What the slot of a new code is made of. */
  lemma PrevSlot(s: seq<CodeSlot>, t: Table, q: seq<nat>, out: seq<byte>, p: Previous)
    requires |s| == MAX_CODE + 1 && PrevOk(s, t, q, out, p)
    ensures p.Ok() && IsCode(p.code) && p.code <= MAX_CODE && 1 <= |p.last| <= MAX_STRING && s[p.code].len == |p.last|
  {
  }

  lemma PrevSpells(s: seq<CodeSlot>, t: Table, q: seq<nat>, out: seq<byte>, p: Previous)
    requires |s| == MAX_CODE + 1 && PrevOk(s, t, q, out, p)
    ensures p.code <= 255 || p.code in t ==> Spells(t, p.code, p.last)
  {
  }

  /** The two assignments that make the slot of a new code n. */
  lemma StoredSlot(s: seq<CodeSlot>, t: Table, p: Previous, n: nat, b: byte)
    requires |s| == MAX_CODE + 1 && IsCode(p.code) && |p.last| <= MAX_STRING && s[p.code].len == |p.last|
    requires n <= MAX_CODE
    requires p.code <= 255 ==> s[p.code].prefix != INVALID_CODE
    requires p.code > 255 && p.code != n ==> (p.code in t <==> s[p.code].prefix != INVALID_CODE)
    ensures var x := CodeSlot(p.code, b, s[p.code].len + 1, s[p.code].lastDstPos);
            && (p.code <= 255 || p.code in t ==> x == NewSlot(s, t, p, n, b))
            && NewSlot(s, t, p, n, b) == if s[n := x][p.code].prefix == INVALID_CODE then x.(len := UNKNOWN_LEN) else x
  {
  }

  lemma PrefixIs(s: seq<CodeSlot>, t: Table, out: seq<byte>, c: nat)
    requires Sound(s, t, out) && c in t
    ensures |s| == MAX_CODE + 1 && CONTROL_CODE < c <= MAX_CODE && t[c].prefix == s[c].prefix && IsCode(t[c].prefix)
  {
    assert SlotOk(s, t, out, c);
  }

  lemma ScannedCode(s: seq<CodeSlot>, t: Table, out: seq<byte>, c: nat)
    requires Sound(s, t, out) && CONTROL_CODE < c <= MAX_CODE
    ensures |s| == MAX_CODE + 1 && (c in t <==> s[c].prefix != INVALID_CODE)
    ensures c in t ==> s[c].prefix <= MAX_CODE && t[c].prefix == s[c].prefix && t[c].prefix in TablePrefixes(t)
  {
    if c in t {
      assert SlotOk(s, t, out, c);
    }
  }

  lemma PrefixOf(s: seq<CodeSlot>, t: Table, out: seq<byte>, c: nat) returns (k: nat)
    requires Sound(s, t, out) && c in TablePrefixes(t)
    ensures k in t && CONTROL_CODE < k <= MAX_CODE && t[k].prefix == c <= MAX_CODE
  {
    k :| k in t && t[k].prefix == c;
    assert SlotOk(s, t, out, k);
  }

  /** If some code has the code about to be added as its prefix, the previous code is not gone. */
  lemma PendingIsPrefix(s: seq<CodeSlot>, t: Table, q: seq<nat>, out: seq<byte>, p: Previous, c: nat)
    requires |s| == MAX_CODE + 1 && PrevOk(s, t, q, out, p) && c in t && q != [] && t[c].prefix == q[0]
    ensures p.code <= 255 || p.code in t
  {
  }

  /** A code of unknown length whose prefix is in the table: the string of the prefix is in the output. */
  lemma KnownPrefix(s: seq<CodeSlot>, t: Table, out: seq<byte>, c: nat)
    requires Sound(s, t, out) && c in t && !SelfPrefix(t, c) && s[c].len == UNKNOWN_LEN
    ensures t[c].prefix == s[c].prefix && CONTROL_CODE < s[c].prefix <= MAX_CODE && CONTROL_CODE < c <= MAX_CODE
    ensures s[s[c].prefix].prefix != INVALID_CODE ==> s[c].prefix as nat in t && s[s[c].prefix].lastDstPos < |out|
    ensures s[s[c].prefix].prefix == INVALID_CODE ==> s[c].prefix as nat !in t
  {
    assert SlotOk(s, t, out, c);
    var x := t[c].prefix;
    if x in t {
      assert SlotOk(s, t, out, x);
      SpellsCode(t, x, WindowOf(s[x], out));
    }
  }

  /** A code is in the table if and only if its slot is valid. */
  lemma SlotIsValid(s: seq<CodeSlot>, t: Table, out: seq<byte>, c: nat)
    requires Sound(s, t, out) && IsCode(c)
    ensures |s| == MAX_CODE + 1 && c <= MAX_CODE
    ensures c <= 255 ==> s[c].prefix != INVALID_CODE && s[c].len == 1
    ensures c > 255 ==> (c in t <==> s[c].prefix != INVALID_CODE)
  {
  }

  /** Adding a code: the string of p extended with the byte that follows it in the output, a string
      not known yet if p was removed by a partial clearing, or its own prefix. */
  lemma SoundAdded(s: seq<CodeSlot>, t: Table, q: seq<nat>, out: seq<byte>, p: Previous, more: seq<byte>)
    requires Sound(s, t, out + more) && QueueOk(t, q) && PrevOk(s, t, q, out, p) && q != [] && more != []
    requires q[0] <= MAX_CODE
    ensures var n := q[0];
            Sound(s[n := NewSlot(s, t, p, n, more[0])], t[n := p.Extended(more[0])], out + more)
  {
    hide Spells;
    var n := q[0];
    assert n in q;
    var t' := t[n := p.Extended(more[0])];
    var s' := s[n := NewSlot(s, t, p, n, more[0])];
    var out' := out + more;
    if p.code in t {
      NotSelfPrefix(t, p.code, p.last);
    }
    forall c | c in t'
      ensures SlotOk(s', t', out', c)
    {
      if c == n {
        if p.code <= 255 || p.code in t {
          SpellsExtended(t, t', p.code, p.last);
          SpellsNext(t', p.code, p.last, n, more[0]);
          assert WindowOf(s'[n], out') == p.last + [more[0]];
        }
      } else {
        assert SlotOk(s, t, out', c);
        if Known(s, t, c) {
          SpellsExtended(t, t', c, WindowOf(s[c], out'));
        }
        assert t[c].prefix == n ==> p.code <= 255 || p.code in t;
      }
    }
  }

  /** The pending code is added: the slot of p stays as it is. */
  lemma SoundPended(s: seq<CodeSlot>, t: Table, q: seq<nat>, out: seq<byte>, p: Previous)
    requires Sound(s, t, out) && QueueOk(t, q) && PrevOk(s, t, q, out, p)
    requires q != [] && q[0] <= MAX_CODE && (p.code <= 255 || p.code in t)
    ensures var n := q[0];
            var s' := s[n := NewSlot(s, t, p, n, p.last[0])];
            && Sound(s', WithPending(t, q, p), out + [p.last[0]])
            && PrevOk(s', t, q, out, p) && n != p.code
            && s'[n] == NewSlot(s', t, p, n, p.last[0])
  {
    assert q[0] in q;
    SoundMore(s, t, out, [p.last[0]]);
    SoundAdded(s, t, q, out, p, [p.last[0]]);
  }

  /** A pending code can be output at once: its string ends with the byte that is put in place. */
  lemma PendingSlot(s: seq<CodeSlot>, t: Table, q: seq<nat>, out: seq<byte>, p: Previous)
    requires q != [] && q[0] <= MAX_CODE && |s| == MAX_CODE + 1 && QueueOk(t, q) && PrevOk(s, t, q, out, p)
    requires s[q[0]] == NewSlot(s, t, p, q[0], p.last[0]) && (p.code <= 255 || p.code in t)
    requires Sound(s, t[q[0] := p.Extended(p.last[0])], out + [p.last[0]])
    ensures var x := s[q[0]];
            && x.lastDstPos < |out| && x.lastDstPos + x.len == |out| + 1
            && out[x.lastDstPos] == p.last[0]
            && Known(s, t[q[0] := p.Extended(p.last[0])], q[0])
  {
    assert q[0] in q;
    assert out[|out| - |p.last|..][0] == p.last[0];
  }

  lemma NotSelfPrefix(t: Table, c: nat, s: seq<byte>)
    requires Spells(t, c, s) && c > CONTROL_CODE
    ensures !SelfPrefix(t, c)
  {
    if SelfPrefix(t, c) {
      SelfPrefixSpellsNothing(t, c, s);
    }
  }

  /** A code gets the place where it was last output. */
  lemma SoundMoved(s: seq<CodeSlot>, t: Table, out: seq<byte>, c: nat, len: uint16, pos: nat)
    requires Sound(s, t, out) && IsCode(c) && (c <= 255 ==> len == 1) && len < UNKNOWN_LEN
    requires c in t ==> pos + len <= |out| && Spells(t, c, out[pos..pos + len])
    requires c in t ==> t[c].prefix <= 255 || Known(s, t, t[c].prefix)
    ensures Sound(s[c := s[c].(len := len, lastDstPos := pos)], t, out)
  {
    forall k | k in t
      ensures SlotOk(s[c := s[c].(len := len, lastDstPos := pos)], t, out, k)
    {
      MovedSlot(s, t, out, c, len, pos, k);
    }
  }

  lemma MovedSlot(s: seq<CodeSlot>, t: Table, out: seq<byte>, c: nat, len: uint16, pos: nat, k: nat)
    requires Sound(s, t, out) && IsCode(c) && len < UNKNOWN_LEN && k in t
    requires c in t ==> pos + len <= |out| && Spells(t, c, out[pos..pos + len])
    requires c in t ==> t[c].prefix <= 255 || Known(s, t, t[c].prefix)
    ensures SlotOk(s[c := s[c].(len := len, lastDstPos := pos)], t, out, k)
  {
    var s' := s[c := s[c].(len := len, lastDstPos := pos)];
    assert SlotOk(s, t, out, k);
    if c in t {
      NotSelfPrefix(t, c, out[pos..pos + len]);
    }
    assert Known(s, t, t[k].prefix) ==> Known(s', t, t[k].prefix);
    if k == c {
      assert WindowOf(s'[c], out) == out[pos..pos + len];
    }
  }

  /** unshrink_partial_clear() on the slots. */
  ghost predicate ClearedSlots(s: seq<CodeSlot>, s': seq<CodeSlot>, t: Table)
    requires |s| == MAX_CODE + 1
  {
    && |s'| == |s|
    && forall c :: 0 <= c <= MAX_CODE ==>
         s'[c] == if c <= CONTROL_CODE || c in TablePrefixes(t) then s[c] else s[c].(prefix := INVALID_CODE)
  }

  lemma SlotCleared(s: seq<CodeSlot>, s': seq<CodeSlot>, t: Table, out: seq<byte>, c: nat)
    requires Sound(s, t, out) && ClearedSlots(s, s', t) && c in ClearTable(t) && c <= MAX_CODE
    ensures SlotOk(s', ClearTable(t), out, c)
  {
    hide Spells, WindowOf;
    assert SlotOk(s, t, out, c);
    if Known(s, t, c) {
      SpellsCleared(t, c, WindowOf(s[c], out));
    }
    assert t[c].prefix in TablePrefixes(t);
  }

  lemma SoundCleared(s: seq<CodeSlot>, s': seq<CodeSlot>, t: Table, out: seq<byte>)
    requires Sound(s, t, out) && ClearedSlots(s, s', t)
    ensures Sound(s', ClearTable(t), out)
    ensures QueueOk(ClearTable(t), FreeFor(TablePrefixes(t)))
  {
    hide Spells, WindowOf, SlotOk, FreeFor;
    AboutFree(TablePrefixes(t));
    forall c | c in ClearTable(t)
      ensures SlotOk(s', ClearTable(t), out, c)
    {
      SlotCleared(s, s', t, out, c);
    }
  }

  lemma PrevCleared(s: seq<CodeSlot>, s': seq<CodeSlot>, t: Table, q: seq<nat>, out: seq<byte>, p: Previous)
    requires Sound(s, t, out) && ClearedSlots(s, s', t) && PrevOk(s, t, q, out, p)
    ensures PrevOk(s', ClearTable(t), FreeFor(TablePrefixes(t)), out, p)
  {
    var t' := ClearTable(t);
    AboutFree(TablePrefixes(t));
    if p.code <= 255 || p.code in t' {
      SpellsCleared(t, p.code, p.last);
    } else {
      forall c | c in t'
        ensures t'[c].prefix !in FreeFor(TablePrefixes(t))
      {
        assert t[c].prefix in TablePrefixes(t);
      }
    }
  }

  // ---------------------------------------------------------------- looking up a code

  /** The code to be added next, as the decompressor adds it when it meets the case KwKwK. */
  function WithPending(t: Table, q: seq<nat>, p: Previous): Table
    requires q != [] && p.Ok()
  {
    t[q[0] := p.Extended(p.last[0])]
  }

  ghost predicate SpellsNothing(t: Table, c: nat) {
    forall s :: !Spells(t, c, s)
  }

  /** Codes that are absent or their own prefix stand for nothing. */
  lemma NothingSpelled(t: Table, c: nat)
    requires c > 255 && (c !in t || SelfPrefix(t, c))
    ensures SpellsNothing(t, c)
  {
    forall s
      ensures !Spells(t, c, s)
    {
      if c in t && c > CONTROL_CODE {
        SelfPrefixSpellsNothing(t, c, s);
      }
    }
  }

  lemma NothingFromPrefix(t: Table, c: nat)
    requires c > 255 && c in t && SpellsNothing(t, t[c].prefix)
    ensures SpellsNothing(t, c)
  {
  }

  /** A code to be added for a previous code that is gone stands for nothing. */
  lemma PendingFromNothing(s: seq<CodeSlot>, t: Table, q: seq<nat>, out: seq<byte>, p: Previous)
    requires |s| == MAX_CODE + 1 && QueueOk(t, q) && PrevOk(s, t, q, out, p) && q != []
    requires p.code > 255 && p.code !in t
    ensures SpellsNothing(WithPending(t, q, p), q[0])
  {
    var t' := WithPending(t, q, p);
    assert q[0] in q;
    NothingSpelled(t', p.code);
    NothingFromPrefix(t', q[0]);
  }

  /** A code that is neither usable nor about to be added stands for nothing, with or without the
      pending code. */
  lemma UnusableCode(s: seq<CodeSlot>, t: Table, q: seq<nat>, out: seq<byte>, c: nat, e: Entry, t': Table)
    requires Sound(s, t, out) && 255 < c <= MAX_CODE && (q != [] ==> q[0] !in t)
    requires t' == t || (q != [] && t' == t[q[0] := e])
    requires q != [] && t' != t ==> c != q[0]
    requires c !in t || SelfPrefix(t, c)
             || (s[c].len == UNKNOWN_LEN && t[c].prefix !in t && (t' != t ==> t[c].prefix != q[0]))
    ensures SpellsNothing(t', c)
  {
    if c !in t || SelfPrefix(t, c) {
      NothingSpelled(t', c);
    } else {
      assert SlotOk(s, t, out, c);
      NothingSpelled(t', t[c].prefix);
      NothingFromPrefix(t', c);
    }
  }

  /** A code of unknown length stands for the string of its prefix and its own byte. */
  lemma ResolvedString(s: seq<CodeSlot>, t: Table, out: seq<byte>, c: nat)
    requires Sound(s, t, out) && c in t && !SelfPrefix(t, c) && s[c].len == UNKNOWN_LEN && t[c].prefix in t
    ensures var x := s[t[c].prefix];
            && Known(s, t, t[c].prefix) && x.lastDstPos + x.len <= |out|
            && Spells(t, c, WindowOf(x, out) + [s[c].ext])
  {
    assert SlotOk(s, t, out, c);
    var p := t[c].prefix;
    assert SlotOk(s, t, out, p);
    SpellsNext(t, p, WindowOf(s[p], out), c, s[c].ext);
  }

  /** Outputting a code of unknown length gives it a length and a place.  The output is `out`, which
      may hold the first byte of the new string already, followed by the rest of that string. */
  lemma SoundResolved(s: seq<CodeSlot>, t: Table, out: seq<byte>, c: nat, pos: nat, after: seq<byte>)
    requires Sound(s, t, out) && c in t && !SelfPrefix(t, c) && s[c].len == UNKNOWN_LEN && t[c].prefix in t
    requires pos <= |out| <= |after| && after[..|out|] == out && s[t[c].prefix].len < MAX_STRING
    requires var x := s[t[c].prefix];
             x.lastDstPos + x.len <= |out| ==> after[pos..] == WindowOf(x, out) + [s[c].ext]
    ensures var len := s[t[c].prefix].len + 1;
            && |after| == pos + len && Spells(t, c, after[pos..])
            && Sound(s[c := s[c].(len := len, lastDstPos := pos)], t, after)
  {
    hide Spells;
    assert SlotOk(s, t, out, c);
    ResolvedString(s, t, out, c);
    SoundMore(s, t, out, after[|out|..]);
    assert after == out + after[|out|..];
    assert after[pos..] == after[pos..pos + (s[t[c].prefix].len + 1)];
    SoundMoved(s, t, after, c, s[t[c].prefix].len + 1, pos);
  }

  /** Outputting the string of a code in the table. */
  lemma SoundOutput(s: seq<CodeSlot>, t: Table, out: seq<byte>, after: seq<byte>)
    requires Sound(s, t, out) && |out| <= |after| && after[..|out|] == out
    ensures Sound(s, t, after)
  {
    hide Spells;
    SoundMore(s, t, out, after[|out|..]);
    assert after == out + after[|out|..];
  }

  /** What is spelled in the table, with or without the pending code, is spelled at lookup. */
  lemma InLookup(d: Dict, p: Previous, t': Table, c: nat, s: seq<byte>)
    requires p.Ok() && QueueOk(d.table, d.queue) && Spells(t', c, s)
    requires t' == d.table || (d.queue != [] && t' == WithPending(d.table, d.queue, p))
    ensures Spells(Lookup(d, p), c, s)
  {
    if d.queue != [] && t' == d.table {
      assert d.queue[0] in d.queue;
      SpellsExtended(t', Lookup(d, p), c, s);
    }
  }

  /** The string of a code of unknown length, as it is looked up. */
  lemma ResolvedLookup(s: seq<CodeSlot>, t': Table, sofar: seq<byte>, c: nat, d: Dict, p: Previous) returns (str: seq<byte>)
    requires Sound(s, t', sofar) && c in t' && !SelfPrefix(t', c) && s[c].len == UNKNOWN_LEN && t'[c].prefix in t'
    requires p.Ok() && QueueOk(d.table, d.queue)
    requires t' == d.table || (d.queue != [] && t' == WithPending(d.table, d.queue, p))
    ensures Spells(Lookup(d, p), c, str) && |str| == s[t'[c].prefix].len + 1 <= MAX_STRING
  {
    ResolvedString(s, t', sofar, c);
    str := WindowOf(s[t'[c].prefix], sofar) + [s[c].ext];
    StringFits(t', c, str);
    InLookup(d, p, t', c, str);
  }

  /** Giving a code of unknown length a place leaves the slot of p, and the pending slot, as they are. */
  lemma PrevKept(s: seq<CodeSlot>, s': seq<CodeSlot>, t: Table, q: seq<nat>, out: seq<byte>, p: Previous, c: nat)
    requires |s| == MAX_CODE + 1 && PrevOk(s, t, q, out, p) && c <= MAX_CODE && s[c].len == UNKNOWN_LEN
    requires |s'| == |s| && s' == s[c := s'[c]]
    ensures PrevOk(s', t, q, out, p) && c != p.code
    ensures forall n, b :: 0 <= n && b in p.last ==> NewSlot(s', t, p, n, b) == NewSlot(s, t, p, n, b)
  {
  }

  /** What a code whose length is known stands for: its window, also as it is looked up. */
  lemma KnownLookup(s: seq<CodeSlot>, t': Table, sofar: seq<byte>, c: nat, d: Dict, p: Previous) returns (str: seq<byte>)
    requires Sound(s, t', sofar) && Known(s, t', c) && p.Ok() && QueueOk(d.table, d.queue)
    requires t' == d.table || (d.queue != [] && t' == WithPending(d.table, d.queue, p))
    ensures Spells(Lookup(d, p), c, str) && |str| == s[c].len
  {
    assert SlotOk(s, t', sofar, c);
    str := WindowOf(s[c], sofar);
    InLookup(d, p, t', c, str);
  }

  /** The verification walk of hwunshrink(): one step to the prefix shortens a string by its last byte. */
  lemma WalkStep(s: seq<CodeSlot>, t: Table, out: seq<byte>, c: nat, str: seq<byte>)
    requires Sound(s, t, out) && Spells(t, c, str) && s[c].len == |str| < UNKNOWN_LEN && c <= MAX_CODE
    ensures s[c].ext == str[|str| - 1]
    ensures |str| > 1 ==> s[c].prefix <= MAX_CODE && s[s[c].prefix].len == |str| - 1
                          && Spells(t, s[c].prefix, str[..|str| - 1])
  {
    if |str| > 1 {
      NotSelfPrefix(t, c, str);
      assert SlotOk(s, t, out, c);
      var p := t[c].prefix;
      if p > 255 {
        assert SlotOk(s, t, out, p);
        SpellsUnique(t, p, WindowOf(s[p], out), str[..|str| - 1]);
      } else {
        SpellsUnique(t, p, [p], str[..|str| - 1]);
      }
    }
  }

  /** The table after the step: with the code for p and the first byte of the new string, if there was
      a code left. */
  lemma AfterStep(s: seq<CodeSlot>, d: Dict, out: seq<byte>, p: Previous, c: nat, str: seq<byte>)
    requires d.Ok() && QueueOk(d.table, d.queue) && str != [] && c <= MAX_CODE && IsCode(c)
    requires var d' := d.Added(p.Extended(str[0]));
             && Sound(s, d'.table, out + str) && Spells(d'.table, c, str)
    requires s[c].len == |str|
    ensures var d' := d.Added(p.Extended(str[0]));
            var s' := s[c := s[c].(lastDstPos := |out|)];
            && Sound(s', d'.table, out + str) && QueueOk(d'.table, d'.queue)
            && PrevOk(s', d'.table, d'.queue, out + str, Previous(c, str))
  {
    hide Spells;
    var d' := d.Added(p.Extended(str[0]));
    var s' := s[c := s[c].(lastDstPos := |out|)];
    StringFits(d'.table, c, str);
    SpellsCode(d'.table, c, str);
    assert (out + str)[|out|..|out| + |str|] == str;
    if c in d'.table {
      NotSelfPrefix(d'.table, c, str);
      assert SlotOk(s, d'.table, out + str, c);
    }
    SoundMoved(s, d'.table, out + str, c, s[c].len, |out|);
    assert s' == s[c := s[c].(len := s[c].len, lastDstPos := |out|)];
    assert forall k :: k in d'.queue ==> k in d.queue;
    if d.queue != [] {
      assert d.queue[0] !in d'.queue;
    }
  }

  /** The first code, a literal, gets its place. */
  lemma SoundFirst(s: seq<CodeSlot>, t: Table, q: seq<nat>, code: byte)
    requires Sound(s, t, []) && QueueOk(t, q)
    ensures var s' := s[code := s[code].(lastDstPos := 0)];
            Sound(s', t, [code]) && PrevOk(s', t, q, [code], Previous(code, [code]))
  {
    assert Spells(t, code, [code]);
    assert s[code].len == 1 && forall k :: k in t ==> CONTROL_CODE < k <= MAX_CODE;
    FirstSound(s, t, code);
    hide Spells, Sound;
  }

  lemma FirstSound(s: seq<CodeSlot>, t: Table, code: byte)
    requires Sound(s, t, [])
    ensures Sound(s[code := s[code].(lastDstPos := 0)], t, [code])
  {
    SoundMore(s, t, [], [code]);
    assert [] + [code] == [code];
    assert s[code].(lastDstPos := 0) == s[code].(len := 1, lastDstPos := 0) && code !in t;
    hide Spells, Sound;
    SoundMoved(s, t, [code], code, 1, 0);
  }

  /** What codetab_init() does: literal bytes stand for themselves, all other codes are invalid. */
  predicate AreNew(s: seq<CodeSlot>) {
    && |s| == MAX_CODE + 1
    && forall c :: 0 <= c <= MAX_CODE ==> s[c] == if c <= 255 then CodeSlot(c, c, 1, 0) else CodeSlot(INVALID_CODE, 0, 0, 0)
  }

  lemma SoundNew(s: seq<CodeSlot>, d: Dict, out: seq<byte>)
    requires AreNew(s) && d == NewDict() && out == []
    ensures |s| == MAX_CODE + 1 && Sound(s, d.table, out) && QueueOk(d.table, d.queue)
  {
    hide FreeFor;
    AboutFree({});
  }
}
