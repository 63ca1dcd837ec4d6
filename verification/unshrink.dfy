/** hwunshrink() and its helpers (hwzip/shrink.c, lines 261-585), updated in place. */
module UnshrinkCodec {
  import opened Bits
  import opened Bitstream
  import opened Lzw
  import opened Outcome
  import opened CodeTable
  import opened Copying
  import ShrinkCodec

  // ---------------------------------------------------------------- copying within the output

  /** copy_from_prev_pos(): copies len bytes from prevPos to dstPos, eight at a time where there is
      room to run over; what lies before dstPos stays as it is.  The source may run one byte into the
      destination when that byte is in place already. */
  method CopyFromPrevPos(dst: array<byte>, prevPos: nat, dstPos: nat, len: nat)
    requires prevPos < dstPos && 0 < len && dstPos + len <= dst.Length
    requires prevPos + len <= dstPos || (prevPos + len == dstPos + 1 && dst[prevPos] == dst[dstPos])
    modifies dst
    ensures dst[..dstPos] == old(dst[..dstPos])
    ensures dst[dstPos..dstPos + len] == old(dst[prevPos..prevPos + len])
  {
    if RoundUp8(len) > dst.Length - dstPos {
      CopyBytes(dst, dstPos, dst[prevPos..prevPos + len]);
      return;
    }
    SloppyCopy(dst, prevPos, dstPos, len);
  }

  // ---------------------------------------------------------------- the decompressor

  /** codetab_init() */
  method NewCodetab() returns (codetab: array<CodeSlot>)
    ensures fresh(codetab) && codetab.Length == MAX_CODE + 1 && AreNew(codetab[..])
  {
    codetab := new CodeSlot[MAX_CODE + 1](i => if 0 <= i <= 255 then CodeSlot(i, i, 1, 0) else CodeSlot(INVALID_CODE, 0, 0, 0));
  }

  /** The local variables of hwunshrink(). */
  class Decompressor {
    const codetab: array<CodeSlot>
    const queue: ShrinkCodec.CodeQueue
    const input: IStream
    const dst: array<byte>
    var codeSize: nat
    /** The codes in the table. */
    ghost var table: Table

    ghost predicate Valid()
      reads this, codetab, queue, queue.codes, input
    {
      && Apart() && queue.Valid() && input.Valid()
      && codetab.Length == MAX_CODE + 1 && MIN_CODE_SIZE <= codeSize <= MAX_CODE_SIZE
    }

    ghost predicate Apart() {
      && (queue as object) != input && (this as object) != queue && (this as object) != input
      && (codetab as object) != queue.codes && (codetab as object) != dst && (queue.codes as object) != dst
    }

    /** The dictionary, as a state of the model. */
    ghost function State(): Dict
      reads this, queue
    {
      Dict(codeSize, table, queue.left)
    }

    /** The initial state; the code table and the queue are new ones. */
    constructor (codetab: array<CodeSlot>, queue: ShrinkCodec.CodeQueue, input: IStream, dst: array<byte>)
      requires queue.left == FreeFor({})
      ensures this.codetab == codetab && this.queue == queue && this.input == input && this.dst == dst
      ensures codeSize == MIN_CODE_SIZE && State() == NewDict()
    {
      hide FreeFor;
      this.codetab, this.queue, this.input, this.dst := codetab, queue, input, dst;
      codeSize := MIN_CODE_SIZE;
      table := map[];
    }

    /** The first loop of unshrink_partial_clear(): the codes that occur as a prefix. */
    method ScanPrefixes(ghost out: seq<byte>) returns (isPrefix: array<bool>)
      requires codetab.Length == MAX_CODE + 1 && Sound(codetab[..], table, out)
      ensures fresh(isPrefix) && isPrefix.Length == MAX_CODE + 1
      ensures forall c :: 0 <= c <= MAX_CODE ==> (isPrefix[c] <==> c in TablePrefixes(table))
    {
      hide Sound, IsCode, TablePrefixes;
      ghost var slots := codetab[..];
      isPrefix := new bool[MAX_CODE + 1](_ => false);
      var i := CONTROL_CODE + 1;
      while i <= MAX_CODE
        invariant CONTROL_CODE < i <= MAX_CODE + 1 && codetab[..] == slots
        invariant forall c :: 0 <= c <= MAX_CODE && isPrefix[c] ==> c in TablePrefixes(table)
        invariant forall k :: CONTROL_CODE < k < i && k in table && table[k].prefix <= MAX_CODE ==> isPrefix[table[k].prefix]
      {
        assert slots[i] == codetab[i];
        ScannedCode(slots, table, out, i);
        if codetab[i].prefix != INVALID_CODE {
          isPrefix[codetab[i].prefix] := true;
        }
        i := i + 1;
      }
      forall c | c in TablePrefixes(table)
        ensures c <= MAX_CODE && isPrefix[c]
      {
        var k := PrefixOf(slots, table, out, c);
      }
    }

    /** unshrink_partial_clear() */
    method PartialClear(ghost out: seq<byte>, ghost p: Previous)
      requires Valid() && Sound(codetab[..], table, out) && QueueOk(table, queue.left)
      modifies this, codetab, queue, queue.codes
      ensures Valid() && State() == old(State()).Cleared()
      ensures Sound(codetab[..], table, out) && QueueOk(table, queue.left)
      ensures old(PrevOk(codetab[..], table, queue.left, out, p)) ==> PrevOk(codetab[..], table, queue.left, out, p)
    {
      ghost var s, t, q := codetab[..], table, queue.left;
      var isPrefix := ScanPrefixes(out);
      ClearSlots(isPrefix);
      queue.Fill(isPrefix[..], TablePrefixes(table));
      table := ClearTable(table);
      SoundCleared(s, codetab[..], t, out);
      if PrevOk(s, t, q, out, p) {
        PrevCleared(s, codetab[..], t, q, out, p);
      }
    }

    /** The second loop of unshrink_partial_clear(). */
    method ClearSlots(isPrefix: array<bool>)
      requires codetab.Length == MAX_CODE + 1 && isPrefix.Length == MAX_CODE + 1
      requires forall c :: 0 <= c <= MAX_CODE ==> (isPrefix[c] <==> c in TablePrefixes(table))
      modifies codetab
      ensures ClearedSlots(old(codetab[..]), codetab[..], table)
    {
      var i := CONTROL_CODE + 1;
      while i <= MAX_CODE
        invariant CONTROL_CODE < i <= MAX_CODE + 1
        invariant forall c :: 0 <= c <= MAX_CODE ==>
                    codetab[c] == if c <= CONTROL_CODE || c >= i || c in TablePrefixes(table) then old(codetab[c])
                                  else old(codetab[c]).(prefix := INVALID_CODE)
      {
        if !isPrefix[i] {
          codetab[i] := codetab[i].(prefix := INVALID_CODE);
        }
        i := i + 1;
      }
    }

    /** Reads codeSize bits. */
    method ReadBits() returns (ok: bool, value: uint16)
      requires Valid()
      modifies input
      ensures Valid() && State() == old(State()) && queue.left == old(queue.left)
      ensures ok == (codeSize <= |old(input.Rest())|)
      ensures ok ==> value == FromBits(old(input.Rest())[..codeSize]) && value <= MAX_CODE
                     && input.Rest() == old(input.Rest())[codeSize..]
      ensures !ok ==> input.Rest() == old(input.Rest())
    {
      var bits := input.PeekBits();
      WindowRead(input.Rest(), 64 - input.bitpos % 8, codeSize);
      LargestCode();
      Pow2Mono(codeSize, MAX_CODE_SIZE);
      value := Lsb(bits, codeSize);
      ok := input.Advance(codeSize);
    }

    /** Carries out a control, if it is known. */
    method Obey(control: uint16, ghost out: seq<byte>, ghost p: Previous) returns (ok: bool)
      requires Valid() && Sound(codetab[..], table, out) && QueueOk(table, queue.left)
      modifies this, codetab, queue, queue.codes
      ensures Valid() && Sound(codetab[..], table, out) && QueueOk(table, queue.left)
      ensures old(PrevOk(codetab[..], table, queue.left, out, p)) ==> PrevOk(codetab[..], table, queue.left, out, p)
      ensures var d := old(State());
              if control == INC_CODE_SIZE && d.size < MAX_CODE_SIZE then ok && State() == d.(size := d.size + 1)
              else if control == PARTIAL_CLEAR then ok && State() == d.Cleared()
              else !ok
    {
      ok := true;
      if control == INC_CODE_SIZE && codeSize < MAX_CODE_SIZE {
        codeSize := codeSize + 1;
      } else if control == PARTIAL_CLEAR {
        PartialClear(out, p);
      } else {
        ok := false;
      }
    }

    /** read_code(): more is false at the end of the stream, and code is INVALID_CODE on bad data. The
        dictionary is changed as in the model, and stays in order. */
    method ReadCode(ghost out: seq<byte>, ghost p: Previous) returns (more: bool, code: uint16)
      requires Valid() && Sound(codetab[..], table, out) && QueueOk(table, queue.left)
      modifies this, codetab, queue, queue.codes, input
      ensures Valid()
      ensures var r := Lzw.ReadCode(old(input.Rest()), old(State()));
              && more == !r.End?
              && (r.End? ==> input.Rest() == r.rest)
              && (r.Bad? ==> code == INVALID_CODE)
              && (r.Code? ==> code == r.code && code <= MAX_CODE && input.Rest() == r.rest && State() == r.dict)
      ensures Sound(codetab[..], table, out) && QueueOk(table, queue.left)
      ensures old(PrevOk(codetab[..], table, queue.left, out, p)) ==> PrevOk(codetab[..], table, queue.left, out, p)
      decreases |input.Rest()|
    {
      hide Sound, PrevOk, QueueOk, FromBits, BytesToBits, FreeFor, ClearTable, TablePrefixes, Lzw.ReadCode, Dict.Cleared,
           ShrinkCodec.CodeQueue.Valid;
      ReadCodeIs(input.Rest(), State());
      var ok;
      ok, code := ReadBits();
      if !ok {
        return false, code;
      }
      if code != CONTROL_CODE {
        return true, code;
      }
      var control;
      ok, control := ReadBits();
      if !ok {
        return true, INVALID_CODE;
      }
      ok := Obey(control, out, p);
      if ok {
        more, code := ReadCode(out, p);
      } else {
        return true, INVALID_CODE;
      }
    }

    // -------------------------------------------------------------- output
    //
    // In what follows, `out` is the output so far, p the previous code, and t the table before the next
    // code is added to it.

    ghost predicate Ready(t: Table, out: seq<byte>, p: Previous)
      reads this, codetab, queue, queue.codes, input
    {
      && Valid() && QueueOk(t, queue.left) && PrevOk(codetab[..], t, queue.left, out, p)
    }

    ghost predicate HasOutput(out: seq<byte>)
      reads dst
    {
      |out| < dst.Length && dst[..|out|] == out
    }

    /** The pending code has been added to the table t, and its first byte is in place. */
    ghost predicate Pended(t: Table, out: seq<byte>, p: Previous)
      reads this, codetab, queue
    {
      && codetab.Length == MAX_CODE + 1 && queue.left != [] && queue.left[0] <= MAX_CODE && p.Ok()
      && IsCode(p.code) && |p.last| <= MAX_STRING && (p.code <= 255 || p.code in t)
      && table == WithPending(t, queue.left, p)
      && codetab[queue.left[0]] == NewSlot(codetab[..], t, p, queue.left[0], p.last[0])
    }

    /** The case KwKwK: the code about to be added, n, is used before it is added.  It stands for the
        previous string extended with its first byte, which is put in place at dstPos. */
    method AddPending(n: uint16, prevCode: uint16, dstPos: nat, firstByte: byte, ghost out: seq<byte>, ghost p: Previous)
      requires |out| == dstPos && HasOutput(out) && Ready(table, out, p) && Sound(codetab[..], table, out)
      requires p.code == prevCode && p.last[0] == firstByte && (p.code <= 255 || p.code in table)
      requires queue.left != [] && n as nat == queue.left[0]
      modifies this`table, codetab, dst
      ensures HasOutput(out) && dst[dstPos] == firstByte
      ensures Ready(old(table), out, p) && Pended(old(table), out, p)
      ensures Sound(codetab[..], table, out + [firstByte])
      ensures codetab[..] == old(codetab[..])[n := codetab[n]]
    {
      hide Sound, QueueOk, PrevOk, NewSlot, Spells, BytesToBits, IsCode, ShrinkCodec.CodeQueue.Valid;
      ghost var s := codetab[..];
      NextCode(table, queue.left);
      PrevSlot(s, table, queue.left, out, p);
      SlotIsValid(s, table, out, p.code);
      SoundPended(s, table, queue.left, out, p);
      StoredSlot(s, table, p, n, firstByte);
      ghost var x := NewSlot(s, table, p, n, firstByte);
      codetab[n] := CodeSlot(prevCode, firstByte, codetab[prevCode].len + 1, codetab[prevCode].lastDstPos);
      dst[dstPos] := firstByte;
      table := WithPending(table, queue.left, p);
      assert codetab[..] == s[n := x];
    }

    /** Copies the string of a known code to dstPos; `sofar` is what the table describes: the output so
        far, and when the code was added just before, the one byte in which string and copy overlap. */
    method CopyKnown(code: uint16, dstPos: nat, ghost sofar: seq<byte>)
      requires codetab.Length == MAX_CODE + 1 && codetab as object != dst
      requires HasSofar(sofar, dstPos)
      requires code <= MAX_CODE && Sound(codetab[..], table, sofar) && Known(codetab[..], table, code)
      requires Overlap(codetab[code], sofar, dstPos)
      requires dstPos + codetab[code].len <= dst.Length
      modifies dst
      ensures codetab[code].len > 0 && codetab[code].lastDstPos + codetab[code].len <= |sofar|
      ensures dst[dstPos..dstPos + codetab[code].len] == WindowOf(codetab[code], sofar)
      ensures dst[..|sofar|] == sofar
    {
      assert SlotOk(codetab[..], table, sofar, code);
      ghost var x := codetab[code];
      assert WindowOf(x, sofar) == dst[x.lastDstPos..x.lastDstPos + x.len];
      CopyFromPrevPos(dst, codetab[code].lastDstPos, dstPos, codetab[code].len);
      SamePrefix(sofar, dst[..|sofar|], dstPos, WindowOf(x, sofar)[0], dst[dstPos..dstPos + x.len]);
    }

    static lemma SamePrefix(sofar: seq<byte>, now: seq<byte>, n: nat, b: byte, w: seq<byte>)
      requires n <= |sofar| == |now| <= n + 1 && now[..n] == sofar[..n] && w != [] && w[0] == b
      requires |sofar| == n + 1 ==> sofar[n] == b && now[n] == w[0]
      ensures now == sofar
    {
      assert sofar == sofar[..n] + sofar[n..];
      assert now == now[..n] + now[n..];
    }

    ghost predicate HasSofar(sofar: seq<byte>, dstPos: nat)
      reads dst
    {
      dstPos < dst.Length && dstPos <= |sofar| <= dstPos + 1 && dst[..|sofar|] == sofar
    }

    /** The place of a code lies before dstPos, but for at most one byte, which is in place. */
    ghost predicate Overlap(x: CodeSlot, sofar: seq<byte>, dstPos: nat) {
      x.lastDstPos < dstPos <= |sofar| && (|sofar| == dstPos + 1 ==> sofar[x.lastDstPos] == sofar[dstPos])
    }

    /** The string of a code has been output after `out`. */
    ghost predicate Written(code: nat, firstByte: byte, len: nat, out: seq<byte>)
      reads this, codetab, dst
    {
      && codetab.Length == MAX_CODE + 1 && IsCode(code)
      && HasOutput(out) && 0 < len <= dst.Length - |out| && firstByte == dst[|out|]
      && Sound(codetab[..], table, dst[..|out| + len]) && Spells(table, code, dst[|out|..|out| + len])
      && codetab[code].len == len
    }

    /** The branch of output_code() for literal bytes. */
    method OutputLiteral(code: byte, dstPos: nat, ghost out: seq<byte>)
      requires |out| == dstPos && HasOutput(out) && Sound(codetab[..], table, out) && codetab as object != dst
      modifies dst
      ensures Written(code, code, 1, out)
    {
      SoundMore(codetab[..], table, out, [code]);
      dst[dstPos] := code;
      assert dst[..dstPos + 1] == out + [code];
      assert dst[dstPos..dstPos + 1] == [code];
      assert codetab[..][code].len == 1;
    }

    /** The branch of output_code() for codes of known length. */
    method OutputKnown(code: uint16, dstPos: nat, ghost out: seq<byte>, ghost sofar: seq<byte>)
      requires |out| == dstPos && codetab.Length == MAX_CODE + 1 && codetab as object != dst
      requires Sound(codetab[..], table, sofar) && HasSofar(sofar, dstPos) && sofar[..dstPos] == out
      requires code <= MAX_CODE && Known(codetab[..], table, code) && codetab[code].len <= dst.Length - dstPos
      requires Overlap(codetab[code], sofar, dstPos)
      modifies dst
      ensures Written(code, dst[dstPos], codetab[code].len, out) && HasSofar(sofar, dstPos)
    {
      hide Spells, BytesToBits;
      ghost var x := codetab[code];
      assert SlotOk(codetab[..], table, sofar, code);
      CopyKnown(code, dstPos, sofar);
      ghost var after := dst[..dstPos + x.len];
      assert after[..|sofar|] == sofar == dst[..|sofar|];
      assert after[dstPos] == WindowOf(x, sofar)[0];
      SoundOutput(codetab[..], table, sofar, after);
    }

    /** The branch of output_code() for codes of unknown length: the string of the prefix, and one byte
        more.  The code then gets a length and a place. */
    method OutputResolved(code: uint16, dstPos: nat, ghost out: seq<byte>, ghost sofar: seq<byte>)
      returns (len: nat)
      requires |out| == dstPos && codetab.Length == MAX_CODE + 1 && codetab as object != dst
      requires Sound(codetab[..], table, sofar) && HasSofar(sofar, dstPos) && sofar[..dstPos] == out
      requires code <= MAX_CODE && code as nat in table && !SelfPrefix(table, code) && codetab[code].len == UNKNOWN_LEN
      requires codetab[code].prefix as nat in table
      requires var x := codetab[codetab[code].prefix];
               Overlap(x, sofar, dstPos) && dstPos + x.len + 1 <= dst.Length && x.len < MAX_STRING
      modifies dst, codetab
      ensures Written(code, dst[dstPos], len, out) && HasSofar(sofar, dstPos)
      ensures codetab[..] == old(codetab[..])[code := codetab[code]]
    {
      hide Spells, BytesToBits;
      ghost var s := codetab[..];
      var prefixCode := codetab[code].prefix;
      ghost var x := codetab[prefixCode];
      ResolvedString(s, table, sofar, code);
      len := codetab[prefixCode].len + 1;
      CopyKnown(prefixCode, dstPos, sofar);
      dst[dstPos + len - 1] := codetab[code].ext;
      ghost var after := dst[..dstPos + len];
      assert after[dstPos..] == WindowOf(x, sofar) + [codetab[code].ext];
      assert after[..|sofar|] == sofar == dst[..|sofar|];
      assert after[dstPos] == WindowOf(x, sofar)[0];
      SoundResolved(s, table, sofar, code, dstPos, after);
      codetab[code] := codetab[code].(len := len, lastDstPos := dstPos);
      assert after[dstPos..] == dst[dstPos..dstPos + len];
    }

    /** The strings codes stand for when they are looked up. */
    ghost function Strings(t: Table, p: Previous): Table
      requires p.Ok()
      reads this, queue
    {
      Lookup(Dict(codeSize, t, queue.left), p)
    }

    /** The state after output_code(). */
    ghost predicate OutputDone(code: nat, firstByte: byte, len: nat, out: seq<byte>, p: Previous, t: Table)
      reads this, codetab, queue, queue.codes, input, dst
    {
      && Written(code, firstByte, len, out) && Ready(t, out, p)
      && (table == t || (firstByte == p.last[0] && Pended(t, out, p)))
    }

    static ghost predicate TooLong(t: Table, code: nat, room: int) {
      exists s :: Spells(t, code, s) && |s| > room
    }

    /** A code of unknown length whose prefix is in the table. */
    ghost predicate Resolvable(code: nat, sofar: seq<byte>, dstPos: nat)
      reads this, codetab, dst
    {
      && codetab.Length == MAX_CODE + 1 && Sound(codetab[..], table, sofar) && HasSofar(sofar, dstPos)
      && code <= MAX_CODE && code in table && !SelfPrefix(table, code) && codetab[code].len == UNKNOWN_LEN
      && codetab[code].prefix as nat in table && codetab[code].prefix <= MAX_CODE
      && Overlap(codetab[codetab[code].prefix], sofar, dstPos)
    }

    /** With or without the pending code in the table. */
    ghost predicate MaybePended(t: Table, out: seq<byte>, sofar: seq<byte>, p: Previous)
      reads this, codetab, queue
      requires p.Ok()
    {
      if table == t then sofar == out else Pended(t, out, p) && sofar == out + [p.last[0]]
    }

    /** The prefix of a code of unknown length may be the code about to be added, which is then added,
        or one that was added since; otherwise the code stands for nothing. */
    method FindPrefix(code: uint16, dstPos: nat, prevCode: uint16, firstByte: byte, ghost out: seq<byte>, ghost p: Previous)
      returns (found: bool, ghost sofar: seq<byte>)
      requires |out| == dstPos && HasOutput(out) && Ready(table, out, p) && Sound(codetab[..], table, out)
      requires p.code == prevCode && p.last[0] == firstByte
      requires code <= MAX_CODE && code as nat in table && !SelfPrefix(table, code) && codetab[code].len == UNKNOWN_LEN
      requires queue.left == [] || code as nat != queue.left[0]
      modifies this`table, codetab, dst
      ensures !found ==> SpellsNothing(Strings(old(table), p), code)
      ensures found ==> Ready(old(table), out, p) && MaybePended(old(table), out, sofar, p)
                        && sofar[..dstPos] == out && Resolvable(code, sofar, dstPos)
    {
      hide Sound, PrevOk, Spells, BytesToBits, QueueOk, ShrinkCodec.CodeQueue.Valid, NewSlot, Known, SpellsNothing;
      ghost var t, s := table, codetab[..];
      KnownPrefix(s, t, out, code);
      PrevSlot(s, t, queue.left, out, p);
      if queue.left != [] {
        NextCode(t, queue.left);
      }
      sofar := out;
      var prefixCode := codetab[code].prefix;
      var next := queue.Next();
      if prefixCode == next {
        PendingIsPrefix(s, t, queue.left, out, p, code);
        AddPending(prefixCode, prevCode, dstPos, firstByte, out, p);
        sofar := out + [firstByte];
        PendingSlot(codetab[..], t, queue.left, out, p);
      } else if codetab[prefixCode].prefix == INVALID_CODE {
        UnusableCode(s, t, queue.left, out, code, p.Extended(p.last[0]), Strings(t, p));
        return false, out;
      }
      found := true;
    }

    /** The branch of output_code() for codes of unknown length. */
    method OutputUnknown(code: uint16, dstPos: nat, prevCode: uint16, firstByte: byte,
                         ghost out: seq<byte>, ghost p: Previous) returns (status: Status<(byte, nat)>)
      requires |out| == dstPos && HasOutput(out) && Ready(table, out, p) && Sound(codetab[..], table, out)
      requires p.code == prevCode && p.last[0] == firstByte
      requires code <= MAX_CODE && code as nat in table && !SelfPrefix(table, code) && codetab[code].len == UNKNOWN_LEN
      requires queue.left == [] || code as nat != queue.left[0]
      modifies this`table, codetab, dst
      ensures status.Err? ==> SpellsNothing(Strings(old(table), p), code)
      ensures status.Full? ==> TooLong(Strings(old(table), p), code, dst.Length - dstPos)
      ensures status.Ok? ==> OutputDone(code, status.value.0, status.value.1, out, p, old(table))
    {
      hide Spells, BytesToBits, Sound, QueueOk, PrevOk, SpellsNothing, ShrinkCodec.CodeQueue.Valid;
      ghost var t := table;
      var found;
      ghost var sofar;
      found, sofar := FindPrefix(code, dstPos, prevCode, firstByte, out, p);
      if !found {
        return Err;
      }
      ghost var s := codetab[..];
      PrevSlot(s, t, queue.left, out, p);
      PrefixIs(s, table, sofar, code);
      ghost var str := ResolvedLookup(s, table, sofar, code, Dict(codeSize, t, queue.left), p);
      var prefixCode := codetab[code].prefix;
      var len := codetab[prefixCode].len + 1;
      if dst.Length - dstPos < len {
        return Full;
      }
      len := OutputResolved(code, dstPos, out, sofar);
      PrevKept(s, codetab[..], t, queue.left, out, p, code);
      assert |sofar| > dstPos ==> dst[dstPos] == sofar[dstPos];
      status := Ok((dst[dstPos], len));
    }

    /** output_code() */
    method OutputCode(code: uint16, dstPos: nat, prevCode: uint16, firstByte: byte,
                      ghost out: seq<byte>, ghost sofar: seq<byte>, ghost p: Previous, ghost t: Table)
      returns (status: Status<(byte, nat)>)
      requires IsCode(code) && |out| == dstPos && HasOutput(out) && Ready(t, out, p)
      requires p.code == prevCode && p.last[0] == firstByte && MaybePended(t, out, sofar, p)
      requires Sound(codetab[..], table, sofar) && HasSofar(sofar, dstPos)
      requires if queue.left != [] && code as nat == queue.left[0] then table != t else table == t
      modifies this`table, codetab, dst
      ensures status.Err? ==> SpellsNothing(Strings(t, p), code)
      ensures status.Full? ==> TooLong(Strings(t, p), code, dst.Length - dstPos)
      ensures status.Ok? ==> OutputDone(code, status.value.0, status.value.1, out, p, t)
    {
      hide Spells, BytesToBits;
      ghost var d := Dict(codeSize, t, queue.left);
      if code <= 255 {
        assert table == t by { assert queue.left != [] ==> queue.left[0] in queue.left; }
        OutputLiteral(code, dstPos, out);
        return Ok((code, 1));
      }
      if codetab[code].prefix == INVALID_CODE || codetab[code].prefix == code {
        OutputInvalid(code, out, sofar, p, t);
        return Err;
      }
      assert SlotOk(codetab[..], table, sofar, code);
      if codetab[code].len != UNKNOWN_LEN {
        ghost var str := KnownLookup(codetab[..], table, sofar, code, d, p);
        if dst.Length - dstPos < codetab[code].len {
          return Full;
        }
        if table != t {
          PendingSlot(codetab[..], t, queue.left, out, p);
        }
        OutputKnown(code, dstPos, out, sofar);
        assert |sofar| > dstPos ==> dst[dstPos] == sofar[dstPos];
        return Ok((dst[dstPos], codetab[code].len));
      }
      status := OutputUnknown(code, dstPos, prevCode, firstByte, out, p);
    }

    lemma OutputInvalid(code: uint16, out: seq<byte>, sofar: seq<byte>, p: Previous, t: Table)
      requires 255 < code <= MAX_CODE && Ready(t, out, p) && MaybePended(t, out, sofar, p)
      requires Sound(codetab[..], table, sofar)
      requires if queue.left != [] && code as nat == queue.left[0] then table != t else table == t
      requires codetab[code].prefix == INVALID_CODE || codetab[code].prefix == code
      ensures SpellsNothing(Strings(t, p), code)
    {
      if table == t {
        assert queue.left != [] ==> queue.left[0] in queue.left;
        UnusableCode(codetab[..], t, queue.left, sofar, code, p.Extended(p.last[0]), Strings(t, p));
      } else {
        assert false;
      }
    }

    /** The verification walk: lengths and bytes found by walking the prefixes agree with the output.
        Its assertions are those of the program. */
    method VerifyWalk(code: uint16, dstPos: nat, len: nat)
      requires codetab.Length == MAX_CODE + 1 && IsCode(code) && 0 < len && dstPos + len <= dst.Length
      requires Sound(codetab[..], table, dst[..dstPos + len]) && Spells(table, code, dst[dstPos..dstPos + len])
      requires codetab[code].len == len < UNKNOWN_LEN
    {
      var c: uint16 := code;
      var i := 0;
      while i < len
        invariant i <= len
        invariant i < len ==> c <= MAX_CODE && Spells(table, c, dst[dstPos..dstPos + len - i]) && codetab[c].len == len - i
      {
        ghost var str := dst[dstPos..dstPos + len - i];
        WalkStep(codetab[..], table, dst[..dstPos + len], c, str);
        assert codetab[c].len == len - i;
        assert codetab[c].ext == dst[dstPos + len - i - 1];
        assert str[..|str| - 1] == dst[dstPos..dstPos + len - (i + 1)];
        c := codetab[c].prefix;
        i := i + 1;
      }
    }

    /** Fills a slot of the code table; with a prefix that is then not in the table, it has no length. */
    method StoreCode(newCode: uint16, prevCode: uint16, firstByte: byte)
      requires codetab.Length == MAX_CODE + 1 && newCode <= MAX_CODE && prevCode <= MAX_CODE
      requires codetab[prevCode].len < UNKNOWN_LEN
      modifies codetab
      ensures var s := old(codetab[..]);
              var x := CodeSlot(prevCode, firstByte, s[prevCode].len + 1, s[prevCode].lastDstPos);
              codetab[..] == s[newCode := if s[newCode := x][prevCode].prefix == INVALID_CODE then x.(len := UNKNOWN_LEN) else x]
    {
      codetab[newCode] := CodeSlot(prevCode, firstByte, codetab[prevCode].len + 1, codetab[prevCode].lastDstPos);
      if codetab[prevCode].prefix == INVALID_CODE {
        codetab[newCode] := codetab[newCode].(len := UNKNOWN_LEN);
      }
    }

    /** Whether the code has been in the table before, for the case KwKwK, or not. */
    static lemma SlotStored(s: seq<CodeSlot>, t: Table, t0: Table, q: seq<nat>, out: seq<byte>, p: Previous, str: seq<byte>, code: nat)
      requires q != [] && str != [] && QueueOk(t, q) && Sound(s, t0, out + str)
      requires |s| == MAX_CODE + 1 && PrevOk(s, t, q, out, p) && IsCode(code) && Spells(t0, code, str) && s[code].len == |str|
      requires IsCode(p.code) && |p.last| <= MAX_STRING && q[0] <= MAX_CODE && code <= MAX_CODE
      requires t0 == t || (t0 == t[q[0] := p.Extended(str[0])] && s[q[0]] == NewSlot(s, t, p, q[0], str[0]))
      ensures var s', t' := s[q[0] := NewSlot(s, t, p, q[0], str[0])], t[q[0] := p.Extended(str[0])];
              Sound(s', t', out + str) && Spells(t', code, str) && s'[code].len == |str|
    {
      hide Spells, Sound, QueueOk, PrevOk, NewSlot, IsCode;
      var s', t' := s[q[0] := NewSlot(s, t, p, q[0], str[0])], t[q[0] := p.Extended(str[0])];
      SpellsCode(t0, code, str);
      NextCode(t, q);
      if t0 == t {
        SoundAdded(s, t, q, out, p, str);
        SpellsExtended(t, t', code, str);
      } else {
        assert s' == s;
      }
    }

    /** The new code after a string has been output: the previous string and its first byte. */
    method AddCode(prevCode: uint16, firstByte: byte, ghost code: nat, ghost len: nat,
                   ghost out: seq<byte>, ghost p: Previous, ghost t: Table)
      requires OutputDone(code, firstByte, len, out, p, t) && p.code == prevCode
      modifies this`table, codetab, queue
      ensures Valid() && State() == Dict(codeSize, t, old(queue.left)).Added(p.Extended(firstByte))
      ensures Written(code, firstByte, len, out)
    {
      hide Spells, BytesToBits, Sound, QueueOk, PrevOk, NewSlot, IsCode, ShrinkCodec.CodeQueue.Valid;
      ghost var s, q, str := codetab[..], queue.left, dst[|out|..|out| + len];
      assert dst[..|out| + len] == out + str;
      PrevSlot(s, t, q, out, p);
      SlotIsValid(s, table, out + str, p.code);
      SlotIsValid(s, table, out + str, code);
      assert s[code].len == len && str[0] == firstByte;
      if q != [] {
        NextCode(t, q);
        StoredSlot(s, t, p, q[0], firstByte);
        SlotStored(s, t, table, q, out, p, str, code);
      }
      var newCode := queue.RemoveNext();
      if newCode != INVALID_CODE {
        StoreCode(newCode, prevCode, firstByte);
        table := t[q[0] := p.Extended(firstByte)];
        assert codetab[..][code].len == len;
      }
    }

    /** One iteration of the loop of hwunshrink(), after a code has been read. */
    method Step(code: uint16, dstPos: nat, prevCode: uint16, firstByte: byte, ghost out: seq<byte>, ghost p: Previous)
      returns (status: Status<(byte, nat)>)
      requires IsCode(code) && |out| == dstPos && HasOutput(out) && Ready(table, out, p)
      requires Sound(codetab[..], table, out) && p.code == prevCode && p.last[0] == firstByte
      modifies this`table, codetab, dst, queue
      ensures status.Err? ==> SpellsNothing(old(Strings(table, p)), code)
      ensures status.Full? ==> TooLong(old(Strings(table, p)), code, dst.Length - dstPos)
      ensures status.Ok? ==> Stepped(code, status.value.0, status.value.1, out, p, old(State()))
    {
      hide Spells, BytesToBits, Sound, PrevOk, SpellsNothing, TooLong, ShrinkCodec.CodeQueue.Valid;
      ghost var d, t, sofar := State(), table, out;
      PrevSlot(codetab[..], table, queue.left, out, p);
      SlotIsValid(codetab[..], table, out, p.code);
      var next := queue.Next();
      if code == next {
        assert queue.left[0] in queue.left;
        if codetab[prevCode].prefix == INVALID_CODE {
          PendingFromNothing(codetab[..], t, queue.left, out, p);
          return Err;
        }
        AddPending(code, prevCode, dstPos, firstByte, out, p);
        sofar := out + [firstByte];
      }
      status := OutputCode(code, dstPos, prevCode, firstByte, out, sofar, p, t);
      if status.Ok? {
        Finish(code, dstPos, prevCode, status.value.0, status.value.1, out, p, t);
      }
    }

    /** The rest of an iteration, after the string has been output. */
    method Finish(code: uint16, dstPos: nat, prevCode: uint16, firstByte: byte, len: nat,
                  ghost out: seq<byte>, ghost p: Previous, ghost t: Table)
      requires |out| == dstPos && OutputDone(code, firstByte, len, out, p, t) && p.code == prevCode
      modifies this`table, codetab, queue
      ensures Stepped(code, firstByte, len, out, p, Dict(codeSize, t, old(queue.left)))
    {
      ghost var d, str := Dict(codeSize, t, queue.left), dst[dstPos..dstPos + len];
      StringFits(table, code, str);
      VerifyWalk(code, dstPos, len);
      AddCode(prevCode, firstByte, code, len, out, p, t);
      MovePlace(code, dstPos, firstByte, len, out, p, d);
    }

    /** The code just output gets its new place. */
    method MovePlace(code: uint16, dstPos: nat, ghost firstByte: byte, ghost len: nat,
                     ghost out: seq<byte>, ghost p: Previous, ghost d: Dict)
      requires |out| == dstPos && Valid() && Written(code, firstByte, len, out) && p.Ok() && d.Ok()
      requires QueueOk(d.table, d.queue) && State() == d.Added(p.Extended(firstByte))
      modifies codetab
      ensures Stepped(code, firstByte, len, out, p, d)
    {
      hide Spells, BytesToBits;
      ghost var str := dst[dstPos..dstPos + len];
      assert dst[..dstPos + len] == out + str;
      AfterStep(codetab[..], d, out, p, code, str);
      codetab[code] := codetab[code].(lastDstPos := dstPos);
    }

    /** A string has been output, and the dictionary is that of the model for the next step. */
    ghost predicate Stepped(code: nat, firstByte: byte, len: nat, out: seq<byte>, p: Previous, d: Dict)
      reads this, codetab, queue, queue.codes, input, dst
    {
      && |out| < dst.Length && dst[..|out|] == out && 0 < len <= dst.Length - |out| && firstByte == dst[|out|]
      && p.Ok() && State() == d.Added(p.Extended(firstByte))
      && var str := dst[|out|..|out| + len];
         && Spells(d.Added(p.Extended(firstByte)).table, code, str)
         && Sound(codetab[..], table, out + str) && Ready(table, out + str, Previous(code, str))
    }

    /** At the head of the loop of hwunshrink(): what is left to do is what the model has left to do. */
    ghost predicate AtHead(dstPos: nat, prevCode: uint16, firstByte: byte, p: Previous, goal: Status<Output>)
      reads this, codetab, queue, queue.codes, input, dst
    {
      && 0 < dstPos <= dst.Length && p.Ok() && p.code == prevCode && p.last[0] == firstByte
      && Ready(table, dst[..dstPos], p) && Sound(codetab[..], table, dst[..dstPos])
      && Decode(input.Rest(), State(), p, dst[..dstPos], dst.Length) == goal
    }

    /** The first code, which must be a literal, is output. */
    method First(code: byte)
      requires Valid() && QueueOk(table, queue.left) && Sound(codetab[..], table, []) && dst.Length > 0
      modifies codetab, dst
      ensures AtHead(1, code, code, Previous(code, [code]),
                     Decode(input.Rest(), State(), Previous(code, [code]), [code], dst.Length))
    {
      ghost var s := codetab[..];
      SoundFirst(s, table, queue.left, code);
      hide Sound, QueueOk, PrevOk;
      dst[0] := code;
      assert dst[..1] == [code];
      codetab[code] := codetab[code].(lastDstPos := 0);
      assert codetab[..] == s[code := s[code].(lastDstPos := 0)];
    }

    /** The state after a code has been read, and what the model has left to do. */
    ghost predicate AfterRead(code: nat, dstPos: nat, prevCode: uint16, firstByte: byte, p: Previous,
                              bits: seq<bool>, d: Dict)
      reads this, codetab, queue, queue.codes, input, dst
    {
      && 0 < dstPos < dst.Length && p.Ok() && p.code == prevCode && p.last[0] == firstByte
      && Ready(table, dst[..dstPos], p) && Sound(codetab[..], table, dst[..dstPos])
      && d.Ok() && Lzw.ReadCode(bits, d) == Code(code, input.Rest(), State())
    }

    /** The code that was read is processed: the result is the loop's next state, or a failure. */
    method Process(code: uint16, dstPos: nat, prevCode: uint16, firstByte: byte,
                   ghost p: Previous, ghost bits: seq<bool>, ghost d: Dict)
      returns (status: Status<(byte, nat)>, ghost p': Previous)
      requires IsCode(code) && AfterRead(code, dstPos, prevCode, firstByte, p, bits, d)
      modifies this`table, codetab, dst, queue
      ensures var goal := Decode(bits, d, p, old(dst[..dstPos]), dst.Length);
              && (status.Err? ==> goal == Err)
              && (status.Full? ==> goal == Full)
              && (status.Ok? ==> AtHead(dstPos + status.value.1, code, status.value.0, p', goal))
    {
      hide Sound, QueueOk, PrevOk, FreeFor, BytesToBits, Lzw.ReadCode, Decode, Spells, ShrinkCodec.CodeQueue.Valid,
           SpellsNothing, TooLong, Written, Pended;
      PrevSpells(codetab[..], table, queue.left, dst[..dstPos], p);
      ghost var out, r := dst[..dstPos], Lzw.ReadCode(bits, d);
      p' := p;
      status := Step(code, dstPos, prevCode, firstByte, out, p);
      if status.Ok? {
        ghost var str := dst[dstPos..dstPos + status.value.1];
        p' := Previous(code, str);
        assert dst[..dstPos + status.value.1] == out + str;
        StepFound(bits, d, p, out, dst.Length, r, str);
      } else {
        StepFailed(bits, d, p, out, dst.Length, r);
      }
    }

    static lemma StepFailed(bits: seq<bool>, d: Dict, p: Previous, out: seq<byte>, cap: nat, r: Reading)
      requires d.Ok() && p.Ok() && r == Lzw.ReadCode(bits, d) && r.Code? && |out| < cap
      ensures SpellsNothing(Lookup(r.dict, p), r.code) ==> Decode(bits, d, p, out, cap) == Err
      ensures TooLong(Lookup(r.dict, p), r.code, cap - |out|) ==> Decode(bits, d, p, out, cap) == Full
    {
      if s :| Spells(Lookup(r.dict, p), r.code, s) && |s| > cap - |out| {
        DecodeTooLong(bits, d, p, out, cap, s);
      }
    }

    static lemma StepFound(bits: seq<bool>, d: Dict, p: Previous, out: seq<byte>, cap: nat, r: Reading, s: seq<byte>)
      requires d.Ok() && p.Ok() && r == Lzw.ReadCode(bits, d) && r.Code? && s != []
      requires QueueOk(r.dict.table, r.dict.queue)
      requires Spells(r.dict.Added(p.Extended(s[0])).table, r.code, s) && |out| + |s| <= cap
      requires p.code <= 255 || p.code in r.dict.table ==> Spells(r.dict.table, p.code, p.last)
      ensures Decode(bits, d, p, out, cap)
           == Decode(r.rest, r.dict.Added(p.Extended(s[0])), Previous(r.code, s), out + s, cap)
    {
      var q := r.dict.queue;
      if q != [] {
        assert q[0] in q;
        SpellsPending(r.dict.table, q[0], p, s[0], r.code, s);
      }
      DecodeStep(bits, d, p, out, cap, r, s);
    }

    /** The loop has come to the end that the model comes to. */
    ghost predicate Finished(result: Status<(nat, nat)>, out: seq<byte>, goal: Status<Output>)
      reads this, input
    {
      match result
      case Err => goal == Err
      case Full => goal == Full
      case Ok(v) => input.Valid() && goal == Ok(Output(out, input.Rest())) && v == (input.BytesRead(), |out|)
    }

    lemma FinishedAgrees(result: Status<(nat, nat)>, goal: Status<Output>, all: seq<byte>, n: nat)
      requires n <= |all| && Finished(result, all[..n], goal)
      ensures Agrees(result, goal, |input.src|, all)
    {
    }

    /** Reads the next code, and stops at the end of the input, on bad data, or when there is no room. */
    method ReadNext(dstPos: nat, prevCode: uint16, firstByte: byte, ghost p: Previous, ghost goal: Status<Output>)
      returns (done: bool, result: Status<(nat, nat)>, code: uint16)
      requires AtHead(dstPos, prevCode, firstByte, p, goal)
      modifies this, codetab, queue, queue.codes, input
      ensures done ==> Finished(result, dst[..dstPos], goal)
      ensures !done ==> IsCode(code) && AfterRead(code, dstPos, prevCode, firstByte, p, old(input.Rest()), old(State()))
                        && |input.Rest()| < |old(input.Rest())|
    {
      ghost var r := Lzw.ReadCode(input.Rest(), State());
      DecodeStops(input.Rest(), State(), p, dst[..dstPos], dst.Length);
      done, result := true, Err;
      var more;
      more, code := ReadCode(dst[..dstPos], p);
      if !more {
        result := Ok((input.BytesRead(), dstPos));
      } else if code == INVALID_CODE {
      } else if dstPos == dst.Length {
        result := Full;
      } else {
        done := false;
      }
    }

    static lemma DecodeStops(bits: seq<bool>, d: Dict, p: Previous, out: seq<byte>, cap: nat)
      requires d.Ok() && p.Ok()
      ensures match Lzw.ReadCode(bits, d)
              case End(rest) => Decode(bits, d, p, out, cap) == Ok(Output(out, rest))
              case Bad => Decode(bits, d, p, out, cap) == Err
              case Code(_, _, _) => |out| == cap ==> Decode(bits, d, p, out, cap) == Full
    {
    }

    lemma HeadIs(dstPos: nat, prevCode: uint16, firstByte: byte, p: Previous, goal: Status<Output>)
      requires AtHead(dstPos, prevCode, firstByte, p, goal)
      ensures dstPos <= dst.Length && input.Valid() && Apart() && State().Ok() && p.Ok()
      ensures Decode(input.Rest(), State(), p, dst[..dstPos], dst.Length) == goal
    {
    }

    /** One iteration of the loop. */
    method Iterate(dstPos: nat, prevCode: uint16, firstByte: byte, ghost p: Previous, ghost goal: Status<Output>)
      returns (done: bool, result: Status<(nat, nat)>, dstPos': nat, prevCode': uint16, firstByte': byte, ghost p': Previous)
      requires AtHead(dstPos, prevCode, firstByte, p, goal)
      modifies this, codetab, queue, queue.codes, input, dst
      ensures dstPos' <= dst.Length && (done ==> Finished(result, dst[..dstPos'], goal))
      ensures !done ==> AtHead(dstPos', prevCode', firstByte', p', goal) && |input.Rest()| < |old(input.Rest())|
    {
      hide AtHead, AfterRead, Valid, State, Sound, QueueOk, PrevOk, Decode, Lzw.ReadCode, Ready, BytesToBits,
           ShrinkCodec.CodeQueue.Valid;
      HeadIs(dstPos, prevCode, firstByte, p, goal);
      ghost var bits, d := input.Rest(), State();
      var code, status;
      dstPos', prevCode', firstByte', p' := dstPos, prevCode, firstByte, p;
      done, result, code := ReadNext(dstPos, prevCode, firstByte, p, goal);
      if !done {
        status, p' := Process(code, dstPos, prevCode, firstByte, p, bits, d);
        match status {
          case Ok(v) =>
            dstPos', prevCode', firstByte' := dstPos + v.1, code, v.0;
            HeadIs(dstPos', prevCode', firstByte', p', goal);
          case Full => done, result := true, Full;
          case Err => done, result := true, Err;
        }
      }
    }

    /** The loop of hwunshrink(). */
    method Loop(code: byte, ghost goal: Status<Output>) returns (result: Status<(nat, nat)>, dstPos: nat)
      requires AtHead(1, code, code, Previous(code, [code]), goal)
      modifies this, codetab, queue, queue.codes, input, dst
      ensures dstPos <= dst.Length && Finished(result, dst[..dstPos], goal)
    {
      var prevCode: uint16, firstByte: byte, done := code, code, false;
      ghost var p := Previous(code, [code]);
      result, dstPos := Err, 1;
      while !done
        invariant dstPos <= dst.Length
        invariant if done then Finished(result, dst[..dstPos], goal) else AtHead(dstPos, prevCode, firstByte, p, goal)
        decreases if done then 0 else 1 + |input.Rest()|
      {
        done, result, dstPos, prevCode, firstByte, p := Iterate(dstPos, prevCode, firstByte, p, goal);
      }
    }

    /** The first code and the loop: on any input, the outcome is that of the model. */
    method Run() returns (result: Status<(nat, nat)>, dstPos: nat)
      requires Valid() && State() == NewDict() && AreNew(codetab[..])
      modifies this, codetab, queue, queue.codes, input, dst
      ensures dstPos <= dst.Length && Finished(result, dst[..dstPos], old(Unshrink(input.Rest(), dst.Length)))
    {
      hide Sound, QueueOk, PrevOk, Lzw.ReadCode, Decode, FreeFor, NotIn, NewDict, BytesToBits, AreNew, Unshrink, Ready,
           ShrinkCodec.CodeQueue.Valid;
      ghost var bits := input.Rest();
      UnshrinkStarts(bits, dst.Length);
      SoundNew(codetab[..], State(), []);
      var more, currCode := ReadCode([], Previous(0, [0]));
      if !more {
        return Ok((input.BytesRead(), 0)), 0;
      }
      if currCode > 255 {
        return Err, 0;
      }
      if dst.Length == 0 {
        return Full, 0;
      }
      First(currCode);
      result, dstPos := Loop(currCode, Unshrink(bits, dst.Length));
    }

    static lemma UnshrinkStarts(bits: seq<bool>, cap: nat)
      ensures var r, goal := Lzw.ReadCode(bits, NewDict()), Unshrink(bits, cap);
              && (r.End? ==> goal == Ok(Output([], r.rest)))
              && (r.Bad? || (r.Code? && r.code > 255) ==> goal == Err)
              && (r.Code? && r.code <= 255 && cap == 0 ==> goal == Full)
              && (r.Code? && r.code <= 255 && cap > 0 ==> goal == Decode(r.rest, r.dict, Previous(r.code, [r.code]), [r.code], cap))
    {
    }
  }

  /** codetab_init() and code_queue_init() */
  method NewDecompressor(src: seq<byte>, dst: array<byte>) returns (z: Decompressor)
    ensures fresh(z) && fresh(z.codetab) && fresh(z.queue) && fresh(z.queue.codes) && fresh(z.input)
    ensures z.Valid() && z.dst == dst && z.State() == NewDict()
    ensures z.input.src == src && z.input.bitpos == 0 && AreNew(z.codetab[..])
  {
    hide FreeFor, NotIn, NewDict, AreNew, BytesToBits, ShrinkCodec.CodeQueue.Valid, IStream.Valid, Decompressor.State;
    var codetab := NewCodetab();
    var queue := new ShrinkCodec.CodeQueue();
    var input := new IStream(src);
    z := new Decompressor(codetab, queue, input, dst);
  }

  /** hwunshrink(): on any input, the outcome is that of the model; on success the result holds the
      numbers of bytes read and written. */
  method HwUnshrink(src: seq<byte>, dst: array<byte>) returns (result: Status<(nat, nat)>)
    modifies dst
    ensures Agrees(result, Unshrink(BytesToBits(src), dst.Length), |src|, dst[..])
  {
    hide Agrees, Decompressor.Finished, Unshrink, NewDict, BytesToBits, AreNew, Decompressor.Valid, Decompressor.State;
    var z := NewDecompressor(src, dst);
    var dstPos;
    result, dstPos := z.Run();
    assert dst[..][..dstPos] == dst[..dstPos];
    z.FinishedAgrees(result, Unshrink(BytesToBits(src), dst.Length), dst[..], dstPos);
  }
}
