/** hwshrink() and its data structures (hwzip/shrink.c, lines 24-258), updated in place. */
module ShrinkCodec {
  import opened Bits
  import opened Bitstream
  import opened Lzw

  const HASH_MUL: nat := 2654435761
  const HASHTAB_SIZE: nat := 16384

  // ---------------------------------------------------------------- hash table

  /** A slot whose prefix is INVALID_CODE is empty. */
  datatype Slot = Slot(prefix: uint16, ext: byte, code: uint16) {
    predicate Used() {
      prefix != INVALID_CODE
    }

    function Key(): Entry {
      Entry(prefix, ext)
    }
  }

  /** Knuth's multiplicative hash in 32-bit arithmetic. */
  function Hash(e: Entry): (i: nat)
    requires e.prefix < 0x1_0000
    ensures i < HASHTAB_SIZE
  {
    (e.ext * 0x1_0000 + e.prefix) * HASH_MUL % 0x1_0000_0000 / 0x4_0000
  }

  /** The slot d probes after slot i. */
  function Probe(i: nat, d: nat): (j: nat)
    ensures j < HASHTAB_SIZE
  {
    (i + d) % HASHTAB_SIZE
  }

  lemma ProbeReaches(i: nat, j: nat) returns (d: nat)
    requires i < HASHTAB_SIZE && j < HASHTAB_SIZE
    ensures d < HASHTAB_SIZE && Probe(i, d) == j
  {
    d := if i <= j then j - i else j + HASHTAB_SIZE - i;
  }

  /** The slots hold exactly the pairs of h, at the places given by `place`, and each pair can be
      reached from its hash value without crossing an empty slot. */
  ghost predicate Holds(s: seq<Slot>, h: Index, place: map<Entry, nat>) {
    && |s| == HASHTAB_SIZE
    && h.Keys == place.Keys
    && (forall e :: e in h ==> e.prefix < INVALID_CODE)
    && (forall e :: e in h ==> place[e] < HASHTAB_SIZE && s[place[e]].Used()
                               && s[place[e]].Key() == e && s[place[e]].code == h[e])
    && (forall i :: 0 <= i < HASHTAB_SIZE && s[i].Used() ==> s[i].Key() in h && place[s[i].Key()] == i)
    && (forall e :: e in h ==> Reachable(s, e, place[e]))
  }

  ghost predicate Reachable(s: seq<Slot>, e: Entry, p: nat)
    requires |s| == HASHTAB_SIZE && e.prefix < 0x1_0000
  {
    exists d: nat :: d < HASHTAB_SIZE && Probe(Hash(e), d) == p && AllUsed(s, Hash(e), d)
  }

  ghost predicate AllUsed(s: seq<Slot>, i: nat, d: nat)
    requires |s| == HASHTAB_SIZE
  {
    forall k: nat :: k < d ==> s[Probe(i, k)].Used()
  }

  /** Distinct keys sit in the first n slots when these are all used. */
  lemma {:induction false} ManyUsed(s: seq<Slot>, h: Index, place: map<Entry, nat>, n: nat) returns (keys: set<Entry>)
    requires Holds(s, h, place) && n <= HASHTAB_SIZE
    requires forall i :: 0 <= i < n ==> s[i].Used()
    ensures keys <= h.Keys && |keys| == n
    ensures forall e :: e in keys ==> place[e] < n
  {
    if n == 0 {
      keys := {};
    } else {
      keys := ManyUsed(s, h, place, n - 1);
      assert s[n - 1].Key() !in keys;
      keys := keys + {s[n - 1].Key()};
    }
  }

  lemma {:induction false} SubsetSize<T>(a: set<T>, b: set<T>)
    requires a <= b
    ensures |a| <= |b|
  {
    if a != {} {
      var x :| x in a;
      SubsetSize(a - {x}, b - {x});
    }
  }

  /** A table that is not full has an empty slot on every probe sequence. */
  lemma NotAllUsed(s: seq<Slot>, h: Index, place: map<Entry, nat>, i: nat)
    requires Holds(s, h, place) && |h| < HASHTAB_SIZE && i < HASHTAB_SIZE
    ensures !AllUsed(s, i, HASHTAB_SIZE)
  {
    if AllUsed(s, i, HASHTAB_SIZE) {
      forall j | 0 <= j < HASHTAB_SIZE
        ensures s[j].Used()
      {
        var d := ProbeReaches(i, j);
      }
      var keys := ManyUsed(s, h, place, HASHTAB_SIZE);
      SubsetSize(keys, h.Keys);
    }
  }

  /** The first d probes for e hit slots used by other keys. */
  ghost predicate Missed(s: seq<Slot>, e: Entry, d: nat)
    requires |s| == HASHTAB_SIZE && e.prefix < 0x1_0000
  {
    AllUsed(s, Hash(e), d) && forall k: nat :: k < d ==> s[Probe(Hash(e), k)].Key() != e
  }

  lemma NoneMissed(s: seq<Slot>, h: Index, place: map<Entry, nat>, e: Entry)
    requires Holds(s, h, place) && e.prefix < INVALID_CODE
    ensures |s| == HASHTAB_SIZE && Missed(s, e, 0) && Hash(e) == Probe(Hash(e), 0)
  {
  }

  lemma FoundAt(s: seq<Slot>, h: Index, place: map<Entry, nat>, e: Entry, i: nat)
    requires Holds(s, h, place) && i < HASHTAB_SIZE && s[i].prefix == e.prefix && s[i].ext == e.ext && e.prefix < INVALID_CODE
    ensures e in h && h[e] == s[i].code
  {
    assert s[i].Used() && s[i].Key() == e;
  }

  lemma MissedNext(s: seq<Slot>, h: Index, place: map<Entry, nat>, e: Entry, d: nat)
    requires Holds(s, h, place) && |h| < HASHTAB_SIZE && e.prefix < INVALID_CODE && d < HASHTAB_SIZE && Missed(s, e, d)
    requires var x := s[Probe(Hash(e), d)]; x.Used() && (x.prefix != e.prefix || x.ext != e.ext)
    ensures Missed(s, e, d + 1) && d + 1 < HASHTAB_SIZE
    ensures Probe(Hash(e), d + 1) == (Probe(Hash(e), d) + 1) % HASHTAB_SIZE
  {
    hide Holds, Hash, Probe;
    NextProbe(s, h, place, Hash(e), d);
  }

  /** An empty slot on the way proves that a key is absent. */
  lemma AbsentAtEmpty(s: seq<Slot>, h: Index, place: map<Entry, nat>, e: Entry, d: nat)
    requires Holds(s, h, place) && e.prefix < INVALID_CODE && d < HASHTAB_SIZE
    requires Missed(s, e, d) && !s[Probe(Hash(e), d)].Used()
    ensures e !in h
  {
  }

  /** Probing moves on to a slot not seen yet. */
  lemma NextProbe(s: seq<Slot>, h: Index, place: map<Entry, nat>, i: nat, d: nat)
    requires Holds(s, h, place) && |h| < HASHTAB_SIZE && i < HASHTAB_SIZE && d < HASHTAB_SIZE
    requires AllUsed(s, i, d) && s[Probe(i, d)].Used()
    ensures AllUsed(s, i, d + 1) && d + 1 < HASHTAB_SIZE && Probe(i, d + 1) == (Probe(i, d) + 1) % HASHTAB_SIZE
  {
    assert AllUsed(s, i, d + 1);
    NotAllUsed(s, h, place, i);
    ProbeNext(i, d);
  }

  lemma FirstProbe(s: seq<Slot>, i: nat)
    requires i < HASHTAB_SIZE && |s| == HASHTAB_SIZE
    ensures Probe(i, 0) == i && AllUsed(s, i, 0)
  {
  }

  lemma ProbeNext(i: nat, d: nat)
    ensures Probe(i, d + 1) == (Probe(i, d) + 1) % HASHTAB_SIZE
  {
  }

  /** Filling an empty slot with a new pair. */
  lemma HoldsInserted(s: seq<Slot>, h: Index, place: map<Entry, nat>, e: Entry, code: uint16, d: nat)
    requires Holds(s, h, place) && e.prefix < INVALID_CODE && e !in h && d < HASHTAB_SIZE
    requires AllUsed(s, Hash(e), d) && !s[Probe(Hash(e), d)].Used()
    ensures var i := Probe(Hash(e), d);
            Holds(s[i := Slot(e.prefix, e.ext, code)], h[e := code], place[e := i])
  {
    var i := Probe(Hash(e), d);
    var s' := s[i := Slot(e.prefix, e.ext, code)];
    assert AllUsed(s', Hash(e), d);
    forall k | k in h
      ensures Reachable(s', k, place[k])
    {
      assert Reachable(s, k, place[k]);
      var dist: nat :| dist < HASHTAB_SIZE && Probe(Hash(k), dist) == place[k] && AllUsed(s, Hash(k), dist);
      assert AllUsed(s', Hash(k), dist);
    }
  }

  class HashTable {
    const slots: array<Slot>
    ghost var index: Index
    ghost var place: map<Entry, nat>

    ghost predicate Valid()
      reads this, slots
    {
      Holds(slots[..], index, place)
    }

    /** hashtab_init() */
    constructor ()
      ensures Valid() && fresh(slots) && index == map[]
    {
      slots := new Slot[HASHTAB_SIZE](_ => Slot(INVALID_CODE, 0, 0));
      index := map[];
      place := map[];
    }

    /** memcpy() of a whole table. */
    method CopyFrom(other: HashTable)
      requires slots.Length == HASHTAB_SIZE && other.Valid() && other != this && other.slots != slots
      modifies this, slots
      ensures Valid() && index == old(other.index)
    {
      var i := 0;
      while i < HASHTAB_SIZE
        invariant i <= HASHTAB_SIZE && unchanged(other, other.slots)
        invariant slots[..i] == other.slots[..i]
      {
        slots[i] := other.slots[i];
        i := i + 1;
      }
      assert slots[..] == other.slots[..];
      index := other.index;
      place := other.place;
    }

    /** hashtab_find() */
    method Find(prefix: uint16, ext: byte) returns (code: uint16)
      requires Valid() && prefix != INVALID_CODE && |index| < HASHTAB_SIZE
      requires forall e :: e in index ==> index[e] < INVALID_CODE
      ensures code == if Entry(prefix, ext) in index then index[Entry(prefix, ext)] else INVALID_CODE
    {
      hide Holds, Hash, Probe, Missed;
      ghost var e := Entry(prefix, ext);
      var i := Hash(Entry(prefix, ext));
      ghost var d := 0;
      NoneMissed(slots[..], index, place, e);
      while true
        invariant d < HASHTAB_SIZE && i == Probe(Hash(e), d)
        invariant Missed(slots[..], e, d)
        decreases HASHTAB_SIZE - d
      {
        assert slots[..][i] == slots[i];
        if slots[i].prefix == prefix && slots[i].ext == ext {
          FoundAt(slots[..], index, place, e, i);
          return slots[i].code;
        }
        if slots[i].prefix == INVALID_CODE {
          AbsentAtEmpty(slots[..], index, place, e, d);
          return INVALID_CODE;
        }
        MissedNext(slots[..], index, place, e, d);
        i := (i + 1) % HASHTAB_SIZE;
        d := d + 1;
      }
    }

    /** The scan of hashtab_insert() for an empty slot. */
    method FindEmpty(prefix: uint16, ext: byte) returns (i: nat, ghost d: nat)
      requires Valid() && prefix != INVALID_CODE && |index| < HASHTAB_SIZE
      ensures i == Probe(Hash(Entry(prefix, ext)), d) && d < HASHTAB_SIZE && i < slots.Length
      ensures AllUsed(slots[..], Hash(Entry(prefix, ext)), d) && !slots[i].Used()
    {
      hide Hash, Probe, AllUsed;
      i := Hash(Entry(prefix, ext));
      ghost var h := i;
      d := 0;
      FirstProbe(slots[..], h);
      while slots[i].prefix != INVALID_CODE
        invariant d < HASHTAB_SIZE && i == Probe(h, d) && i < slots.Length
        invariant AllUsed(slots[..], h, d)
        decreases HASHTAB_SIZE - d
      {
        NextProbe(slots[..], index, place, h, d);
        i := (i + 1) % HASHTAB_SIZE;
        d := d + 1;
      }
    }

    /** hashtab_insert() */
    method Insert(prefix: uint16, ext: byte, code: uint16)
      requires Valid() && prefix != INVALID_CODE && |index| < HASHTAB_SIZE && Entry(prefix, ext) !in index
      modifies this, slots
      ensures Valid() && index == old(index)[Entry(prefix, ext) := code]
    {
      ghost var e := Entry(prefix, ext);
      var i;
      ghost var d;
      i, d := FindEmpty(prefix, ext);
      HoldsInserted(slots[..], index, place, e, code, d);
      slots[i] := Slot(prefix, ext, code);
      index := index[e := code];
      place := place[e := i];
      assert slots[..] == old(slots[..])[i := Slot(prefix, ext, code)];
    }
  }

  // ---------------------------------------------------------------- partial clearing

  /** The pairs in the first n slots whose code is among `codes`. */
  ghost function Kept(h: Index, place: map<Entry, nat>, codes: set<nat>, n: nat): Index
    requires h.Keys == place.Keys
  {
    map e | e in h && h[e] in codes && place[e] < n :: h[e]
  }

  lemma KeptNext(s: seq<Slot>, h: Index, place: map<Entry, nat>, codes: set<nat>, n: nat)
    requires Holds(s, h, place) && n < HASHTAB_SIZE
    ensures Kept(h, place, codes, n).Keys <= h.Keys
    ensures if s[n].Used() && s[n].code as nat in codes
            then s[n].Key() !in Kept(h, place, codes, n)
                 && Kept(h, place, codes, n + 1) == Kept(h, place, codes, n)[s[n].Key() := s[n].code]
            else Kept(h, place, codes, n + 1) == Kept(h, place, codes, n)
  {
  }

  lemma NothingKept(s: seq<Slot>, h: Index, place: map<Entry, nat>, codes: set<nat>)
    requires Holds(s, h, place)
    ensures |s| == HASHTAB_SIZE && h.Keys == place.Keys && Kept(h, place, codes, 0) == map[]
  {
  }

  lemma KeptAll(s: seq<Slot>, h: Index, place: map<Entry, nat>)
    requires Holds(s, h, place)
    ensures Kept(h, place, IndexPrefixes(h), HASHTAB_SIZE) == ClearIndex(h)
  {
  }

  /** The codes that occur as a prefix in the table. */
  method ScanPrefixes(table: HashTable) returns (isPrefix: array<bool>)
    requires table.Valid() && forall e :: e in table.index ==> e.prefix <= MAX_CODE
    ensures fresh(isPrefix) && isPrefix.Length == MAX_CODE + 1
    ensures forall c :: 0 <= c <= MAX_CODE ==> (isPrefix[c] <==> c in IndexPrefixes(table.index))
  {
    isPrefix := new bool[MAX_CODE + 1](_ => false);
    var i := 0;
    while i < HASHTAB_SIZE
      invariant i <= HASHTAB_SIZE
      invariant forall c :: 0 <= c <= MAX_CODE && isPrefix[c] ==> c in IndexPrefixes(table.index)
      invariant forall k :: 0 <= k < i && table.slots[k].Used() && table.slots[k].prefix <= MAX_CODE
                  ==> isPrefix[table.slots[k].prefix]
    {
      if table.slots[i].prefix != INVALID_CODE {
        assert table.slots[..][i].Key() in table.index;
        isPrefix[table.slots[i].prefix] := true;
      }
      i := i + 1;
    }
    forall c | 0 <= c <= MAX_CODE && c in IndexPrefixes(table.index)
      ensures isPrefix[c]
    {
      var e :| e in table.index && e.prefix == c;
      assert table.slots[..][table.place[e]].Key() == e;
    }
  }

  /** Copies a slot of a table to the table being built, if its code is a prefix. */
  method KeepSlot(table: HashTable, isPrefix: array<bool>, kept: HashTable, i: nat)
    requires table.Valid() && |table.index| < HASHTAB_SIZE && isPrefix.Length == MAX_CODE + 1
    requires forall e :: e in table.index ==> table.index[e] <= MAX_CODE
    requires forall c :: 0 <= c <= MAX_CODE ==> (isPrefix[c] <==> c in IndexPrefixes(table.index))
    requires i < HASHTAB_SIZE && kept.Valid() && kept != table && kept.slots != table.slots
    requires kept.index == Kept(table.index, table.place, IndexPrefixes(table.index), i)
    modifies kept, kept.slots
    ensures kept.Valid()
    ensures kept.index == Kept(table.index, table.place, IndexPrefixes(table.index), i + 1)
  {
    var slot := table.slots[i];
    assert slot == table.slots[..][i];
    KeptNext(table.slots[..], table.index, table.place, IndexPrefixes(table.index), i);
    SubsetSize(kept.index.Keys, table.index.Keys);
    if slot.prefix != INVALID_CODE && isPrefix[slot.code] {
      kept.Insert(slot.prefix, slot.ext, slot.code);
    }
  }

  /** shrink_partial_clear(), all but the refilling of the queue. */
  method KeepPrefixes(table: HashTable, isPrefix: array<bool>)
    requires table.Valid() && |table.index| < HASHTAB_SIZE && isPrefix.Length == MAX_CODE + 1
    requires forall e :: e in table.index ==> table.index[e] <= MAX_CODE
    requires forall c :: 0 <= c <= MAX_CODE ==> (isPrefix[c] <==> c in IndexPrefixes(table.index))
    modifies table, table.slots
    ensures table.Valid() && table.index == ClearIndex(old(table.index))
  {
    hide Kept, IndexPrefixes, ClearIndex, Holds;
    ghost var s := table.slots[..];
    var kept := new HashTable();
    NothingKept(table.slots[..], table.index, table.place, IndexPrefixes(table.index));
    var i := 0;
    while i < HASHTAB_SIZE
      invariant i <= HASHTAB_SIZE && kept.Valid() && fresh(kept) && fresh(kept.slots)
      invariant unchanged(table, table.slots) && table.slots[..] == s
      invariant kept.index == Kept(table.index, table.place, IndexPrefixes(table.index), i)
    {
      KeepSlot(table, isPrefix, kept, i);
      i := i + 1;
    }
    KeptAll(table.slots[..], table.index, table.place);
    table.CopyFrom(kept);
  }

  // ---------------------------------------------------------------- code queue

  const QUEUE_SIZE: nat := 7936

  /** One turn of the loop that fills the queue: the rest of the codes after the first n. */
  lemma FreeStep(all: seq<nat>, n: nat, used: set<nat>, i: nat)
    requires i <= MAX_CODE && n <= |all| && all[n..] == FreeCodes(used, i)
    ensures if i in used then all[n..] == FreeCodes(used, i + 1)
            else n < |all| && all[n] == i && all[n + 1..] == FreeCodes(used, i + 1)
  {
    FreeCodesStep(used, i);
    if i !in used {
      assert all[n..][0] == i;
      assert all[n + 1..] == all[n..][1..];
    }
  }

  lemma FreeEnd(all: seq<nat>, n: nat, used: set<nat>)
    requires n <= |all| && all[n..] == FreeCodes(used, MAX_CODE + 1)
    ensures n == |all|
  {
  }

  /** Codes to be given out, in ascending order, ending with INVALID_CODE. */
  class CodeQueue {
    const codes: array<uint16>
    var nextIdx: nat
    /** The codes that are left. */
    ghost var left: seq<nat>

    ghost predicate Valid()
      reads this, codes
    {
      && codes.Length == QUEUE_SIZE
      && nextIdx + |left| < QUEUE_SIZE && codes[nextIdx + |left|] == INVALID_CODE
      && forall k :: 0 <= k < |left| ==> codes[nextIdx + k] == left[k] <= MAX_CODE
    }

    /** code_queue_init() */
    constructor ()
      ensures Valid() && fresh(codes) && left == FreeFor({})
    {
      codes := new uint16[QUEUE_SIZE](_ => 0);
      nextIdx := 0;
      left := [];
      new;
      Fill(seq(MAX_CODE + 1, _ => false), {});
    }

    /** The loop that puts every code not in `used` into the queue. */
    method Fill(isUsed: seq<bool>, ghost used: set<nat>)
      requires codes.Length == QUEUE_SIZE && |isUsed| == MAX_CODE + 1
      requires forall c :: 0 <= c <= MAX_CODE ==> (isUsed[c] <==> c in used)
      modifies this, codes
      ensures Valid() && left == FreeFor(used)
    {
      hide FreeCodes;
      var size := 0;
      var i := CONTROL_CODE + 1;
      ghost var all: seq<nat> := FreeCodes(used, i);
      while i <= MAX_CODE
        invariant CONTROL_CODE < i <= MAX_CODE + 1 && size <= i - CONTROL_CODE - 1
        invariant size <= |all| && (forall k :: 0 <= k < size ==> codes[k] == all[k] <= MAX_CODE)
        invariant all[size..] == FreeCodes(used, i)
      {
        FreeStep(all, size, used, i);
        if !isUsed[i] {
          codes[size] := i;
          size := size + 1;
        }
        i := i + 1;
      }
      FreeEnd(all, size, used);
      Close(size, all);
    }

    /** Sets the end-of-queue marker. */
    method Close(size: nat, ghost q: seq<nat>)
      requires codes.Length == QUEUE_SIZE && size == |q| < QUEUE_SIZE
      requires forall k :: 0 <= k < size ==> codes[k] == q[k] <= MAX_CODE
      modifies this, codes
      ensures Valid() && left == q
    {
      codes[size] := INVALID_CODE;
      nextIdx := 0;
      left := q;
    }

    /** code_queue_next() */
    method Next() returns (code: uint16)
      requires Valid()
      ensures code == if left == [] then INVALID_CODE else left[0]
    {
      code := codes[nextIdx];
    }

    /** code_queue_remove_next() */
    method RemoveNext() returns (code: uint16)
      requires Valid()
      modifies this
      ensures Valid() && left == Tail(old(left))
      ensures code == if old(left) == [] then INVALID_CODE else old(left)[0]
    {
      code := Next();
      if code != INVALID_CODE {
        nextIdx := nextIdx + 1;
        left := left[1..];
      }
    }
  }

  // ---------------------------------------------------------------- hwshrink

  /** No two pairs share a code, so the table never holds more pairs than there are codes. */
  ghost predicate Injective(h: Index) {
    forall e, f :: e in h && f in h && h[e] == h[f] ==> e == f
  }

  lemma {:induction false} IndexSmall(h: Index, limit: nat)
    requires Injective(h) && forall e :: e in h ==> h[e] < limit
    ensures |h| <= limit
  {
    if limit > 0 {
      if e :| e in h && h[e] == limit - 1 {
        var h' := map k | k in h && k != e :: h[k];
        assert h'.Keys == h.Keys - {e};
        IndexSmall(h', limit - 1);
      } else {
        IndexSmall(h, limit - 1);
      }
    } else {
      assert h == map[];
    }
  }

  lemma ClearInjective(h: Index)
    requires Injective(h)
    ensures Injective(ClearIndex(h))
  {
  }

  lemma IndexFits(h: Index)
    requires Injective(h) && forall e :: e in h ==> h[e] <= MAX_CODE
    ensures |h| < HASHTAB_SIZE
  {
    IndexSmall(h, MAX_CODE + 1);
  }

  /** A control code and its operand. */
  method WriteControl(os: OStream, control: nat, codeSize: nat) returns (ok: bool)
    requires os.Valid() && control < 256 && MIN_CODE_SIZE <= codeSize <= MAX_CODE_SIZE
    modifies os, os.dst
    ensures os.Valid()
    ensures ok == (|old(os.written)| + 2 * codeSize <= 8 * os.dst.Length)
    ensures ok ==> os.written == old(os.written) + (ToBits(CONTROL_CODE, codeSize) + ToBits(control, codeSize))
  {
    Pow2Mono(9, codeSize);
    assert Pow2(9) == 512;
    ghost var sofar := os.written;
    ok := os.Write(CONTROL_CODE, codeSize);
    if ok {
      ok := os.Write(control, codeSize);
      Assoc(sofar, ToBits(CONTROL_CODE, codeSize), ToBits(control, codeSize));
    }
  }

  /** write_code() */
  method WriteCode(os: OStream, code: uint16, codeSize: nat) returns (ok: bool, newSize: nat)
    requires os.Valid() && code <= MAX_CODE && MIN_CODE_SIZE <= codeSize <= MAX_CODE_SIZE
    modifies os, os.dst
    ensures os.Valid() && newSize <= MAX_CODE_SIZE
    ensures ok == (|old(os.written)| + |CodeBits(code, codeSize)| <= 8 * os.dst.Length)
    ensures ok ==> os.written == old(os.written) + CodeBits(code, codeSize)
                   && newSize == SizeAfter(code, codeSize)
  {
    newSize := codeSize;
    ghost var before := os.written;
    LargestCode();
    while code >= Pow2(newSize)
      invariant codeSize <= newSize <= MAX_CODE_SIZE && os.Valid()
      invariant os.written + CodeBits(code, newSize) == before + CodeBits(code, codeSize)
      invariant SizeAfter(code, newSize) == SizeAfter(code, codeSize)
      decreases MAX_CODE_SIZE - newSize
    {
      ghost var sofar := os.written;
      ok := WriteControl(os, INC_CODE_SIZE, newSize);
      if !ok {
        assert |sofar + CodeBits(code, newSize)| == |before + CodeBits(code, codeSize)|;
        return;
      }
      Assoc(sofar, ToBits(CONTROL_CODE, newSize) + ToBits(INC_CODE_SIZE, newSize), CodeBits(code, newSize + 1));
      newSize := newSize + 1;
    }
    assert |os.written + CodeBits(code, newSize)| == |before + CodeBits(code, codeSize)|;
    ok := os.Write(code, newSize);
  }

  lemma Taken(e: Encoder)
    requires e.Ok()
    ensures e.(queue := Tail(e.queue)).Ok()
    ensures e.queue != [] ==> e.queue[0] !in Tail(e.queue) && e.queue[0] in e.queue
  {
    assert forall c :: c in Tail(e.queue) ==> c in e.queue;
  }

  /** The local variables of hwshrink(). */
  class Compressor {
    const table: HashTable
    const queue: CodeQueue
    const os: OStream
    var codeSize: nat

    ghost predicate Valid()
      reads this, table, table.slots, queue, queue.codes, os, os.dst
    {
      && Apart()
      && table.Valid() && queue.Valid() && os.Valid()
      && State().Ok() && Injective(table.index)
    }

    ghost predicate Apart() {
      && (table as object) != queue && (table as object) != os && (queue as object) != os
      && (this as object) != table && (this as object) != queue && (this as object) != os
      && (table.slots as object) != queue.codes && (table.slots as object) != os.dst
      && (queue.codes as object) != os.dst
    }

    /** The dictionary, as a state of the model. */
    ghost function State(): Encoder
      reads this, table, queue
    {
      Encoder(table.index, queue.left, codeSize)
    }

    constructor (dst: array<byte>)
      ensures Valid() && State() == NewEncoder() && os.written == [] && os.dst == dst
      ensures fresh(table) && fresh(table.slots) && fresh(queue) && fresh(queue.codes) && fresh(os)
    {
      hide FreeFor, NotIn, BytesToBits, Holds;
      table := new HashTable();
      queue := new CodeQueue();
      os := new OStream(dst);
      codeSize := MIN_CODE_SIZE;
      assert NewEncoder().Ok();
    }

    /** Writes a code in the current code size. */
    method Emit(code: uint16) returns (ok: bool)
      requires Valid() && code <= MAX_CODE
      modifies this, os, os.dst
      ensures ok == (|old(os.written)| + |CodeBits(code, old(codeSize))| <= 8 * os.dst.Length)
      ensures ok ==> Valid() && os.written == old(os.written) + CodeBits(code, old(codeSize))
                     && State() == old(State()).(size := SizeAfter(code, old(codeSize)))
    {
      ok, codeSize := WriteCode(os, code, codeSize);
    }

    /** shrink_partial_clear() */
    method PartialClear()
      requires Valid() && queue.left == []
      modifies table, table.slots, queue, queue.codes
      ensures Valid() && State() == old(State()).Refilled()
    {
      hide Holds, FreeFor, IndexPrefixes, ClearIndex;
      IndexFits(table.index);
      ClearInjective(table.index);
      ghost var e, used := State(), IndexPrefixes(table.index);
      var isPrefix := ScanPrefixes(table);
      KeepPrefixes(table, isPrefix);
      queue.Fill(isPrefix[..], used);
      assert State() == e.Refilled();
    }

    /** Gives newCode to the pair (currCode, extByte). */
    method InsertCode(currCode: uint16, extByte: byte, newCode: uint16)
      requires Valid() && IsCode(currCode) && Entry(currCode, extByte) !in table.index
      requires CONTROL_CODE < newCode <= MAX_CODE && newCode as nat !in queue.left
      requires forall e :: e in table.index ==> table.index[e] != newCode
      modifies table, table.slots
      ensures Valid()
      ensures State() == old(State()).(index := old(State()).index[Entry(currCode, extByte) := newCode])
    {
      IndexFits(table.index);
      table.Insert(currCode, extByte, newCode);
    }

    /** code_queue_remove_next() in the dictionary. */
    method TakeCode() returns (code: uint16)
      requires Valid()
      modifies queue
      ensures Valid() && State() == old(State()).(queue := Tail(old(queue.left)))
      ensures if old(queue.left) == [] then code == INVALID_CODE
              else code == old(queue.left)[0] && CONTROL_CODE < code <= MAX_CODE && code as nat !in queue.left
                   && forall e :: e in table.index ==> table.index[e] != code
    {
      Taken(State());
      code := queue.RemoveNext();
    }

    /** The second half of a miss: a partial clearing if no code is left, and a new code for the pair
        (currCode, extByte) if there is one. */
    method AddCode(currCode: uint16, extByte: byte) returns (ok: bool)
      requires Valid() && IsCode(currCode) && Entry(currCode, extByte) !in table.index
      modifies table, table.slots, queue, queue.codes, os, os.dst
      ensures var e := old(State());
              && ok == (|old(os.written)| + |e.Control()| <= 8 * os.dst.Length)
              && (ok ==> Valid() && os.written == old(os.written) + e.Control()
                         && State() == e.Refilled().Added(Entry(currCode, extByte)))
    {
      ok := true;
      ghost var e, sofar := State(), os.written;
      var newCode := TakeCode();
      if newCode == INVALID_CODE {
        PartialClear();
        ok := WriteControl(os, PARTIAL_CLEAR, codeSize);
        if !ok {
          return;
        }
        newCode := TakeCode();
      } else {
        assert sofar + [] == sofar;
      }
      if newCode != INVALID_CODE {
        InsertCode(currCode, extByte, newCode);
      }
    }

    /** One iteration of the loop of hwshrink(): what was written and what is still to be written
        stay the same together, unless there is no room for them. */
    method Step(currCode: uint16, extByte: byte, ghost rest: seq<byte>) returns (ok: bool, newCode: uint16)
      requires Valid() && IsCode(currCode) && rest != [] && extByte == rest[0]
      modifies this, table, table.slots, queue, queue.codes, os, os.dst
      ensures ok ==> Valid() && IsCode(newCode)
                     && os.written + Encode(State(), newCode, rest[1..])
                        == old(os.written) + Encode(old(State()), currCode, rest)
      ensures !ok ==> |old(os.written)| + |Encode(old(State()), currCode, rest)| > 8 * os.dst.Length
    {
      IndexFits(table.index);
      newCode := table.Find(currCode, extByte);
      if newCode != INVALID_CODE {
        return true, newCode;
      }
      EncodeMiss(State(), currCode, rest, os.written);
      ok := Emit(currCode);
      if ok {
        ok := AddCode(currCode, extByte);
      }
      newCode := extByte;
    }
  }

  /** hwshrink(): succeeds exactly when the bits of Shrink(src) fit, and then has written them. */
  method HwShrink(src: seq<byte>, dst: array<byte>) returns (ok: bool, dstUsed: nat)
    modifies dst
    ensures ok == (|Shrink(src)| <= 8 * dst.Length)
    ensures ok ==> dstUsed == RoundUp8(|Shrink(src)|) / 8 && dstUsed <= dst.Length
                   && BytesToBits(dst[..])[..|Shrink(src)|] == Shrink(src)
  {
    if |src| == 0 {
      return true, 0;
    }
    var z := new Compressor(dst);
    var currCode: uint16 := src[0];
    var i := 1;
    while i < |src|
      invariant 1 <= i <= |src| && z.Valid() && z.os.dst == dst
      invariant fresh(z) && fresh(z.table) && fresh(z.table.slots) && fresh(z.queue) && fresh(z.queue.codes) && fresh(z.os)
      invariant IsCode(currCode)
      invariant Shrink(src) == z.os.written + Encode(z.State(), currCode, src[i..])
    {
      ok, currCode := z.Step(currCode, src[i], src[i..]);
      if !ok {
        return false, 0;
      }
      assert src[i..][1..] == src[i + 1..];
      i := i + 1;
    }
    EncodeLast(z.State(), currCode, src[i..]);
    ok := z.Emit(currCode);
    if !ok {
      return false, 0;
    }
    dstUsed := z.os.BytesWritten();
  }

  lemma EncodeMiss(e: Encoder, curr: nat, rest: seq<byte>, sofar: seq<bool>)
    requires e.Ok() && IsCode(curr) && rest != [] && Entry(curr, rest[0]) !in e.index
    ensures var e' := e.(size := SizeAfter(curr, e.size));
            sofar + Encode(e, curr, rest)
            == sofar + CodeBits(curr, e.size) + e'.Control()
               + Encode(e'.Refilled().Added(Entry(curr, rest[0])), rest[0], rest[1..])
  {
    var e' := e.(size := SizeAfter(curr, e.size));
    var later := Encode(e'.Refilled().Added(Entry(curr, rest[0])), rest[0], rest[1..]);
    assert Encode(e, curr, rest) == CodeBits(curr, e.size) + (e'.Control() + later);
    Assoc(sofar, CodeBits(curr, e.size), e'.Control() + later);
    Assoc(sofar + CodeBits(curr, e.size), e'.Control(), later);
  }

  lemma EncodeLast(e: Encoder, curr: nat, rest: seq<byte>)
    requires e.Ok() && IsCode(curr) && rest == []
    ensures Encode(e, curr, rest) == CodeBits(curr, e.size)
  {
  }
}
