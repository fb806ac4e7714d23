/** Where the bytes of a delivered packet come from, for any datagrams, well-formed or not. A slot keeps
    its buffer and its total_len when it is allocated again, and every part brings a part count of its
    own; so a packet can be complete and still rest on what an earlier packet left in the slot. */
module Leftovers {
  import opened Bytes
  import opened Fragmenter
  import opened Reassembly
  import opened ReassemblyRuns

  // ---- what a part does to the memory of a slot ----

  /** The memory of a slot. */
  datatype Memory = Memory(buffer: seq<byte>, totalLen: nat)

  type Content = c: Memory | |c.buffer| == ETHER_MTU && c.totalLen <= ETHER_MTU
    witness Memory(seq(ETHER_MTU, _ => 0), 0)

  function ContentOf(s: Slot): Content
    requires ValidSlot(s)
  {
    Memory(s.buffer, s.totalLen)
  }

  /** What matters of an acceptable datagram: which part it is of how many, and which bytes go where. */
  datatype Chunk = Chunk(part: nat, totalPart: nat, start: nat, bytes: seq<byte>)

  type Piece = p: Chunk | p.part < p.totalPart && p.start + |p.bytes| <= ETHER_MTU witness Chunk(0, 1, 0, [])

  function PieceOf(d: seq<byte>): Piece
    requires Acceptable(d)
  {
    var h := ParseHeader(d);
    Chunk(h.part, h.totalPart, h.pmtu * h.part, d[HEADER_LEN..HEADER_LEN + h.len])
  }

  /** The part counts itself as the last one. */
  predicate Ends(p: Piece) { p.part == p.totalPart - 1 }

  function Put(c: Content, p: Piece): Content {
    Memory(Splice(c.buffer, p.start, p.bytes), if Ends(p) then p.start + |p.bytes| else c.totalLen)
  }

  lemma {:induction false} PutIsWrite(s: Slot, d: seq<byte>)
    requires ValidSlot(s) && Acceptable(d)
    ensures ContentOf(WritePart(s, d)) == Put(ContentOf(s), PieceOf(d))
  {
    var h := ParseHeader(d);
    if h.part == h.totalPart - 1 { Commutes(h.totalPart - 1, h.pmtu); }
  }

  lemma {:induction false} Commutes(a: int, b: int)
    ensures a * b == b * a
  {
  }

  /** The memory after the parts `got`, written one after the other over c. */
  function Written(c: Content, got: seq<Piece>): Content {
    if got == [] then c else Put(Written(c, got[..|got| - 1]), got[|got| - 1])
  }

  /** The packet handed on if the parts `got` complete it. */
  function Packet(c: Content, got: seq<Piece>): seq<byte> {
    var r := Written(c, got);
    r.buffer[..r.totalLen]
  }

  predicate Covers(p: Piece, j: nat) { p.start <= j < p.start + |p.bytes| }

  /** The byte for position j that came last, if any came. */
  function LastByte(got: seq<Piece>, j: nat): Option<byte> {
    if got == [] then None
    else
      var p := got[|got| - 1];
      if Covers(p, j) then Some(p.bytes[j - p.start]) else LastByte(got[..|got| - 1], j)
  }

  /** The length of the packet as the last part that ends it has it, if any does. */
  function LengthOf(got: seq<Piece>): (n: Option<nat>)
    ensures n.Some? ==> n.value <= ETHER_MTU
  {
    if got == [] then None
    else
      var p := got[|got| - 1];
      if Ends(p) then Some(p.start + |p.bytes|) else LengthOf(got[..|got| - 1])
  }

  function Or<T>(x: Option<T>, y: T): T { if x.Some? then x.value else y }

  lemma {:induction false} SpliceAt(buffer: seq<byte>, off: nat, data: seq<byte>, j: nat)
    requires off + |data| <= |buffer| && j < |buffer|
    ensures Splice(buffer, off, data)[j] == if off <= j < off + |data| then data[j - off] else buffer[j]
  {
  }

  /** Byte j of the memory is the last one received for it; where none was, it is the old one. The
      same goes for the length. */
  lemma {:induction false} WrittenAt(c: Content, got: seq<Piece>, j: nat)
    requires j < ETHER_MTU
    ensures Written(c, got).buffer[j] == Or(LastByte(got, j), c.buffer[j])
    ensures Written(c, got).totalLen == Or(LengthOf(got), c.totalLen)
  {
    if got != [] {
      var before, p := got[..|got| - 1], got[|got| - 1];
      WrittenAt(c, before, j);
      SpliceAt(Written(c, before).buffer, p.start, p.bytes, j);
    }
  }

  /** The parts set the length of the packet and bring every byte of it. */
  predicate OwnsAll(got: seq<Piece>) {
    LengthOf(got).Some? && forall j: nat :: j < LengthOf(got).value ==> LastByte(got, j).Some?
  }

  /** Then the packet is the same whatever was in the slot before. */
  lemma {:induction false} OwnedPacket(c: Content, c': Content, got: seq<Piece>)
    requires OwnsAll(got)
    ensures Packet(c, got) == Packet(c', got)
  {
    WrittenAt(c, got, 0);
    WrittenAt(c', got, 0);
    forall j: nat | j < LengthOf(got).value ensures Packet(c, got)[j] == Packet(c', got)[j] {
      WrittenAt(c, got, j);
      WrittenAt(c', got, j);
      assert LastByte(got, j).Some?;
    }
  }

  function Filled(x: byte, n: nat): (c: Content)
    requires n <= ETHER_MTU
    ensures c.totalLen == n && forall j: nat :: j < ETHER_MTU ==> c.buffer[j] == x
  {
    Memory(seq(ETHER_MTU, _ => x), n)
  }

  /** Otherwise two former contents make a difference. */
  lemma {:induction false} UnownedPacket(got: seq<Piece>) returns (c: Content, c': Content)
    requires !OwnsAll(got)
    ensures Packet(c, got) != Packet(c', got)
  {
    if LengthOf(got).None? {
      c, c' := Filled(0, 0), Filled(0, 1);
      WrittenAt(c, got, 0);
      WrittenAt(c', got, 0);
      assert |Packet(c, got)| == 0 && |Packet(c', got)| == 1;
    } else {
      c, c' := Filled(0, 0), Filled(1, 0);
      var j: nat :| j < LengthOf(got).value && LastByte(got, j).None?;
      WrittenAt(c, got, j);
      WrittenAt(c', got, j);
      assert Packet(c, got)[j] == 0 && Packet(c', got)[j] == 1;
    }
  }

  lemma {:induction false} WrittenSnoc(c: Content, got: seq<Piece>, p: Piece)
    ensures Written(c, got + [p]) == Put(Written(c, got), p)
  {
    assert (got + [p])[..|got|] == got;
  }

  // ---- which parts make up a packet ----

  ghost function PartsIn(got: seq<Piece>): set<nat> {
    if got == [] then {} else PartsIn(got[..|got| - 1]) + {got[|got| - 1].part}
  }

  /** With the last of the parts none is missing, as that one counts them. */
  ghost predicate Completes(got: seq<Piece>)
    requires got != []
  {
    PartsIn(got) == Below(got[|got| - 1].totalPart)
  }

  /** The parts have not made up a packet yet. */
  ghost predicate Pending(got: seq<Piece>) {
    got == [] || (!Completes(got) && Pending(got[..|got| - 1]))
  }

  /** The parts make up a packet at the last of them and not before. */
  ghost predicate Gathers(got: seq<Piece>) {
    got != [] && Completes(got) && Pending(got[..|got| - 1])
  }

  lemma {:induction false} OneMore(got: seq<Piece>, p: Piece)
    requires Pending(got)
    ensures PartsIn(got + [p]) == PartsIn(got) + {p.part}
    ensures if PartsIn(got) + {p.part} == Below(p.totalPart) then Gathers(got + [p]) else Pending(got + [p])
  {
    assert (got + [p])[..|got|] == got;
  }

  // ---- every run ----

  /** A step that evicts or delivers the key starts over, one that stores a part under it adds the part. */
  function SinceAfter(r: Step, d: seq<byte>, key: Key, before: seq<Piece>): seq<Piece> {
    if r.evicted == Some(key) then []
    else if !Acceptable(d) || KeyOf(d) != key || r.outcome.Refused? then before
    else if r.outcome.Delivered? then []
    else before + [PieceOf(d)]
  }

  /** The parts stored under the key since its slot was last allocated, read off the history. */
  function Since(ds: seq<seq<byte>>, key: Key): seq<Piece> {
    if ds == [] then []
    else SinceAfter(RunStep(ds, |ds| - 1), ds[|ds| - 1], key, Since(ds[..|ds| - 1], key))
  }

  /** The memory of the key's slot, if it has one. */
  function MemoryOf(t: Table, key: Key): Option<Content>
    requires ValidTable(t)
  {
    var i := FindKey(t.slots, key, 0);
    if i < |t.slots| then Some(ContentOf(t.slots[i])) else None
  }

  lemma {:induction false} MemoryAt(t: Table, key: Key, i: nat)
    requires ValidTable(t) && Unique(t) && i < |t.slots| && Holds(t.slots[i], key)
    ensures MemoryOf(t, key) == Some(ContentOf(t.slots[i]))
  {
    FindUnique(t, key, i);
  }

  lemma {:induction false} NoMemory(t: Table, key: Key)
    requires ValidTable(t) && forall i :: 0 <= i < |t.slots| ==> !Holds(t.slots[i], key)
    ensures MemoryOf(t, key).None?
  {
  }

  /** A datagram leaves the memory of all other keys alone, except that of an evicted one. */
  lemma {:induction false} OtherMemory(t: Table, d: seq<byte>, key: Key)
    requires ValidTable(t) && Unique(t) && Acceptable(d) && key != KeyOf(d)
    ensures var r := Process(t, d); MemoryOf(r.table, key) == if r.evicted == Some(key) then None else MemoryOf(t, key)
  {
    if !ClaimFor(t, KeyOf(d)).NoSlot? {
      var i := ProcessAt(t, d);
      var r, k := Process(t, d), FindKey(t.slots, key, 0);
      ProcessKeepsUnique(t, d);
      if k < |t.slots| && k != i {
        MemoryAt(r.table, key, k);
        assert t.slots[i].used && t.slots[k].used ==> t.slots[i].Owner() != t.slots[k].Owner();
      } else {
        forall j | 0 <= j < |t.slots| ensures !Holds(r.table.slots[j], key) { FindUnique(t, key, j); }
        NoMemory(r.table, key);
        if k == i { assert t.slots[i].Owner() == key; }
      }
    }
  }

  /** What the part is written over: the memory of its key, or what is in the slot allocated for it. */
  function Ground(t: Table, d: seq<byte>): (c: Content)
    requires ValidTable(t) && Acceptable(d) && !ClaimFor(t, KeyOf(d)).NoSlot?
    ensures MemoryOf(t, KeyOf(d)).Some? ==> MemoryOf(t, KeyOf(d)).value == c
  {
    ContentOf(t.slots[ClaimFor(t, KeyOf(d)).i])
  }

  lemma {:induction false} OwnMemory(t: Table, d: seq<byte>)
    requires ValidTable(t) && Unique(t) && Acceptable(d) && !ClaimFor(t, KeyOf(d)).NoSlot?
    ensures var r, c := Process(t, d), Put(Ground(t, d), PieceOf(d));
      && MemoryOf(r.table, KeyOf(d)) == (if r.outcome.Delivered? then None else Some(c))
      && (r.outcome.Delivered? ==> r.outcome.packet == c.buffer[..c.totalLen])
  {
    var key := KeyOf(d);
    var i := ProcessAt(t, d);
    var r, s := Process(t, d), if ClaimFor(t, key).Existing? then t.slots[i] else Allocate(t.slots[i], key, t.localId);
    PutIsWrite(s, d);
    ProcessKeepsUnique(t, d);
    if r.outcome.Delivered? {
      forall j | 0 <= j < |t.slots| ensures !Holds(r.table.slots[j], key) { FindUnique(t, key, j); }
      NoMemory(r.table, key);
    } else {
      MemoryAt(r.table, key, i);
    }
  }

  predicate Makes(c: Content, got: seq<Piece>, r: Content) { Written(c, got) == r }

  /** The memory is what the parts make of some former content. */
  ghost predicate Built(m: Option<Content>, got: seq<Piece>) {
    if m.None? then got == [] else exists c :: Makes(c, got, m.value)
  }

  lemma {:induction false} BuiltOver(m: Option<Content>, got: seq<Piece>, ground: Content) returns (c: Content)
    requires Built(m, got) && (m.Some? ==> m.value == ground)
    ensures Makes(c, got, ground)
  {
    if m.Some? { c :| Makes(c, got, m.value); } else { c := ground; }
  }

  /** A part of the key itself. */
  lemma {:induction false} OwnBuilt(t: Table, d: seq<byte>, got: seq<Piece>) returns (c: Content)
    requires ValidTable(t) && Acceptable(d) && Built(MemoryOf(t, KeyOf(d)), got)
    requires !ClaimFor(t, KeyOf(d)).NoSlot?
    ensures Makes(c, got + [PieceOf(d)], Put(Ground(t, d), PieceOf(d)))
  {
    c := BuiltOver(MemoryOf(t, KeyOf(d)), got, Ground(t, d));
    WrittenSnoc(c, got, PieceOf(d));
  }

  lemma {:induction false} OwnBuiltAfter(t: Table, d: seq<byte>, got: seq<Piece>)
    requires ValidTable(t) && Unique(t) && Acceptable(d) && Built(MemoryOf(t, KeyOf(d)), got)
    requires !ClaimFor(t, KeyOf(d)).NoSlot?
    ensures var r := Process(t, d);
      Built(MemoryOf(r.table, KeyOf(d)), if r.outcome.Delivered? then [] else got + [PieceOf(d)])
  {
    OwnMemory(t, d);
    var c := OwnBuilt(t, d, got);
  }

  lemma {:induction false} StepBuilt(t: Table, d: seq<byte>, key: Key, got: seq<Piece>)
    requires ValidTable(t) && Unique(t) && Built(MemoryOf(t, key), got)
    ensures Built(MemoryOf(Process(t, d).table, key), SinceAfter(Process(t, d), d, key, got))
  {
    if Acceptable(d) && KeyOf(d) == key {
      OwnMask(t, d);
      if !ClaimFor(t, key).NoSlot? { OwnBuiltAfter(t, d, got); }
    } else if Acceptable(d) {
      OtherMemory(t, d, key);
    }
  }

  lemma {:induction false} RunBuilt(ds: seq<seq<byte>>, key: Key)
    ensures Built(MemoryOf(RunTable(ds), key), Since(ds, key))
  {
    if ds == [] {
      NoMemory(EmptyTable(), key);
    } else {
      var p := ds[..|ds| - 1];
      RunBuilt(p, key);
      RunUnique(p);
      StepBuilt(RunTable(p), ds[|ds| - 1], key, Since(p, key));
    }
  }

  lemma {:induction false} SinceStep(t: Table, d: seq<byte>, key: Key, got: seq<Piece>)
    requires ValidTable(t) && Unique(t) && Pending(got) && PartsIn(got) == MaskOf(t, key)
    ensures var r := Process(t, d); var next := SinceAfter(r, d, key, got);
      && Pending(next) && PartsIn(next) == MaskOf(r.table, key)
      && (Acceptable(d) && KeyOf(d) == key && r.outcome.Delivered? ==> Gathers(got + [PieceOf(d)]))
  {
    if Acceptable(d) && KeyOf(d) == key {
      OwnMask(t, d);
      OneMore(got, PieceOf(d));
    } else if Acceptable(d) {
      OtherMask(t, d, key);
    }
  }

  lemma {:induction false} SinceParts(ds: seq<seq<byte>>, key: Key)
    ensures Pending(Since(ds, key)) && PartsIn(Since(ds, key)) == MaskOf(RunTable(ds), key)
  {
    if ds == [] {
      MaskAbsent(EmptyTable(), key);
    } else {
      var p := ds[..|ds| - 1];
      SinceParts(p, key);
      RunUnique(p);
      SinceStep(RunTable(p), ds[|ds| - 1], key, Since(p, key));
    }
  }

  /** In every run a delivered packet is made of the parts stored under its key since its slot was
      allocated, in the order they came, over what the slot held before; and these parts make up a
      packet at the last of them and not before. */
  lemma {:induction false} DeliveredBytes(ds: seq<seq<byte>>, i: nat) returns (c: Content)
    requires i < |ds| && RunStep(ds, i).outcome.Delivered?
    ensures Acceptable(ds[i])
    ensures var got := Since(ds[..i], KeyOf(ds[i])) + [PieceOf(ds[i])];
      Gathers(got) && RunStep(ds, i).outcome.packet == Packet(c, got)
  {
    var t, d := RunTable(ds[..i]), ds[i];
    var key := KeyOf(d);
    RunBuilt(ds[..i], key);
    SinceParts(ds[..i], key);
    RunUnique(ds[..i]);
    SinceStep(t, d, key, Since(ds[..i], key));
    OwnMask(t, d);
    OwnMemory(t, d);
    c := OwnBuilt(t, d, Since(ds[..i], key));
  }

  /** So if these parts set the length and bring every byte, each byte handed on is the one received last
      for its place, under the key of the packet and since its slot was allocated. */
  lemma {:induction false} DeliveredIsOwn(ds: seq<seq<byte>>, i: nat, got: seq<Piece>)
    requires i < |ds| && RunStep(ds, i).outcome.Delivered? && Acceptable(ds[i])
    requires got == Since(ds[..i], KeyOf(ds[i])) + [PieceOf(ds[i])] && OwnsAll(got)
    ensures var x := RunStep(ds, i).outcome.packet;
      |x| == LengthOf(got).value && forall j: nat :: j < |x| ==> Some(x[j]) == LastByte(got, j)
  {
    var c := DeliveredBytes(ds, i);
    WrittenAt(c, got, 0);
    forall j: nat | j < LengthOf(got).value ensures Some(Packet(c, got)[j]) == LastByte(got, j) {
      WrittenAt(c, got, j);
      assert LastByte(got, j).Some?;
    }
  }

  // ---- exactly when the former content matters ----

  /** Datagrams under one key. */
  predicate Under(key: Key, ds: seq<seq<byte>>) {
    forall i :: 0 <= i < |ds| ==> Acceptable(ds[i]) && KeyOf(ds[i]) == key
  }

  function Pieces(key: Key, ds: seq<seq<byte>>): (got: seq<Piece>)
    requires Under(key, ds)
    ensures |got| == |ds|
  {
    if ds == [] then [] else Pieces(key, ds[..|ds| - 1]) + [PieceOf(ds[|ds| - 1])]
  }

  /** A whole packet in one part. */
  function Lone(key: Key, x: seq<byte>): seq<byte>
    requires key.id < 0x10000 && |x| <= ETHER_MTU
  {
    EncodeHeader(Header(key.src, [0, 0, 0, 0], key.id, 0, 1, |x|, ETHER_MTU)) + x
  }

  lemma {:induction false} LoneFields(key: Key, x: seq<byte>)
    requires key.id < 0x10000 && |x| <= ETHER_MTU
    ensures var d := Lone(key, x); Acceptable(d) && KeyOf(d) == key && PieceOf(d) == Chunk(0, 1, 0, x)
  {
    HeaderRoundTrip(Header(key.src, [0, 0, 0, 0], key.id, 0, 1, |x|, ETHER_MTU), x);
  }

  predicate OnlyFirst(t: Table) {
    ValidTable(t) && forall i :: 0 < i < |t.slots| ==> !t.slots[i].used
  }

  /** All slots are free, and the first one holds c. */
  predicate Idle(t: Table, c: Content) {
    OnlyFirst(t) && !t.slots[0].used && ContentOf(t.slots[0]) == c
  }

  lemma {:induction false} OnlyFirstUnique(t: Table)
    requires OnlyFirst(t)
    ensures Unique(t)
  {
  }

  lemma {:induction false} FirstTaken(t: Table, key: Key)
    requires OnlyFirst(t) && (!t.slots[0].used || Holds(t.slots[0], key))
    ensures ClaimFor(t, key) == if t.slots[0].used then Existing(0) else Free(0)
  {
  }

  lemma {:induction false} StaysFirst(t: Table, d: seq<byte>)
    requires OnlyFirst(t) && Acceptable(d) && (!t.slots[0].used || Holds(t.slots[0], KeyOf(d)))
    ensures OnlyFirst(Process(t, d).table)
  {
    FirstTaken(t, KeyOf(d));
    var i := ProcessAt(t, d);
  }

  lemma {:induction false} NoneHeld(t: Table, c: Content, key: Key)
    requires Idle(t, c)
    ensures MaskOf(t, key) == {}
  {
    MaskAbsent(t, key);
  }

  lemma {:induction false} LoneStep(t: Table, c: Content, key: Key, x: seq<byte>)
    requires Idle(t, c) && key.id < 0x10000 && |x| <= ETHER_MTU
    ensures Idle(Process(t, Lone(key, x)).table, Put(c, Chunk(0, 1, 0, x)))
  {
    var d := Lone(key, x);
    LoneFields(key, x);
    OnlyFirstUnique(t);
    NoneHeld(t, c, key);
    OwnMask(t, d);
    FirstTaken(t, key);
    StaysFirst(t, d);
    OneIsAll();
    var i := ProcessAt(t, d);
    PutIsWrite(Allocate(t.slots[0], key, t.localId), d);
  }

  lemma {:induction false} OneIsAll()
    ensures {0} == Below(1)
  {
  }

  /** Two whole packets after which all slots are free and the first one holds c. */
  function Before(prior: Key, c: Content): seq<seq<byte>>
    requires prior.id < 0x10000
  {
    [Lone(prior, c.buffer), Lone(prior, c.buffer[..c.totalLen])]
  }

  lemma {:induction false} FirstOfTwo(d: seq<byte>, e: seq<byte>)
    ensures RunTable([d]) == Process(EmptyTable(), d).table && RunTable([d, e]) == Process(RunTable([d]), e).table
  {
    assert [d][..0] == [] && [d, e][..1] == [d];
  }

  lemma {:induction false} PutWhole(c: Content, b: seq<byte>, n: nat)
    requires |b| == ETHER_MTU && n <= ETHER_MTU
    ensures var whole := Put(c, Chunk(0, 1, 0, b));
      whole == Memory(b, |b|) && Put(whole, Chunk(0, 1, 0, b[..n])) == Memory(b, n)
  {
    assert Splice(c.buffer, 0, b) == b && Splice(b, 0, b[..n]) == b;
  }

  lemma {:induction false} BeforeLeaves(prior: Key, c: Content)
    requires prior.id < 0x10000
    ensures Idle(RunTable(Before(prior, c)), c)
  {
    var ds, zero := Before(prior, c), ContentOf(EmptySlot());
    assert Idle(EmptyTable(), zero);
    FirstOfTwo(ds[0], ds[1]);
    PutWhole(zero, c.buffer, c.totalLen);
    LoneStep(EmptyTable(), zero, prior, c.buffer);
    LoneStep(RunTable([ds[0]]), Memory(c.buffer, |c.buffer|), prior, c.buffer[..c.totalLen]);
  }

  ghost predicate Gathering(t: Table, key: Key, c: Content, got: seq<Piece>) {
    && OnlyFirst(t) && MaskOf(t, key) == PartsIn(got) && Pending(got)
    && if got == [] then Idle(t, c) else Holds(t.slots[0], key) && ContentOf(t.slots[0]) == Written(c, got)
  }

  lemma {:induction false} GatherStep(t: Table, key: Key, c: Content, got: seq<Piece>, d: seq<byte>)
    requires Gathering(t, key, c, got) && Acceptable(d) && KeyOf(d) == key
    ensures var all := got + [PieceOf(d)];
      if Completes(all) then Process(t, d).outcome == Delivered(Packet(c, all))
      else Gathering(Process(t, d).table, key, c, all)
  {
    OnlyFirstUnique(t);
    FirstTaken(t, key);
    StaysFirst(t, d);
    OwnMask(t, d);
    OwnMemory(t, d);
    OneMore(got, PieceOf(d));
    WrittenSnoc(c, got, PieceOf(d));
    var i := ProcessAt(t, d);
  }

  lemma {:induction false} LastStep(b: seq<seq<byte>>, p: seq<seq<byte>>, d: seq<byte>)
    ensures RunTable(b + (p + [d])) == Process(RunTable(b + p), d).table
    ensures RunStep(b + (p + [d]), |b| + |p|) == Process(RunTable(b + p), d)
  {
    assert (b + (p + [d]))[..|b| + |p|] == b + p;
  }

  lemma {:induction false} GatherRun(prior: Key, key: Key, c: Content, ds: seq<seq<byte>>)
    requires prior.id < 0x10000 && Under(key, ds) && Pending(Pieces(key, ds))
    ensures Gathering(RunTable(Before(prior, c) + ds), key, c, Pieces(key, ds))
  {
    var b := Before(prior, c);
    if ds == [] {
      BeforeLeaves(prior, c);
      assert b + ds == b;
      NoneHeld(RunTable(b), c, key);
    } else {
      var p, d := ds[..|ds| - 1], ds[|ds| - 1];
      var got := Pieces(key, p);
      assert ds == p + [d] && (got + [PieceOf(d)])[..|got|] == got;
      GatherRun(prior, key, c, p);
      GatherStep(RunTable(b + p), key, c, got, d);
      LastStep(b, p, d);
    }
  }

  /** What becomes of the last of the datagrams, with c in the slot. */
  function LastOutcome(prior: Key, c: Content, ds: seq<seq<byte>>): Outcome
    requires prior.id < 0x10000
  {
    var all := Before(prior, c) + ds;
    RunStep(all, |all| - 1).outcome
  }

  lemma {:induction false} GatheredPacket(prior: Key, key: Key, c: Content, ds: seq<seq<byte>>)
    requires prior.id < 0x10000 && Under(key, ds) && Gathers(Pieces(key, ds))
    ensures LastOutcome(prior, c, ds) == Delivered(Packet(c, Pieces(key, ds)))
  {
    var b, p, d := Before(prior, c), ds[..|ds| - 1], ds[|ds| - 1];
    var got := Pieces(key, p);
    assert ds == p + [d] && (got + [PieceOf(d)])[..|got|] == got;
    GatherRun(prior, key, c, p);
    GatherStep(RunTable(b + p), key, c, got, d);
    LastStep(b, p, d);
  }

  /** The packet that datagrams make up does not depend on what was in the slot before if and only if
      they set its length and bring every byte of it. */
  lemma {:induction false} OwnBytesIff(prior: Key, key: Key, ds: seq<seq<byte>>)
    requires prior.id < 0x10000 && Under(key, ds) && Gathers(Pieces(key, ds))
    ensures OwnsAll(Pieces(key, ds)) <==> forall c, c' :: LastOutcome(prior, c, ds) == LastOutcome(prior, c', ds)
  {
    if OwnsAll(Pieces(key, ds)) {
      forall c, c' ensures LastOutcome(prior, c, ds) == LastOutcome(prior, c', ds) {
        GatheredPacket(prior, key, c, ds);
        GatheredPacket(prior, key, c', ds);
        OwnedPacket(c, c', Pieces(key, ds));
      }
    } else {
      var c, c' := UnownedPacket(Pieces(key, ds));
      GatheredPacket(prior, key, c, ds);
      GatheredPacket(prior, key, c', ds);
    }
  }

  /** A part without bytes. */
  function Hollow(key: Key, part: byte, totalPart: byte): seq<byte>
    requires key.id < 0x10000
  {
    EncodeHeader(Header(key.src, [0, 0, 0, 0], key.id, part, totalPart, 0, 1)) + []
  }

  lemma {:induction false} HollowFields(key: Key, part: byte, totalPart: byte)
    requires key.id < 0x10000 && part < totalPart <= 8
    ensures var d := Hollow(key, part, totalPart);
      Acceptable(d) && KeyOf(d) == key && PieceOf(d) == Chunk(part, totalPart, part, [])
  {
    HeaderRoundTrip(Header(key.src, [0, 0, 0, 0], key.id, part, totalPart, 0, 1), []);
  }

  /** It happens: part 1 of 3 and part 0 of 2, both without bytes, count as a complete packet, and what is
      handed on is the last packet that went through the slot. */
  lemma {:induction false} LeftoverDelivered(prior: Key, key: Key, c: Content)
    requires prior.id < 0x10000 && key.id < 0x10000
    ensures var ds := [Hollow(key, 1, 3), Hollow(key, 0, 2)];
      && Under(key, ds) && Gathers(Pieces(key, ds)) && !OwnsAll(Pieces(key, ds))
      && LastOutcome(prior, c, ds) == Delivered(c.buffer[..c.totalLen])
  {
    var ds, p, q := [Hollow(key, 1, 3), Hollow(key, 0, 2)], Chunk(1, 3, 1, []), Chunk(0, 2, 0, []);
    HollowFields(key, 1, 3);
    HollowFields(key, 0, 2);
    TwoPieces(key, ds[0], ds[1]);
    HollowGathers(p, q);
    HollowPacket(c, p, q);
    GatheredPacket(prior, key, c, ds);
  }

  lemma {:induction false} TwoPieces(key: Key, d: seq<byte>, e: seq<byte>)
    requires Acceptable(d) && Acceptable(e) && KeyOf(d) == KeyOf(e) == key
    ensures Under(key, [d, e]) && Pieces(key, [d, e]) == [PieceOf(d), PieceOf(e)]
  {
    assert [d, e][..1] == [d] && [d][..0] == [];
  }

  lemma {:induction false} HollowGathers(p: Piece, q: Piece)
    requires p.part == 1 && p.totalPart == 3 && q.part == 0 && q.totalPart == 2
    ensures Gathers([p, q])
  {
    OneMore([], p);
    assert [] + [p] == [p] && [p] + [q] == [p, q] && 0 in Below(3);
    assert {1} + {0} == Below(2);
    OneMore([p], q);
  }

  lemma {:induction false} HollowPacket(c: Content, p: Piece, q: Piece)
    requires p.bytes == q.bytes == [] && !Ends(p) && !Ends(q)
    ensures Packet(c, [p, q]) == c.buffer[..c.totalLen] && !OwnsAll([p, q])
  {
    assert [p, q][..1] == [p] && [p][..0] == [] && [] + [p] == [p] && [p] + [q] == [p, q];
    assert LengthOf([p]).None?;
    WrittenSnoc(c, [], p);
    WrittenSnoc(c, [p], q);
    assert Splice(c.buffer, p.start, []) == c.buffer && Splice(c.buffer, q.start, []) == c.buffer;
  }

  // ---- parts that agree ----

  /** The parts agree on count and size, and all but the last are full: what lan_client_send sends. */
  predicate Uniform(got: seq<Piece>, total: nat, pmtu: nat) {
    forall i :: 0 <= i < |got| ==> var p := got[i];
      p.totalPart == total && p.start == pmtu * p.part && (p.part < total - 1 ==> |p.bytes| == pmtu)
  }

  lemma {:induction false} PartFrom(got: seq<Piece>, k: nat) returns (i: nat)
    requires k in PartsIn(got)
    ensures i < |got| && got[i].part == k
  {
    if got[|got| - 1].part == k { i := |got| - 1; } else { i := PartFrom(got[..|got| - 1], k); }
  }

  lemma {:induction false} LengthFrom(got: seq<Piece>, i: nat) returns (m: nat)
    requires i < |got| && Ends(got[i])
    ensures m < |got| && Ends(got[m]) && LengthOf(got) == Some(got[m].start + |got[m].bytes|)
  {
    if Ends(got[|got| - 1]) { m := |got| - 1; } else { m := LengthFrom(got[..|got| - 1], i); }
  }

  lemma {:induction false} ByteFrom(got: seq<Piece>, i: nat, j: nat)
    requires i < |got| && Covers(got[i], j)
    ensures LastByte(got, j).Some?
  {
    if !Covers(got[|got| - 1], j) { ByteFrom(got[..|got| - 1], i, j); }
  }

  /** Position j lies in part j / pmtu. */
  lemma {:induction false} PartOf(pmtu: nat, n: nat, j: nat) returns (k: nat)
    requires pmtu > 0 && j < pmtu * n
    ensures k < n && pmtu * k <= j < pmtu * k + pmtu
  {
    k := j / pmtu;
    assert j == pmtu * k + j % pmtu;
    if k >= n { Grows(pmtu, n, k); }
  }

  lemma {:induction false} Grows(a: nat, b: nat, c: nat)
    requires b <= c
    ensures a * b <= a * c
  {
  }

  /** Such parts own all they make up, whoever sends them. */
  lemma {:induction false} UniformOwns(got: seq<Piece>, total: nat, pmtu: nat)
    requires Gathers(got) && Uniform(got, total, pmtu) && pmtu > 0
    ensures OwnsAll(got)
  {
    var i := PartFrom(got, total - 1);
    var m := LengthFrom(got, i);
    forall j: nat | j < LengthOf(got).value ensures LastByte(got, j).Some? {
      if j < got[m].start {
        var k := PartOf(pmtu, total - 1, j);
        var n := PartFrom(got, k);
        ByteFrom(got, n, j);
      } else {
        ByteFrom(got, m, j);
      }
    }
  }
}
