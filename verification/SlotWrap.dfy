/** A history after which a full table gives up a newer slot and keeps its oldest one. */
module SlotWrap {
  import opened Bytes
  import opened Fragmenter
  import opened Reassembly
  import opened ReassemblyRuns
  import opened SlotEviction

  function WrappedSlot(i: nat): Slot
    requires i < FRAG_COUNT
  {
    Slot(true, if i == 0 then 65530 else 65536 + i, [0, 0, 0, i], 0, 1, 0, seq(ETHER_MTU, _ => 0))
  }

  /** Slot 0 was allocated before the wrap-around, the other 99 after it. */
  function WrappedTable(): (t: Table)
    ensures ValidTable(t)
  {
    Table(seq(FRAG_COUNT, i requires 0 <= i < FRAG_COUNT => WrappedSlot(i)), 65636)
  }

  lemma {:induction false} WrappedNumbered()
    ensures Numbered(WrappedTable()) && AllUsed(WrappedTable())
  {
    var t := WrappedTable();
    assert forall i :: 0 <= i < |t.slots| ==> t.slots[i] == WrappedSlot(i);
  }

  lemma {:induction false} WrappedLocalId(i: nat)
    requires i < FRAG_COUNT
    ensures WrappedSlot(i).LocalId() == if i == 0 then 65530 else i
  {
  }

  lemma {:induction false} WrappedAbsent(key: Key)
    requires key.id == 1
    ensures Absent(WrappedTable(), key)
  {
  }

  lemma {:induction false} LeastLocalIdGoes(t: Table, key: Key, least: nat)
    requires ValidTable(t) && AllUsed(t) && Absent(t, key) && t.localId == 65636 && least == 1
    requires forall i: nat :: i < FRAG_COUNT ==> t.slots[i] == WrappedSlot(i)
    ensures ClaimFor(t, key) == Evict(least)
  {
    forall j: nat | j < |t.slots|
      ensures t.slots[least].LocalId() <= t.slots[j].LocalId() &&
        (j < least ==> t.slots[least].LocalId() < t.slots[j].LocalId())
    {
      WrappedLocalId(j);
    }
    assert t.slots[99].serial == t.localId - 1;
    EvictionAfterWrap(t, key, least);
  }

  // ---- how the table gets there ----

  /** Part 0 of a packet of n parts without any bytes. */
  function Bare(src: Ip, id: byte, n: byte): (d: seq<byte>)
    ensures |d| == HEADER_LEN
  {
    src + [0, 0, 0, 0] + [0, id] + [0, n] + [0, 0] + [0, 1]
  }

  lemma {:induction false} BareFields(src: Ip, id: byte, n: byte)
    requires 1 <= n <= 8
    ensures var d := Bare(src, id, n);
      Acceptable(d) && KeyOf(d) == Key(src, id) && ParseHeader(d) == Header(src, [0, 0, 0, 0], id, 0, n, 0, 1)
  {
  }

  /** A whole packet in one part, and the first of two parts of the packet that will keep slot f. */
  function Whole(): seq<byte> { Bare([1, 0, 0, 0], 0, 1) }
  function Begun(f: byte): seq<byte> { Bare([0, 0, 0, f], 0, 2) }

  /** The first f slots hold the packets begun, the others are free; n slots have been allocated so far. */
  predicate Stage(t: Table, f: nat, n: nat) {
    && |t.slots| == FRAG_COUNT && f <= FRAG_COUNT && t.localId == n
    && (forall i :: 0 <= i < f ==> t.slots[i] == WrappedSlot(i))
    && (forall i :: f <= i < FRAG_COUNT ==> Blank(t.slots[i]))
  }

  predicate Blank(s: Slot) {
    !s.used && s.totalLen == 0 && s.buffer == seq(ETHER_MTU, _ => 0)
  }

  lemma {:induction false} StageFree(t: Table, f: nat, n: nat, key: Key)
    requires Stage(t, f, n) && f < FRAG_COUNT && (forall i :: 0 <= i < f ==> key != WrappedSlot(i).Owner())
    ensures ValidTable(t) && ClaimFor(t, key) == Free(f)
  {
    forall i | 0 <= i < |t.slots| ensures !Holds(t.slots[i], key) && ValidSlot(t.slots[i]) {
      if i < f { assert t.slots[i] == WrappedSlot(i); } else { assert Blank(t.slots[i]); }
    }
    assert Blank(t.slots[f]) && forall i :: 0 <= i < f ==> t.slots[i].used;
  }

  lemma {:induction false} NoBytes(buffer: seq<byte>)
    ensures Splice(buffer, 0, []) == buffer
  {
  }

  /** A whole packet passes through slot f and leaves it free. */
  lemma {:induction false} WholeStep(t: Table, f: nat, n: nat)
    requires Stage(t, f, n) && f < FRAG_COUNT
    ensures ValidTable(t) && Stage(Process(t, Whole()).table, f, n + 1)
  {
    var key := Key([1, 0, 0, 0], 0);
    BareFields([1, 0, 0, 0], 0, 1);
    forall i | 0 <= i < f ensures key != WrappedSlot(i).Owner() { assert WrappedSlot(i).src[0] == 0 != key.src[0]; }
    StageFree(t, f, n, key);
    var i := ProcessAt(t, Whole());
    NoBytes(t.slots[f].buffer);
  }

  /** A packet begun keeps slot f. */
  lemma {:induction false} BegunStep(t: Table, f: nat, n: nat)
    requires Stage(t, f, n) && f < FRAG_COUNT && n == WrappedSlot(f).serial
    ensures ValidTable(t) && Stage(Process(t, Begun(f)).table, f + 1, n + 1)
  {
    BareFields([0, 0, 0, f], 0, 2);
    forall i | 0 <= i < f ensures KeyOf(Begun(f)) != WrappedSlot(i).Owner() {
      assert WrappedSlot(i).src[3] == i && KeyOf(Begun(f)).src[3] == f;
    }
    StageFree(t, f, n, KeyOf(Begun(f)));
    var i := ProcessAt(t, Begun(f));
    NoBytes(t.slots[f].buffer);
  }

  function Wholes(k: nat): seq<seq<byte>> {
    if k == 0 then [] else Wholes(k - 1) + [Whole()]
  }

  /** Packets begun in slots f, f + 1, ... */
  function Opening(f: nat, k: nat): seq<seq<byte>>
    requires f + k <= FRAG_COUNT
  {
    if k == 0 then [] else Opening(f, k - 1) + [Begun(f + k - 1)]
  }

  lemma {:induction false} RunSnoc(ds: seq<seq<byte>>, d: seq<byte>)
    ensures RunTable(ds + [d]) == Process(RunTable(ds), d).table
  {
    assert (ds + [d])[..|ds|] == ds;
  }

  lemma {:induction false} Regroup(ds: seq<seq<byte>>, q: seq<seq<byte>>, d: seq<byte>)
    ensures ds + (q + [d]) == ds + q + [d]
  {
  }

  predicate SameRun(x: seq<seq<byte>>, ds: seq<seq<byte>>) { x == ds }

  /** ds leads to the stage. Stated through SameRun, to keep the table folded away. */
  ghost predicate LeadsTo(ds: seq<seq<byte>>, f: nat, n: nat) {
    forall x :: SameRun(x, ds) ==> Stage(RunTable(x), f, n)
  }

  lemma {:induction false} LeadsToIff(ds: seq<seq<byte>>, f: nat, n: nat)
    ensures LeadsTo(ds, f, n) <==> Stage(RunTable(ds), f, n)
  {
    assert SameRun(ds, ds);
  }

  lemma {:induction false} WholeSnoc(ds: seq<seq<byte>>, f: nat, n: nat)
    requires LeadsTo(ds, f, n) && f < FRAG_COUNT
    ensures LeadsTo(ds + [Whole()], f, n + 1)
  {
    LeadsToIff(ds, f, n);
    WholeStep(RunTable(ds), f, n);
    RunSnoc(ds, Whole());
    LeadsToIff(ds + [Whole()], f, n + 1);
  }

  lemma {:induction false} BegunSnoc(ds: seq<seq<byte>>, f: nat, n: nat)
    requires LeadsTo(ds, f, n) && f < FRAG_COUNT && n == if f == 0 then 65530 else 65536 + f
    ensures LeadsTo(ds + [Begun(f)], f + 1, n + 1)
  {
    LeadsToIff(ds, f, n);
    BegunStep(RunTable(ds), f, n);
    RunSnoc(ds, Begun(f));
    LeadsToIff(ds + [Begun(f)], f + 1, n + 1);
  }

  lemma {:induction false} WholesRun(ds: seq<seq<byte>>, f: nat, n: nat, k: nat)
    requires LeadsTo(ds, f, n) && f < FRAG_COUNT
    ensures LeadsTo(ds + Wholes(k), f, n + k)
  {
    if k == 0 {
      assert ds + Wholes(0) == ds;
    } else {
      WholesRun(ds, f, n, k - 1);
      WholeSnoc(ds + Wholes(k - 1), f, n + k - 1);
      Regroup(ds, Wholes(k - 1), Whole());
    }
  }

  /** Past the wrap, slot f keeps allocation number 65536 + f. */
  lemma {:induction false} OpeningRun(ds: seq<seq<byte>>, f: nat, n: nat, k: nat)
    requires LeadsTo(ds, f, n) && f + k <= FRAG_COUNT && 0 < f && n == 65536 + f
    ensures LeadsTo(ds + Opening(f, k), f + k, n + k)
  {
    if k == 0 {
      assert ds + Opening(f, 0) == ds;
    } else {
      OpeningRun(ds, f, n, k - 1);
      BegunSnoc(ds + Opening(f, k - 1), f + k - 1, n + k - 1);
      Regroup(ds, Opening(f, k - 1), Begun(f + k - 1));
    }
  }

  /** a whole packets, one begun, b whole ones, then c begun. */
  function Arrivals(a: nat, b: nat, c: nat): seq<seq<byte>>
    requires 1 + c <= FRAG_COUNT
  {
    Wholes(a) + [Begun(0)] + Wholes(b) + Opening(1, c)
  }

  lemma {:induction false} StartStage()
    ensures LeadsTo([], 0, 0)
  {
    LeadsToIff([], 0, 0);
  }

  /** With 65530 and 6 whole packets the counter wraps between the packet in slot 0 and those in the
      other slots. The two numbers are given as bounds, so that Wholes is not unfolded on literals. */
  lemma {:induction false} ArrivalsStage(a: nat, b: nat, c: nat)
    requires 65529 < a < 65531 && 5 < b < 7 && 1 + c <= FRAG_COUNT
    ensures LeadsTo(Arrivals(a, b, c), 1 + c, 65537 + c)
  {
    FirstWholes(a);
    BegunSnoc(Wholes(a), 0, a);
    var ds := Wholes(a) + [Begun(0)];
    WholesRun(ds, 1, a + 1, b);
    OpeningRun(ds + Wholes(b), 1, a + 1 + b, c);
  }

  lemma {:induction false} FirstWholes(a: nat)
    ensures LeadsTo(Wholes(a), 0, a)
  {
    StartStage();
    WholesRun([], 0, 0, a);
    assert [] + Wholes(a) == Wholes(a);
  }

  lemma {:induction false} LastStage(t: Table)
    requires Stage(t, FRAG_COUNT, 65636)
    ensures t == WrappedTable()
  {
    assert t.slots == WrappedTable().slots;
  }

  /** It happens on a run: after the wrap a newer slot goes while the oldest stays. */
  lemma {:induction false} OldestCanSurvive(key: Key) returns (ds: seq<seq<byte>>)
    requires key.id == 1
    ensures var t := RunTable(ds);
      && AllUsed(t) && Absent(t, key) && ClaimFor(t, key) == Evict(1)
      && (forall j :: 0 < j < |t.slots| ==> t.slots[0].serial < t.slots[j].serial)
  {
    var a, b, c: nat :| 65529 < a < 65531 && 5 < b < 7 && 98 < c < 100;
    ds := Arrivals(a, b, c);
    ArrivalsStage(a, b, c);
    LeadsToIff(ds, 1 + c, 65537 + c);
    LastStage(RunTable(ds));
    WrappedNumbered();
    WrappedAbsent(key);
    LeastLocalIdGoes(WrappedTable(), key, 1);
  }
}
