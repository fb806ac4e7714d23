/** Which slot a full reassembly table gives up, and when it refuses instead. */
module SlotEviction {
  import opened Bytes
  import opened Fragmenter
  import opened Reassembly
  import opened ReassemblyRuns

  /** Every used slot carries a different allocation number, all of them below the counter. */
  predicate Numbered(t: Table) {
    && (forall i :: 0 <= i < |t.slots| && t.slots[i].used ==> t.slots[i].serial < t.localId)
    && (forall i, j :: 0 <= i < j < |t.slots| && t.slots[i].used && t.slots[j].used ==>
          t.slots[i].serial != t.slots[j].serial)
  }

  lemma {:induction false} ProcessKeepsNumbered(t: Table, d: seq<byte>)
    requires ValidTable(t) && Numbered(t)
    ensures Numbered(Process(t, d).table)
  {
    if Acceptable(d) && !ClaimFor(t, KeyOf(d)).NoSlot? {
      var i := ProcessAt(t, d);
    }
  }

  lemma {:induction false} RunNumbered(ds: seq<seq<byte>>)
    ensures Numbered(RunTable(ds))
  {
    if ds != [] {
      RunNumbered(ds[..|ds| - 1]);
      ProcessKeepsNumbered(RunTable(ds[..|ds| - 1]), ds[|ds| - 1]);
    }
  }

  /** The last allocation has not been overwritten. */
  predicate Newest(t: Table) {
    t.localId == 0 || exists i :: 0 <= i < |t.slots| && t.slots[i].serial == t.localId - 1
  }

  lemma {:induction false} ProcessKeepsNewest(t: Table, d: seq<byte>)
    requires ValidTable(t) && Newest(t)
    ensures Newest(Process(t, d).table)
  {
    var u := Process(t, d).table;
    if Acceptable(d) && !ClaimFor(t, KeyOf(d)).NoSlot? {
      var i := ProcessAt(t, d);
      if u.localId > t.localId {
        assert u.slots[i].serial == u.localId - 1;
      } else if t.localId > 0 {
        var k :| 0 <= k < |t.slots| && t.slots[k].serial == t.localId - 1;
        assert u.slots[k].serial == t.slots[k].serial;
      }
    }
  }

  lemma {:induction false} RunNewest(ds: seq<seq<byte>>)
    ensures Newest(RunTable(ds))
  {
    if ds != [] {
      RunNewest(ds[..|ds| - 1]);
      ProcessKeepsNewest(RunTable(ds[..|ds| - 1]), ds[|ds| - 1]);
    }
  }

  predicate AllUsed(t: Table) {
    forall i :: 0 <= i < |t.slots| ==> t.slots[i].used
  }

  predicate Absent(t: Table, key: Key) {
    forall i :: 0 <= i < |t.slots| ==> !Holds(t.slots[i], key)
  }

  ghost function Serials(slots: seq<Slot>): set<nat> {
    if slots == [] then {} else Serials(slots[..|slots| - 1]) + {slots[|slots| - 1].serial}
  }

  lemma {:induction false} SerialsMember(slots: seq<Slot>, x: nat)
    ensures x in Serials(slots) <==> exists i :: 0 <= i < |slots| && slots[i].serial == x
  {
    if slots != [] {
      var p := slots[..|slots| - 1];
      SerialsMember(p, x);
      if x in Serials(slots) && x !in Serials(p) {
        assert slots[|slots| - 1].serial == x;
      }
      assert forall i :: 0 <= i < |p| ==> p[i] == slots[i];
    }
  }

  lemma {:induction false} SerialsCount(slots: seq<Slot>)
    requires forall i, j :: 0 <= i < j < |slots| ==> slots[i].serial != slots[j].serial
    ensures |Serials(slots)| == |slots|
  {
    if slots != [] {
      var p := slots[..|slots| - 1];
      SerialsCount(p);
      SerialsMember(p, slots[|slots| - 1].serial);
    }
  }

  /** The n allocation numbers before localId. */
  ghost function LastAllocations(localId: nat, n: nat): (r: set<nat>)
    requires n <= localId
    ensures |r| == n && forall x: nat :: x in r <==> localId - n <= x < localId
  {
    if n == 0 then {} else LastAllocations(localId, n - 1) + {localId - n}
  }

  lemma {:induction false} SameSizeSubset(a: set<nat>, b: set<nat>)
    requires a <= b && |a| == |b|
    ensures a == b
  {
    assert |b - a| == |b| - |a| == 0;
    assert b == a + (b - a);
  }

  lemma {:induction false} SerialsBelow(t: Table)
    requires ValidTable(t) && Numbered(t) && AllUsed(t)
    ensures t.localId >= FRAG_COUNT && |Serials(t.slots)| == FRAG_COUNT
    ensures forall x :: x in Serials(t.slots) ==> x < t.localId
  {
    SerialsCount(t.slots);
    forall x | x in Serials(t.slots) ensures x < t.localId {
      SerialsMember(t.slots, x);
    }
    var all := LastAllocations(t.localId, t.localId);
    assert Serials(t.slots) <= all;
    SubsetSize(Serials(t.slots), all);
  }

  lemma {:induction false} SubsetSize(a: set<nat>, b: set<nat>)
    requires a <= b
    ensures |a| <= |b|
  {
    assert |b - a| == |b| - |a|;
  }

  /** All serials within the last hundred: then they are the last hundred. */
  lemma {:induction false} LastHundredIff(t: Table)
    requires ValidTable(t) && Numbered(t) && AllUsed(t)
    ensures t.localId >= FRAG_COUNT
    ensures (forall i :: 0 <= i < |t.slots| ==> t.slots[i].serial >= t.localId - FRAG_COUNT)
       <==> Serials(t.slots) == LastAllocations(t.localId, FRAG_COUNT)
  {
    SerialsBelow(t);
    var last := LastAllocations(t.localId, FRAG_COUNT);
    if forall i :: 0 <= i < |t.slots| ==> t.slots[i].serial >= t.localId - FRAG_COUNT {
      forall x | x in Serials(t.slots) ensures x in last {
        SerialsMember(t.slots, x);
      }
      SameSizeSubset(Serials(t.slots), last);
    } else if Serials(t.slots) == last {
      var i :| 0 <= i < |t.slots| && t.slots[i].serial < t.localId - FRAG_COUNT;
      SerialsMember(t.slots, t.slots[i].serial);
      assert false;
    }
  }

  /** Up to the 65536th allocation a full table meeting a new id gives up its oldest entry, unless
      its entries are the last 100 allocations: then it refuses. */
  lemma {:induction false} EvictsOldestOrRefuses(t: Table, key: Key)
    requires ValidTable(t) && Numbered(t) && AllUsed(t) && Absent(t, key) && t.localId <= 0x10000
    ensures t.localId >= FRAG_COUNT
    ensures ClaimFor(t, key).NoSlot? <==> Serials(t.slots) == LastAllocations(t.localId, FRAG_COUNT)
    ensures !ClaimFor(t, key).NoSlot? ==>
      && ClaimFor(t, key).Evict?
      && forall j :: 0 <= j < |t.slots| && j != ClaimFor(t, key).i ==>
          t.slots[ClaimFor(t, key).i].serial < t.slots[j].serial
  {
    LastHundredIff(t);
    PlainDifs(t);
    ClaimWhenFull(t, key);
    var m := MaxDif(t.slots, t.localId, |t.slots|);
    if m.0 > FRAG_COUNT {
      OldestIsMax(t, m.1);
    }
  }

  /** Before the first wrap the distance is the number of allocations since. */
  lemma {:induction false} PlainDifs(t: Table)
    requires ValidTable(t) && Numbered(t) && AllUsed(t) && t.localId <= 0x10000
    ensures forall i :: 0 <= i < |t.slots| ==> Dif(t.slots[i], t.localId) == t.localId - t.slots[i].serial
  {
  }

  lemma {:induction false} ClaimWhenFull(t: Table, key: Key)
    requires ValidTable(t) && AllUsed(t) && Absent(t, key)
    ensures var m := MaxDif(t.slots, t.localId, |t.slots|);
      ClaimFor(t, key) == if m.0 > FRAG_COUNT then Evict(m.1) else NoSlot
  {
  }

  lemma {:induction false} OldestIsMax(t: Table, i: nat)
    requires ValidTable(t) && Numbered(t) && AllUsed(t) && i < |t.slots|
    requires forall j :: 0 <= j < |t.slots| ==> Dif(t.slots[j], t.localId) == t.localId - t.slots[j].serial
    requires forall j :: 0 <= j < |t.slots| ==> Dif(t.slots[j], t.localId) <= Dif(t.slots[i], t.localId)
    ensures forall j :: 0 <= j < |t.slots| && j != i ==> t.slots[i].serial < t.slots[j].serial
  {
  }

  /** A full table holding exactly the last 100 allocations. */
  ghost predicate Stuck(t: Table) {
    && ValidTable(t) && Numbered(t) && AllUsed(t)
    && FRAG_COUNT <= t.localId <= 0x10000
    && Serials(t.slots) == LastAllocations(t.localId, FRAG_COUNT)
  }

  predicate SameAllocation(t: Table, u: Table) {
    && |t.slots| == |u.slots| && t.localId == u.localId
    && forall i :: 0 <= i < |t.slots| ==>
         t.slots[i].used == u.slots[i].used && t.slots[i].serial == u.slots[i].serial &&
             t.slots[i].Owner() == u.slots[i].Owner()
  }

  lemma {:induction false} StuckStep(t: Table, d: seq<byte>)
    requires Stuck(t)
    ensures Acceptable(d) && Absent(t, KeyOf(d)) ==> Process(t, d).outcome.Refused?
    ensures !Process(t, d).outcome.Delivered? ==> Stuck(Process(t, d).table) && SameAllocation(t, Process(t, d).table)
  {
    if Acceptable(d) {
      if Absent(t, KeyOf(d)) {
        EvictsOldestOrRefuses(t, KeyOf(d));
      } else {
        var i := ProcessAt(t, d);
        if !Process(t, d).outcome.Delivered? {
          SameAllocationSerials(t, Process(t, d).table);
        }
      }
    }
  }

  lemma {:induction false} SameAllocationSerials(t: Table, u: Table)
    requires SameAllocation(t, u)
    ensures Serials(t.slots) == Serials(u.slots)
  {
    forall x: nat ensures x in Serials(t.slots) <==> x in Serials(u.slots) {
      SerialsMember(t.slots, x);
      SerialsMember(u.slots, x);
      if i :| 0 <= i < |t.slots| && t.slots[i].serial == x { assert u.slots[i].serial == x; }
      if i :| 0 <= i < |u.slots| && u.slots[i].serial == x { assert t.slots[i].serial == x; }
    }
  }

  function RunFrom(t: Table, ds: seq<seq<byte>>): (r: Table)
    requires ValidTable(t)
    ensures ValidTable(r)
  {
    if ds == [] then t else Process(RunFrom(t, ds[..|ds| - 1]), ds[|ds| - 1]).table
  }

  /** Once stuck, the table refuses every id it does not hold until one of its packets completes. */
  lemma {:induction false} StuckUntilDelivery(t: Table, ds: seq<seq<byte>>, d: seq<byte>)
    requires Stuck(t)
    requires forall i :: 0 <= i < |ds| ==> !Process(RunFrom(t, ds[..i]), ds[i]).outcome.Delivered?
    ensures Stuck(RunFrom(t, ds)) && SameAllocation(t, RunFrom(t, ds))
    ensures Acceptable(d) && Absent(t, KeyOf(d)) ==> Process(RunFrom(t, ds), d).outcome.Refused?
  {
    if ds != [] {
      var p := ds[..|ds| - 1];
      assert forall i :: 0 <= i < |p| ==> p[..i] == ds[..i] && p[i] == ds[i];
      StuckUntilDelivery(t, p, d);
      StuckStep(RunFrom(t, p), ds[|ds| - 1]);
    }
    StuckStep(RunFrom(t, ds), d);
  }

  /** A fragment that cannot complete its packet on its own. */
  predicate Begins(d: seq<byte>) {
    Acceptable(d) && ParseHeader(d).totalPart >= 2
  }

  predicate BurstOf(ds: seq<seq<byte>>) {
    && (forall i :: 0 <= i < |ds| ==> Begins(ds[i]))
    && (forall i, j :: 0 <= i < j < |ds| ==> Begins(ds[i]) && Begins(ds[j]) && KeyOf(ds[i]) != KeyOf(ds[j]))
  }

  /** Slot i holds the packet begun by the i-th datagram, the other slots are free. */
  predicate Filled(t: Table, ds: seq<seq<byte>>) {
    && |ds| <= |t.slots| && t.localId == |ds|
    && (forall i :: 0 <= i < |ds| ==>
        Begins(ds[i]) && t.slots[i].used && t.slots[i].serial == i && t.slots[i].Owner() == KeyOf(ds[i]))
    && (forall i :: |ds| <= i < |t.slots| ==> !t.slots[i].used)
  }

  lemma {:induction false} FilledStep(t: Table, p: seq<seq<byte>>, d: seq<byte>)
    requires ValidTable(t) && Filled(t, p) && |p| < FRAG_COUNT && Begins(d)
    requires forall i :: 0 <= i < |p| ==> Begins(p[i]) && KeyOf(p[i]) != KeyOf(d)
    ensures Filled(Process(t, d).table, p + [d])
  {
    var k, f := FindKey(t.slots, KeyOf(d), 0), FindFree(t.slots, 0);
    assert forall i :: 0 <= i < |p| ==> t.slots[i].Owner() != KeyOf(d);
    assert !t.slots[|p|].used;
    assert k == |t.slots| && f == |p|;
    var i := ProcessAt(t, d);
    OnePartIsNotAll(ParseHeader(d).part, ParseHeader(d).totalPart);
  }

  lemma {:induction false} OnePartIsNotAll(k: nat, n: nat)
    requires k < 8 && 2 <= n <= 8
    ensures 0 | Bit(k) != Full(n)
  {
  }

  lemma {:induction false} Burst(ds: seq<seq<byte>>)
    requires |ds| <= FRAG_COUNT && BurstOf(ds)
    ensures Filled(RunTable(ds), ds)
  {
    if ds != [] {
      var p, d := ds[..|ds| - 1], ds[|ds| - 1];
      BurstPrefix(p, d, ds);
      Burst(p);
      FilledStep(RunTable(p), p, d);
    }
  }

  lemma {:induction false} BurstPrefix(p: seq<seq<byte>>, d: seq<byte>, ds: seq<seq<byte>>)
    requires ds != [] && p == ds[..|ds| - 1] && d == ds[|ds| - 1] && BurstOf(ds)
    ensures BurstOf(p) && Begins(d) && ds == p + [d]
    ensures forall i :: 0 <= i < |p| ==> Begins(p[i]) && KeyOf(p[i]) != KeyOf(d)
  {
    assert forall i :: 0 <= i < |p| ==> p[i] == ds[i];
  }

  /** How a table gets stuck: one hundred packets begun, none finished. */
  lemma {:induction false} BurstSticks(ds: seq<seq<byte>>)
    requires |ds| == FRAG_COUNT && BurstOf(ds)
    ensures Stuck(RunTable(ds))
  {
    Burst(ds);
    RunNumbered(ds);
    LastHundredIff(RunTable(ds));
  }

  /** Past the 65536th allocation the 16-bit local_id makes the table look old for good: it never
      refuses, and what it gives up is the slot with the least local_id, first index first. That need
      not be its oldest slot. */
  lemma {:induction false} EvictionAfterWrap(t: Table, key: Key, oldest: nat)
    requires ValidTable(t) && AllUsed(t) && Absent(t, key) && t.localId > 0x10000 && Newest(t)
    requires oldest < |t.slots|
    ensures ClaimFor(t, key).Evict?
    ensures ClaimFor(t, key).i == oldest <==>
      forall j :: 0 <= j < |t.slots| ==>
        if j < oldest then t.slots[oldest].LocalId() < t.slots[j].LocalId()
            else t.slots[oldest].LocalId() <= t.slots[j].LocalId()
  {
    assert forall i :: 0 <= i < |t.slots| ==> Dif(t.slots[i], t.localId) == t.localId - t.slots[i].LocalId();
    var m := MaxDif(t.slots, t.localId, |t.slots|);
    var k :| 0 <= k < |t.slots| && t.slots[k].serial == t.localId - 1;
    NewestLooksOld(t.slots[k], t.localId);
  }

  /** The last allocation after a wrap has a small local_id. */
  lemma {:induction false} NewestLooksOld(s: Slot, localId: nat)
    requires localId > 0x10000 && s.serial == localId - 1
    ensures Dif(s, localId) > FRAG_COUNT
  {
    assert s.LocalId() <= s.serial - 0x10000;
  }
}
