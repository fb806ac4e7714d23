/** What the reassembly table guarantees over whole runs of received datagrams. */
module ReassemblyRuns {
  import opened Bytes
  import opened Fragmenter
  import opened Reassembly

  // ---- runs ----

  /** The table after the datagrams ds, received in that order by a fresh client. */
  function RunTable(ds: seq<seq<byte>>): (t: Table)
    ensures ValidTable(t)
  {
    if ds == [] then EmptyTable() else Process(RunTable(ds[..|ds| - 1]), ds[|ds| - 1]).table
  }

  function RunStep(ds: seq<seq<byte>>, i: nat): Step
    requires i < |ds|
  {
    Process(RunTable(ds[..i]), ds[i])
  }

  predicate Unique(t: Table) {
    forall i, j :: 0 <= i < j < |t.slots| && t.slots[i].used && t.slots[j].used ==>
      t.slots[i].Owner() != t.slots[j].Owner()
  }

  /** Looking a key up finds the one slot that holds it. */
  lemma {:induction false} FindUnique(t: Table, key: Key, i: nat)
    requires Unique(t) && i < |t.slots|
    ensures Holds(t.slots[i], key) ==> FindKey(t.slots, key, 0) == i
  {
    var j := FindKey(t.slots, key, 0);
    assert j < i && t.slots[j].used && t.slots[i].used ==> t.slots[j].Owner() != t.slots[i].Owner();
  }

  /** Everything a step that finds a slot does to the table. */
  lemma {:induction false} ProcessAt(t: Table, d: seq<byte>) returns (i: nat)
    requires ValidTable(t) && Acceptable(d) && !ClaimFor(t, KeyOf(d)).NoSlot?
    ensures i == ClaimFor(t, KeyOf(d)).i < |t.slots|
    ensures var r := Process(t, d);
      var s := if ClaimFor(t, KeyOf(d)).Existing? then t.slots[i] else Allocate(t.slots[i], KeyOf(d), t.localId);
            && ValidSlot(s) && s.Owner() == KeyOf(d)
            && |r.table.slots| == |t.slots|
            && (forall j :: 0 <= j < |t.slots| && j != i ==> r.table.slots[j] == t.slots[j])
            && r.table.slots[i] == WritePart(s, d).(used := !r.outcome.Delivered?)
            && (r.outcome.Delivered? <==> WritePart(s, d).part == Full(ParseHeader(d).totalPart))
            && (r.outcome.Delivered? || r.outcome.Stored?)
            && (r.outcome.Delivered? ==> r.outcome.packet == WritePart(s, d).buffer[..WritePart(s, d).totalLen])
            && r.evicted == (if ClaimFor(t, KeyOf(d)).Evict? then Some(t.slots[i].Owner()) else None)
            && r.table.localId == t.localId + (if ClaimFor(t, KeyOf(d)).Existing? then 0 else 1)
  {
    i := ClaimFor(t, KeyOf(d)).i;
  }

  lemma {:induction false} ProcessKeepsUnique(t: Table, d: seq<byte>)
    requires ValidTable(t) && Unique(t)
    ensures Unique(Process(t, d).table)
  {
    if Acceptable(d) && !ClaimFor(t, KeyOf(d)).NoSlot? {
      var i := ProcessAt(t, d);
      var t' := Process(t, d).table;
      forall a, b | 0 <= a < b < |t'.slots| && t'.slots[a].used && t'.slots[b].used
        ensures t'.slots[a].Owner() != t'.slots[b].Owner()
      {
        if a == i || b == i {
          var c := if a == i then b else a;
          FindUnique(t, KeyOf(d), c);
        }
      }
    }
  }

  /** At most one used slot per (src, id), whatever arrives. */
  lemma {:induction false} RunUnique(ds: seq<seq<byte>>)
    ensures Unique(RunTable(ds))
  {
    if ds != [] {
      RunUnique(ds[..|ds| - 1]);
      ProcessKeepsUnique(RunTable(ds[..|ds| - 1]), ds[|ds| - 1]);
    }
  }

  // ---- which parts a slot has: the bitmask against the history ----

  /** The parts of `key` received since its slot was last opened, read off the history alone:
      a delivery or an eviction of the key starts over, a refused or ignored datagram adds nothing. */
  ghost function Collected(ds: seq<seq<byte>>, key: Key): set<nat> {
    if ds == [] then {}
    else
      var before := Collected(ds[..|ds| - 1], key);
      var d := ds[|ds| - 1];
      var r := RunStep(ds, |ds| - 1);
      if r.evicted == Some(key) then {}
      else if !Acceptable(d) || KeyOf(d) != key || r.outcome.Refused? then before
      else if r.outcome.Delivered? then {}
      else before + {ParseHeader(d).part}
  }

  ghost function MaskOf(t: Table, key: Key): set<nat> {
    var i := FindKey(t.slots, key, 0);
    if i < |t.slots| then Parts(t.slots[i].part) else {}
  }

  lemma {:induction false} MaskAt(t: Table, key: Key, i: nat)
    requires Unique(t) && i < |t.slots| && Holds(t.slots[i], key)
    ensures MaskOf(t, key) == Parts(t.slots[i].part)
  {
    FindUnique(t, key, i);
  }

  lemma {:induction false} MaskAbsent(t: Table, key: Key)
    requires forall i :: 0 <= i < |t.slots| ==> !Holds(t.slots[i], key)
    ensures MaskOf(t, key) == {}
  {
  }

  /** A datagram leaves the masks of all other keys alone, except that of an evicted one. */
  lemma {:induction false} OtherMask(t: Table, d: seq<byte>, key: Key)
    requires ValidTable(t) && Unique(t) && Acceptable(d) && key != KeyOf(d)
    ensures var r := Process(t, d); MaskOf(r.table, key) == if r.evicted == Some(key) then {} else MaskOf(t, key)
  {
    if !ClaimFor(t, KeyOf(d)).NoSlot? {
      var i := ProcessAt(t, d);
      var r := Process(t, d);
      ProcessKeepsUnique(t, d);
      var k := FindKey(t.slots, key, 0);
      if k < |t.slots| && k != i {
        MaskAt(r.table, key, k);
        assert t.slots[i].used && t.slots[k].used ==> t.slots[i].Owner() != t.slots[k].Owner();
      } else {
        forall j | 0 <= j < |t.slots| ensures !Holds(r.table.slots[j], key) {
          FindUnique(t, key, j);
        }
        MaskAbsent(r.table, key);
        if k == i { assert t.slots[i].Owner() == key; }
      }
    }
  }

  /** The mask of the datagram's own key, and when the packet is handed over. */
  lemma {:induction false} OwnMask(t: Table, d: seq<byte>)
    requires ValidTable(t) && Unique(t) && Acceptable(d)
    ensures var r := Process(t, d); var h := ParseHeader(d); var have := MaskOf(t, KeyOf(d)) + {h.part};
            && !r.outcome.Ignored?
            && (r.outcome.Refused? <==> ClaimFor(t, KeyOf(d)).NoSlot?)
            && (r.outcome.Delivered? <==> !r.outcome.Refused? && have == Below(h.totalPart))
            && MaskOf(r.table, KeyOf(d)) ==
                (if r.outcome.Refused? then MaskOf(t, KeyOf(d)) else if r.outcome.Delivered? then {} else have)
            && r.evicted != Some(KeyOf(d))
  {
    var key := KeyOf(d);
    var h := ParseHeader(d);
    if !ClaimFor(t, key).NoSlot? {
      var i := ProcessAt(t, d);
      var r := Process(t, d);
      ProcessKeepsUnique(t, d);
      var s := if ClaimFor(t, key).Existing? then t.slots[i] else Allocate(t.slots[i], key, t.localId);
      PartsOr(s.part, h.part);
      PartsFull(WritePart(s, d).part, h.totalPart);
      assert Parts(s.part) == MaskOf(t, key);
      if r.outcome.Delivered? {
        forall j | 0 <= j < |t.slots| ensures !Holds(r.table.slots[j], key) {
          FindUnique(t, key, j);
        }
        MaskAbsent(r.table, key);
      } else {
        MaskAt(r.table, key, i);
      }
    }
  }

  /** In every run the bitmask of every key is exactly what the history says was collected. */
  lemma {:induction false} MaskIsCollected(ds: seq<seq<byte>>, key: Key)
    ensures MaskOf(RunTable(ds), key) == Collected(ds, key)
  {
    if ds == [] {
      MaskAbsent(EmptyTable(), key);
    } else {
      var p, d := ds[..|ds| - 1], ds[|ds| - 1];
      MaskIsCollected(p, key);
      RunUnique(p);
      if Acceptable(d) {
        if key == KeyOf(d) { OwnMask(RunTable(p), d); } else { OtherMask(RunTable(p), d, key); }
      }
    }
  }

  /** A packet is handed over exactly when the last missing part arrives, for any datagrams at all. */
  lemma {:induction false} DeliversWhenComplete(ds: seq<seq<byte>>, i: nat)
    requires i < |ds| && Acceptable(ds[i])
    ensures var h := ParseHeader(ds[i]); var r := RunStep(ds, i);
            r.outcome.Delivered? <==>
                !r.outcome.Refused? && Collected(ds[..i], KeyOf(ds[i])) + {h.part} == Below(h.totalPart)
  {
    RunUnique(ds[..i]);
    MaskIsCollected(ds[..i], KeyOf(ds[i]));
    OwnMask(RunTable(ds[..i]), ds[i]);
  }

  // ---- well-formed traffic: what is delivered is what was sent ----

  datatype Sent = Sent(packet: seq<byte>, pmtu: nat)

  /** A packet sent under this key: its own source address and a 16-bit fragment id. */
  predicate SentUnder(key: Key, s: Sent) {
    && key.id < 0x10000
    && Splits(s.packet, s.pmtu) && |s.packet| <= ETHER_MTU
    && s.packet[IPV4_OFF_SRC..IPV4_OFF_SRC + 4] == key.src
  }

  predicate IsPart(d: seq<byte>, key: Key, s: Sent, k: nat)
    requires SentUnder(key, s)
  {
    k < TotalPart(|s.packet|, s.pmtu) && d == Fragment(s.packet, s.pmtu, key.id, k)
  }

  /** Whatever carries the key is a part of the packet. Datagrams under other keys, and malformed
      ones, are not restricted at all. */
  ghost predicate Genuine(d: seq<byte>, key: Key, s: Sent)
    requires SentUnder(key, s)
  {
    Acceptable(d) && KeyOf(d) == key ==> exists k :: IsPart(d, key, s, k)
  }

  /** What the receiver reads off a genuine fragment. */
  ghost predicate Reads(d: seq<byte>, s: Sent, k: nat)
    requires s.pmtu > 0 && k < TotalPart(|s.packet|, s.pmtu)
  {
    && Acceptable(d)
    && var h := ParseHeader(d); var total := TotalPart(|s.packet|, s.pmtu);
       && h.part == k && h.totalPart == total
       && h.pmtu * h.part == Offset(s.pmtu, k)
       && (h.part == total - 1 ==> (h.totalPart - 1) * h.pmtu + h.len == |s.packet|)
       && d[HEADER_LEN..HEADER_LEN + h.len] == Body(s.packet, s.pmtu, k)
  }

  lemma {:induction false} FragmentReads(s: Sent, id: nat, k: nat)
    requires Splits(s.packet, s.pmtu) && |s.packet| <= ETHER_MTU && k < TotalPart(|s.packet|, s.pmtu)
    ensures Reads(Fragment(s.packet, s.pmtu, id, k), s, k)
  {
    var h := HeaderOf(s.packet, s.pmtu, id, k);
    FragmentParses(s.packet, s.pmtu, id, k);
    TotalPartSmall(|s.packet|, s.pmtu);
    OffsetIsProduct(s.pmtu, k);
    assert (h.totalPart - 1) * h.pmtu == h.pmtu * (h.totalPart - 1);
  }

  lemma {:induction false} PartReads(d: seq<byte>, key: Key, s: Sent, k: nat)
    requires SentUnder(key, s) && IsPart(d, key, s, k)
    ensures Reads(d, s, k) && KeyOf(d) == key
  {
    FragmentReads(s, key.id, k);
    FragmentParses(s.packet, s.pmtu, key.id, k);
  }

  /** Part k of the sent packet sits where it belongs in the buffer. */
  predicate Placed(buffer: seq<byte>, s: Sent, k: nat)
    requires s.pmtu > 0 && k < TotalPart(|s.packet|, s.pmtu)
  {
    var n := PartLen(|s.packet|, s.pmtu, k);
    Offset(s.pmtu, k) + n <= |buffer| && buffer[Offset(s.pmtu, k)..Offset(s.pmtu, k) + n] == Body(s.packet, s.pmtu, k)
  }

  /** A slot faithful to the packet it is collecting. */
  ghost predicate FaithfulTo(s: Slot, sent: Sent)
    requires sent.pmtu > 0
  {
    var total := TotalPart(|sent.packet|, sent.pmtu);
    && ValidSlot(s)
    && (forall k :: k in Parts(s.part) ==> k < total && Placed(s.buffer, sent, k))
    && (total - 1 in Parts(s.part) ==> s.totalLen == |sent.packet|)
  }

  lemma {:induction false} SpliceSlices(buffer: seq<byte>, off: nat, data: seq<byte>, a: nat, b: nat)
    requires off + |data| <= |buffer| && a <= b <= |buffer|
    ensures Splice(buffer, off, data)[off..off + |data|] == data
    ensures b <= off || off + |data| <= a ==> Splice(buffer, off, data)[a..b] == buffer[a..b]
  {
  }

  lemma {:induction false} WriteKeepsPlaced(buffer: seq<byte>, s: Sent, k: nat, j: nat)
    requires s.pmtu > 0 && k < TotalPart(|s.packet|, s.pmtu) && j < TotalPart(|s.packet|, s.pmtu)
    requires |s.packet| <= |buffer|
    requires j == k || Placed(buffer, s, j)
    ensures Offset(s.pmtu, k) + |Body(s.packet, s.pmtu, k)| <= |buffer|
    ensures Placed(Splice(buffer, Offset(s.pmtu, k), Body(s.packet, s.pmtu, k)), s, j)
  {
    var m := PartLen(|s.packet|, s.pmtu, j);
    if j < k { OffsetMonotone(s.pmtu, j, k); } else if k < j { OffsetMonotone(s.pmtu, k, j); }
    SpliceSlices(buffer, Offset(s.pmtu, k), Body(s.packet, s.pmtu, k), Offset(s.pmtu, j), Offset(s.pmtu, j) + m);
  }

  lemma {:induction false} WriteGenuine(s: Slot, d: seq<byte>, sent: Sent, k: nat)
    requires ValidSlot(s) && sent.pmtu > 0 && k < TotalPart(|sent.packet|, sent.pmtu) && Reads(d, sent, k)
    requires |sent.packet| <= ETHER_MTU
    ensures k < 8
    ensures WritePart(s, d) == s.(part := s.part | Bit(k),
                                  buffer := Splice(s.buffer, Offset(sent.pmtu, k), Body(sent.packet, sent.pmtu, k)),
                                  totalLen := if k == TotalPart(|sent.packet|, sent.pmtu) - 1 then |sent.packet|
                                      else s.totalLen)
  {
  }

  lemma {:induction false} WriteKeepsFaithful(s: Slot, d: seq<byte>, sent: Sent, k: nat)
    requires sent.pmtu > 0 && |sent.packet| <= ETHER_MTU && k < TotalPart(|sent.packet|, sent.pmtu)
    requires FaithfulTo(s, sent) && Reads(d, sent, k)
    ensures FaithfulTo(WritePart(s, d), sent)
  {
    WriteGenuine(s, d, sent, k);
    PartsOr(s.part, k);
    PlacingKeepsFaithful(s, WritePart(s, d), sent, k);
  }

  lemma {:induction false} PlacingKeepsFaithful(s: Slot, w: Slot, sent: Sent, k: nat)
    requires sent.pmtu > 0 && |sent.packet| <= ETHER_MTU && k < TotalPart(|sent.packet|, sent.pmtu)
    requires FaithfulTo(s, sent) && ValidSlot(w) && Parts(w.part) == Parts(s.part) + {k}
    requires Offset(sent.pmtu, k) + |Body(sent.packet, sent.pmtu, k)| <= |s.buffer|
    requires w.buffer == Splice(s.buffer, Offset(sent.pmtu, k), Body(sent.packet, sent.pmtu, k))
    requires w.totalLen == if k == TotalPart(|sent.packet|, sent.pmtu) - 1 then |sent.packet| else s.totalLen
    ensures FaithfulTo(w, sent)
  {
    forall j | j in Parts(w.part)
      ensures j < TotalPart(|sent.packet|, sent.pmtu) && Placed(w.buffer, sent, j)
    {
      assert j == k || j in Parts(s.part);
      WriteKeepsPlaced(s.buffer, sent, k, j);
    }
  }

  /** All parts in place make the whole packet. */
  lemma {:induction false} PlacedPrefix(buffer: seq<byte>, s: Sent, n: nat)
    requires s.pmtu > 0 && n <= TotalPart(|s.packet|, s.pmtu) && |s.packet| <= |buffer|
    requires forall k :: 0 <= k < n ==> Placed(buffer, s, k)
    ensures var m := Min(Offset(s.pmtu, n), |s.packet|); buffer[..m] == s.packet[..m]
  {
    if n > 0 {
      PlacedPrefix(buffer, s, n - 1);
      var a, m := Offset(s.pmtu, n - 1), PartLen(|s.packet|, s.pmtu, n - 1);
      assert Placed(buffer, s, n - 1);
      assert buffer[..a + m] == buffer[..a] + buffer[a..a + m];
      assert s.packet[..a + m] == s.packet[..a] + s.packet[a..a + m];
      if n == TotalPart(|s.packet|, s.pmtu) { TotalPartIsCeiling(|s.packet|, s.pmtu); }
    }
  }

  lemma {:induction false} FaithfulDelivery(s: Slot, sent: Sent)
    requires sent.pmtu > 0 && 0 < |sent.packet| <= ETHER_MTU && FaithfulTo(s, sent)
    requires Parts(s.part) == Below(TotalPart(|sent.packet|, sent.pmtu))
    ensures s.buffer[..s.totalLen] == sent.packet
  {
    TotalPartIsCeiling(|sent.packet|, sent.pmtu);
    PlacedPrefix(s.buffer, sent, TotalPart(|sent.packet|, sent.pmtu));
    assert sent.packet[..|sent.packet|] == sent.packet;
  }

  /** If a slot is collecting the key, it is faithful to the packet sent under it. */
  ghost predicate KeyFaithful(t: Table, key: Key, sent: Sent)
    requires sent.pmtu > 0
  {
    forall i :: 0 <= i < |t.slots| && Holds(t.slots[i], key) ==> FaithfulTo(t.slots[i], sent)
  }

  /** One part of the packet: the slot stays faithful, and anything delivered is the packet. */
  lemma {:induction false} FaithfulPart(t: Table, d: seq<byte>, key: Key, sent: Sent, k: nat)
    requires SentUnder(key, sent) && IsPart(d, key, sent, k)
    requires ValidTable(t) && Unique(t) && KeyFaithful(t, key, sent)
    ensures KeyFaithful(Process(t, d).table, key, sent)
    ensures Process(t, d).outcome.Delivered? ==> Process(t, d).outcome.packet == sent.packet
  {
    PartReads(d, key, sent, k);
    if !ClaimFor(t, key).NoSlot? {
      var i := ProcessAt(t, d);
      var s := if ClaimFor(t, key).Existing? then t.slots[i] else Allocate(t.slots[i], key, t.localId);
      PartsOr(0, 0);
      assert FaithfulTo(s, sent);
      WriteKeepsFaithful(s, d, sent, k);
      forall j | 0 <= j < |t.slots| && Holds(Process(t, d).table.slots[j], key)
        ensures FaithfulTo(Process(t, d).table.slots[j], sent)
      {
        FindUnique(t, key, j);
      }
      if Process(t, d).outcome.Delivered? {
        PartsFull(WritePart(s, d).part, ParseHeader(d).totalPart);
        FaithfulDelivery(WritePart(s, d), sent);
      }
    }
  }

  lemma {:induction false} FaithfulStep(t: Table, d: seq<byte>, key: Key, sent: Sent)
    requires SentUnder(key, sent) && Genuine(d, key, sent)
    requires ValidTable(t) && Unique(t) && KeyFaithful(t, key, sent)
    ensures KeyFaithful(Process(t, d).table, key, sent)
    ensures Process(t, d).outcome.Delivered? && KeyOf(d) == key ==> Process(t, d).outcome.packet == sent.packet
  {
    if Acceptable(d) && KeyOf(d) == key {
      var k :| IsPart(d, key, sent, k);
      FaithfulPart(t, d, key, sent, k);
    } else if Acceptable(d) && !ClaimFor(t, KeyOf(d)).NoSlot? {
      var i := ProcessAt(t, d);
    }
  }

  lemma {:induction false} FaithfulRun(ds: seq<seq<byte>>, key: Key, sent: Sent)
    requires SentUnder(key, sent) && forall i :: 0 <= i < |ds| ==> Genuine(ds[i], key, sent)
    ensures KeyFaithful(RunTable(ds), key, sent)
  {
    if ds != [] {
      var p := ds[..|ds| - 1];
      FaithfulRun(p, key, sent);
      RunUnique(p);
      FaithfulStep(RunTable(p), ds[|ds| - 1], key, sent);
    }
  }

  /** Every packet handed to lan_client_process under a key is byte for byte the packet sent under it,
      whatever is lost, reordered, duplicated, interleaved or evicted on the way. */
  lemma {:induction false} DeliveredIsSent(ds: seq<seq<byte>>, i: nat, key: Key, sent: Sent)
    requires SentUnder(key, sent) && forall j :: 0 <= j < |ds| ==> Genuine(ds[j], key, sent)
    requires i < |ds| && RunStep(ds, i).outcome.Delivered? && KeyOf(ds[i]) == key
    ensures RunStep(ds, i).outcome.packet == sent.packet
  {
    FaithfulRun(ds[..i], key, sent);
    RunUnique(ds[..i]);
    FaithfulStep(RunTable(ds[..i]), ds[i], key, sent);
  }
}
