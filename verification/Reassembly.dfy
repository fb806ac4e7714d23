/** The receiving half of src/lan-client.c: the table of 100 reassembly slots. */
module Reassembly {
  import opened Bytes
  import opened Fragmenter

  const FRAG_COUNT: nat := 100
  const ETHER_MTU: nat := 1500

  /** struct lan_client_fragment. `serial` is the value of the int counter lan_play->local_id when
      the slot was allocated; the struct keeps only its low 16 bits, which is all that LocalId (and
      hence the eviction rule) looks at. */
  datatype Slot = Slot(used: bool, serial: nat, src: Ip, id: nat, part: bv8, totalLen: nat, buffer: seq<byte>)
  {
    function LocalId(): nat { serial % 0x10000 }
    function Owner(): Key { Key(src, id) }
  }

  datatype Key = Key(src: Ip, id: nat)
  datatype Table = Table(slots: seq<Slot>, localId: nat)
  datatype Outcome = Ignored | Refused | Stored | Delivered(packet: seq<byte>)
  datatype Step = Step(table: Table, outcome: Outcome, evicted: Option<Key>)

  // ---- the part bitmask ----

  /** 1u << k */
  function Bit(k: nat): bv8
    requires k < 8
  {
    if k == 0 then 1 else if k == 1 then 2 else if k == 2 then 4 else if k == 3 then 8
    else if k == 4 then 16 else if k == 5 then 32 else if k == 6 then 64 else 128
  }

  /** (uint8_t)((1u << n) - 1u) */
  function Full(n: nat): bv8
    requires 1 <= n <= 8
  {
    if n == 8 then 255 else Bit(n) - 1
  }

  ghost function Parts(m: bv8): set<nat> {
    set k: nat | k < 8 && m & Bit(k) != 0
  }

  lemma {:induction false} PartsOr(m: bv8, k: nat)
    requires k < 8
    ensures Parts(0) == {} && Parts(m | Bit(k)) == Parts(m) + {k}
  {
    forall j: nat | j < 8
      ensures j in Parts(m | Bit(k)) <==> j in Parts(m) || j == k
    {
      BitOr(m, j, k);
    }
  }

  lemma {:induction false} BitOr(m: bv8, j: nat, k: nat)
    requires j < 8 && k < 8
    ensures (m | Bit(k)) & Bit(j) != 0 <==> m & Bit(j) != 0 || j == k
  {
  }

  ghost function Below(n: nat): (r: set<nat>)
    ensures forall k: nat :: k in r <==> k < n
  {
    if n == 0 then {} else Below(n - 1) + {n - 1}
  }

  lemma {:induction false} PartsFull(m: bv8, n: nat)
    requires 1 <= n <= 8
    ensures m == Full(n) <==> Parts(m) == Below(n)
  {
    if Parts(m) == Below(n) {
      forall k: nat | k < 8
        ensures m & Bit(k) != 0 <==> k < n
      {
        assert k in Parts(m) <==> k in Below(n);
      }
      MaskByBits(m, n);
    } else {
      var k: nat :| k < 8 && (k in Parts(m)) != (k in Below(n));
      FullBit(n, k);
    }
  }

  lemma {:induction false} FullBit(n: nat, k: nat)
    requires 1 <= n <= 8 && k < 8
    ensures Full(n) & Bit(k) != 0 <==> k < n
  {
  }

  lemma {:induction false} MaskByBits(m: bv8, n: nat)
    requires 1 <= n <= 8
    requires forall k: nat :: k < 8 ==> (m & Bit(k) != 0 <==> k < n)
    ensures m == Full(n)
  {
    assert m & Bit(0) != 0;
    assert m & Bit(1) != 0 <==> 1 < n;
    assert m & Bit(2) != 0 <==> 2 < n;
    assert m & Bit(3) != 0 <==> 3 < n;
    assert m & Bit(4) != 0 <==> 4 < n;
    assert m & Bit(5) != 0 <==> 5 < n;
    assert m & Bit(6) != 0 <==> 6 < n;
    assert m & Bit(7) != 0 <==> 7 < n;
  }

  // ---- one datagram ----

  /** The sanity checks on an incoming fragment. */
  predicate Acceptable(d: seq<byte>) {
    && |d| >= HEADER_LEN
    && var h := ParseHeader(d);
       && 1 <= h.totalPart <= 8
       && h.part < h.totalPart
       && h.pmtu != 0 && h.len <= h.pmtu
       && HEADER_LEN + h.len <= |d|
       && h.pmtu * h.part + h.len <= ETHER_MTU
  }

  predicate Holds(s: Slot, key: Key) {
    s.used && s.id == key.id && s.src == key.src
  }

  /** The first slot from i on that holds the key, or |slots|. */
  function FindKey(slots: seq<Slot>, key: Key, i: nat): (r: nat)
    requires i <= |slots|
    ensures i <= r <= |slots|
    ensures r < |slots| ==> Holds(slots[r], key)
    ensures forall j :: i <= j < r ==> !Holds(slots[j], key)
    decreases |slots| - i
  {
    if i == |slots| || Holds(slots[i], key) then i else FindKey(slots, key, i + 1)
  }

  /** The first unused slot from i on, or |slots|. */
  function FindFree(slots: seq<Slot>, i: nat): (r: nat)
    requires i <= |slots|
    ensures i <= r <= |slots|
    ensures r < |slots| ==> !slots[r].used
    ensures forall j :: i <= j < r ==> slots[j].used
    decreases |slots| - i
  {
    if i == |slots| || !slots[i].used then i else FindFree(slots, i + 1)
  }

  function Dif(s: Slot, localId: nat): nat {
    if s.LocalId() < localId then localId - s.LocalId() else s.LocalId() - localId
  }

  /** (max_dif, index of to_delete) over the first n slots. */
  function MaxDif(slots: seq<Slot>, localId: nat, n: nat): (r: (nat, nat))
    requires n <= |slots|
    ensures forall j :: 0 <= j < n && slots[j].used ==> Dif(slots[j], localId) <= r.0
    ensures r.0 > 0 ==> r.1 < n && slots[r.1].used && Dif(slots[r.1], localId) == r.0
    ensures r.0 > 0 ==> forall j :: 0 <= j < r.1 && slots[j].used ==> Dif(slots[j], localId) < r.0
  {
    if n == 0 then (0, 0)
    else
      var m := MaxDif(slots, localId, n - 1);
      if slots[n - 1].used && Dif(slots[n - 1], localId) > m.0 then (Dif(slots[n - 1], localId), n - 1) else m
  }

  /** Where a fragment of this key goes. */
  datatype Claim = Existing(i: nat) | Free(i: nat) | Evict(i: nat) | NoSlot

  function ClaimFor(t: Table, key: Key): (c: Claim)
    ensures !c.NoSlot? ==> c.i < |t.slots|
  {
    var k := FindKey(t.slots, key, 0);
    if k < |t.slots| then Existing(k)
    else
      var f := FindFree(t.slots, 0);
      if f < |t.slots| then Free(f)
      else
        var m := MaxDif(t.slots, t.localId, |t.slots|);
        if m.0 > FRAG_COUNT then Evict(m.1) else NoSlot
  }

  /** (Re)allocation. The old buffer and total_len stay behind. */
  function Allocate(s: Slot, key: Key, localId: nat): Slot {
    s.(used := true, id := key.id, serial := localId, src := key.src, part := 0)
  }

  function Splice(buffer: seq<byte>, off: nat, data: seq<byte>): (r: seq<byte>)
    requires off + |data| <= |buffer|
    ensures |r| == |buffer|
  {
    buffer[..off] + data + buffer[off + |data|..]
  }

  predicate ValidSlot(s: Slot) {
    |s.buffer| == ETHER_MTU && s.totalLen <= ETHER_MTU
  }

  predicate ValidTable(t: Table) {
    |t.slots| == FRAG_COUNT && forall i :: 0 <= i < |t.slots| ==> ValidSlot(t.slots[i])
  }

  function WritePart(s: Slot, d: seq<byte>): (r: Slot)
    requires ValidSlot(s) && Acceptable(d)
    ensures ValidSlot(r)
  {
    var h := ParseHeader(d);
    s.(part := s.part | Bit(h.part),
       buffer := Splice(s.buffer, h.pmtu * h.part, d[HEADER_LEN..HEADER_LEN + h.len]),
       totalLen := if h.part == h.totalPart - 1 then (h.totalPart - 1) * h.pmtu + h.len else s.totalLen)
  }

  /** Stores the part in slot i and hands the packet over if no part is missing. */
  function Finish(t: Table, i: nat, d: seq<byte>, evicted: Option<Key>): (r: Step)
    requires ValidTable(t) && i < |t.slots| && Acceptable(d)
    ensures ValidTable(r.table)
  {
    var s := WritePart(t.slots[i], d);
    if Full(ParseHeader(d).totalPart) == s.part then
      Step(t.(slots := t.slots[i := s.(used := false)]), Delivered(s.buffer[..s.totalLen]), evicted)
    else
      Step(t.(slots := t.slots[i := s]), Stored, evicted)
  }

  function Opened(t: Table, i: nat, key: Key): (r: Table)
    requires ValidTable(t) && i < |t.slots|
    ensures ValidTable(r)
  {
    Table(t.slots[i := Allocate(t.slots[i], key, t.localId)], t.localId + 1)
  }

  function KeyOf(d: seq<byte>): Key
    requires |d| >= HEADER_LEN
  {
    Key(ParseHeader(d).src, ParseHeader(d).id)
  }

  /** lan_client_process_frag */
  function Process(t: Table, d: seq<byte>): (r: Step)
    requires ValidTable(t)
    ensures ValidTable(r.table)
  {
    if !Acceptable(d) then Step(t, Ignored, None)
    else
      match ClaimFor(t, KeyOf(d))
      case NoSlot => Step(t, Refused, None)
      case Existing(i) => Finish(t, i, d, None)
      case Free(i) => Finish(Opened(t, i, KeyOf(d)), i, d, None)
      case Evict(i) => Finish(Opened(t, i, KeyOf(d)), i, d, Some(t.slots[i].Owner()))
  }

  function EmptySlot(): Slot {
    Slot(false, 0, [0, 0, 0, 0], 0, 0, 0, seq(ETHER_MTU, _ => 0))
  }

  function EmptyTable(): (t: Table)
    ensures ValidTable(t)
  {
    Table(seq(FRAG_COUNT, _ => EmptySlot()), 0)
  }

  /** The table as the client keeps it: an array of slots searched and rewritten in place. */
  class Reassembler {
    const frags: array<Slot>
    var localId: nat

    ghost function Model(): Table reads this, frags {
      Table(frags[..], localId)
    }

    ghost predicate Valid() reads this, frags {
      ValidTable(Model())
    }

    constructor ()
      ensures Valid() && fresh(frags) && Model() == EmptyTable()
    {
      frags := new Slot[FRAG_COUNT](_ => EmptySlot());
      localId := 0;
      new;
      assert frags[..] == EmptyTable().slots;
    }

    method FindUsed(key: Key) returns (i: nat)
      ensures i == FindKey(frags[..], key, 0)
    {
      i := 0;
      while i < frags.Length
        invariant i <= frags.Length && FindKey(frags[..], key, 0) == FindKey(frags[..], key, i)
      {
        if Holds(frags[i], key) { return; }
        i := i + 1;
      }
    }

    method FindUnused() returns (i: nat)
      ensures i == FindFree(frags[..], 0)
    {
      i := 0;
      while i < frags.Length
        invariant i <= frags.Length && FindFree(frags[..], 0) == FindFree(frags[..], i)
      {
        if !frags[i].used { return; }
        i := i + 1;
      }
    }

    method FindVictim() returns (maxDif: nat, toDelete: nat)
      ensures (maxDif, toDelete) == MaxDif(frags[..], localId, frags.Length)
    {
      maxDif, toDelete := 0, 0;
      for i := 0 to frags.Length
        invariant (maxDif, toDelete) == MaxDif(frags[..], localId, i)
      {
        if frags[i].used {
          var dif := Dif(frags[i], localId);
          if dif > maxDif {
            maxDif, toDelete := dif, i;
          }
        }
      }
    }

    method Open(i: nat, key: Key)
      requires Valid() && i < frags.Length
      modifies this, frags
      ensures Valid() && Model() == Opened(old(Model()), i, key)
    {
      frags[i] := Allocate(frags[i], key, localId);
      localId := localId + 1;
      assert frags[..] == old(frags[..])[i := frags[i]];
    }

    method Store(i: nat, d: seq<byte>, ghost evicted: Option<Key>) returns (o: Outcome)
      requires Valid() && i < frags.Length && Acceptable(d)
      modifies frags
      ensures Valid() && Step(Model(), o, evicted) == Finish(old(Model()), i, d, evicted)
    {
      var h := ParseHeader(d);
      frags[i] := WritePart(frags[i], d);
      if Full(h.totalPart) == frags[i].part {
        frags[i] := frags[i].(used := false);
        o := Delivered(frags[i].buffer[..frags[i].totalLen]);
      } else {
        o := Stored;
      }
      assert frags[..] == old(frags[..])[i := frags[i]];
    }

    /** lan_client_process_frag */
    method ProcessFrag(d: seq<byte>) returns (o: Outcome)
      requires Valid()
      modifies this, frags
      ensures Valid() && Model() == Process(old(Model()), d).table && o == Process(old(Model()), d).outcome
    {
      if !Acceptable(d) {
        return Ignored;
      }
      var key := KeyOf(d);
      var i := FindUsed(key);
      ghost var evicted := None;
      if i == frags.Length {
        i := FindUnused();
        if i == frags.Length {
          var maxDif, toDelete := FindVictim();
          if maxDif <= FRAG_COUNT {
            return Refused;
          }
          i := toDelete;
          evicted := Some(frags[i].Owner());
        }
        Open(i, key);
      }
      o := Store(i, d, evicted);
    }
  }

  /** Where the fields of a fragment header are. */
  lemma {:induction false} HeaderLayout(d: seq<byte>)
    requires |d| >= 16
    ensures var h := ParseHeader(d);
      && h.src == d[0..4] && h.dst == d[4..8] && h.id == ReadNet16(d, 8) && h.part == d[10] && h.totalPart == d[11]
      && h.len == ReadNet16(d, 12) && h.pmtu == ReadNet16(d, 14)
  {
  }

  /** Every fragment of at most eight parts that fits its part and the buffer is accepted, whatever follows
      its body: it takes part in the packet of its key unless the table has no slot for it. */
  lemma {:induction false} WellFormedAccepted(t: Table, h: Header, body: seq<byte>, extra: seq<byte>)
    requires ValidTable(t) && FieldsFit(h) && h.part < h.totalPart <= 8 && h.len == |body| <= h.pmtu && 0 < h.pmtu
    requires h.pmtu * h.part + |body| <= 1500
    ensures var d := EncodeHeader(h) + (body + extra);
      && KeyOf(d) == Key(h.src, h.id) && !Process(t, d).outcome.Ignored?
      && (Process(t, d).outcome.Refused? ==> ClaimFor(t, Key(h.src, h.id)).NoSlot?)
  {
    HeaderRoundTrip(h, body + extra);
  }

  /** And nothing else is: any other datagram is ignored and changes nothing. */
  lemma {:induction false} MalformedIgnored(t: Table, d: seq<byte>)
    requires ValidTable(t)
    requires |d| < 16 || var h := ParseHeader(d);
      h.totalPart == 0 || h.totalPart > 8 || h.part >= h.totalPart || h.pmtu == 0 || h.len > h.pmtu ||
      16 + h.len > |d| || h.pmtu * h.part + h.len > 1500
    ensures Process(t, d) == Step(t, Ignored, None)
  {
  }
}
