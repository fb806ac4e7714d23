/** The lobby cache of sysmodule/source/ldn_bridge.cpp: sixteen slots that hold the lobbies heard most
    recently, and their periodic re-injection. */
module LobbyCache {
  import opened Bytes

  const LOBBY_CACHE_SIZE: nat := 16
  const LDN_HEADER_SIZE: nat := 12
  const MAX_DATA: nat := 2048
  const REINJECT_INTERVAL_NS: nat := 500_000_000
  const EXPIRY_NS: nat := 30_000_000_000
  const TYPE_SCAN_RESP: byte := 1

  /** struct cached_lobby */
  datatype Lobby = Lobby(valid: bool, data: seq<byte>, timestamp: nat)

  datatype Cache = Cache(slots: seq<Lobby>, lastReinject: nat)

  /** A scan response that fits a slot. */
  predicate Storable(payload: seq<byte>) {
    LDN_HEADER_SIZE <= |payload| <= MAX_DATA && payload[..4] == LDN_MAGIC && payload[4] == TYPE_SCAN_RESP
  }

  /** The 32 identifying bytes, when both sides have them. */
  predicate SameLobby(l: Lobby, payload: seq<byte>) {
    l.valid && |payload| >= 44 && |l.data| >= 44 && l.data[12..44] == payload[12..44]
  }

  function FirstSame(slots: seq<Lobby>, payload: seq<byte>, i: nat): (r: nat)
    requires i <= |slots|
    ensures i <= r <= |slots|
    ensures r < |slots| ==> SameLobby(slots[r], payload)
    ensures forall j :: i <= j < r ==> !SameLobby(slots[j], payload)
    decreases |slots| - i
  {
    if i == |slots| || SameLobby(slots[i], payload) then i else FirstSame(slots, payload, i + 1)
  }

  /** The first free slot among the first n, or -1. */
  function FreeSlot(slots: seq<Lobby>, n: nat): (r: int)
    requires n <= |slots|
    ensures -1 <= r < n
    ensures r >= 0 ==> !slots[r].valid
    ensures r == -1 ==> forall j :: 0 <= j < n ==> slots[j].valid
  {
    if n == 0 then -1
    else
      var f := FreeSlot(slots, n - 1);
      if f >= 0 then f else if !slots[n - 1].valid then n - 1 else -1
  }

  /** (oldest_tick, oldest_slot) over the valid slots among the first n. */
  function Oldest(slots: seq<Lobby>, n: nat): (r: (nat, nat))
    requires n <= |slots|
    ensures r.1 == 0 || r.1 < n
  {
    if n == 0 then (0, 0)
    else
      var o := Oldest(slots, n - 1);
      var l := slots[n - 1];
      if l.valid && (o.0 == 0 || l.timestamp < o.0) then (l.timestamp, n - 1) else o
  }

  function ChosenSlot(slots: seq<Lobby>, payload: seq<byte>): (r: nat)
    requires |slots| == LOBBY_CACHE_SIZE
    ensures r < LOBBY_CACHE_SIZE
  {
    var s := FirstSame(slots, payload, 0);
    if s < |slots| then s
    else
      var f := FreeSlot(slots, |slots|);
      if f >= 0 then f else Oldest(slots, |slots|).1
  }

  /** lobby_cache_store_if_scanresp */
  function Stored(c: Cache, payload: seq<byte>, tick: nat): (r: Cache)
    requires |c.slots| == LOBBY_CACHE_SIZE
    ensures |r.slots| == LOBBY_CACHE_SIZE
  {
    if Storable(payload) then c.(slots := c.slots[ChosenSlot(c.slots, payload) := Lobby(true, payload, tick)]) else c
  }

  /** armTicksToNs is not part of this repository; all that matters is that it is monotone. */
  ghost predicate Monotone(ns: nat -> nat) {
    forall a: nat, b: nat :: a <= b ==> ns(a) <= ns(b)
  }

  /** The difference of two 64-bit ticks, which wraps around if the clock went backwards. */
  function Elapsed(now: nat, since: nat): nat {
    (now - since) % 0x1_0000_0000_0000_0000
  }

  /** An injection is due when none was made yet, or the last one is long enough ago. */
  predicate DueSince(last: nat, ns: nat -> nat, now: nat) {
    last == 0 || ns(Elapsed(now, last)) >= REINJECT_INTERVAL_NS
  }

  predicate Due(c: Cache, ns: nat -> nat, now: nat) { DueSince(c.lastReinject, ns, now) }

  predicate Expired(l: Lobby, ns: nat -> nat, now: nat) {
    ns(Elapsed(now, l.timestamp)) > EXPIRY_NS
  }

  function AgedSlot(l: Lobby, ns: nat -> nat, now: nat): Lobby {
    if l.valid && Expired(l, ns, now) then l.(valid := false) else l
  }

  /** lobby_cache_reinject_if_due */
  function Reinjected(c: Cache, ns: nat -> nat, now: nat): (r: Cache)
    requires |c.slots| == LOBBY_CACHE_SIZE
    ensures |r.slots| == LOBBY_CACHE_SIZE
  {
    if Due(c, ns, now) then
      Cache(seq(LOBBY_CACHE_SIZE, i requires 0 <= i < LOBBY_CACHE_SIZE => AgedSlot(c.slots[i], ns, now)), now)
    else c
  }

  /** The slots sent, in order, of the first n; None if no injection is due. */
  function Injection(c: Cache, ns: nat -> nat, now: nat): Option<seq<nat>>
    requires |c.slots| == LOBBY_CACHE_SIZE
  {
    if Due(c, ns, now) then Some(Alive(c.slots, ns, now, LOBBY_CACHE_SIZE)) else None
  }

  function Alive(slots: seq<Lobby>, ns: nat -> nat, now: nat, n: nat): (r: seq<nat>)
    requires n <= |slots|
    ensures forall i: nat :: i in r <==> i < n && slots[i].valid && !Expired(slots[i], ns, now)
    ensures (forall j :: 0 <= j < |r| ==> r[j] < n) && forall j, k :: 0 <= j < k < |r| ==> r[j] < r[k]
  {
    if n == 0 then []
    else
      var before := Alive(slots, ns, now, n - 1);
      if slots[n - 1].valid && !Expired(slots[n - 1], ns, now) then before + [n - 1] else before
  }

  function EmptyCache(): (c: Cache)
    ensures |c.slots| == LOBBY_CACHE_SIZE
  {
    Cache(seq(LOBBY_CACHE_SIZE, _ => Lobby(false, [], 0)), 0)
  }

  /** The global cache: an array of slots and the time of the last re-injection. */
  class LobbyTable {
    const slots: array<Lobby>
    var lastReinject: nat

    ghost predicate Valid() reads this { slots.Length == LOBBY_CACHE_SIZE }

    ghost function Model(): Cache reads this, slots { Cache(slots[..], lastReinject) }

    constructor ()
      ensures Valid() && fresh(slots) && Model() == EmptyCache()
    {
      slots := new Lobby[LOBBY_CACHE_SIZE](_ => Lobby(false, [], 0));
      lastReinject := 0;
      new;
      assert slots[..] == EmptyCache().slots;
    }

    /** lobby_cache_store_if_scanresp: one pass that looks for the same lobby, a free slot and the
        oldest slot at once. */
    method Store(payload: seq<byte>, tick: nat)
      requires Valid()
      modifies slots
      ensures Model() == Stored(old(Model()), payload, tick)
    {
      if !Storable(payload) {
        return;
      }
      var slot, oldestSlot, oldestTick := -1, 0, 0;
      var i := 0;
      while i < slots.Length
        invariant 0 <= i <= slots.Length && slots[..] == old(slots[..])
        invariant slot == FreeSlot(slots[..], i) && (oldestTick, oldestSlot) == Oldest(slots[..], i)
        invariant FirstSame(slots[..], payload, 0) == FirstSame(slots[..], payload, i)
      {
        if !slots[i].valid {
          if slot < 0 { slot := i; }
        } else if SameLobby(slots[i], payload) {
          slot := i;
          break;
        } else if oldestTick == 0 || slots[i].timestamp < oldestTick {
          oldestTick, oldestSlot := slots[i].timestamp, i;
        }
        i := i + 1;
      }
      if slot < 0 { slot := oldestSlot; }
      slots[slot] := Lobby(true, payload, tick);
      assert slots[..] == old(slots[..])[slot := slots[slot]];
    }

    /** lobby_cache_reinject_if_due. `sent` are the slots sent, in order, if an injection was due. */
    method Reinject(ns: nat -> nat, now: nat) returns (sent: Option<seq<nat>>)
      requires Valid()
      modifies this, slots
      ensures Valid() && Model() == Reinjected(old(Model()), ns, now)
      ensures sent == Injection(old(Model()), ns, now)
    {
      if lastReinject != 0 && ns(Elapsed(now, lastReinject)) < REINJECT_INTERVAL_NS {
        return None;
      }
      lastReinject := now;
      var alive := SendAlive(ns, now);
      sent := Some(alive);
    }

    /** The loop over the slots: send the lobbies that are not too old, and drop the others. */
    method SendAlive(ns: nat -> nat, now: nat) returns (sent: seq<nat>)
      requires Valid()
      modifies slots
      ensures slots[..] ==
        seq(LOBBY_CACHE_SIZE, i requires 0 <= i < LOBBY_CACHE_SIZE => AgedSlot(old(slots[..])[i], ns, now))
      ensures sent == Alive(old(slots[..]), ns, now, LOBBY_CACHE_SIZE)
    {
      sent := [];
      for i := 0 to slots.Length
        invariant forall j :: 0 <= j < i ==> slots[j] == AgedSlot(old(slots[j]), ns, now)
        invariant forall j :: i <= j < slots.Length ==> slots[j] == old(slots[j])
        invariant sent == Alive(old(slots[..]), ns, now, i)
      {
        if slots[i].valid {
          if ns(Elapsed(now, slots[i].timestamp)) > EXPIRY_NS {
            slots[i] := slots[i].(valid := false);
          } else {
            sent := sent + [i];
          }
        }
      }
    }
  }
}
