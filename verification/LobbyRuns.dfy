/** The lobby cache against the list of lobbies in the order in which they were last heard. */
module LobbyRuns {
  import opened Bytes
  import opened LobbyCache

  datatype Event = Store(payload: seq<byte>, tick: nat) | Reinject(now: nat)

  function TickOf(e: Event): nat { if e.Store? then e.tick else e.now }

  /** A response too short to carry an identity is a lobby of its own. */
  datatype Identity = Named(id: seq<byte>) | Anonymous(tick: nat)
  datatype Heard = Heard(payload: seq<byte>, tick: nat)
  {
    function Id(): Identity { if |payload| >= 44 then Named(payload[12..44]) else Anonymous(tick) }
  }

  function Run(ns: nat -> nat, es: seq<Event>): (c: Cache)
    ensures |c.slots| == LOBBY_CACHE_SIZE
  {
    if es == [] then EmptyCache()
    else
      var c := Run(ns, es[..|es| - 1]);
      match es[|es| - 1]
      case Store(payload, tick) => Stored(c, payload, tick)
      case Reinject(now) => Reinjected(c, ns, now)
  }

  function Without(h: seq<Heard>, id: Identity): (r: seq<Heard>)
    ensures |r| <= |h|
  {
    if h == [] then [] else if h[0].Id() == id then Without(h[1..], id) else [h[0]] + Without(h[1..], id)
  }

  function Renewed(h: seq<Heard>, x: Heard): seq<Heard> { [x] + Without(h, x.Id()) }

  /** Every distinct lobby heard so far with its latest payload, most recent first. */
  function Recent(es: seq<Event>): seq<Heard> {
    if es == [] then []
    else
      var before := Recent(es[..|es| - 1]);
      var e := es[|es| - 1];
      if e.Store? && Storable(e.payload) then Renewed(before, Heard(e.payload, e.tick)) else before
  }

  /** Ticks are positive 64-bit numbers that never decrease, and no two stores share one. */
  predicate Ticking(es: seq<Event>) {
    && (forall i :: 0 <= i < |es| ==> 0 < TickOf(es[i]) < 0x1_0000_0000_0000_0000)
    && (forall i, j :: 0 <= i < j < |es| ==> TickOf(es[i]) <= TickOf(es[j]))
    && (forall i, j :: 0 <= i < j < |es| && es[i].Store? && es[j].Store? ==> es[i].tick < es[j].tick)
  }

  predicate Distinct(h: seq<Heard>) {
    forall i, j :: 0 <= i < j < |h| ==> h[i].Id() != h[j].Id()
  }

  predicate NewestFirst(h: seq<Heard>) {
    forall i, j :: 0 <= i < j < |h| ==> h[i].tick > h[j].tick
  }

  predicate Before(h: seq<Heard>, tick: nat) {
    forall i :: 0 <= i < |h| ==> 0 < h[i].tick < tick
  }

  // ---- the list ----

  lemma {:induction false} WithoutMember(h: seq<Heard>, id: Identity, x: Heard)
    ensures x in Without(h, id) <==> x in h && x.Id() != id
  {
    if h != [] { WithoutMember(h[1..], id, x); }
  }

  lemma {:induction false} WithoutOrder(h: seq<Heard>, id: Identity)
    requires NewestFirst(h) && Distinct(h)
    ensures NewestFirst(Without(h, id)) && Distinct(Without(h, id))
  {
    if h != [] {
      var t := h[1..];
      WithoutOrder(t, id);
      var r := Without(t, id);
      forall i | 0 <= i < |r| ensures h[0].tick > r[i].tick && h[0].Id() != r[i].Id() {
        WithoutMember(t, id, r[i]);
        LaterInList(h, r[i]);
      }
      if h[0].Id() != id { Ahead(h[0], r); }
    }
  }

  lemma {:induction false} LaterInList(h: seq<Heard>, x: Heard)
    requires NewestFirst(h) && Distinct(h) && h != [] && x in h[1..]
    ensures h[0].tick > x.tick && h[0].Id() != x.Id()
  {
  }

  lemma {:induction false} Ahead(x: Heard, r: seq<Heard>)
    requires NewestFirst(r) && Distinct(r) && forall i :: 0 <= i < |r| ==> x.tick > r[i].tick && x.Id() != r[i].Id()
    ensures NewestFirst([x] + r) && Distinct([x] + r)
  {
  }

  /** A lobby not among the first k leaves the first k alone. */
  lemma {:induction false} WithoutKeepsPrefix(h: seq<Heard>, id: Identity, k: nat)
    requires k <= |h| && forall i :: 0 <= i < k ==> h[i].Id() != id
    ensures |Without(h, id)| >= k && Without(h, id)[..k] == h[..k]
  {
    if k > 0 {
      WithoutKeepsPrefix(h[1..], id, k - 1);
      assert h[..k] == [h[0]] + h[1..][..k - 1];
    }
  }

  lemma {:induction false} WithoutAbsent(h: seq<Heard>, id: Identity)
    requires forall i :: 0 <= i < |h| ==> h[i].Id() != id
    ensures Without(h, id) == h
  {
    WithoutKeepsPrefix(h, id, |h|);
  }

  lemma {:induction false} WithoutAt(h: seq<Heard>, j: nat)
    requires j < |h| && Distinct(h)
    ensures Without(h, h[j].Id()) == Dropped(h, j)
  {
    if j == 0 {
      WithoutAbsent(h[1..], h[0].Id());
    } else {
      WithoutAt(h[1..], j - 1);
      DroppedTail(h, j);
      assert h[1..][j - 1] == h[j];
    }
  }

  lemma {:induction false} DroppedTail(h: seq<Heard>, j: nat)
    requires 0 < j < |h|
    ensures Dropped(h, j) == [h[0]] + Dropped(h[1..], j - 1)
  {
    assert h[..j] == [h[0]] + h[1..][..j - 1];
    assert h[1..][j..] == h[j + 1..];
  }

  lemma {:induction false} RenewedOrder(h: seq<Heard>, x: Heard)
    requires NewestFirst(h) && Distinct(h) && Before(h, x.tick)
    ensures NewestFirst(Renewed(h, x)) && Distinct(Renewed(h, x))
  {
    var r := Without(h, x.Id());
    WithoutOrder(h, x.Id());
    forall i | 0 <= i < |r| ensures r[i].tick < x.tick && r[i].Id() != x.Id() {
      WithoutMember(h, x.Id(), r[i]);
    }
  }

  lemma {:induction false} RecentOrder(es: seq<Event>, tick: nat)
    requires Ticking(es) && (forall i :: 0 <= i < |es| && es[i].Store? ==> es[i].tick < tick)
    ensures NewestFirst(Recent(es)) && Distinct(Recent(es)) && Before(Recent(es), tick)
  {
    if es != [] {
      var p, e := es[..|es| - 1], es[|es| - 1];
      RecentOrder(p, if e.Store? then e.tick else tick);
      if e.Store? && Storable(e.payload) {
        var x := Heard(e.payload, e.tick);
        RenewedOrder(Recent(p), x);
        forall i | 0 <= i < |Recent(es)| ensures 0 < Recent(es)[i].tick < tick {
          if i > 0 { WithoutMember(Recent(p), x.Id(), Recent(es)[i]); }
        }
      }
    }
  }

  // ---- the table against the list ----

  predicate Located(slots: seq<Lobby>, h: seq<Heard>, at: seq<nat>) {
    |at| <= |h| && forall j :: 0 <= j < |at| ==> at[j] < |slots| && slots[at[j]] == Lobby(true, h[j].payload, h[j].tick)
  }

  predicate Injective(at: seq<nat>) {
    forall i, j :: 0 <= i < j < |at| ==> at[i] != at[j]
  }

  predicate Covered(slots: seq<Lobby>, at: seq<nat>) {
    forall i: nat :: i < |slots| && slots[i].valid ==> i in at
  }

  /** Slot at[j] holds the j-th most recent lobby, and every valid slot is one of these. */
  predicate Holds(slots: seq<Lobby>, h: seq<Heard>, at: seq<nat>) {
    Located(slots, h, at) && Injective(at) && Covered(slots, at)
  }

  /** The slot of the same lobby is the slot of the entry with the same identity. */
  lemma {:induction false} SameIffIdentity(slots: seq<Lobby>, h: seq<Heard>, at: seq<nat>, x: Heard, j: nat)
    requires Holds(slots, h, at) && j < |at| && Before(h, x.tick)
    ensures SameLobby(slots[at[j]], x.payload) <==> h[j].Id() == x.Id()
  {
  }

  /** Case 1: the lobby is in the table. */
  lemma {:induction false} StoreRenews(slots: seq<Lobby>, h: seq<Heard>, at: seq<nat>, x: Heard, j: nat)
    returns (at': seq<nat>)
    requires Holds(slots, h, at) && Distinct(h) && j < |at| && h[j].Id() == x.Id()
    ensures Holds(slots[at[j] := Lobby(true, x.payload, x.tick)], Renewed(h, x), at') && |at'| == |at|
  {
    var gone, h2, at2 := slots[at[j] := slots[at[j]].(valid := false)], Dropped(h, j), Dropped(at, j);
    Forgets(slots, h, at, j);
    at' := StoreAdds(gone, h2, at2, x, at[j]);
    WithoutAt(h, j);
    WithoutAbsent(h2, x.Id());
    assert gone[at[j] := Lobby(true, x.payload, x.tick)] == slots[at[j] := Lobby(true, x.payload, x.tick)];
  }

  function Dropped<T>(s: seq<T>, j: nat): (r: seq<T>)
    requires j < |s|
    ensures |r| == |s| - 1 && forall i :: 0 <= i < |r| ==> r[i] == s[if i < j then i else i + 1]
  {
    s[..j] + s[j + 1..]
  }

  /** Taking one entry out of the table and out of the list. */
  lemma {:induction false} Forgets(slots: seq<Lobby>, h: seq<Heard>, at: seq<nat>, j: nat)
    requires Holds(slots, h, at) && j < |at|
    ensures Holds(slots[at[j] := slots[at[j]].(valid := false)], Dropped(h, j), Dropped(at, j))
  {
    ForgetsLocated(slots, h, at, j);
    ForgetsCovered(slots, at, j);
  }

  lemma {:induction false} ForgetsLocated(slots: seq<Lobby>, h: seq<Heard>, at: seq<nat>, j: nat)
    requires Located(slots, h, at) && Injective(at) && j < |at|
    ensures Located(slots[at[j] := slots[at[j]].(valid := false)], Dropped(h, j), Dropped(at, j)) &&
      Injective(Dropped(at, j))
  {
  }

  lemma {:induction false} ForgetsCovered(slots: seq<Lobby>, at: seq<nat>, j: nat)
    requires Covered(slots, at) && j < |at| && at[j] < |slots|
    ensures Covered(slots[at[j] := slots[at[j]].(valid := false)], Dropped(at, j))
  {
    var gone, at2 := slots[at[j] := slots[at[j]].(valid := false)], Dropped(at, j);
    forall i: nat | i < |gone| && gone[i].valid ensures i in at2 {
      var m :| 0 <= m < |at| && at[m] == i;
      assert at2[if m < j then m else m - 1] == i;
    }
  }

  /** Case 2: a new lobby and a free slot. */
  lemma {:induction false} StoreAdds(slots: seq<Lobby>, h: seq<Heard>, at: seq<nat>, x: Heard, f: nat)
    returns (at': seq<nat>)
    requires Holds(slots, h, at) && f < |slots| && !slots[f].valid
    requires forall j :: 0 <= j < |at| ==> h[j].Id() != x.Id()
    ensures Holds(slots[f := Lobby(true, x.payload, x.tick)], Renewed(h, x), at') && |at'| == |at| + 1
  {
    WithoutKeepsPrefix(h, x.Id(), |at|);
    at' := [f] + at;
    var slots', h' := slots[f := Lobby(true, x.payload, x.tick)], Renewed(h, x);
    forall j | 0 < j < |at'| ensures at'[j] == at[j - 1] && h'[j] == h[j - 1] {
      assert Without(h, x.Id())[j - 1] == Without(h, x.Id())[..|at|][j - 1] == h[..|at|][j - 1];
    }
    forall i: nat | i < |slots'| && slots'[i].valid ensures i in at' {
      if i != f { assert i in at; }
    }
  }

  /** Case 3: a new lobby and no free slot: the least recent one goes. */
  lemma {:induction false} StoreReplaces(slots: seq<Lobby>, h: seq<Heard>, at: seq<nat>, x: Heard, o: nat)
    returns (at': seq<nat>)
    requires Holds(slots, h, at) && |at| > 0 && o == at[|at| - 1]
    requires forall j :: 0 <= j < |at| ==> h[j].Id() != x.Id()
    ensures Holds(slots[o := Lobby(true, x.payload, x.tick)], Renewed(h, x), at') && |at'| == |at|
  {
    var gone := slots[o := slots[o].(valid := false)];
    assert Holds(gone, h, at[..|at| - 1]) by {
      forall i: nat | i < |gone| && gone[i].valid ensures i in at[..|at| - 1] {
        var m :| 0 <= m < |at| && at[m] == i;
        assert at[..|at| - 1][m] == i;
      }
    }
    at' := StoreAdds(gone, h, at[..|at| - 1], x, o);
    assert gone[o := Lobby(true, x.payload, x.tick)] == slots[o := Lobby(true, x.payload, x.tick)];
  }

  /** With every slot valid and positive ticks, the scan for the oldest slot finds the least recent lobby. */
  lemma {:induction false} OldestScan(slots: seq<Lobby>, n: nat)
    requires n <= |slots| && forall i :: 0 <= i < n ==> slots[i].valid && slots[i].timestamp > 0
    ensures var o := Oldest(slots, n);
            n > 0 ==> o.1 < n && o.0 == slots[o.1].timestamp && forall i :: 0 <= i < n ==> slots[i].timestamp >= o.0
  {
    if n > 0 { OldestScan(slots, n - 1); }
  }

  /** Where in the list a valid slot is. */
  lemma {:induction false} PositionOf(slots: seq<Lobby>, h: seq<Heard>, at: seq<nat>, i: nat) returns (m: nat)
    requires Holds(slots, h, at) && i < |slots| && slots[i].valid
    ensures m < |at| && at[m] == i && slots[i].timestamp == h[m].tick
  {
    m :| m < |at| && at[m] == i;
  }

  lemma {:induction false} OldestIsLast(slots: seq<Lobby>, h: seq<Heard>, at: seq<nat>)
    requires Holds(slots, h, at) && NewestFirst(h) && |slots| > 0
    requires forall i :: 0 <= i < |slots| ==> slots[i].valid
    requires forall j :: 0 <= j < |at| ==> h[j].tick > 0
    ensures |at| > 0 && Oldest(slots, |slots|).1 == at[|at| - 1]
  {
    forall i: nat | i < |slots| ensures slots[i].timestamp > 0 {
      var m := PositionOf(slots, h, at, i);
    }
    OldestScan(slots, |slots|);
    var m := PositionOf(slots, h, at, Oldest(slots, |slots|).1);
    var last := at[|at| - 1];
    assert slots[last].timestamp == h[|at| - 1].tick;
  }

  predicate Among(h: seq<Heard>, k: nat, id: Identity)
    requires k <= |h|
  {
    exists j :: 0 <= j < k && h[j].Id() == id
  }

  /** How many lobbies are cached after a store, if the first k of h were before. */
  function SizeAfter(h: seq<Heard>, k: nat, id: Identity): nat
    requires k <= |h|
  {
    if Among(h, k, id) then k else if k < LOBBY_CACHE_SIZE then k + 1 else LOBBY_CACHE_SIZE
  }

  /** A store makes its lobby the most recent one. The cache grows by one unless the lobby was cached
      already or all sixteen slots are taken; then the least recent lobby goes. */
  lemma {:induction false} StoreHolds(slots: seq<Lobby>, h: seq<Heard>, at: seq<nat>, x: Heard) returns (at': seq<nat>)
    requires |slots| == LOBBY_CACHE_SIZE && Holds(slots, h, at) && Distinct(h) && NewestFirst(h) && Before(h, x.tick)
    ensures Holds(slots[ChosenSlot(slots, x.payload) := Lobby(true, x.payload, x.tick)], Renewed(h, x), at')
    ensures |at'| == SizeAfter(h, |at|, x.Id())
  {
    var s := FirstSame(slots, x.payload, 0);
    if s < |slots| {
      assert s in at;
      var j: nat :| j < |at| && at[j] == s;
      SameIffIdentity(slots, h, at, x, j);
      at' := StoreRenews(slots, h, at, x, j);
    } else {
      forall j: nat | j < |at| ensures h[j].Id() != x.Id() {
        SameIffIdentity(slots, h, at, x, j);
      }
      var f := FreeSlot(slots, |slots|);
      if f >= 0 {
        at' := StoreAdds(slots, h, at, x, f);
        DistinctBelow(at', LOBBY_CACHE_SIZE);
      } else {
        OldestIsLast(slots, h, at);
        CoverSize(at, LOBBY_CACHE_SIZE);
        DistinctBelow(at, LOBBY_CACHE_SIZE);
        at' := StoreReplaces(slots, h, at, x, at[|at| - 1]);
      }
    }
  }

  // ---- re-injection ----

  /** How many of the first k are unexpired: expiry only ever takes from the old end. */
  function Surviving(h: seq<Heard>, k: nat, ns: nat -> nat, now: nat): (n: nat)
    requires k <= |h|
    ensures n <= k
  {
    if k == 0 then 0 else if ns(Elapsed(now, h[k - 1].tick)) > EXPIRY_NS then Surviving(h, k - 1, ns, now) else k
  }

  lemma {:induction false} ElapsedOrder(now: nat, newer: nat, older: nat)
    requires older <= newer <= now < 0x1_0000_0000_0000_0000
    ensures Elapsed(now, newer) <= Elapsed(now, older)
  {
  }

  lemma {:induction false} ExpiredSuffix(h: seq<Heard>, k: nat, ns: nat -> nat, now: nat, j: nat)
    requires j < k <= |h| && NewestFirst(h) && Monotone(ns) && Before(h, now + 1) && now < 0x1_0000_0000_0000_0000
    ensures ns(Elapsed(now, h[j].tick)) > EXPIRY_NS <==> j >= Surviving(h, k, ns, now)
  {
    if ns(Elapsed(now, h[k - 1].tick)) > EXPIRY_NS {
      if j < k - 1 { ExpiredSuffix(h, k - 1, ns, now, j); }
    } else {
      ElapsedOrder(now, h[j].tick, h[k - 1].tick);
    }
  }

  /** A re-injection that is due sends each unexpired entry and keeps exactly those: a most recent part. */
  lemma {:induction false} ReinjectHolds(c: Cache, h: seq<Heard>, at: seq<nat>, ns: nat -> nat, now: nat)
    requires |c.slots| == LOBBY_CACHE_SIZE && Holds(c.slots, h, at) && NewestFirst(h) && Monotone(ns) && Due(c, ns, now)
    requires Before(h, now + 1) && now < 0x1_0000_0000_0000_0000
    ensures Holds(Reinjected(c, ns, now).slots, h, at[..Surviving(h, |at|, ns, now)])
    ensures forall j :: 0 <= j < |at| ==>
      (c.slots[at[j]].valid && !Expired(c.slots[at[j]], ns, now) <==> j < Surviving(h, |at|, ns, now))
  {
    var n := Surviving(h, |at|, ns, now);
    forall j: nat | j < |at| ensures Expired(c.slots[at[j]], ns, now) <==> j >= n {
      ExpiredSuffix(h, |at|, ns, now, j);
    }
    var slots' := Reinjected(c, ns, now).slots;
    assert forall i :: 0 <= i < |slots'| ==> slots'[i] == AgedSlot(c.slots[i], ns, now);
    AgedHolds(c.slots, slots', h, at, n, ns, now);
  }

  lemma {:induction false} AgedHolds(slots: seq<Lobby>, slots': seq<Lobby>, h: seq<Heard>, at: seq<nat>, n: nat,
    ns: nat -> nat, now: nat)
    requires Holds(slots, h, at) && n <= |at| && |slots'| == |slots|
    requires forall i :: 0 <= i < |slots| ==> slots'[i] == AgedSlot(slots[i], ns, now)
    requires forall j: nat :: j < |at| ==> (Expired(slots[at[j]], ns, now) <==> j >= n)
    ensures Holds(slots', h, at[..n])
  {
    forall i: nat | i < |slots'| && slots'[i].valid ensures i in at[..n] {
      assert i in at;
      var m: nat :| m < |at| && at[m] == i;
      assert at[..n][m] == i;
    }
  }

  /** The time of the last injection that was due. */
  function LastInjection(ns: nat -> nat, es: seq<Event>): nat {
    if es == [] then 0
    else
      var last, e := LastInjection(ns, es[..|es| - 1]), es[|es| - 1];
      if e.Reinject? && DueSince(last, ns, e.now) then e.now else last
  }

  lemma {:induction false} InjectionTime(ns: nat -> nat, es: seq<Event>)
    ensures Run(ns, es).lastReinject == LastInjection(ns, es)
  {
    if es != [] { InjectionTime(ns, es[..|es| - 1]); }
  }

  /** How many of the most recent lobbies are cached. */
  function Kept(ns: nat -> nat, es: seq<Event>): (k: nat)
    requires Ticking(es)
    ensures k <= LOBBY_CACHE_SIZE && k <= |Recent(es)|
  {
    if es == [] then 0
    else
      var p, e := es[..|es| - 1], es[|es| - 1];
      var h, k := Recent(p), Kept(ns, p);
      match e
      case Store(payload, tick) =>
        if Storable(payload) then
          RecentOrder(p, tick);
          SizeFits(h, k, Heard(payload, tick));
          SizeAfter(h, k, Heard(payload, tick).Id())
        else k
      case Reinject(now) => if DueSince(LastInjection(ns, p), ns, now) then Surviving(h, k, ns, now) else k
  }

  lemma {:induction false} SizeFits(h: seq<Heard>, k: nat, x: Heard)
    requires k <= |h| && k <= LOBBY_CACHE_SIZE && Distinct(h)
    ensures SizeAfter(h, k, x.Id()) <= |Renewed(h, x)|
  {
    var id := x.Id();
    if Among(h, k, id) {
      var j :| 0 <= j < k && h[j].Id() == id;
      WithoutAt(h, j);
    } else {
      WithoutKeepsPrefix(h, id, k);
    }
  }

  /** In every run the cache holds exactly the Kept(ns, es) lobbies heard most recently, each once,
      with its latest payload. */
  lemma {:induction false} HoldsMostRecent(ns: nat -> nat, es: seq<Event>) returns (at: seq<nat>)
    requires Monotone(ns) && Ticking(es)
    ensures Holds(Run(ns, es).slots, Recent(es), at) && |at| == Kept(ns, es)
  {
    if es == [] {
      at := [];
    } else {
      var p, e := es[..|es| - 1], es[|es| - 1];
      at := HoldsMostRecent(ns, p);
      match e {
        case Store(payload, tick) =>
          RecentOrder(p, tick);
          if Storable(payload) { at := StoreHolds(Run(ns, p).slots, Recent(p), at, Heard(payload, tick)); }
        case Reinject(now) =>
          InjectionTime(ns, p);
          RecentOrder(p, now + 1);
          if Due(Run(ns, p), ns, now) {
            ReinjectHolds(Run(ns, p), Recent(p), at, ns, now);
            at := at[..Surviving(Recent(p), |at|, ns, now)];
          }
      }
    }
  }

  // ---- one lobby ----

  /** The last response heard from a lobby. */
  function LastHeard(es: seq<Event>, id: Identity): Option<Heard> {
    if es == [] then None
    else
      var e := es[|es| - 1];
      if e.Store? && Storable(e.payload) && Heard(e.payload, e.tick).Id() == id then Some(Heard(e.payload, e.tick))
      else LastHeard(es[..|es| - 1], id)
  }

  /** The other lobbies heard since. */
  function OthersSince(es: seq<Event>, id: Identity): set<Identity> {
    if es == [] then {}
    else
      var e, before := es[|es| - 1], OthersSince(es[..|es| - 1], id);
      if e.Store? && Storable(e.payload) then
        var other := Heard(e.payload, e.tick).Id();
        if other == id then {} else before + {other}
      else before
  }

  /** No injection that was due since has found the lobby expired. */
  predicate Survived(ns: nat -> nat, es: seq<Event>, id: Identity) {
    es == [] ||
    var p, e := es[..|es| - 1], es[|es| - 1];
    match e
    case Store(payload, tick) => (Storable(payload) && Heard(payload, tick).Id() == id) || Survived(ns, p, id)
    case Reinject(now) =>
      && Survived(ns, p, id)
      && (DueSince(LastInjection(ns, p), ns, now) && LastHeard(p, id).Some? ==>
            ns(Elapsed(now, LastHeard(p, id).value.tick)) <= EXPIRY_NS)
  }

  /** The list holds the last response of every lobby heard. */
  lemma {:induction false} RecentIsLastHeard(es: seq<Event>, x: Heard)
    ensures x in Recent(es) <==> LastHeard(es, x.Id()) == Some(x)
  {
    if es != [] {
      var p, e := es[..|es| - 1], es[|es| - 1];
      RecentIsLastHeard(p, x);
      if e.Store? && Storable(e.payload) {
        WithoutMember(Recent(p), Heard(e.payload, e.tick).Id(), x);
        LastHeardId(p, x.Id());
      }
    }
  }

  lemma {:induction false} LastHeardId(es: seq<Event>, id: Identity)
    ensures LastHeard(es, id).Some? ==> LastHeard(es, id).value.Id() == id
  {
    if es != [] { LastHeardId(es[..|es| - 1], id); }
  }


  ghost function Ids(h: seq<Heard>): set<Identity> { set i | 0 <= i < |h| :: h[i].Id() }

  lemma {:induction false} IdsCons(x: Heard, h: seq<Heard>)
    ensures Ids([x] + h) == {x.Id()} + Ids(h)
  {
    var all := [x] + h;
    forall i | 0 <= i < |h| ensures h[i].Id() in Ids(all) { assert all[i + 1] == h[i]; }
    assert all[0].Id() in Ids(all);
  }

  lemma {:induction false} IdsCount(h: seq<Heard>)
    requires Distinct(h)
    ensures |Ids(h)| == |h|
  {
    if h != [] {
      assert h == [h[0]] + h[1..];
      IdsCons(h[0], h[1..]);
      IdsCount(h[1..]);
    }
  }

  /** Entry j of the list without a lobby is entry q of the list, after the same other lobbies. */
  lemma {:induction false} WithoutIndex(h: seq<Heard>, id: Identity, j: nat) returns (q: nat)
    requires j < |Without(h, id)|
    ensures q < |h| && Without(h, id)[j] == h[q] && Ids(Without(h, id)[..j]) == Ids(h[..q]) - {id}
  {
    var r := Without(h[1..], id);
    if h[0].Id() == id {
      q := WithoutIndex(h[1..], id, j);
      q := q + 1;
      HeadOf(h, q);
    } else if j == 0 {
      q := 0;
    } else {
      q := WithoutIndex(h[1..], id, j - 1);
      q := q + 1;
      HeadOf(h, q);
      HeadOf(Without(h, id), j);
      assert Without(h, id)[1..] == r;
    }
  }

  lemma {:induction false} HeadOf(h: seq<Heard>, n: nat)
    requires 0 < n <= |h|
    ensures Ids(h[..n]) == {h[0].Id()} + Ids(h[1..][..n - 1])
  {
    assert h[..n] == [h[0]] + h[1..][..n - 1];
    IdsCons(h[0], h[1..][..n - 1]);
  }

  /** What stands before a lobby in the list are the lobbies heard since. */
  lemma {:induction false} OthersAre(es: seq<Event>, j: nat)
    requires j < |Recent(es)|
    ensures OthersSince(es, Recent(es)[j].Id()) == Ids(Recent(es)[..j])
  {
    var p, e := es[..|es| - 1], es[|es| - 1];
    if e.Store? && Storable(e.payload) {
      var x := Heard(e.payload, e.tick);
      if j > 0 {
        var q := WithoutIndex(Recent(p), x.Id(), j - 1);
        OthersAre(p, q);
        WithoutMember(Recent(p), x.Id(), Recent(es)[j]);
        HeadOf(Recent(es), j);
        assert Recent(es)[1..] == Without(Recent(p), x.Id());
      }
    } else {
      OthersAre(p, j);
    }
  }

  lemma {:induction false} OthersCount(es: seq<Event>, j: nat)
    requires Ticking(es) && j < |Recent(es)|
    ensures |OthersSince(es, Recent(es)[j].Id())| == j
  {
    RecentOrder(es, 0x1_0000_0000_0000_0000);
    OthersAre(es, j);
    IdsCount(Recent(es)[..j]);
  }

  /** Removing a lobby moves only what stands behind it. */
  lemma {:induction false} WithoutShift(h: seq<Heard>, id: Identity, j: nat)
    requires Distinct(h) && j < |Without(h, id)|
    ensures if Among(h, Min(j + 1, |h|), id) then j + 1 < |h| && Without(h, id)[j] == h[j + 1]
            else j < |h| && Without(h, id)[j] == h[j]
  {
    if Among(h, Min(j + 1, |h|), id) {
      var m :| 0 <= m < Min(j + 1, |h|) && h[m].Id() == id;
      WithoutAt(h, m);
    } else {
      WithoutKeepsPrefix(h, id, Min(j + 1, |h|));
      assert Without(h, id)[j] == Without(h, id)[..j + 1][j];
    }
  }

  /** The j-th lobby of the list is cached iff j is below sixteen and no due injection found it expired. */
  lemma {:induction false} KeptIff(ns: nat -> nat, es: seq<Event>, j: nat)
    requires Monotone(ns) && Ticking(es) && j < |Recent(es)|
    ensures j < Kept(ns, es) <==> j < LOBBY_CACHE_SIZE && Survived(ns, es, Recent(es)[j].Id())
    decreases |es|, 1
  {
    var p, e := es[..|es| - 1], es[|es| - 1];
    if e.Store? && Storable(e.payload) {
      if j > 0 { KeptStore(ns, es, j); }
    } else {
      KeptIff(ns, p, j);
      if e.Reinject? && DueSince(LastInjection(ns, p), ns, e.now) {
        RecentOrder(p, e.now + 1);
        RecentIsLastHeard(p, Recent(p)[j]);
        if j < Kept(ns, p) { ExpiredSuffix(Recent(p), Kept(ns, p), ns, e.now, j); }
      }
    }
  }

  lemma {:induction false} KeptStore(ns: nat -> nat, es: seq<Event>, j: nat)
    requires Monotone(ns) && Ticking(es) && 0 < j < |Recent(es)|
    requires es[|es| - 1].Store? && Storable(es[|es| - 1].payload)
    ensures j < Kept(ns, es) <==> j < LOBBY_CACHE_SIZE && Survived(ns, es, Recent(es)[j].Id())
    decreases |es|, 0
  {
    var p, e := es[..|es| - 1], es[|es| - 1];
    var h, k, id := Recent(p), Kept(ns, p), Heard(e.payload, e.tick).Id();
    RecentOrder(p, e.tick);
    WithoutShift(h, id, j - 1);
    WithoutMember(h, id, Recent(es)[j]);
    KeptIff(ns, p, if Among(h, Min(j, |h|), id) then j else j - 1);
  }

  /** A response is cached iff it is the last one of its lobby, fewer than sixteen other lobbies were
      heard since, and no injection that was due since has found it expired. */
  lemma {:induction false} CachedIff(ns: nat -> nat, es: seq<Event>, x: Heard)
    requires Monotone(ns) && Ticking(es)
    ensures Lobby(true, x.payload, x.tick) in Run(ns, es).slots <==>
      && LastHeard(es, x.Id()) == Some(x)
      && |OthersSince(es, x.Id())| < LOBBY_CACHE_SIZE
      && Survived(ns, es, x.Id())
  {
    var slots, h := Run(ns, es).slots, Recent(es);
    var at := HoldsMostRecent(ns, es);
    RecentIsLastHeard(es, x);
    if x in h {
      var j :| 0 <= j < |h| && h[j] == x;
      OthersCount(es, j);
      KeptIff(ns, es, j);
      if j < |at| { assert slots[at[j]] == Lobby(true, x.payload, x.tick); }
    }
    if Lobby(true, x.payload, x.tick) in slots {
      var i: nat :| i < |slots| && slots[i] == Lobby(true, x.payload, x.tick);
      var m := PositionOf(slots, h, at, i);
      RecentOrder(es, 0x1_0000_0000_0000_0000);
      assert h[m] == x;
    }
  }

  /** Pigeonhole: distinct numbers below n are at most n. */
  lemma {:induction false} DistinctBelow(xs: seq<nat>, n: nat)
    requires forall i :: 0 <= i < |xs| ==> xs[i] < n
    requires forall i, j :: 0 <= i < j < |xs| ==> xs[i] != xs[j]
    ensures |xs| <= n
  {
    if xs != [] {
      assert xs[0] < n;
      if i :| 0 <= i < |xs| && xs[i] == n - 1 {
        DistinctBelow(xs[..i] + xs[i + 1..], n - 1);
      } else {
        DistinctBelow(xs, n - 1);
      }
    }
  }

  /** And numbers that cover everything below n are at least n. */
  lemma {:induction false} CoverSize(xs: seq<nat>, n: nat)
    requires forall i: nat :: i < n ==> i in xs
    ensures |xs| >= n
  {
    if n > 0 {
      assert n - 1 in xs;
      var k :| 0 <= k < |xs| && xs[k] == n - 1;
      var rest := xs[..k] + xs[k + 1..];
      forall i: nat | i < n - 1 ensures i in rest {
        assert i in xs;
        var m :| 0 <= m < |xs| && xs[m] == i;
        assert rest[if m < k then m else m - 1] == i;
      }
      CoverSize(rest, n - 1);
    }
  }

  lemma {:induction false} DifferentLobbies(slots: seq<Lobby>, h: seq<Heard>, at: seq<nat>, i: nat, j: nat,
    payload: seq<byte>)
    requires Holds(slots, h, at) && Distinct(h) && i < |slots| && j < |slots| && i != j
    ensures !(SameLobby(slots[i], payload) && SameLobby(slots[j], payload))
  {
    if SameLobby(slots[i], payload) && SameLobby(slots[j], payload) {
      var a := PositionOf(slots, h, at, i);
      var b := PositionOf(slots, h, at, j);
      SameIdentity(slots, h, at, a, payload);
      SameIdentity(slots, h, at, b, payload);
      OneIdentity(h, a, b);
    }
  }

  lemma {:induction false} OneIdentity(h: seq<Heard>, a: nat, b: nat)
    requires Distinct(h) && a < |h| && b < |h| && h[a].Id() == h[b].Id()
    ensures a == b
  {
  }

  lemma {:induction false} SameIdentity(slots: seq<Lobby>, h: seq<Heard>, at: seq<nat>, a: nat, payload: seq<byte>)
    requires Holds(slots, h, at) && a < |at| && SameLobby(slots[at[a]], payload)
    ensures h[a].Id() == Named(payload[12..44])
  {
    assert slots[at[a]].data == h[a].payload;
  }

  /** No identity is cached twice. */
  lemma {:induction false} NoIdentityTwice(ns: nat -> nat, es: seq<Event>, i: nat, j: nat, payload: seq<byte>)
    requires Monotone(ns) && Ticking(es) && i < j < LOBBY_CACHE_SIZE
    ensures !(SameLobby(Run(ns, es).slots[i], payload) && SameLobby(Run(ns, es).slots[j], payload))
  {
    var at := HoldsMostRecent(ns, es);
    RecentOrder(es, 0x1_0000_0000_0000_0000);
    DifferentLobbies(Run(ns, es).slots, Recent(es), at, i, j, payload);
  }

  // ---- when lobbies are injected, and which ----

  /** Event i is a call that injects. */
  predicate Injects(ns: nat -> nat, es: seq<Event>, i: nat) {
    i < |es| && es[i].Reinject? && Injection(Run(ns, es[..i]), ns, es[i].now).Some?
  }

  /** Half a second or more lies between the calls i and j. */
  predicate Apart(ns: nat -> nat, es: seq<Event>, i: nat, j: nat)
    requires i < j < |es| && es[i].Reinject? && es[j].Reinject? && es[i].now <= es[j].now
  {
    ns(es[j].now - es[i].now) >= 500_000_000
  }

  /** Of a sequence of calls, the last one before n that injects, if any; mem is what is remembered. */
  lemma {:induction false} LastOf(inj: seq<bool>, ticks: seq<nat>, mem: seq<nat>, n: nat) returns (last: int)
    requires |inj| == |ticks| == |mem| - 1 && n <= |inj| && mem[0] == 0
    requires forall i :: 0 <= i < |inj| ==> mem[i + 1] == if inj[i] then ticks[i] else mem[i]
    ensures -1 <= last < n && (forall i :: last < i < n ==> !inj[i])
    ensures if last < 0 then mem[n] == 0 else inj[last] && mem[n] == ticks[last]
  {
    last := -1;
    if n > 0 {
      last := LastOf(inj, ticks, mem, n - 1);
      if inj[n - 1] { last := n - 1; }
    }
  }

  function InjectTrace(ns: nat -> nat, es: seq<Event>): (r: seq<bool>)
    ensures |r| == |es| && forall i :: 0 <= i < |es| ==> r[i] == Injects(ns, es, i)
  {
    seq(|es|, i requires 0 <= i < |es| => Injects(ns, es, i))
  }

  function TickTrace(es: seq<Event>): (r: seq<nat>)
    ensures |r| == |es| && forall i :: 0 <= i < |es| ==> r[i] == TickOf(es[i])
  {
    seq(|es|, i requires 0 <= i < |es| => TickOf(es[i]))
  }

  function MemoryTrace(ns: nat -> nat, es: seq<Event>): (r: seq<nat>)
    ensures |r| == |es| + 1 && forall n :: 0 <= n <= |es| ==> r[n] == Run(ns, es[..n]).lastReinject
  {
    seq(|es| + 1, n requires 0 <= n <= |es| => Run(ns, es[..n]).lastReinject)
  }

  /** The last call before event n that injects; its tick is what the cache remembers. */
  lemma {:induction false} LastInjecting(ns: nat -> nat, es: seq<Event>, n: nat) returns (last: int)
    requires n <= |es|
    ensures -1 <= last < n && (forall i: nat :: last < i < n ==> !Injects(ns, es, i))
    ensures var mem := Run(ns, es[..n]).lastReinject;
      if last < 0 then mem == 0 else Injects(ns, es, last) && mem == es[last].now
  {
    var inj, ticks, mem := InjectTrace(ns, es), TickTrace(es), MemoryTrace(ns, es);
    forall i | 0 <= i < |es| ensures mem[i + 1] == if inj[i] then ticks[i] else mem[i] { NextRun(ns, es, i); }
    assert es[..0] == [];
    last := LastOf(inj, ticks, mem, n);
    forall i: nat | last < i < n ensures !Injects(ns, es, i) { assert !inj[i]; }
  }

  lemma {:induction false} NextRun(ns: nat -> nat, es: seq<Event>, n: nat)
    requires n < |es|
    ensures var c, e := Run(ns, es[..n]), es[n];
      && Run(ns, es[..n + 1]) == (if e.Store? then Stored(c, e.payload, e.tick) else Reinjected(c, ns, e.now))
      && Run(ns, es[..n + 1]).lastReinject == if Injects(ns, es, n) then e.now else c.lastReinject
  {
    assert es[..n + 1][..n] == es[..n];
  }

  /** A call injects if and only if half a second or more has passed since every call before that did. So
      the first call injects, and so does every call that comes late enough after the last one. */
  lemma {:induction false} InjectsIff(ns: nat -> nat, es: seq<Event>, j: nat)
    requires Monotone(ns) && Ticking(es) && j < |es| && es[j].Reinject?
    ensures Injects(ns, es, j) <==> forall i: nat :: i < j && Injects(ns, es, i) ==> Apart(ns, es, i, j)
  {
    var m := LastInjecting(ns, es, j);
    if m >= 0 {
      InOrder(es[j].now, es[m].now);
      forall i: nat | i < j && Injects(ns, es, i) ensures Apart(ns, es, m, j) ==> Apart(ns, es, i, j) {
        assert i <= m;
      }
    }
  }

  lemma {:induction false} InOrder(now: nat, since: nat)
    requires since <= now < 0x1_0000_0000_0000_0000
    ensures Elapsed(now, since) == now - since
  {
  }

  /** The slot is kept if its lobby is at most thirty seconds old, and otherwise only marked free. */
  predicate SentOrDropped(ns: nat -> nat, l: Lobby, l': Lobby, now: nat) {
    && l'.data == l.data && l'.timestamp == l.timestamp
    && (l'.valid <==> l.valid && l.timestamp <= now && ns(now - l.timestamp) <= 30_000_000_000)
  }

  /** The slots are sent in order, exactly those that stay valid; each slot is sent or dropped by its age. */
  ghost predicate SendsByAge(ns: nat -> nat, c: Cache, c': Cache, sent: seq<nat>, now: nat)
    requires |c.slots| == |c'.slots| == 16
  {
    && (forall a, b :: 0 <= a < b < |sent| ==> sent[a] < sent[b])
    && (forall i: nat :: i in sent <==> i < 16 && c'.slots[i].valid)
    && forall i: nat :: i < 16 ==> SentOrDropped(ns, c.slots[i], c'.slots[i], now)
  }

  lemma {:induction false} AgedByAge(ns: nat -> nat, l: Lobby, now: nat)
    requires l.valid ==> l.timestamp <= now < 0x1_0000_0000_0000_0000
    ensures SentOrDropped(ns, l, AgedSlot(l, ns, now), now)
  {
    if l.valid { InOrder(now, l.timestamp); }
  }

  lemma {:induction false} DueSends(ns: nat -> nat, c: Cache, now: nat)
    requires |c.slots| == LOBBY_CACHE_SIZE && Due(c, ns, now) && now < 0x1_0000_0000_0000_0000
    requires forall i :: 0 <= i < LOBBY_CACHE_SIZE && c.slots[i].valid ==> c.slots[i].timestamp <= now
    ensures SendsByAge(ns, c, Reinjected(c, ns, now), Injection(c, ns, now).value, now)
  {
    forall i: nat | i < 16 ensures SentOrDropped(ns, c.slots[i], Reinjected(c, ns, now).slots[i], now) {
      AgedByAge(ns, c.slots[i], now);
    }
  }

  lemma {:induction false} StoredBefore(ns: nat -> nat, es: seq<Event>, now: nat, i: nat)
    requires Monotone(ns) && Ticking(es) && (forall k :: 0 <= k < |es| && es[k].Store? ==> es[k].tick <= now)
    requires i < LOBBY_CACHE_SIZE && Run(ns, es).slots[i].valid
    ensures Run(ns, es).slots[i].timestamp <= now
  {
    var at := HoldsMostRecent(ns, es);
    RecentOrder(es, now + 1);
    var m := PositionOf(Run(ns, es).slots, Recent(es), at, i);
  }

  /** A call that injects sends exactly the cached lobbies not older than thirty seconds, in the order of
      their slots, and drops the others. Any other call does nothing. */
  lemma {:induction false} InjectionSends(ns: nat -> nat, es: seq<Event>, j: nat)
    requires Monotone(ns) && Ticking(es) && j < |es| && es[j].Reinject?
    ensures var c, c', now := Run(ns, es[..j]), Run(ns, es[..j + 1]), es[j].now;
      var sent := Injection(c, ns, now);
      if Injects(ns, es, j) then SendsByAge(ns, c, c', sent.value, now) else sent.None? && c' == c
  {
    NextRun(ns, es, j);
    var c, now := Run(ns, es[..j]), es[j].now;
    forall i | 0 <= i < LOBBY_CACHE_SIZE && c.slots[i].valid ensures c.slots[i].timestamp <= now {
      StoredBefore(ns, es[..j], now, i);
    }
    if Injects(ns, es, j) { DueSends(ns, c, now); }
  }

  // ---- a clock read before the lock ----

  /** An injection reads the clock before it takes the lock, so a store can slip in whose tick is later.
      Whatever the ticks: a due injection keeps a lobby exactly if it was not stored after the clock was
      read and is not too old. */
  lemma {:induction false} SurvivesIff(ns: nat -> nat, c: Cache, i: nat, now: nat)
    requires Monotone(ns) && ns(HALF_RANGE) > EXPIRY_NS && |c.slots| == LOBBY_CACHE_SIZE && Due(c, ns, now)
    requires i < LOBBY_CACHE_SIZE && c.slots[i].valid
    requires c.slots[i].timestamp - HALF_RANGE <= now < c.slots[i].timestamp + 2 * HALF_RANGE
    ensures var t := c.slots[i].timestamp;
      Reinjected(c, ns, now).slots[i].valid <==> t <= now && ns(now - t) <= EXPIRY_NS
  {
    var t := c.slots[i].timestamp;
    if now < t { Backwards(t, now); }
  }

  const HALF_RANGE: nat := 0x8000_0000_0000_0000

  lemma {:induction false} Backwards(t: nat, now: nat)
    requires now < t <= now + HALF_RANGE
    ensures Elapsed(now, t) >= HALF_RANGE
  {
  }

  /** It happens on a run: the lobby just heard is dropped. */
  lemma {:induction false} FreshLobbyDropped(ns: nat -> nat, payload: seq<byte>, tick: nat, now: nat)
    requires Monotone(ns) && ns(HALF_RANGE) > EXPIRY_NS && Storable(payload) && now < tick <= now + HALF_RANGE
    ensures var es := [Event.Store(payload, tick), Event.Reinject(now)];
      && Cached(Run(ns, es[..1]).slots, payload) && !Cached(Run(ns, es).slots, payload)
  {
    var es := [Event.Store(payload, tick), Event.Reinject(now)];
    var c := Stored(EmptyCache(), payload, tick);
    RunOfTwo(ns, payload, tick, now);
    OnlySlot(payload, tick);
    assert c.slots[0].valid && c.slots[0].data == payload;
    SurvivesIff(ns, c, 0, now);
    forall i | 0 <= i < LOBBY_CACHE_SIZE ensures !Reinjected(c, ns, now).slots[i].valid {
      assert i > 0 ==> !c.slots[i].valid;
    }
  }

  lemma {:induction false} RunOfTwo(ns: nat -> nat, payload: seq<byte>, tick: nat, now: nat)
    ensures var es := [Event.Store(payload, tick), Event.Reinject(now)]; var c := Stored(EmptyCache(), payload, tick);
      Run(ns, es[..1]) == c && Run(ns, es) == Reinjected(c, ns, now)
  {
    var es := [Event.Store(payload, tick), Event.Reinject(now)];
    assert es[..1] == [es[0]] && [es[0]][..0] == [];
  }

  /** Some valid slot holds the payload. */
  predicate Cached(slots: seq<Lobby>, payload: seq<byte>) {
    exists i :: 0 <= i < |slots| && slots[i].valid && slots[i].data == payload
  }

  lemma {:induction false} OnlySlot(payload: seq<byte>, tick: nat)
    requires Storable(payload)
    ensures var c := Stored(EmptyCache(), payload, tick);
      && c.slots[0] == Lobby(true, payload, tick) && forall i :: 0 < i < LOBBY_CACHE_SIZE ==> !c.slots[i].valid
  {
    var slots := EmptyCache().slots;
    FirstIsFree(slots, |slots|);
    assert FirstSame(slots, payload, 0) == |slots|;
  }

  lemma {:induction false} FirstIsFree(slots: seq<Lobby>, n: nat)
    requires 0 < n <= |slots| && forall i :: 0 <= i < |slots| ==> !slots[i].valid
    ensures FreeSlot(slots, n) == 0
  {
    if n > 1 { FirstIsFree(slots, n - 1); }
  }

  // ---- which payloads are cached ----

  /** A scan response of at most 2048 bytes takes a slot, whole and with its tick. */
  lemma {:induction false} ResponseStored(c: Cache, rest: seq<byte>, tick: nat)
    requires |c.slots| == LOBBY_CACHE_SIZE && 7 <= |rest| <= 2043
    ensures var payload := [0x00, 0x14, 0x45, 0x11, 1] + rest;
      Lobby(true, payload, tick) in Stored(c, payload, tick).slots
  {
    var payload := [0x00, 0x14, 0x45, 0x11, 1] + rest;
    assert payload[..4] == [0x00, 0x14, 0x45, 0x11] && payload[4] == 1;
    assert Stored(c, payload, tick).slots[ChosenSlot(c.slots, payload)] == Lobby(true, payload, tick);
  }

  /** Anything else is ignored. */
  lemma {:induction false} OthersIgnored(c: Cache, payload: seq<byte>, tick: nat)
    requires |c.slots| == LOBBY_CACHE_SIZE
    requires !(12 <= |payload| <= 2048 && payload[..5] == [0x00, 0x14, 0x45, 0x11, 1])
    ensures Stored(c, payload, tick) == c
  {
    assert |payload| >= 5 ==> payload[..5] == payload[..4] + [payload[4]];
  }
}
