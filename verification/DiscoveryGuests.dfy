/** Who is connected to an access point, read off the events alone, and that stations and node table say so. */
module DiscoveryGuests {
  import opened Bytes
  import opened Discovery
  import opened DiscoveryRuns

  // ---- the events alone ----

  /** The object has been initialised and not finalised since. */
  function On(es: seq<Event>): bool {
    es != [] &&
    var p, e := es[..|es| - 1], es[|es| - 1];
    if e.Finalize? then false else On(p) || e == Initialize(Succeeds)
  }

  /** What the object is up to. */
  function Phase(es: seq<Event>): CommState {
    if es == [] then NoState
    else
      var p, e := es[..|es| - 1], es[|es| - 1];
      if e == Initialize(Succeeds) && !On(p) then Initialized
      else if e.Finalize? then NoState
      else if e.DestroyNetwork? then AccessPoint
      else if e.Disconnect? then Station
      else if Opens(e).Some? && !Phase(p).NoState? then Opens(e).value
      else if e.CreateNetwork? && e.outcome.Creates? && Phase(p).AccessPoint? then AccessPointCreated
      else if On(p) && e.UdpClosed? then Error
      else if On(p) && e.SyncNetwork? && |e.nodes| == 8 && Joins(Phase(p)) then StationConnected
      else if On(p) && e.HostClosed? && Phase(p).StationConnected? then Station
      else Phase(p)
  }

  predicate Joins(c: CommState) { c.Station? || c.StationConnected? }

  function Opens(e: Event): Option<CommState> {
    if e.OpenAccessPoint? then Some(AccessPoint)
    else if e.OpenStation? then Some(Station)
    else if e.CloseAccessPoint? || e.CloseStation? then Some(Initialized)
    else None
  }

  /** The event frees station i: its socket closes or fails, or all stations are reset. */
  predicate Clears(e: Event, i: nat) {
    e == StationClose(i) || e == StationRead(i, BadPacket) || e.Finalize? || e.DestroyNetwork? || Opens(e).Some?
  }

  /** Station i has been given to a guest that has not left since. A guest gets the first free station. */
  predicate Taken(es: seq<Event>, i: nat)
    decreases |es|, 0
  {
    es != [] &&
    var p, e := es[..|es| - 1], es[|es| - 1];
    !Clears(e, i) && (Taken(p, i) || (e.Accept? && Admits(p, i)))
  }

  /** The next guest would get station i. */
  predicate Admits(es: seq<Event>, i: nat)
    decreases |es|, 1
  {
    On(es) && Phase(es).AccessPointCreated? && i < 7 && !Taken(es, i) && forall j: nat :: j < i ==> Taken(es, j)
  }

  /** The guest of station i has said who it is. */
  predicate Present(es: seq<Event>, i: nat) { Info(es, i).Some? }

  /** What the guest of station i said last. */
  function Info(es: seq<Event>, i: nat): Option<NodeInfo> {
    if es == [] then None
    else
      var p, e := es[..|es| - 1], es[|es| - 1];
      if Clears(e, i) then None
      else if e.StationRead? && e.i == i && e.packet.ConnectPacket? && Taken(p, i) then Some(e.packet.info)
      else Info(p, i)
  }

  /** The details of the host in the last network created. */
  function HostOf(es: seq<Event>): seq<byte> {
    if es == [] then []
    else
      var p, e := es[..|es| - 1], es[|es| - 1];
      if e.CreateNetwork? && e.outcome.Creates? && Phase(p).AccessPoint? then e.outcome.host else HostOf(p)
  }

  // ---- in words about single events ----

  /** Event m gave station i to a guest. */
  predicate LinkedAt(es: seq<Event>, m: int, i: nat) { 0 <= m < |es| && es[m].Accept? && Admits(es[..m], i) }

  /** Event k brought the NodeInfo of the guest of station i. */
  predicate SaidAt(es: seq<Event>, k: int, i: nat) {
    0 <= k < |es| && es[k].StationRead? && es[k].i == i && es[k].packet.ConnectPacket? && Taken(es[..k], i)
  }

  /** Nothing has freed station i since event k. */
  predicate UndisturbedSince(es: seq<Event>, k: int, i: nat) {
    forall j :: k < j < |es| && 0 <= j ==> !Clears(es[j], i)
  }

  lemma {:induction false} TakenIff(es: seq<Event>, i: nat)
    ensures Taken(es, i) <==> exists m :: LinkedAt(es, m, i) && UndisturbedSince(es, m, i)
  {
    if es != [] {
      var n := |es| - 1;
      TakenIff(es[..n], i);
      if m :| LinkedAt(es[..n], m, i) && UndisturbedSince(es[..n], m, i) && !Clears(es[n], i) {
        Extend(es, m, i);
      }
      if m :| LinkedAt(es, m, i) && UndisturbedSince(es, m, i) {
        if m < n { Shorten(es, m, i); } else { ReadyNotCleared(es[n], i); }
      }
      if es[n].Accept? && Admits(es[..n], i) { assert LinkedAt(es, n, i) && UndisturbedSince(es, n, i); }
    }
  }

  lemma {:induction false} ReadyNotCleared(e: Event, i: nat)
    requires e.Accept?
    ensures !Clears(e, i)
  {
  }

  lemma {:induction false} Extend(es: seq<Event>, m: int, i: nat)
    requires es != [] && 0 <= m < |es| - 1 && UndisturbedSince(es[..|es| - 1], m, i) && !Clears(es[|es| - 1], i)
    ensures es[..|es| - 1][..m] == es[..m] && UndisturbedSince(es, m, i)
  {
    var p := es[..|es| - 1];
    forall j | m < j < |es| && 0 <= j ensures !Clears(es[j], i) {
      if j < |p| { assert p[j] == es[j]; }
    }
  }

  lemma {:induction false} Shorten(es: seq<Event>, m: int, i: nat)
    requires es != [] && 0 <= m < |es| - 1 && UndisturbedSince(es, m, i)
    ensures es[..|es| - 1][..m] == es[..m] && UndisturbedSince(es[..|es| - 1], m, i) && !Clears(es[|es| - 1], i)
  {
    var p := es[..|es| - 1];
    forall j | m < j < |p| && 0 <= j ensures !Clears(p[j], i) { assert p[j] == es[j]; }
  }

  lemma {:induction false} PresentIff(es: seq<Event>, i: nat)
    ensures Present(es, i) <==> exists k :: SaidAt(es, k, i) && UndisturbedSince(es, k, i)
  {
    if es != [] {
      var n := |es| - 1;
      PresentIff(es[..n], i);
      if k :| SaidAt(es[..n], k, i) && UndisturbedSince(es[..n], k, i) && !Clears(es[n], i) {
        Extend(es, k, i);
      }
      if k :| SaidAt(es, k, i) && UndisturbedSince(es, k, i) && k < n { Shorten(es, k, i); }
      if SaidAt(es, n, i) { assert UndisturbedSince(es, n, i); }
    }
  }

  // ---- the object agrees ----

  lemma {:induction false} PhaseStep(d: State, p: seq<Event>, e: Event)
    requires Shaped(d) && d.state == Phase(p) && d.initialized == On(p)
    ensures var r := Step(d, e).next; r.state == Phase(p + [e]) && r.initialized == On(p + [e])
  {
    assert (p + [e])[..|p|] == p;
  }

  lemma {:induction false} PhaseIs(d: State, es: seq<Event>)
    requires Fresh(d)
    ensures Run(d, es).state == Phase(es) && Run(d, es).initialized == On(es)
  {
    if es != [] {
      var p, e := es[..|es| - 1], es[|es| - 1];
      PhaseIs(d, p);
      RunOn(d, p, e);
      PhaseStep(Run(d, p), p, e);
      assert es == p + [e];
    }
  }

  lemma {:induction false} RunOn(d: State, p: seq<Event>, e: Event)
    requires Shaped(d)
    ensures Run(d, p + [e]) == Step(Run(d, p), e).next
  {
    assert (p + [e])[..|p|] == p;
  }

  function StationSays(es: seq<Event>, i: nat): LanStation {
    if !Taken(es, i) then LanStation(Disconnected, false)
    else LanStation(if Present(es, i) then Connected else Connect, true)
  }

  predicate StationsAgree(d: State, es: seq<Event>) {
    |d.stations| == 7 && forall i: nat :: i < 7 ==> d.stations[i] == StationSays(es, i)
  }

  /** Without a network, or uninitialised, nobody is there. */
  lemma {:induction false} NobodyYet(es: seq<Event>, i: nat)
    requires Phase(es).NoState? || Phase(es).AccessPoint? || Phase(es).Initialized? || !On(es)
    ensures !Taken(es, i)
  {
    if es != [] && Taken(es, i) { NobodyYet(es[..|es| - 1], i); }
  }

  lemma {:induction false} PresentTaken(es: seq<Event>, i: nat)
    ensures Present(es, i) ==> Taken(es, i)
  {
    if es != [] { PresentTaken(es[..|es| - 1], i); }
  }

  lemma {:induction false} Snoc(p: seq<Event>, e: Event, i: nat)
    ensures Taken(p + [e], i) <==> !Clears(e, i) && (Taken(p, i) || (e.Accept? && Admits(p, i)))
    ensures Info(p + [e], i) ==
      if Clears(e, i) then None
      else if e.StationRead? && e.i == i && e.packet.ConnectPacket? && Taken(p, i) then Some(e.packet.info)
      else Info(p, i)
  {
    assert (p + [e])[..|p|] == p;
  }

  /** The object and the events say the same. */
  predicate Agree(d: State, es: seq<Event>) {
    Shaped(d) && d.state == Phase(es) && d.initialized == On(es) && StationsAgree(d, es)
  }

  lemma {:induction false} AdmitsFirst(d: State, es: seq<Event>, i: nat)
    requires Agree(d, es) && On(es) && Phase(es).AccessPointCreated? && i < 7
    ensures Admits(es, i) <==> FirstFree(d.stations, 0) == i
  {
    var f := FirstFree(d.stations, 0);
    assert forall j: nat :: j < 7 ==> (d.stations[j].status.Disconnected? <==> !Taken(es, j));
  }

  lemma {:induction false} AcceptStep(d: State, p: seq<Event>, i: nat)
    requires Agree(d, p) && On(p) && i < 7
    ensures Handle(d, Accept).next.stations[i] == StationSays(p + [Accept], i)
  {
    Snoc(p, Accept, i);
    PresentTaken(p, i);
    if Phase(p).AccessPointCreated? {
      AdmitsFirst(d, p, i);
      FreeStationExists(d.stations);
    }
  }

  lemma {:induction false} ReadStep(d: State, p: seq<Event>, k: nat, packet: Packet, i: nat)
    requires Agree(d, p) && On(p) && i < 7
    ensures Handle(d, StationRead(k, packet)).next.stations[i] == StationSays(p + [StationRead(k, packet)], i)
  {
    Snoc(p, StationRead(k, packet), i);
    PresentTaken(p, i);
  }

  lemma {:induction false} CloseStep(d: State, p: seq<Event>, k: nat, i: nat)
    requires Agree(d, p) && On(p) && i < 7
    ensures Handle(d, StationClose(k)).next.stations[i] == StationSays(p + [StationClose(k)], i)
  {
    Snoc(p, StationClose(k), i);
  }

  lemma {:induction false} OtherStep(d: State, p: seq<Event>, e: Event, i: nat)
    requires Agree(d, p) && i < 7 && !e.Accept? && !e.StationRead? && !e.StationClose?
    ensures Step(d, e).next.stations[i] == StationSays(p + [e], i)
  {
    Snoc(p, e, i);
    if Phase(p).NoState? || !On(p) { NobodyYet(p, i); }
  }

  lemma {:induction false} StationStep(d: State, p: seq<Event>, e: Event, i: nat)
    requires Agree(d, p) && i < 7
    ensures Step(d, e).next.stations[i] == StationSays(p + [e], i)
  {
    if !Callback(e) || e.SyncNetwork? || e.HostClosed? || e.UdpClosed? {
      OtherStep(d, p, e, i);
    } else if !On(p) {
      NobodyYet(p, i);
      Snoc(p, e, i);
    } else if e.Accept? {
      AcceptStep(d, p, i);
    } else if e.StationRead? {
      ReadStep(d, p, e.i, e.packet, i);
    } else {
      CloseStep(d, p, e.i, i);
    }
  }

  /** In every run the object is in the phase the events say, and each station is taken by the guest the
      events say, or free. */
  lemma {:induction false} StationsAre(d: State, es: seq<Event>)
    requires Fresh(d)
    ensures Agree(Run(d, es), es)
  {
    PhaseIs(d, es);
    if es != [] {
      var p, e := es[..|es| - 1], es[|es| - 1];
      StationsAre(d, p);
      assert es == p + [e];
      forall i: nat | i < 7 ensures Run(d, es).stations[i] == StationSays(es, i) { StationStep(Run(d, p), p, e, i); }
    }
  }

  /** So a station is connected exactly if its guest has said who it is since it was linked, and nothing has
      freed the station since; it is free exactly if nobody was linked to it, or something has freed it since. */
  lemma {:induction false} ConnectedIff(d: State, es: seq<Event>, i: nat)
    requires Fresh(d) && i < 7
    ensures var s := Run(d, es).stations[i];
      && (s.status.Connected? <==> exists k :: SaidAt(es, k, i) && UndisturbedSince(es, k, i))
      && (s.status.Disconnected? <==> !exists m :: LinkedAt(es, m, i) && UndisturbedSince(es, m, i))
      && (s.hasSocket <==> !s.status.Disconnected?)
  {
    StationsAre(d, es);
    PresentIff(es, i);
    PresentTaken(es, i);
    TakenIff(es, i);
  }

  // ---- the node table ----

  function Guests(es: seq<Event>, n: nat): (r: set<nat>)
    ensures forall i: nat :: i in r <==> i < n && Present(es, i)
  {
    if n == 0 then {} else Guests(es, n - 1) + if Present(es, n - 1) then {n - 1} else {}
  }

  lemma {:induction false} CountIsGuests(d: State, es: seq<Event>, n: nat)
    requires Agree(d, es) && n <= 7
    ensures CountConnected(d.stations[..n]) == |Guests(es, n)|
  {
    if n > 0 {
      CountIsGuests(d, es, n - 1);
      PresentTaken(es, n - 1);
      assert d.stations[..n][..n - 1] == d.stations[..n - 1];
      assert n - 1 !in Guests(es, n - 1);
    }
  }

  /** The names in the table of an access point. */
  predicate NamesAgree(d: State, es: seq<Event>) {
    && Shaped(d) && d.nodes[0].details == HostOf(es)
    && forall i: nat :: i < 7 && Present(es, i) ==> d.nodes[i + 1].details == Info(es, i).value.details
  }

  /** A node keeps its name unless its own station reads a new one. */
  lemma {:induction false} NameStep(d: State, e: Event, k: nat)
    requires Shaped(d) && d.state.AccessPointCreated? && Step(d, e).next.state.AccessPointCreated? && k < 8
    ensures Step(d, e).next.nodes[k].details ==
      if d.initialized && e.StationRead? && e.i + 1 == k && d.stations[e.i].hasSocket && e.packet.ConnectPacket? then
        e.packet.info.details
      else d.nodes[k].details
  {
  }

  lemma {:induction false} CreatedNames(d: State, p: seq<Event>, e: Event)
    requires Agree(d, p) && Phase(p).AccessPoint? && e.CreateNetwork? && e.outcome.Creates?
    ensures NamesAgree(Step(d, e).next, p + [e])
  {
    assert (p + [e])[..|p|] == p;
    forall i: nat | i < 7 ensures !Present(p + [e], i) {
      NobodyYet(p, i);
      PresentTaken(p, i);
      Snoc(p, e, i);
    }
  }

  lemma {:induction false} KeptNames(d: State, p: seq<Event>, e: Event)
    requires Agree(d, p) && Phase(p).AccessPointCreated? && Phase(p + [e]).AccessPointCreated? && NamesAgree(d, p)
    ensures NamesAgree(Step(d, e).next, p + [e])
  {
    assert (p + [e])[..|p|] == p;
    PhaseStep(d, p, e);
    NameStep(d, e, 0);
    forall i: nat | i < 7 && Present(p + [e], i)
      ensures Step(d, e).next.nodes[i + 1].details == Info(p + [e], i).value.details
    {
      Snoc(p, e, i);
      NameStep(d, e, i + 1);
      PresentTaken(p, i);
      if !On(p) { NobodyYet(p, i); }
    }
  }

  lemma {:induction false} OnlyCreated(p: seq<Event>, e: Event)
    requires Phase(p + [e]).AccessPointCreated? && !Phase(p).AccessPointCreated?
    ensures Phase(p).AccessPoint? && e.CreateNetwork? && e.outcome.Creates?
  {
    assert (p + [e])[..|p|] == p;
  }

  lemma {:induction false} NamesAre(d: State, es: seq<Event>)
    requires Fresh(d) && Phase(es).AccessPointCreated?
    ensures NamesAgree(Run(d, es), es)
  {
    var p, e := es[..|es| - 1], es[|es| - 1];
    assert es == p + [e];
    StationsAre(d, p);
    if Phase(p).AccessPointCreated? {
      NamesAre(d, p);
      KeptNames(Run(d, p), p, e);
    } else {
      OnlyCreated(p, e);
      CreatedNames(Run(d, p), p, e);
    }
  }

  /** The node table of every access point, from the events alone: the host of the network, and for each
      station the guest as it last named itself, under the node id of the station; the count is one more
      than the guests. */
  lemma {:induction false} TableFromEvents(d: State, es: seq<Event>)
    requires Fresh(d) && Phase(es).AccessPointCreated?
    ensures var r := Run(d, es);
      && r.nodeCount == 1 + |Guests(es, 7)| && r.nodes[0] == NodeInfo(0, 1, HostOf(es))
      && forall i: nat :: i < 7 ==>
           && r.nodes[i + 1].nodeId == i + 1
           && r.nodes[i + 1].isConnected == (if Present(es, i) then 1 else 0)
           && (Present(es, i) ==> r.nodes[i + 1].details == Info(es, i).value.details)
  {
    var r := Run(d, es);
    StationsAre(d, es);
    ReachableTableTrue(d, es);
    NamesAre(d, es);
    CountIsGuests(r, es, 7);
    assert r.stations[..7] == r.stations;
    forall i: nat | i < 7 ensures r.stations[i].status.Connected? <==> Present(es, i) { PresentTaken(es, i); }
  }

  // ---- a guest leaves ----

  /** Whatever has happened before: when the socket of a station closes or fails, the station is free, the
      others stay as they are, and the table counts one guest less if it was one. */
  lemma {:induction false} LeavingFrees(d: State, i: nat, e: Event)
    requires Sound(d) && d.initialized && i < 7 && (e == StationClose(i) || e == StationRead(i, BadPacket))
    ensures var r := Step(d, e).next;
      && r.stations[i] == LanStation(Disconnected, false)
      && (forall j: nat :: j < 7 && j != i ==> r.stations[j] == d.stations[j])
      && r.nodes[i + 1].isConnected == 0
      && r.nodeCount == 1 + CountConnected(d.stations) - if d.stations[i].status.Connected? then 1 else 0
  {
    CountWithout(d.stations, i);
  }

  lemma {:induction false} CountWithout(ss: seq<LanStation>, i: nat)
    requires i < |ss|
    ensures CountConnected(ss[i := ResetStation(ss[i])]) ==
      CountConnected(ss) - if ss[i].status.Connected? then 1 else 0
  {
    var n := |ss| - 1;
    var ss' := ss[i := ResetStation(ss[i])];
    if i < n {
      CountWithout(ss[..n], i);
      assert ss'[..n] == ss[..n][i := ResetStation(ss[i])];
    } else {
      assert ss'[..n] == ss[..n];
    }
  }

  // ---- no change goes unnoticed ----

  /** Whatever happens, if the flags of the nodes change, the change bits have taken notice: the flags as
      they are now are the last thing observed. Only a network that fails late is cleared in silence. */
  lemma {:induction false} ChangesObserved(d: State, e: Event)
    requires Shaped(d) && e != Event.CreateNetwork(FailsLate)
    ensures var r := Step(d, e);
      Values(r.next.nodes) != Values(d.nodes) ==>
        r.log != [] && r.log[|r.log| - 1] == Observe(Values(r.next.nodes)) &&
        forall i :: 0 <= i < 8 ==> r.next.last[i] == U8(r.next.nodes[i].isConnected)
  {
  }

  predicate Readable(c: CommState) { c.AccessPointCreated? || c.StationConnected? }

  /** What a step leaves in the history of the change bits, by the event. */
  lemma {:induction false} LogIs(d: State, e: Event)
    requires Shaped(d)
    ensures var r := Step(d, e); var seen := Observe(Values(r.next.nodes));
      r.log ==
      if e.CreateNetwork? && e.outcome.Creates? && d.state.AccessPoint? then [Init, seen]
      else if e.ConnectToHost? && e.ok then [Init]
      else if e.GetNetworkInfo? && 0 <= e.bufferCount <= 8 && Readable(d.state) then [Read(d.changes[..e.bufferCount])]
      else if e.SetAdvertiseData? then [seen]
      else if !d.initialized then []
      else if e.SyncNetwork? && Joins(d.state) && |e.nodes| == 8 then [seen]
      else if e.StationClose? && e.i < 7 then [seen]
      else if e.StationRead? && e.i < 7 && !(d.stations[e.i].hasSocket && e.packet.OtherPacket?) then [seen]
      else []
  {
  }

  /** The table a host sends is taken over as it is. */
  lemma {:induction false} HostTableTaken(d: State, nodes: seq<NodeInfo>, n: nat)
    requires Shaped(d) && d.initialized && Joins(d.state) && |nodes| == 8
    ensures var r := Step(d, SyncNetwork(nodes, n)).next;
      r.nodes == nodes && r.nodeCount == n && r.state.StationConnected? && r.stations == d.stations
  {
  }

  /** A network that fails early leaves no trace; one that fails late has cleared the flags and numbered the nodes,
      and that is all. */
  lemma {:induction false} CreationFails(d: State, o: CreateOutcome)
    requires Shaped(d) && d.state.AccessPoint? && !o.Creates?
    ensures var r := Step(d, Event.CreateNetwork(o)).next;
      && r == d.(nodes := r.nodes)
      && forall i :: 0 <= i < 8 ==>
           r.nodes[i] == if o.FailsEarly? then d.nodes[i] else d.nodes[i].(nodeId := i, isConnected := 0)
  {
    if o.FailsEarly? { assert Step(d, Event.CreateNetwork(o)).next.nodes == d.nodes; }
  }
}
