/** The LANDiscovery object itself: fixed arrays scanned and rewritten in place. Each method does to
    the object what the corresponding step does to the model. */
module LanDiscoveryObject {
  import opened Bytes
  import opened Discovery
  import DiscoveryRuns

  datatype Admission = Full | Linked(i: nat) | NoFreeStation

  class LANDiscovery {
    var state: CommState
    var initialized: bool
    const stations: array<LanStation>
    const nodes: array<NodeInfo>
    var nodeCount: nat
    const nodeChanges: array<Change>
    const nodeLastStates: array<byte>

    ghost predicate Valid() reads this {
      && stations.Length == STATION_COUNT_MAX && nodes.Length == NODE_COUNT_MAX
      && nodeChanges.Length == NODE_COUNT_MAX && nodeLastStates.Length == NODE_COUNT_MAX
    }

    ghost function Model(): (d: State)
      requires Valid()
      reads this, stations, nodes, nodeChanges, nodeLastStates
      ensures Shaped(d)
    {
      State(state, initialized, stations[..], nodes[..], nodeCount, nodeChanges[..], nodeLastStates[..])
    }

    /** The members the source leaves uninitialised get whatever the caller passes. */
    constructor (node: NodeInfo, change: Change, last: byte)
      ensures Valid() && fresh(stations) && fresh(nodes) && fresh(nodeChanges) && fresh(nodeLastStates)
      ensures DiscoveryRuns.Fresh(Model())
    {
      state, initialized, nodeCount := NoState, false, 0;
      stations := new LanStation[STATION_COUNT_MAX](_ => LanStation(Disconnected, false));
      nodes := new NodeInfo[NODE_COUNT_MAX](_ => node);
      nodeChanges := new Change[NODE_COUNT_MAX](_ => change);
      nodeLastStates := new byte[NODE_COUNT_MAX](_ => last);
    }

    /** initialize; how it fares is up to the system. */
    method Initialize(how: InitOutcome)
      requires Valid()
      modifies this, stations
      ensures Valid() && Model() == Handle(old(Model()), Event.Initialize(how)).next
    {
      if initialized || how.FailsBefore? {
        return;
      }
      ResetStations();
      if how.FailsAfter? {
        return;
      }
      state, initialized := Initialized, true;
    }

    method Finalize()
      requires Valid()
      modifies this, stations
      ensures Valid() && Model() == Handle(old(Model()), Event.Finalize).next
    {
      if initialized {
        ResetStations();
        initialized := false;
      }
      state := NoState;
    }

    /** openAccessPoint, closeAccessPoint, openStation and closeStation differ in the state they go to. */
    method Reopen(next: CommState) returns (ok: bool)
      requires Valid()
      modifies this, stations
      ensures Valid() && ok == !old(state).NoState?
      ensures Model() == if ok then Reset(old(Model())).(state := next) else old(Model())
    {
      ok := !state.NoState?;
      if ok {
        ResetStations();
        state := next;
      }
    }

    method OpenAccessPoint() returns (ok: bool)
      requires Valid()
      modifies this, stations
      ensures Valid() && ok == !old(state).NoState? && Model() == Handle(old(Model()), Event.OpenAccessPoint).next
    {
      ok := Reopen(AccessPoint);
    }

    method OpenStation() returns (ok: bool)
      requires Valid()
      modifies this, stations
      ensures Valid() && ok == !old(state).NoState? && Model() == Handle(old(Model()), Event.OpenStation).next
    {
      ok := Reopen(Station);
    }

    method CloseAccessPoint() returns (ok: bool)
      requires Valid()
      modifies this, stations
      ensures Valid() && ok == !old(state).NoState? && Model() == Handle(old(Model()), Event.CloseAccessPoint).next
    {
      ok := Reopen(Initialized);
    }

    method CloseStation() returns (ok: bool)
      requires Valid()
      modifies this, stations
      ensures Valid() && ok == !old(state).NoState? && Model() == Handle(old(Model()), Event.CloseStation).next
    {
      ok := Reopen(Initialized);
    }

    method DestroyNetwork()
      requires Valid()
      modifies this, stations
      ensures Valid() && Model() == Handle(old(Model()), Event.DestroyNetwork).next
    {
      ResetStations();
      state := AccessPoint;
    }

    /** onSyncNetwork: a host has sent its network info. Packets of another size are ignored. */
    method OnSyncNetwork(info: seq<NodeInfo>, count: nat) returns (changed: bool)
      requires Valid()
      modifies this, nodes, nodeChanges, nodeLastStates
      ensures Valid() && Model() == Handle(old(Model()), Event.SyncNetwork(info, count)).next
      ensures !(old(state).Station? || old(state).StationConnected?) || |info| != 8 ==> !changed
      ensures (old(state).Station? || old(state).StationConnected?) && |info| == 8 ==>
        (changed <==> exists i :: 0 <= i < 8 && info[i].isConnected as int != old(nodeLastStates[i]) as int)
    {
      changed := false;
      if (state.Station? || state.StationConnected?) && |info| == NODE_COUNT_MAX {
        CopyNodes(info);
        nodeCount, state := count, StationConnected;
        changed := IsNodeStateChanged();
      }
    }

    method CopyNodes(info: seq<NodeInfo>)
      requires Valid() && |info| == NODE_COUNT_MAX
      modifies nodes
      ensures nodes[..] == info
    {
      for i := 0 to nodes.Length
        invariant forall j :: 0 <= j < i ==> nodes[j] == info[j]
      {
        nodes[i] := info[i];
      }
    }

    method ResetStations()
      requires Valid()
      modifies stations
      ensures Model() == Reset(old(Model()))
    {
      for i := 0 to stations.Length
        invariant forall j :: 0 <= j < i ==> stations[j] == ResetStation(old(stations[j]))
        invariant forall j :: i <= j < stations.Length ==> stations[j] == old(stations[j])
      {
        stations[i] := ResetStation(stations[i]);
      }
      assert stations[..] == Reset(old(Model())).stations;
    }

    method StationCount() returns (count: nat)
      requires Valid()
      ensures count == CountBusy(stations[..])
    {
      count := 0;
      for i := 0 to stations.Length
        invariant count == CountBusy(stations[..i])
      {
        assert stations[..i + 1][..i] == stations[..i];
        if !stations[i].status.Disconnected? {
          count := count + 1;
        }
      }
      assert stations[..stations.Length] == stations[..];
    }

    /** onConnect. The branch for a missing free station is never taken. */
    method OnConnect() returns (r: Admission)
      requires Valid() && state.AccessPointCreated?
      modifies stations
      ensures !r.NoFreeStation?
      ensures r.Linked? <==> CountBusy(old(stations[..])) < STATION_COUNT_MAX
      ensures Model() == Handle(old(Model()), Accept).next
    {
      var count := StationCount();
      DiscoveryRuns.FreeStationExists(stations[..]);
      if count >= STATION_COUNT_MAX {
        return Full;
      }
      var i := 0;
      while i < stations.Length
        invariant 0 <= i <= stations.Length && stations[..] == old(stations[..])
        invariant FirstFree(stations[..], 0) == FirstFree(stations[..], i)
      {
        if stations[i].status.Disconnected? {
          stations[i] := LinkStation(stations[i]);
          assert stations[..] == old(stations[..])[i := stations[i]];
          return Linked(i);
        }
        i := i + 1;
      }
      return NoFreeStation;
    }

    method InitNodeStateChange()
      requires Valid()
      modifies nodeChanges, nodeLastStates
      ensures Model() == old(Model()).(changes := CleanChanges(), last := CleanLast())
    {
      for i := 0 to nodeChanges.Length
        invariant forall j :: 0 <= j < i ==> nodeChanges[j] == Change(false, false)
      {
        nodeChanges[i] := Change(false, false);
      }
      for i := 0 to nodeLastStates.Length
        invariant forall j :: 0 <= j < i ==> nodeLastStates[j] == 0
        invariant forall j :: 0 <= j < nodeChanges.Length ==> nodeChanges[j] == Change(false, false)
      {
        nodeLastStates[i] := 0;
      }
      assert nodeChanges[..] == CleanChanges() && nodeLastStates[..] == CleanLast();
    }

    method IsNodeStateChanged() returns (changed: bool)
      requires Valid()
      modifies nodeChanges, nodeLastStates
      ensures Model() == Noticed(old(Model()))
      ensures changed <==>
        exists i :: 0 <= i < NODE_COUNT_MAX && nodes[i].isConnected as int != old(nodeLastStates[i]) as int
    {
      changed := false;
      for i := 0 to nodes.Length
        invariant forall j :: 0 <= j < i ==>
          nodeChanges[j] == ChangeAfter(old(nodeChanges[j]), old(nodeLastStates[j]), nodes[j].isConnected)
        invariant forall j :: 0 <= j < i ==> nodeLastStates[j] == U8(nodes[j].isConnected)
        invariant forall j :: i <= j < NODE_COUNT_MAX ==>
          nodeChanges[j] == old(nodeChanges[j]) && nodeLastStates[j] == old(nodeLastStates[j])
        invariant changed <==> exists j :: 0 <= j < i && nodes[j].isConnected as int != old(nodeLastStates[j]) as int
      {
        if nodes[i].isConnected as int != nodeLastStates[i] as int {
          if nodes[i].isConnected != 0 {
            nodeChanges[i] := nodeChanges[i].(connect := true);
          } else {
            nodeChanges[i] := nodeChanges[i].(disconnect := true);
          }
          nodeLastStates[i] := U8(nodes[i].isConnected);
          changed := true;
        }
      }
      assert nodeChanges[..] == Noticed(old(Model())).changes;
      assert nodeLastStates[..] == Noticed(old(Model())).last;
    }

    /** The first loop of updateNodes: count and overrideInfo. */
    method OverrideAll() returns (count: nat)
      requires Valid()
      modifies nodes
      ensures count == CountConnected(stations[..])
      ensures nodes[..] == Renumbered(old(Model())).nodes
    {
      count := 0;
      for i := 0 to stations.Length
        invariant count == CountConnected(stations[..i])
        invariant forall k :: 0 <= k <= i ==> nodes[k] == Overridden(stations[..], k, old(nodes[k]))
        invariant forall k :: i < k < NODE_COUNT_MAX ==> nodes[k] == old(nodes[k])
      {
        assert stations[..i + 1][..i] == stations[..i];
        var connected := stations[i].status.Connected?;
        if connected {
          count := count + 1;
        }
        nodes[i + 1] := nodes[i + 1].(nodeId := i + 1, isConnected := if connected then 1 else 0);
      }
      assert stations[..stations.Length] == stations[..];
    }

    /** updateNodes. `synced` are the stations that are sent the refreshed network info. */
    method UpdateNodes() returns (synced: seq<nat>, event: bool)
      requires Valid()
      modifies this, nodes, nodeChanges, nodeLastStates
      ensures Valid() && Model() == Update(old(Model())).next
      ensures forall i: nat :: i in synced <==> i < STATION_COUNT_MAX && stations[i].status.Connected?
      ensures event <==> exists i :: 0 <= i < 8 && nodes[i].isConnected as int != old(nodeLastStates[i]) as int
    {
      var count := OverrideAll();
      nodeCount := count + 1;
      synced := ConnectedStations();
      event := IsNodeStateChanged();
    }

    method ConnectedStations() returns (r: seq<nat>)
      requires Valid()
      ensures forall i: nat :: i in r <==> i < STATION_COUNT_MAX && stations[i].status.Connected?
    {
      r := [];
      for i := 0 to stations.Length
        invariant forall j: nat :: j in r <==> j < i && stations[j].status.Connected?
      {
        if stations[i].status.Connected? {
          r := r + [i];
        }
      }
    }

    /** createNetwork */
    method CreateNetwork(outcome: CreateOutcome)
      requires Valid()
      modifies this, nodes, nodeChanges, nodeLastStates
      ensures Valid() && Model() == Handle(old(Model()), Event.CreateNetwork(outcome)).next
    {
      if !state.AccessPoint? || outcome.FailsEarly? {
        return;
      }
      InitNetworkInfo();
      if outcome.FailsLate? {
        return;
      }
      nodes[0] := NodeInfo(0, 1, outcome.host);
      state := AccessPointCreated;
      InitNodeStateChange();
      assert Model() == Created(old(Model()), outcome.host) by {
        assert nodes[..] == Created(old(Model()), outcome.host).nodes;
      }
      var _, _ := UpdateNodes();
    }

    method InitNetworkInfo()
      requires Valid()
      modifies nodes
      ensures nodes[..] ==
        seq(NODE_COUNT_MAX, i requires 0 <= i < NODE_COUNT_MAX => old(nodes[..])[i].(nodeId := i, isConnected := 0))
    {
      for i := 0 to nodes.Length
        invariant forall j :: 0 <= j < i ==> nodes[j] == old(nodes[j]).(nodeId := j, isConnected := 0)
        invariant forall j :: i <= j < nodes.Length ==> nodes[j] == old(nodes[j])
      {
        nodes[i] := nodes[i].(nodeId := i, isConnected := 0);
      }
    }

    /** LanStation::onClose */
    method StationOnClose(i: nat)
      requires Valid() && i < STATION_COUNT_MAX
      modifies this, stations, nodes, nodeChanges, nodeLastStates
      ensures Valid() && Model() == Handle(old(Model()), Event.StationClose(i)).next
      ensures stations[i] == LanStation(Disconnected, false) && nodes[i + 1].isConnected == 0
    {
      stations[i] := ResetStation(stations[i]);
      assert stations[..] == old(stations[..])[i := stations[i]];
      var _, _ := UpdateNodes();
    }

    /** LanStation::onRead, followed by the close that Pollable::Poll makes of a failure. */
    method StationOnRead(i: nat, packet: Packet)
      requires Valid() && i < STATION_COUNT_MAX
      modifies this, stations, nodes, nodeChanges, nodeLastStates
      ensures Valid() && Model() == Handle(old(Model()), Event.StationRead(i, packet)).next
    {
      if !stations[i].hasSocket || packet.BadPacket? {
        StationOnClose(i);
      } else if packet.ConnectPacket? {
        Admit(i, packet.info);
      }
    }

    /** A station has sent its NodeInfo. */
    method Admit(i: nat, info: NodeInfo)
      requires Valid() && i < STATION_COUNT_MAX
      modifies this, stations, nodes, nodeChanges, nodeLastStates
      ensures var d := old(Model());
        && Valid()
        && Model() == Update(d.(nodes := d.nodes[i + 1 := info],
                                stations := d.stations[i := d.stations[i].(status := Connected)])).next
    {
      nodes[i + 1] := info;
      stations[i] := stations[i].(status := Connected);
      assert nodes[..] == old(nodes[..])[i + 1 := info] && stations[..] == old(stations[..])[i := stations[i]];
      var _, _ := UpdateNodes();
    }

    /** getNetworkInfo with updates */
    method GetUpdates(bufferCount: int) returns (ok: bool, updates: seq<Change>)
      requires Valid()
      modifies nodeChanges
      ensures Model() == Handle(old(Model()), GetNetworkInfo(bufferCount)).next
      ensures ok <==> 0 <= bufferCount <= NODE_COUNT_MAX && ReadsAllowed(old(Model()))
      ensures ok ==> updates == old(nodeChanges[..bufferCount])
    {
      updates := [];
      if bufferCount < 0 || bufferCount > NODE_COUNT_MAX || !(state.AccessPointCreated? || state.StationConnected?) {
        return false, [];
      }
      for i := 0 to bufferCount
        invariant updates == old(nodeChanges[..i])
        invariant forall j :: 0 <= j < i ==> nodeChanges[j] == Change(false, false)
        invariant forall j :: i <= j < NODE_COUNT_MAX ==> nodeChanges[j] == old(nodeChanges[j])
      {
        updates := updates + [nodeChanges[i]];
        nodeChanges[i] := Change(false, false);
      }
      assert nodeChanges[..] == CleanChanges()[..bufferCount] + old(nodeChanges[..])[bufferCount..];
      ok := true;
    }
  }

  /** A host, from the constructor to its first guest. */
  method Host(node: NodeInfo, change: Change, last: byte, host: seq<byte>, guest: NodeInfo) returns (d: LANDiscovery)
    ensures fresh(d) && d.Valid() && d.state.AccessPointCreated? && d.stations[0].status.Connected?
    ensures DiscoveryRuns.TableTrue(d.Model())
  {
    d := new LANDiscovery(node, change, last);
    ghost var d0 := d.Model();
    d.Initialize(Succeeds);
    var _ := d.OpenAccessPoint();
    d.CreateNetwork(Creates(host));
    FirstGuest(d0, host, guest);
    var _ := d.OnConnect();
    d.StationOnRead(0, ConnectPacket(guest));
  }

  /** The access point with its first guest. */
  function Hosting(d: State, host: seq<byte>): (r: State)
    requires Shaped(d)
    ensures Shaped(r)
  {
    var ready := Handle(Handle(d, Event.Initialize(Succeeds)).next, Event.OpenAccessPoint).next;
    Handle(ready, Event.CreateNetwork(Creates(host))).next
  }

  lemma {:induction false} HostingSound(d: State, host: seq<byte>)
    requires DiscoveryRuns.Fresh(d)
    ensures var h := Hosting(d, host);
      && DiscoveryRuns.Sound(h) && h.initialized && h.state.AccessPointCreated? && h.stations[0].status.Disconnected?
  {
    var a := Step(d, Event.Initialize(Succeeds)).next;
    var b := Step(a, Event.OpenAccessPoint).next;
    DiscoveryRuns.StepSound(d, Event.Initialize(Succeeds));
    DiscoveryRuns.StepSound(a, Event.OpenAccessPoint);
    DiscoveryRuns.StepSound(b, Event.CreateNetwork(Creates(host)));
  }

  lemma {:induction false} FirstGuest(d: State, host: seq<byte>, guest: NodeInfo)
    requires DiscoveryRuns.Fresh(d)
    ensures var h := Hosting(d, host);
      var r := Handle(Handle(h, Accept).next, StationRead(0, ConnectPacket(guest))).next;
      && h.state.AccessPointCreated? && r.state.AccessPointCreated? && r.stations[0].status.Connected?
      && DiscoveryRuns.TableTrue(r)
  {
    var h := Hosting(d, host);
    HostingSound(d, host);
    DiscoveryRuns.FreeStationExists(h.stations);
    assert FirstFree(h.stations, 0) == 0;
    var l := Step(h, Accept).next;
    DiscoveryRuns.StepSound(h, Accept);
    DiscoveryRuns.StepSound(l, StationRead(0, ConnectPacket(guest)));
  }
}
