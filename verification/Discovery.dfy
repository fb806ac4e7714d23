/** LANDiscovery of lan_discovery.cpp and lan_discovery.hpp: station slots, the node table and the
    node-change bits. Public calls and poll callbacks are atomic steps. */
module Discovery {
  import opened Bytes

  const NODE_COUNT_MAX: nat := 8
  const STATION_COUNT_MAX: nat := 7

  type int8 = v: int | -128 <= v < 128

  datatype NodeStatus = Disconnected | Connect | Connected
  datatype CommState = NoState | Initialized | AccessPoint | AccessPointCreated | Station | StationConnected | Error

  /** NodeInfo; `details` stands for the address, name and version fields, which are only copied. */
  datatype NodeInfo = NodeInfo(nodeId: int8, isConnected: int8, details: seq<byte>)

  /** LanStation. Station number i of the array has nodeId i + 1. */
  datatype LanStation = LanStation(status: NodeStatus, hasSocket: bool)

  /** NodeLatestUpdate: the bits NodeStateChange_Connect and NodeStateChange_Disconnect. */
  datatype Change = Change(connect: bool, disconnect: bool)

  datatype State = State(
    state: CommState,
    initialized: bool,
    stations: seq<LanStation>,
    nodes: seq<NodeInfo>,
    nodeCount: nat,
    changes: seq<Change>,
    last: seq<byte>)

  predicate Shaped(d: State) {
    |d.stations| == STATION_COUNT_MAX && |d.nodes| == NODE_COUNT_MAX && |d.changes| == NODE_COUNT_MAX &&
        |d.last| == NODE_COUNT_MAX
  }

  /** What a step adds to the history of the change bits. */
  datatype Observation =
    | Init
    | Observe(values: seq<int8>)
    | Read(returned: seq<Change>)

  datatype StepResult = StepResult(next: State, log: seq<Observation>)

  // ---- the pieces ----

  function ResetStation(s: LanStation): LanStation { s.(status := Disconnected, hasSocket := false) }
  function LinkStation(s: LanStation): LanStation { s.(status := Connect, hasSocket := true) }

  function Reset(d: State): (r: State)
    requires Shaped(d)
    ensures Shaped(r)
  {
    d.(stations := seq(STATION_COUNT_MAX, i requires 0 <= i < STATION_COUNT_MAX => ResetStation(d.stations[i])))
  }

  function CountConnected(ss: seq<LanStation>): (n: nat)
    ensures n <= |ss|
  {
    if ss == [] then 0 else CountConnected(ss[..|ss| - 1]) + if ss[|ss| - 1].status.Connected? then 1 else 0
  }

  /** stationCount: stations that are not Disconnected. */
  function CountBusy(ss: seq<LanStation>): (n: nat)
    ensures n <= |ss|
  {
    if ss == [] then 0 else CountBusy(ss[..|ss| - 1]) + if ss[|ss| - 1].status.Disconnected? then 0 else 1
  }

  /** LanStation::overrideInfo for node k. Node 0 has no station. */
  function Overridden(ss: seq<LanStation>, k: nat, node: NodeInfo): NodeInfo
    requires k <= |ss| && k < 128
  {
    if k == 0 then node else node.(nodeId := k, isConnected := if ss[k - 1].status.Connected? then 1 else 0)
  }

  /** Storing an int8 in a u8. */
  function U8(v: int8): byte { v as int % 256 }

  /** isNodeStateChanged for one node. */
  function ChangeAfter(c: Change, last: byte, v: int8): Change {
    if v as int == last as int then c else if v != 0 then c.(connect := true) else c.(disconnect := true)
  }

  function Values(nodes: seq<NodeInfo>): (r: seq<int8>)
    ensures |r| == |nodes|
  {
    seq(|nodes|, i requires 0 <= i < |nodes| => nodes[i].isConnected)
  }

  function Noticed(d: State): (r: State)
    requires Shaped(d)
    ensures Shaped(r)
  {
    d.(changes :=
        seq(NODE_COUNT_MAX,
            i requires 0 <= i < NODE_COUNT_MAX => ChangeAfter(d.changes[i], d.last[i], d.nodes[i].isConnected)),
       last := seq(NODE_COUNT_MAX, i requires 0 <= i < NODE_COUNT_MAX => U8(d.nodes[i].isConnected)))
  }

  /** The node table and count that updateNodes builds before it looks for changes. */
  function Renumbered(d: State): (r: State)
    requires Shaped(d)
    ensures Shaped(r)
  {
    d.(nodes := seq(NODE_COUNT_MAX, k requires 0 <= k < NODE_COUNT_MAX => Overridden(d.stations, k, d.nodes[k])),
       nodeCount := CountConnected(d.stations) + 1)
  }

  /** updateNodes. The refreshed NetworkInfo also goes to every Connected station. */
  function Update(d: State): (r: StepResult)
    requires Shaped(d)
    ensures Shaped(r.next)
  {
    StepResult(Noticed(Renumbered(d)), [Observe(Values(Renumbered(d).nodes))])
  }

  function CleanChanges(): seq<Change> { seq(NODE_COUNT_MAX, _ => Change(false, false)) }
  function CleanLast(): seq<byte> { seq(NODE_COUNT_MAX, _ => 0) }

  // ---- the events ----

  datatype CreateOutcome = FailsEarly | FailsLate | Creates(host: seq<byte>)
  datatype InitOutcome = FailsBefore | FailsAfter | Succeeds
  datatype Packet = ConnectPacket(info: NodeInfo) | OtherPacket | BadPacket

  datatype Event =
    | Initialize(how: InitOutcome)
    | Finalize
    | OpenAccessPoint | CloseAccessPoint | OpenStation | CloseStation
    | CreateNetwork(outcome: CreateOutcome)
    | DestroyNetwork | Disconnect
    | ConnectToHost(ok: bool)
    | SetAdvertiseData
    | Accept
    | StationRead(i: nat, packet: Packet)
    | StationClose(i: nat)
    | SyncNetwork(nodes: seq<NodeInfo>, nodeCount: nat)
    | HostClosed
    | UdpClosed
    | GetNetworkInfo(bufferCount: int)

  /** createNetwork: initNetworkInfo, then the host's own node, then the first update. */
  function Created(d: State, host: seq<byte>): (r: State)
    requires Shaped(d)
    ensures Shaped(r)
  {
    d.(state := AccessPointCreated,
       nodes := seq(NODE_COUNT_MAX, i requires 0 <= i < NODE_COUNT_MAX =>
                      if i == 0 then NodeInfo(0, 1, host) else d.nodes[i].(nodeId := i, isConnected := 0)),
       changes := CleanChanges(), last := CleanLast())
  }

  function OnClose(d: State, i: nat): (r: StepResult)
    requires Shaped(d) && i < STATION_COUNT_MAX
    ensures Shaped(r.next)
  {
    Update(d.(stations := d.stations[i := ResetStation(d.stations[i])]))
  }

  /** The first Disconnected station from i on, or the number of stations. */
  function FirstFree(ss: seq<LanStation>, i: nat): (r: nat)
    requires i <= |ss|
    ensures i <= r <= |ss|
    ensures r < |ss| ==> ss[r].status.Disconnected?
    ensures forall j :: i <= j < r ==> !ss[j].status.Disconnected?
    decreases |ss| - i
  {
    if i == |ss| || ss[i].status.Disconnected? then i else FirstFree(ss, i + 1)
  }

  function Quiet(d: State): StepResult { StepResult(d, []) }

  function ReadsAllowed(d: State): bool { d.state.AccessPointCreated? || d.state.StationConnected? }

  /** The events that come from sockets, all of them through loopPoll. */
  predicate Callback(e: Event) {
    e.Accept? || e.StationRead? || e.StationClose? || e.SyncNetwork? || e.HostClosed? || e.UdpClosed?
  }

  /** One event. loopPoll does not look at the sockets of an object that is not initialised. */
  function Step(d: State, e: Event): (r: StepResult)
    requires Shaped(d)
    ensures Shaped(r.next)
  {
    if Callback(e) && !d.initialized then Quiet(d) else Handle(d, e)
  }

  function Handle(d: State, e: Event): (r: StepResult)
    requires Shaped(d)
    ensures Shaped(r.next)
  {
    match e
    case Initialize(how) =>
      if d.initialized || how.FailsBefore? then Quiet(d)
      else if how.FailsAfter? then Quiet(Reset(d))
      else Quiet(Reset(d).(state := Initialized, initialized := true))
    case Finalize =>
      if d.initialized then Quiet(Reset(d).(state := NoState, initialized := false)) else Quiet(d.(state := NoState))
    case OpenAccessPoint => if d.state.NoState? then Quiet(d) else Quiet(Reset(d).(state := AccessPoint))
    case CloseAccessPoint => if d.state.NoState? then Quiet(d) else Quiet(Reset(d).(state := Initialized))
    case OpenStation => if d.state.NoState? then Quiet(d) else Quiet(Reset(d).(state := Station))
    case CloseStation => if d.state.NoState? then Quiet(d) else Quiet(Reset(d).(state := Initialized))
    case CreateNetwork(outcome) =>
      if !d.state.AccessPoint? || outcome.FailsEarly? then Quiet(d)
      else if outcome.FailsLate? then
        Quiet(d.(nodes :=
            seq(NODE_COUNT_MAX, i requires 0 <= i < NODE_COUNT_MAX => d.nodes[i].(nodeId := i, isConnected := 0))))
      else
        var u := Update(Created(d, outcome.host));
        u.(log := [Init] + u.log)
    case DestroyNetwork => Quiet(Reset(d).(state := AccessPoint))
    case Disconnect => Quiet(d.(state := Station))
    case ConnectToHost(ok) => if ok then StepResult(d.(changes := CleanChanges(), last := CleanLast()), [Init])
        else Quiet(d)
    case SetAdvertiseData => Update(d)
    case Accept =>
      if !d.state.AccessPointCreated? || CountBusy(d.stations) >= STATION_COUNT_MAX then Quiet(d)
      else
        var i := FirstFree(d.stations, 0);
        if i < STATION_COUNT_MAX then Quiet(d.(stations := d.stations[i := LinkStation(d.stations[i])])) else Quiet(d)
    case StationRead(i, packet) =>
      if i >= STATION_COUNT_MAX then Quiet(d)
      else if !d.stations[i].hasSocket || packet.BadPacket? then OnClose(d, i)
      else if packet.OtherPacket? then Quiet(d)
      else Update(d.(nodes := d.nodes[i + 1 := packet.info],
          stations := d.stations[i := d.stations[i].(status := Connected)]))
    case StationClose(i) => if i >= STATION_COUNT_MAX then Quiet(d) else OnClose(d, i)
    case SyncNetwork(nodes, nodeCount) =>
      if (d.state.Station? || d.state.StationConnected?) && |nodes| == NODE_COUNT_MAX then
        var d' := d.(nodes := nodes, nodeCount := nodeCount, state := StationConnected);
        StepResult(Noticed(d'), [Observe(Values(nodes))])
      else Quiet(d)
    case HostClosed => if d.state.StationConnected? then Quiet(d.(state := Station)) else Quiet(d)
    case UdpClosed => Quiet(d.(state := Error))
    case GetNetworkInfo(n) =>
      if 0 <= n <= NODE_COUNT_MAX && ReadsAllowed(d) then
        StepResult(d.(changes := CleanChanges()[..n] + d.changes[n..]), [Read(d.changes[..n])])
      else Quiet(d)
  }
}
