/** What holds of LANDiscovery in every reachable state. */
module DiscoveryRuns {
  import opened Bytes
  import opened Discovery

  function Run(d: State, es: seq<Event>): (r: State)
    requires Shaped(d)
    ensures Shaped(r)
  {
    if es == [] then d else Step(Run(d, es[..|es| - 1]), es[|es| - 1]).next
  }

  // ---- the access point ----

  /** A station has a socket exactly while it is not Disconnected. */
  predicate SocketsMatch(ss: seq<LanStation>) {
    forall i :: 0 <= i < |ss| ==> (ss[i].hasSocket <==> !ss[i].status.Disconnected?)
  }

  /** The node table tells the truth about the stations. */
  predicate TableTrue(d: State)
    requires Shaped(d)
  {
    && d.nodeCount == 1 + CountConnected(d.stations)
    && (forall k :: 0 <= k < NODE_COUNT_MAX ==> d.nodes[k].nodeId == k)
    && d.nodes[0].isConnected == 1
    && (forall i :: 0 <= i < STATION_COUNT_MAX ==>
        d.nodes[i + 1].isConnected == if d.stations[i].status.Connected? then 1 else 0)
  }

  predicate AllFree(ss: seq<LanStation>) {
    forall i :: 0 <= i < |ss| ==> ss[i] == LanStation(Disconnected, false)
  }

  predicate Sound(d: State) {
    && Shaped(d) && SocketsMatch(d.stations)
    && (d.state.AccessPointCreated? ==> TableTrue(d))
    && (!d.initialized ==> AllFree(d.stations))
  }

  /** updateNodes repairs everything but the host's own node. */
  lemma {:induction false} UpdateRepairs(d: State)
    requires Shaped(d) && SocketsMatch(d.stations)
    requires d.state.AccessPointCreated? ==> d.nodes[0].nodeId == 0 && d.nodes[0].isConnected == 1
    requires !d.initialized ==> AllFree(d.stations)
    ensures Sound(Update(d).next)
  {
  }

  lemma {:induction false} CloseSound(d: State, i: nat)
    requires Sound(d) && d.initialized && i < STATION_COUNT_MAX
    ensures Sound(OnClose(d, i).next)
  {
    UpdateRepairs(d.(stations := d.stations[i := ResetStation(d.stations[i])]));
  }

  lemma {:induction false} AcceptSound(d: State)
    requires Sound(d) && d.initialized
    ensures Sound(Handle(d, Accept).next)
  {
    var i := FirstFree(d.stations, 0);
    if i < STATION_COUNT_MAX {
      LinkKeepsCount(d.stations, i);
    }
  }

  /** Linking a free station connects nobody yet. */
  lemma {:induction false} LinkKeepsCount(ss: seq<LanStation>, i: nat)
    requires i < |ss| && ss[i].status.Disconnected?
    ensures CountConnected(ss[i := LinkStation(ss[i])]) == CountConnected(ss)
  {
    var ss' := ss[i := LinkStation(ss[i])];
    if i < |ss| - 1 {
      LinkKeepsCount(ss[..|ss| - 1], i);
      assert ss'[..|ss| - 1] == ss[..|ss| - 1][i := LinkStation(ss[i])];
    } else {
      assert ss'[..|ss| - 1] == ss[..|ss| - 1];
    }
  }

  lemma {:induction false} StationReadSound(d: State, i: nat, packet: Packet)
    requires Sound(d) && d.initialized
    ensures Sound(Handle(d, StationRead(i, packet)).next)
  {
    if i < STATION_COUNT_MAX {
      CloseSound(d, i);
      if d.stations[i].hasSocket && packet.ConnectPacket? {
        var ss := d.stations[i := d.stations[i].(status := Connected)];
        UpdateRepairs(d.(nodes := d.nodes[i + 1 := packet.info], stations := ss));
      }
    }
  }

  lemma {:induction false} CallbackSound(d: State, e: Event)
    requires Sound(d) && d.initialized && Callback(e)
    ensures Sound(Handle(d, e).next)
  {
    match e
    case Accept => AcceptSound(d);
    case StationRead(i, packet) => StationReadSound(d, i, packet);
    case StationClose(i) => if i < STATION_COUNT_MAX { CloseSound(d, i); }
    case _ =>
  }

  /** An initialize that fails after resetting the stations: they were free before. */
  lemma {:induction false} ResetFree(d: State)
    requires Sound(d) && !d.initialized
    ensures Reset(d) == d
  {
    assert Reset(d).stations == d.stations;
  }

  lemma {:induction false} CallSound(d: State, e: Event)
    requires Sound(d) && !Callback(e)
    ensures Sound(Handle(d, e).next)
  {
    if !d.initialized { ResetFree(d); }
    match e
    case CreateNetwork(outcome) => if outcome.Creates? { UpdateRepairs(Created(d, outcome.host)); }
    case SetAdvertiseData => UpdateRepairs(d);
    case _ =>
  }

  /** Whatever is called and whatever comes in, in any order: while the access point is created,
      nodeCount is one more than the Connected stations, node k is marked connected iff it is the host
      or its station is Connected, and node k carries nodeId k whatever NodeInfo a client sent. */
  lemma {:induction false} RunSound(d: State, es: seq<Event>)
    requires Sound(d)
    ensures Sound(Run(d, es))
  {
    if es != [] {
      RunSound(d, es[..|es| - 1]);
      StepSound(Run(d, es[..|es| - 1]), es[|es| - 1]);
    }
  }

  lemma {:induction false} StepSound(d: State, e: Event)
    requires Sound(d)
    ensures Sound(Step(d, e).next)
  {
    if !Callback(e) { CallSound(d, e); } else if d.initialized { CallbackSound(d, e); }
  }

  /** The object as the constructor leaves it; its change bits and last states are uninitialised. */
  predicate Fresh(d: State) {
    Shaped(d) && d.state.NoState? && !d.initialized && AllFree(d.stations)
  }

  lemma {:induction false} ReachableTableTrue(d: State, es: seq<Event>)
    requires Fresh(d) && Run(d, es).state.AccessPointCreated?
    ensures TableTrue(Run(d, es))
  {
    RunSound(d, es);
  }

  /** If fewer than seven stations are busy, one is free: onConnect never runs out of stations after
      its first test. */
  lemma {:induction false} FreeStationExists(ss: seq<LanStation>)
    ensures CountBusy(ss) < |ss| <==> FirstFree(ss, 0) < |ss|
  {
    if ss != [] {
      var p := ss[..|ss| - 1];
      FreeStationExists(p);
      if CountBusy(p) < |p| {
        assert ss[FirstFree(p, 0)].status.Disconnected?;
      } else {
        assert forall j :: 0 <= j < |p| ==> !ss[j].status.Disconnected?;
      }
    }
  }

  // ---- the change bits ----

  /** The history of node i since its bits were last cleared: the value known at that moment, then
      every value observed. */
  function Window(log: seq<Observation>, i: nat): (w: seq<int8>)
    requires i < NODE_COUNT_MAX
    ensures w != []
  {
    if log == [] then [0]
    else
      var before := Window(log[..|log| - 1], i);
      match log[|log| - 1]
      case Init => [0]
      case Observe(vs) => if i < |vs| then before + [vs[i]] else before
      case Read(returned) => if i < |returned| then [before[|before| - 1]] else before
  }

  /** The node changed from p to c, as the code tests it: an int8 against the u8 stored before. */
  predicate Changed(p: int8, c: int8) {
    c as int != U8(p) as int
  }

  predicate RoseAt(w: seq<int8>, t: int) {
    0 < t < |w| && Changed(w[t - 1], w[t]) && w[t] != 0
  }

  predicate FellAt(w: seq<int8>, t: int) {
    0 < t < |w| && Changed(w[t - 1], w[t]) && w[t] == 0
  }

  ghost function Bits(w: seq<int8>): Change {
    Change(exists t :: RoseAt(w, t), exists t :: FellAt(w, t))
  }

  lemma {:induction false} BitsStep(w: seq<int8>, v: int8)
    requires w != []
    ensures Bits(w + [v]) == ChangeAfter(Bits(w), U8(w[|w| - 1]), v)
  {
    var w', n := w + [v], |w|;
    assert forall t :: t != n ==> RoseAt(w', t) == RoseAt(w, t);
    assert forall t :: t != n ==> FellAt(w', t) == FellAt(w, t);
    assert RoseAt(w', n) == (Changed(w[n - 1], v) && v != 0);
    assert FellAt(w', n) == (Changed(w[n - 1], v) && v == 0);
    if t :| RoseAt(w, t) { assert RoseAt(w', t); }
    if t :| FellAt(w, t) { assert FellAt(w', t); }
  }

  function RunLog(d: State, es: seq<Event>): seq<Observation>
    requires Shaped(d)
  {
    if es == [] then [] else RunLog(d, es[..|es| - 1]) + Step(Run(d, es[..|es| - 1]), es[|es| - 1]).log
  }

  /** The bits and last state of node i agree with the history. */
  ghost predicate Agrees(d: State, log: seq<Observation>, i: nat)
    requires Shaped(d) && i < NODE_COUNT_MAX
  {
    (d.changes[i], d.last[i]) == Stored(log, i)
  }

  /** The bits and the last state the history calls for. */
  ghost function Stored(log: seq<Observation>, i: nat): (Change, byte)
    requires i < NODE_COUNT_MAX
  {
    var w := Window(log, i);
    (Bits(w), U8(w[|w| - 1]))
  }

  /** One entry of the history: what it does to the stored bits of node i. */
  function Applied(c: Change, last: byte, o: Observation, i: nat): (Change, byte)
    requires i < NODE_COUNT_MAX
  {
    match o
    case Init => (Change(false, false), 0)
    case Observe(vs) => if i < |vs| then (ChangeAfter(c, last, vs[i]), U8(vs[i])) else (c, last)
    case Read(returned) => if i < |returned| then (Change(false, false), last) else (c, last)
  }

  lemma {:induction false} WindowStep(log: seq<Observation>, o: Observation, i: nat)
    requires i < NODE_COUNT_MAX
    ensures Stored(log + [o], i) == Applied(Stored(log, i).0, Stored(log, i).1, o, i)
  {
    assert (log + [o])[..|log|] == log;
    if o.Observe? && i < |o.values| {
      BitsStep(Window(log, i), o.values[i]);
    }
  }

  function AppliedAll(c: Change, last: byte, os: seq<Observation>, i: nat): (Change, byte)
    requires i < NODE_COUNT_MAX
  {
    if os == [] then (c, last)
    else
      var a := AppliedAll(c, last, os[..|os| - 1], i);
      Applied(a.0, a.1, os[|os| - 1], i)
  }

  lemma {:induction false} WindowSteps(log: seq<Observation>, os: seq<Observation>, i: nat)
    requires i < NODE_COUNT_MAX
    ensures Stored(log + os, i) == AppliedAll(Stored(log, i).0, Stored(log, i).1, os, i)
  {
    if os == [] {
      assert log + os == log;
    } else {
      var p, o := os[..|os| - 1], os[|os| - 1];
      WindowSteps(log, p, i);
      WindowStep(log + p, o, i);
      Regroup(log, p, o, os);
    }
  }

  lemma {:induction false} Regroup(log: seq<Observation>, p: seq<Observation>, o: Observation, os: seq<Observation>)
    requires os == p + [o]
    ensures log + os == log + p + [o]
  {
  }

  /** Every step changes the stored bits exactly as its log entries say. */
  lemma {:induction false} StepApplies(d: State, e: Event, i: nat)
    requires Shaped(d) && i < NODE_COUNT_MAX
    ensures var r := Step(d, e); (r.next.changes[i], r.next.last[i]) == AppliedAll(d.changes[i], d.last[i], r.log, i)
  {
    var log := Step(d, e).log;
    assert |log| <= 2;
    assert |log| == 1 ==> log[..0] == [];
    assert |log| == 2 ==> log[..1] == [log[0]] && log[..1][..0] == [];
  }

  lemma {:induction false} StepAgrees(d: State, e: Event, log: seq<Observation>, i: nat)
    requires Shaped(d) && i < NODE_COUNT_MAX && Agrees(d, log, i)
    ensures Agrees(Step(d, e).next, log + Step(d, e).log, i)
  {
    StepApplies(d, e, i);
    WindowSteps(log, Step(d, e).log, i);
  }

  /** An Init entry makes bits and history agree whatever was there before. */
  lemma {:induction false} InitAgrees(d: State, e: Event, log: seq<Observation>, i: nat)
    requires Shaped(d) && i < NODE_COUNT_MAX && Init in Step(d, e).log
    ensures Agrees(Step(d, e).next, log + Step(d, e).log, i)
  {
    var os := Step(d, e).log;
    InitIsFirst(d, e);
    StepApplies(d, e, i);
    WindowSteps(log, os, i);
    AppliedFromInit(d.changes[i], d.last[i], Stored(log, i).0, Stored(log, i).1, os, i);
  }

  lemma {:induction false} AppliedFromInit(c: Change, last: byte, c': Change, last': byte, os: seq<Observation>, i: nat)
    requires i < NODE_COUNT_MAX && os != [] && os[0] == Init
    ensures AppliedAll(c, last, os, i) == AppliedAll(c', last', os, i)
  {
    if |os| > 1 {
      AppliedFromInit(c, last, c', last', os[..|os| - 1], i);
    }
  }

  /** After the first createNetwork or connect, in every run: the bits of node i contain Connect iff a
      rise, and Disconnect iff a fall, was observed since the last successful read or init. A failed
      read is not in the history, so it loses nothing. */
  lemma {:induction false} BitsAreTheHistory(d: State, es: seq<Event>, i: nat)
    requires Shaped(d) && i < NODE_COUNT_MAX && Init in RunLog(d, es)
    ensures Agrees(Run(d, es), RunLog(d, es), i)
  {
    var p, e := es[..|es| - 1], es[|es| - 1];
    if Init in RunLog(d, p) {
      BitsAreTheHistory(d, p, i);
      StepAgrees(Run(d, p), e, RunLog(d, p), i);
    } else {
      InitAgrees(Run(d, p), e, RunLog(d, p), i);
    }
  }

  lemma {:induction false} InitIsFirst(d: State, e: Event)
    requires Shaped(d) && Init in Step(d, e).log
    ensures Step(d, e).log[0] == Init
  {
  }

  /** What a successful read returns for node i. */
  lemma {:induction false} ReadReturnsBits(d: State, es: seq<Event>, n: nat, i: nat)
    requires Shaped(d) && i < n <= NODE_COUNT_MAX && Init in RunLog(d, es) && ReadsAllowed(Run(d, es))
    ensures var r := Step(Run(d, es), GetNetworkInfo(n));
            r.log == [Read(Run(d, es).changes[..n])] && r.log[0].returned[i] == Bits(Window(RunLog(d, es), i))
  {
    BitsAreTheHistory(d, es, i);
  }

  // ---- which changes are real ----

  /** Every rise or fall counted is a change of the flag, and every change of the flag is counted. */
  ghost predicate CountsRealChanges(w: seq<int8>) {
    forall t :: 0 < t < |w| ==> (RoseAt(w, t) || FellAt(w, t) <==> w[t - 1] != w[t])
  }

  /** A negative flag was seen twice in a row. */
  predicate NegativeRepeats(w: seq<int8>, t: int) {
    0 < t < |w| && w[t - 1] == w[t] < 0
  }

  /** The flag is compared as an int8 with the u8 stored before, so a negative flag never equals itself. */
  lemma {:induction false} ChangedIff(p: int8, c: int8)
    ensures Changed(p, c) <==> p != c || c < 0
  {
  }

  /** The test sees exactly the changes of a flag unless a negative flag is observed twice in a row. */
  lemma {:induction false} RealChangesIff(w: seq<int8>)
    ensures CountsRealChanges(w) <==> forall t :: !NegativeRepeats(w, t)
  {
    forall t | 0 < t < |w|
      ensures (RoseAt(w, t) || FellAt(w, t) <==> w[t - 1] != w[t]) <==> !NegativeRepeats(w, t)
    {
      ChangedIff(w[t - 1], w[t]);
    }
  }

  /** Then the bits say that the flag changed to something or changed to 0. */
  lemma {:induction false} RealBits(w: seq<int8>)
    requires forall t :: !NegativeRepeats(w, t)
    ensures Bits(w) == Change(exists t :: ToOn(w, t), exists t :: ToOff(w, t))
  {
    RealChangesIff(w);
    forall t ensures RoseAt(w, t) == ToOn(w, t) && FellAt(w, t) == ToOff(w, t) {
      assert 0 < t < |w| ==> (RoseAt(w, t) || FellAt(w, t) <==> w[t - 1] != w[t]);
    }
  }

  predicate ToOn(w: seq<int8>, t: int) { 0 < t < |w| && w[t - 1] != w[t] && w[t] != 0 }

  predicate ToOff(w: seq<int8>, t: int) { 0 < t < |w| && w[t - 1] != w[t] && w[t] == 0 }

  predicate UpAt(w: seq<int8>, t: int) { 0 < t < |w| && w[t - 1] == 0 && w[t] == 1 }

  predicate DownAt(w: seq<int8>, t: int) { 0 < t < |w| && w[t - 1] == 1 && w[t] == 0 }

  /** In particular, with isConnected 0 or 1 a rise is 0 to 1 and a fall is 1 to 0. */
  lemma {:induction false} ZeroOneWindow(w: seq<int8>)
    requires forall t :: 0 <= t < |w| ==> w[t] == 0 || w[t] == 1
    ensures Bits(w) == Change(exists t :: UpAt(w, t), exists t :: DownAt(w, t))
  {
    RealBits(w);
    forall t ensures ToOn(w, t) == UpAt(w, t) && ToOff(w, t) == DownAt(w, t) {
      assert 0 < t < |w| ==> (w[t - 1] == 0 || w[t - 1] == 1) && (w[t] == 0 || w[t] == 1);
    }
  }

  /** A client that joins a host, reads its updates, and is then sent the same table again. */
  function SameAgain(nodes: seq<NodeInfo>, n: nat): seq<Event> {
    [ Initialize(Succeeds), OpenStation, ConnectToHost(true), SyncNetwork(nodes, n)
    , GetNetworkInfo(NODE_COUNT_MAX), SyncNetwork(nodes, n) ]
  }

  lemma {:induction false} RunNext(d: State, es: seq<Event>, k: nat)
    requires Shaped(d) && k < |es|
    ensures var s := Run(d, es[..k]);
      Run(d, es[..k + 1]) == Step(s, es[k]).next && RunLog(d, es[..k + 1]) == RunLog(d, es[..k]) + Step(s, es[k]).log
  {
    assert es[..k + 1][..k] == es[..k];
  }

  lemma {:induction false} Joined(d: State, nodes: seq<NodeInfo>, n: nat)
    requires Fresh(d)
    ensures var es := SameAgain(nodes, n)[..3]; var s := Run(d, es);
      && s.state.Station? && s.initialized && s.changes == CleanChanges() && s.last == CleanLast()
      && RunLog(d, es) == [Init]
  {
    var es := SameAgain(nodes, n);
    RunNext(d, es, 0);
    RunNext(d, es, 1);
    RunNext(d, es, 2);
  }

  lemma {:induction false} WindowNext(log: seq<Observation>, o: Observation, i: nat)
    requires i < NODE_COUNT_MAX
    ensures var w := Window(log, i); var w' := Window(log + [o], i);
      match o
      case Init => w' == [0]
      case Observe(vs) => w' == if i < |vs| then w + [vs[i]] else w
      case Read(returned) => w' == if i < |returned| then [w[|w| - 1]] else w
  {
    assert (log + [o])[..|log|] == log;
  }

  lemma {:induction false} WindowTwice(vs: seq<int8>, returned: seq<Change>, i: nat)
    requires i < NODE_COUNT_MAX && i < |vs| && i < |returned|
    ensures Window([Init] + [Observe(vs)] + [Read(returned)] + [Observe(vs)], i) == [vs[i], vs[i]]
  {
    WindowNext([], Init, i);
    assert [] + [Init] == [Init];
    WindowNext([Init], Observe(vs), i);
    WindowNext([Init] + [Observe(vs)], Read(returned), i);
    WindowNext([Init] + [Observe(vs)] + [Read(returned)], Observe(vs), i);
  }

  /** The two tables, and the read between them. */
  lemma {:induction false} SentTwice(s: State, nodes: seq<NodeInfo>, n: nat, i: nat)
    requires Shaped(s) && s.state.Station? && s.initialized && |nodes| == NODE_COUNT_MAX && i < NODE_COUNT_MAX
    requires s.last[i] == 0 && s.changes[i] == Change(false, false) && nodes[i].isConnected == -1
    ensures var r1 := Step(s, SyncNetwork(nodes, n)); var r2 := Step(r1.next, GetNetworkInfo(NODE_COUNT_MAX));
      var r3 := Step(r2.next, SyncNetwork(nodes, n));
      && r1.log == r3.log == [Observe(Values(nodes))] && r2.log == [Read(r1.next.changes[..NODE_COUNT_MAX])]
      && r2.next.nodes == r3.next.nodes == nodes
      && r2.next.changes[i] == Change(false, false) && r3.next.changes[i] == Change(true, false)
  {
  }

  /** It happens on a run: a host that marks node i with -1 and sends the same table twice makes the
      second one count as a change of node i. */
  lemma {:induction false} NegativeFlagMisfires(d: State, nodes: seq<NodeInfo>, n: nat, i: nat)
    requires Fresh(d) && |nodes| == NODE_COUNT_MAX && i < NODE_COUNT_MAX && nodes[i].isConnected == -1
    ensures var es := SameAgain(nodes, n);
      && Window(RunLog(d, es), i) == [-1, -1] && Run(d, es).nodes == Run(d, es[..5]).nodes == nodes
      && Run(d, es[..5]).changes[i] == Change(false, false) && Run(d, es).changes[i] == Change(true, false)
  {
    var es := SameAgain(nodes, n);
    Joined(d, nodes, n);
    RunNext(d, es, 3);
    RunNext(d, es, 4);
    RunNext(d, es, 5);
    assert es[..6] == es;
    SentTwice(Run(d, es[..3]), nodes, n, i);
    WindowTwice(Values(nodes), Run(d, es[..4]).changes[..NODE_COUNT_MAX], i);
  }
}
