/** The TCP session slots of sysmodule/source/ldn_bridge.cpp: one acceptor, one thread per session and
    any number of injectors, sharing the table lock g_sessions_mtx. Every action is one atomic step. */
module SessionTable {
  import opened Bytes

  const TCP_SESSION_MAX: nat := 8

  /** Where a session thread is: created but not started, in its receive loop, asking for the lock,
      holding it before and after clearing its slot, past the lock with only close(fd) to do, gone. */
  datatype ThreadPc = NotStarted | Running | Asking | Holding | Cleared | Closing | Exited

  datatype Thread = Thread(slot: nat, pc: ThreadPc)

  /** Where the acceptor is in ldn_bridge_tcp_thread_fn. */
  datatype AcceptorPc =
    | Idle | Asks | Scans | Joins(i: nat) | Claims(i: nat) | Creates(i: nat) | Starts(i: nat)
    | FailAsks(i: nat) | FailHolds(i: nat) | Stopped

  /** Where an injector is in ldn_bridge_tcp_inject_from_relay. ldn_bridge_close takes the table lock and
      lets go of it like an injector that finds no session. */
  datatype InjectorPc = Away | Wants | Searches | WantsWrite(i: nat) | HoldsBoth(i: nat) | Writes(i: nat)

  datatype Holder = Acceptor | Session(t: nat) | Injector(n: nat)

  /** struct TcpSession, as far as the protocol goes; `handle` is the thread the slot's Thread object
      and stack belong to. */
  datatype Slot = Slot(active: bool, threadCreated: bool, handle: nat, writer: Option<nat>)

  datatype State = State(
    lock: Option<Holder>,
    slots: seq<Slot>,
    threads: seq<Thread>,
    acceptor: AcceptorPc,
    injectors: seq<InjectorPc>)

  datatype Action =
    | AcceptorAsks | AcceptorLocks | FindsNone | FindsFree(i: nat) | JoinReturns | ClaimsSlot
    | CreateSucceeds | CreateFails | FailLocks | FailClears | StartsThread | Stops | Restarts
    | ThreadLeaves(t: nat) | ThreadLocks(t: nat) | ThreadClears(t: nat) | ThreadUnlocks(t: nat) | ThreadExits(t: nat)
    | InjectorAsks(n: nat) | InjectorLocks(n: nat) | InjectorGivesUp(n: nat) | InjectorPicks(n: nat, i: nat)
    | InjectorLocksWrite(n: nat) | InjectorUnlocks(n: nat) | InjectorDone(n: nat)
    | WaiterJoins(i: nat)

  predicate Shaped(s: State) {
    |s.slots| == TCP_SESSION_MAX
  }

  function Init(n: nat): (s: State)
    ensures Shaped(s)
  {
    State(None, seq(TCP_SESSION_MAX, _ => Slot(false, false, 0, None)), [], Idle, seq(n, _ => Away))
  }

  predicate ThreadAt(s: State, t: nat, pc: ThreadPc) {
    t < |s.threads| && s.threads[t].slot < |s.slots| && s.threads[t].pc == pc
  }

  /** The thread of the slot has finished: threadWaitForExit returns. */
  predicate HasExited(s: State, i: nat) {
    i < |s.slots| && s.slots[i].threadCreated && s.slots[i].handle < |s.threads| &&
        s.threads[s.slots[i].handle].pc.Exited?
  }

  predicate Enabled(s: State, a: Action)
    requires Shaped(s)
  {
    match a
    case AcceptorAsks => s.acceptor.Idle?
    case AcceptorLocks => s.acceptor.Asks? && s.lock.None?
    case FindsNone => s.acceptor.Scans? && forall i :: 0 <= i < |s.slots| ==> s.slots[i].active
    case FindsFree(i) => s.acceptor.Scans? && i < |s.slots| && !s.slots[i].active && forall j :: 0 <= j < i ==>
        s.slots[j].active
    case JoinReturns => s.acceptor.Joins? && HasExited(s, s.acceptor.i)
    case ClaimsSlot => s.acceptor.Claims? && s.acceptor.i < |s.slots|
    case CreateSucceeds => s.acceptor.Creates? && s.acceptor.i < |s.slots|
    case CreateFails => s.acceptor.Creates? && s.acceptor.i < |s.slots|
    case FailLocks => s.acceptor.FailAsks? && s.lock.None?
    case FailClears => s.acceptor.FailHolds? && s.acceptor.i < |s.slots|
    case StartsThread => s.acceptor.Starts? && s.acceptor.i < |s.slots| && s.slots[s.acceptor.i].handle < |s.threads|
    case Stops => s.acceptor.Idle?
    case Restarts => s.acceptor.Stopped? && forall i :: 0 <= i < |s.slots| ==> !s.slots[i].threadCreated
    case ThreadLeaves(t) => ThreadAt(s, t, Running)
    case ThreadLocks(t) => ThreadAt(s, t, Asking) && s.lock.None?
    case ThreadClears(t) => ThreadAt(s, t, Holding)
    case ThreadUnlocks(t) => ThreadAt(s, t, Cleared)
    case ThreadExits(t) => ThreadAt(s, t, Closing)
    case InjectorAsks(n) => n < |s.injectors| && s.injectors[n].Away?
    case InjectorLocks(n) => n < |s.injectors| && s.injectors[n].Wants? && s.lock.None?
    case InjectorGivesUp(n) => n < |s.injectors| && s.injectors[n].Searches?
    case InjectorPicks(n, i) => n < |s.injectors| && s.injectors[n].Searches? && i < |s.slots| && s.slots[i].active
    case InjectorLocksWrite(n) => n < |s.injectors| && s.injectors[n].WantsWrite? && s.injectors[n].i < |s.slots| &&
        s.slots[s.injectors[n].i].writer.None?
    case InjectorUnlocks(n) => n < |s.injectors| && s.injectors[n].HoldsBoth?
    case InjectorDone(n) => n < |s.injectors| && s.injectors[n].Writes? && s.injectors[n].i < |s.slots|
    case WaiterJoins(i) => s.acceptor.Stopped? && HasExited(s, i)
  }

  function SetSlot(s: State, i: nat, slot: Slot): (r: State)
    requires i < |s.slots|
    ensures |r.slots| == |s.slots|
  {
    s.(slots := s.slots[i := slot])
  }

  function SetPc(s: State, t: nat, pc: ThreadPc): State
    requires t < |s.threads|
  {
    s.(threads := s.threads[t := s.threads[t].(pc := pc)])
  }

  function SetInjector(s: State, n: nat, pc: InjectorPc): State
    requires n < |s.injectors|
  {
    s.(injectors := s.injectors[n := pc])
  }

  function Do(s: State, a: Action): (r: State)
    requires Shaped(s) && Enabled(s, a)
    ensures Shaped(r)
  {
    match a
    case AcceptorAsks => s.(acceptor := Asks)
    case AcceptorLocks => s.(lock := Some(Acceptor), acceptor := Scans)
    case FindsNone => s.(lock := None, acceptor := Idle)
    case FindsFree(i) => s.(acceptor := if s.slots[i].threadCreated then Joins(i) else Claims(i))
    case JoinReturns =>
      var i := s.acceptor.i;
      SetSlot(s, i, s.slots[i].(threadCreated := false)).(acceptor := Claims(i))
    case ClaimsSlot =>
      var i := s.acceptor.i;
      SetSlot(s, i, s.slots[i].(active := true)).(lock := None, acceptor := Creates(i))
    case CreateSucceeds =>
      var i := s.acceptor.i;
      SetSlot(s, i, s.slots[i].(threadCreated := true, handle := |s.threads|))
        .(threads := s.threads + [Thread(i, NotStarted)], acceptor := Starts(i))
    case CreateFails => s.(acceptor := FailAsks(s.acceptor.i))
    case FailLocks => s.(lock := Some(Acceptor), acceptor := FailHolds(s.acceptor.i))
    case FailClears =>
      var i := s.acceptor.i;
      SetSlot(s, i, s.slots[i].(active := false)).(lock := None, acceptor := Idle)
    case StartsThread => SetPc(s, s.slots[s.acceptor.i].handle, Running).(acceptor := Idle)
    case Stops => s.(acceptor := Stopped)
    case Restarts => s.(acceptor := Idle)
    case ThreadLeaves(t) => SetPc(s, t, Asking)
    case ThreadLocks(t) => SetPc(s, t, Holding).(lock := Some(Session(t)))
    case ThreadClears(t) =>
      var i := s.threads[t].slot;
      SetPc(SetSlot(s, i, s.slots[i].(active := false)), t, Cleared)
    case ThreadUnlocks(t) => SetPc(s, t, Closing).(lock := None)
    case ThreadExits(t) => SetPc(s, t, Exited)
    case InjectorAsks(n) => SetInjector(s, n, Wants)
    case InjectorLocks(n) => SetInjector(s, n, Searches).(lock := Some(Injector(n)))
    case InjectorGivesUp(n) => SetInjector(s, n, Away).(lock := None)
    case InjectorPicks(n, i) => SetInjector(s, n, WantsWrite(i))
    case InjectorLocksWrite(n) =>
      var i := s.injectors[n].i;
      SetInjector(SetSlot(s, i, s.slots[i].(writer := Some(n))), n, HoldsBoth(i))
    case InjectorUnlocks(n) => SetInjector(s, n, Writes(s.injectors[n].i)).(lock := None)
    case InjectorDone(n) =>
      var i := s.injectors[n].i;
      SetInjector(SetSlot(s, i, s.slots[i].(writer := None)), n, Away)
    case WaiterJoins(i) => SetSlot(s, i, s.slots[i].(threadCreated := false))
  }

  // ---- the invariant ----

  /** Mutual exclusion: the lock belongs to whoever is in a critical section. */
  predicate LockOk(s: State) {
    && (s.lock == Some(Acceptor) <==>
        s.acceptor.Scans? || s.acceptor.Joins? || s.acceptor.Claims? || s.acceptor.FailHolds?)
    && (forall t: nat :: t < |s.threads| ==>
        (s.lock == Some(Session(t)) <==> s.threads[t].pc.Holding? || s.threads[t].pc.Cleared?))
    && (forall n: nat :: n < |s.injectors| ==>
          (s.lock == Some(Injector(n)) <==>
              s.injectors[n].Searches? || s.injectors[n].WantsWrite? || s.injectors[n].HoldsBoth?))
    && (s.lock.Some? && s.lock.value.Session? ==> s.lock.value.t < |s.threads|)
    && (s.lock.Some? && s.lock.value.Injector? ==> s.lock.value.n < |s.injectors|)
  }

  predicate Live(s: State, t: nat)
    requires t < |s.threads|
  {
    !s.threads[t].pc.Exited?
  }

  /** The thread has yet to clear its slot. */
  predicate Needs(pc: ThreadPc) {
    pc.NotStarted? || pc.Running? || pc.Asking? || pc.Holding?
  }

  /** A live thread is the thread of its slot, and the slot is active until the thread clears it. */
  predicate ThreadsOk(s: State) {
    && (forall t: nat :: t < |s.threads| && Live(s, t) ==>
          && s.threads[t].slot < |s.slots|
          && s.slots[s.threads[t].slot].threadCreated && s.slots[s.threads[t].slot].handle == t
          && (s.slots[s.threads[t].slot].active <==> Needs(s.threads[t].pc)))
    && (forall i: nat :: i < |s.slots| && s.slots[i].threadCreated ==>
        s.slots[i].handle < |s.threads| && s.threads[s.slots[i].handle].slot == i)
    && (forall t: nat :: t < |s.threads| && s.threads[t].pc.NotStarted? ==> s.acceptor == Starts(s.threads[t].slot))
  }

  predicate AcceptorOk(s: State) {
    match s.acceptor
    case Joins(i) => i < |s.slots| && s.slots[i].threadCreated && !s.slots[i].active
    case Claims(i) => i < |s.slots| && !s.slots[i].threadCreated && !s.slots[i].active
    case Creates(i) => i < |s.slots| && !s.slots[i].threadCreated && s.slots[i].active
    case FailAsks(i) => i < |s.slots| && !s.slots[i].threadCreated && s.slots[i].active
    case FailHolds(i) => i < |s.slots| && !s.slots[i].threadCreated && s.slots[i].active
    case Starts(i) => i < |s.slots| && s.slots[i].threadCreated && s.slots[i].handle < |s.threads| &&
        s.threads[s.slots[i].handle].pc.NotStarted?
    case _ => true
  }

  predicate OnSlot(pc: InjectorPc) { pc.WantsWrite? || HoldsWrite(pc) }

  predicate HoldsWrite(pc: InjectorPc) { pc.HoldsBoth? || pc.Writes? }

  predicate WritersOk(s: State) {
    && (forall n: nat :: n < |s.injectors| && OnSlot(s.injectors[n]) ==> s.injectors[n].i < |s.slots|)
    && (forall n: nat :: n < |s.injectors| && HoldsWrite(s.injectors[n]) ==>
          s.slots[s.injectors[n].i].writer == Some(n))
    && (forall i: nat :: i < |s.slots| && s.slots[i].writer.Some? ==>
          && s.slots[i].writer.value < |s.injectors|
          && HoldsWrite(s.injectors[s.slots[i].writer.value]) && s.injectors[s.slots[i].writer.value].i == i)
  }

  predicate Inv(s: State) {
    Shaped(s) && LockOk(s) && ThreadsOk(s) && AcceptorOk(s) && WritersOk(s)
  }

  lemma {:induction false} InitInv(n: nat)
    ensures Inv(Init(n))
  {
  }

  predicate ThreadAction(a: Action) {
    a.ThreadLeaves? || a.ThreadLocks? || a.ThreadClears? || a.ThreadUnlocks? || a.ThreadExits?
  }

  predicate InjectorAction(a: Action) {
    a.InjectorAsks? || a.InjectorLocks? || a.InjectorGivesUp? || a.InjectorPicks? || a.InjectorLocksWrite? ||
        a.InjectorUnlocks? || a.InjectorDone?
  }

  lemma {:induction false} ThreadKeepsLock(s: State, a: Action)
    requires Inv(s) && Enabled(s, a) && ThreadAction(a)
    ensures LockOk(Do(s, a))
  {
  }

  lemma {:induction false} InjectorKeepsLock(s: State, a: Action)
    requires Inv(s) && Enabled(s, a) && InjectorAction(a)
    ensures LockOk(Do(s, a))
  {
  }

  lemma {:induction false} AcceptorKeepsLock(s: State, a: Action)
    requires Inv(s) && Enabled(s, a) && !ThreadAction(a) && !InjectorAction(a)
    ensures LockOk(Do(s, a))
  {
  }

  lemma {:induction false} KeepsLock(s: State, a: Action)
    requires Inv(s) && Enabled(s, a)
    ensures LockOk(Do(s, a))
  {
    if ThreadAction(a) {
      ThreadKeepsLock(s, a);
    } else if InjectorAction(a) {
      InjectorKeepsLock(s, a);
    } else {
      AcceptorKeepsLock(s, a);
    }
  }

  lemma {:induction false} ThreadKeepsThreads(s: State, a: Action)
    requires Inv(s) && Enabled(s, a) && ThreadAction(a)
    ensures ThreadsOk(Do(s, a))
  {
  }

  lemma {:induction false} InjectorKeepsThreads(s: State, a: Action)
    requires Inv(s) && Enabled(s, a) && InjectorAction(a)
    ensures ThreadsOk(Do(s, a))
  {
  }

  predicate SpawnAction(a: Action) { a.CreateSucceeds? || a.StartsThread? }

  lemma {:induction false} SpawnKeepsThreads(s: State, a: Action)
    requires Inv(s) && Enabled(s, a) && SpawnAction(a)
    ensures ThreadsOk(Do(s, a))
  {
  }

  lemma {:induction false} AcceptorKeepsThreads(s: State, a: Action)
    requires Inv(s) && Enabled(s, a) && !ThreadAction(a) && !InjectorAction(a) && !SpawnAction(a)
    ensures ThreadsOk(Do(s, a))
  {
  }

  lemma {:induction false} KeepsThreads(s: State, a: Action)
    requires Inv(s) && Enabled(s, a)
    ensures ThreadsOk(Do(s, a))
  {
    if ThreadAction(a) {
      ThreadKeepsThreads(s, a);
    } else if InjectorAction(a) {
      InjectorKeepsThreads(s, a);
    } else if SpawnAction(a) {
      SpawnKeepsThreads(s, a);
    } else {
      AcceptorKeepsThreads(s, a);
    }
  }

  lemma {:induction false} KeepsAcceptor(s: State, a: Action)
    requires Inv(s) && Enabled(s, a)
    ensures AcceptorOk(Do(s, a))
  {
  }

  lemma {:induction false} WriteLockKeepsWriters(s: State, a: Action)
    requires Inv(s) && Enabled(s, a) && (a.InjectorLocksWrite? || a.InjectorDone?)
    ensures WritersOk(Do(s, a))
  {
  }

  lemma {:induction false} TableLockKeepsWriters(s: State, a: Action)
    requires Inv(s) && Enabled(s, a) && InjectorAction(a) && !a.InjectorLocksWrite? && !a.InjectorDone?
    ensures WritersOk(Do(s, a))
  {
  }

  lemma {:induction false} InjectorKeepsWriters(s: State, a: Action)
    requires Inv(s) && Enabled(s, a) && InjectorAction(a)
    ensures WritersOk(Do(s, a))
  {
    if a.InjectorLocksWrite? || a.InjectorDone? { WriteLockKeepsWriters(s, a); } else { TableLockKeepsWriters(s, a); }
  }

  lemma {:induction false} OthersKeepWriters(s: State, a: Action)
    requires Inv(s) && Enabled(s, a) && !InjectorAction(a)
    ensures WritersOk(Do(s, a))
  {
  }

  lemma {:induction false} KeepsInv(s: State, a: Action)
    requires Inv(s) && Enabled(s, a)
    ensures Inv(Do(s, a))
  {
    KeepsLock(s, a);
    KeepsThreads(s, a);
    KeepsAcceptor(s, a);
    if InjectorAction(a) { InjectorKeepsWriters(s, a); } else { OthersKeepWriters(s, a); }
  }

  // ---- runs ----

  /** A run: every action is enabled when it is taken. */
  predicate IsRun(s: State, acts: seq<Action>)
    requires Shaped(s)
    decreases |acts|
  {
    acts == [] || (Enabled(s, acts[0]) && IsRun(Do(s, acts[0]), acts[1..]))
  }

  function After(s: State, acts: seq<Action>): (r: State)
    requires Shaped(s) && IsRun(s, acts)
    ensures Shaped(r)
    decreases |acts|
  {
    if acts == [] then s else After(Do(s, acts[0]), acts[1..])
  }

  lemma {:induction false} RunInv(s: State, acts: seq<Action>)
    requires Inv(s) && IsRun(s, acts)
    ensures Inv(After(s, acts))
    decreases |acts|
  {
    if acts != [] {
      KeepsInv(s, acts[0]);
      RunInv(Do(s, acts[0]), acts[1..]);
    }
  }

  /** In every interleaving no slot, and so no stack, has two live threads. */
  lemma {:induction false} OneLiveThreadPerSlot(n: nat, acts: seq<Action>, t: nat, u: nat)
    requires IsRun(Init(n), acts)
    requires var s := After(Init(n), acts); t < |s.threads| && u < |s.threads| && t != u && Live(s, t) && Live(s, u)
    ensures var s := After(Init(n), acts); s.threads[t].slot != s.threads[u].slot
  {
    InitInv(n);
    RunInv(Init(n), acts);
  }

  /** While the acceptor joins a thread under the table lock, that thread is past its last use of the
      lock: the join cannot deadlock. */
  lemma {:induction false} JoinedThreadNeedsNoLock(n: nat, acts: seq<Action>)
    requires IsRun(Init(n), acts) && After(Init(n), acts).acceptor.Joins?
    ensures var s := After(Init(n), acts); var i := s.acceptor.i;
            && i < |s.slots| && s.slots[i].handle < |s.threads| && s.lock == Some(Acceptor)
            && (s.threads[s.slots[i].handle].pc.Closing? || s.threads[s.slots[i].handle].pc.Exited?)
  {
    InitInv(n);
    RunInv(Init(n), acts);
  }

  // ---- the lock is always on its way to being released ----

  /** How many steps at most separate the lock from its release. */
  function StepsToRelease(s: State): nat
    requires Inv(s)
  {
    match s.lock
    case None => 0
    case Some(Acceptor) =>
      (match s.acceptor
       case Scans => 4
       case Joins(i) => if HasExited(s, i) then 2 else 3
       case _ => 1)
    case Some(Session(t)) => if s.threads[t].pc.Holding? then 2 else 1
    case Some(Injector(n)) =>
      (match s.injectors[n]
       case Searches => 4
       case WantsWrite(i) => if s.slots[i].writer.None? then 2 else 3
       case _ => 1)
  }

  predicate Approaches(s: State, a: Action)
    requires Inv(s)
  {
    Enabled(s, a) && Inv(Do(s, a)) && StepsToRelease(Do(s, a)) < StepsToRelease(s)
  }

  /** The action that brings the release nearer: the holder's own, or, if the holder waits for an
      ending thread or for another writer, theirs. */
  function NextTowardsRelease(s: State): Action
    requires Inv(s) && s.lock.Some?
  {
    match s.lock.value
    case Acceptor =>
      (match s.acceptor
       case Scans => if FirstInactive(s.slots, 0) < |s.slots| then FindsFree(FirstInactive(s.slots, 0)) else FindsNone
       case Joins(i) => if HasExited(s, i) then JoinReturns else ThreadExits(s.slots[i].handle)
       case Claims(i) => ClaimsSlot
       case _ => FailClears)
    case Session(t) => if s.threads[t].pc.Holding? then ThreadClears(t) else ThreadUnlocks(t)
    case Injector(n) =>
      (match s.injectors[n]
       case Searches => InjectorGivesUp(n)
       case WantsWrite(i) => if s.slots[i].writer.None? then InjectorLocksWrite(n)
           else InjectorDone(s.slots[i].writer.value)
       case _ => InjectorUnlocks(n))
  }

  function FirstInactive(slots: seq<Slot>, i: nat): (r: nat)
    requires i <= |slots|
    ensures i <= r <= |slots|
    ensures r < |slots| ==> !slots[r].active
    ensures forall j :: i <= j < r ==> slots[j].active
    decreases |slots| - i
  {
    if i == |slots| || !slots[i].active then i else FirstInactive(slots, i + 1)
  }

  /** Who takes an action; the thread that waits for the sessions takes no lock. */
  function Actor(a: Action): Option<Holder> {
    match a
    case ThreadLeaves(t) => Some(Session(t))
    case ThreadLocks(t) => Some(Session(t))
    case ThreadClears(t) => Some(Session(t))
    case ThreadUnlocks(t) => Some(Session(t))
    case ThreadExits(t) => Some(Session(t))
    case InjectorAsks(n) => Some(Injector(n))
    case InjectorLocks(n) => Some(Injector(n))
    case InjectorGivesUp(n) => Some(Injector(n))
    case InjectorPicks(n, _) => Some(Injector(n))
    case InjectorLocksWrite(n) => Some(Injector(n))
    case InjectorUnlocks(n) => Some(Injector(n))
    case InjectorDone(n) => Some(Injector(n))
    case WaiterJoins(_) => None
    case _ => Some(Acceptor)
  }

  /** Whatever the holder of the lock does next, it comes nearer to the release. */
  lemma {:induction false} HolderApproaches(s: State, a: Action)
    requires Inv(s) && s.lock.Some? && Enabled(s, a) && Actor(a) == s.lock
    ensures Approaches(s, a)
  {
    KeepsInv(s, a);
  }

  /** Whatever anybody else does, the holder keeps the lock and is no farther from its release. */
  lemma {:induction false} OthersDoNotHinder(s: State, a: Action)
    requires Inv(s) && s.lock.Some? && Enabled(s, a) && Actor(a) != s.lock
    ensures Inv(Do(s, a)) && Do(s, a).lock == s.lock && StepsToRelease(Do(s, a)) <= StepsToRelease(s)
  {
    KeepsInv(s, a);
    if ThreadAction(a) { ThreadsDoNotHinder(s, a); }
    else if InjectorAction(a) { InjectorsDoNotHinder(s, a); }
  }

  lemma {:induction false} ThreadsDoNotHinder(s: State, a: Action)
    requires Inv(s) && s.lock.Some? && Enabled(s, a) && Actor(a) != s.lock && ThreadAction(a) && Inv(Do(s, a))
    ensures Do(s, a).lock == s.lock && StepsToRelease(Do(s, a)) <= StepsToRelease(s)
  {
  }

  lemma {:induction false} InjectorsDoNotHinder(s: State, a: Action)
    requires Inv(s) && s.lock.Some? && Enabled(s, a) && Actor(a) != s.lock && InjectorAction(a) && Inv(Do(s, a))
    ensures Do(s, a).lock == s.lock && StepsToRelease(Do(s, a)) <= StepsToRelease(s)
  {
  }

  /** In every reachable state with the lock held, an action is enabled that brings the release nearer:
      one of the holder's, or the one last action of the thread or the writer it waits for. */
  lemma {:induction false} LockMovesOn(s: State)
    requires Inv(s) && s.lock.Some?
    ensures Approaches(s, NextTowardsRelease(s))
  {
    var a := NextTowardsRelease(s);
    assert Enabled(s, a);
    KeepsInv(s, a);
  }

  /** The help of another is needed only while the holder can do nothing itself. */
  lemma {:induction false} HelpedOnlyIfBlocked(s: State, a: Action)
    requires Inv(s) && s.lock.Some? && Actor(NextTowardsRelease(s)) != s.lock && Enabled(s, a)
    ensures Actor(a) != s.lock
  {
  }

  /** How many actions of a run are the holder's, or help the holder along, while it holds the lock. */
  function Advances(s: State, acts: seq<Action>): nat
    requires Inv(s) && IsRun(s, acts)
    decreases |acts|
  {
    if acts == [] || s.lock.None? then 0
    else
      KeepsInv(s, acts[0]);
      (if Approaches(s, acts[0]) then 1 else 0) + Advances(Do(s, acts[0]), acts[1..])
  }

  predicate HeldThroughout(s: State, acts: seq<Action>)
    requires Inv(s) && IsRun(s, acts)
    decreases |acts|
  {
    s.lock.Some? && (acts == [] || (KeepsInv(s, acts[0]); HeldThroughout(Do(s, acts[0]), acts[1..])))
  }

  /** However the threads are interleaved and whatever they choose: while the lock stays held, at most
      three of the actions taken, the holder's own among them, can go by before it is released. */
  lemma {:induction false} HeldBriefly(s: State, acts: seq<Action>)
    requires Inv(s) && IsRun(s, acts) && HeldThroughout(s, acts)
    ensures Inv(After(s, acts)) && After(s, acts).lock == s.lock
    ensures Advances(s, acts) + StepsToRelease(After(s, acts)) <= StepsToRelease(s) <= 4
    ensures StepsToRelease(After(s, acts)) >= 1
    decreases |acts|
  {
    if acts != [] {
      var a := acts[0];
      KeepsInv(s, a);
      if Actor(a) == s.lock { HolderApproaches(s, a); } else { OthersDoNotHinder(s, a); }
      HeldBriefly(Do(s, a), acts[1..]);
    }
  }

  /** And from every reachable state some continuation of at most four actions frees the lock: no
      deadlock, whoever is waiting. */
  lemma {:induction false} LockCanBeFreed(s: State) returns (acts: seq<Action>)
    requires Inv(s)
    ensures IsRun(s, acts) && |acts| <= StepsToRelease(s) <= 4 && After(s, acts).lock.None?
    decreases StepsToRelease(s)
  {
    if s.lock.None? {
      acts := [];
    } else {
      var a := NextTowardsRelease(s);
      LockMovesOn(s);
      var rest := LockCanBeFreed(Do(s, a));
      acts := [a] + rest;
      assert acts[1..] == rest;
    }
  }

  // ---- sessions begin, are written to and end ----

  predicate SameActs(x: seq<Action>, acts: seq<Action>) { x == acts }

  /** The actions are a run from s to r (LeadsIff); behind a quantifier, to keep the run folded away. */
  ghost predicate Leads(s: State, acts: seq<Action>, r: State) {
    forall x :: SameActs(x, acts) ==> Shaped(s) && IsRun(s, x) && After(s, x) == r
  }

  lemma {:induction false} LeadsIff(s: State, acts: seq<Action>, r: State)
    ensures Leads(s, acts, r) <==> Shaped(s) && IsRun(s, acts) && After(s, acts) == r
  {
    assert SameActs(acts, acts);
  }

  lemma {:induction false} LeadsOn(s: State, a: Action, rest: seq<Action>, r: State)
    requires Shaped(s) && Enabled(s, a) && Leads(Do(s, a), rest, r)
    ensures Leads(s, [a] + rest, r)
  {
    LeadsIff(Do(s, a), rest, r);
    assert ([a] + rest)[1..] == rest;
    LeadsIff(s, [a] + rest, r);
  }

  lemma {:induction false} LeadsNowhere(s: State)
    requires Shaped(s)
    ensures Leads(s, [], s)
  {
    LeadsIff(s, [], s);
  }

  /** Slot i has been claimed, and the acceptor is about to create its thread. */
  function Claimed(s: State, i: nat): State
    requires i < |s.slots|
  {
    SetSlot(s, i, s.slots[i].(active := true, threadCreated := false)).(lock := None, acceptor := Creates(i))
  }

  lemma {:induction false} SlotClaimed(s: State, i: nat) returns (acts: seq<Action>)
    requires Shaped(s) && s.acceptor.Idle? && s.lock.None? && i < 8 && !s.slots[i].active
    requires (forall j :: 0 <= j < i ==> s.slots[j].active) && (s.slots[i].threadCreated ==> HasExited(s, i))
    ensures Leads(s, acts, Claimed(s, i))
  {
    var s1 := Do(s, AcceptorAsks);
    var s2 := Do(s1, AcceptorLocks);
    var s3 := Do(s2, FindsFree(i));
    LeadsNowhere(Claimed(s, i));
    if s.slots[i].threadCreated {
      var s4 := Do(s3, JoinReturns);
      LeadsOn(s4, ClaimsSlot, [], Claimed(s, i));
      LeadsOn(s3, JoinReturns, [ClaimsSlot] + [], Claimed(s, i));
      acts := [JoinReturns] + ([ClaimsSlot] + []);
    } else {
      assert s.slots[i].(active := true) == s.slots[i].(active := true, threadCreated := false);
      LeadsOn(s3, ClaimsSlot, [], Claimed(s, i));
      acts := [ClaimsSlot] + [];
    }
    LeadsOn(s2, FindsFree(i), acts, Claimed(s, i));
    LeadsOn(s1, AcceptorLocks, [FindsFree(i)] + acts, Claimed(s, i));
    LeadsOn(s, AcceptorAsks, [AcceptorLocks] + ([FindsFree(i)] + acts), Claimed(s, i));
    acts := [AcceptorAsks] + ([AcceptorLocks] + ([FindsFree(i)] + acts));
  }

  /** The session has begun: slot i is in use and has a running thread of its own. */
  function Begun(s: State, i: nat): State
    requires i < |s.slots|
  {
    SetSlot(s, i, s.slots[i].(active := true, threadCreated := true, handle := |s.threads|))
      .(threads := s.threads + [Thread(i, Running)], lock := None, acceptor := Idle)
  }

  /** A session can begin whenever the acceptor is idle, the lock is free and a slot is not in use; it takes
      the first such slot, whose last thread, if it had one, must have finished. */
  lemma {:induction false} SessionBegins(s: State, i: nat) returns (acts: seq<Action>)
    requires Shaped(s) && s.acceptor.Idle? && s.lock.None? && i < 8 && !s.slots[i].active
    requires (forall j :: 0 <= j < i ==> s.slots[j].active) && (s.slots[i].threadCreated ==> HasExited(s, i))
    ensures Leads(s, acts, Begun(s, i))
  {
    var c := Claimed(s, i);
    var c1 := Do(c, CreateSucceeds);
    assert Do(c1, StartsThread) == Begun(s, i) by {
      assert Do(c1, StartsThread).threads == Begun(s, i).threads;
      assert Do(c1, StartsThread).slots == Begun(s, i).slots;
    }
    LeadsNowhere(Begun(s, i));
    LeadsOn(c1, StartsThread, [], Begun(s, i));
    LeadsOn(c, CreateSucceeds, [StartsThread] + [], Begun(s, i));
    var first := SlotClaimed(s, i);
    LeadsThen(s, first, c, [CreateSucceeds] + ([StartsThread] + []), Begun(s, i));
    acts := first + ([CreateSucceeds] + ([StartsThread] + []));
  }

  lemma {:induction false} LeadsThen(s: State, xs: seq<Action>, m: State, ys: seq<Action>, r: State)
    requires Leads(s, xs, m) && Leads(m, ys, r)
    ensures Leads(s, xs + ys, r)
    decreases |xs|
  {
    LeadsIff(s, xs, m);
    if xs == [] {
      assert xs + ys == ys;
    } else {
      LeadsIff(Do(s, xs[0]), xs[1..], m);
      LeadsThen(Do(s, xs[0]), xs[1..], m, ys, r);
      LeadsOn(s, xs[0], xs[1..] + ys, r);
      assert [xs[0]] + (xs[1..] + ys) == xs + ys;
    }
  }

  /** If the thread cannot be created, the slot is given back. */
  lemma {:induction false} ClaimGivenBack(s: State, i: nat)
    requires Shaped(s) && s.acceptor == Creates(i) && s.lock.None? && i < 8
    ensures Leads(s, [CreateFails] + ([FailLocks] + ([FailClears] + [])),
                  SetSlot(s, i, s.slots[i].(active := false)).(lock := None, acceptor := Idle))
  {
    var s1 := Do(s, CreateFails);
    var s2 := Do(s1, FailLocks);
    var r := SetSlot(s, i, s.slots[i].(active := false)).(lock := None, acceptor := Idle);
    LeadsNowhere(r);
    LeadsOn(s2, FailClears, [], r);
    LeadsOn(s1, FailLocks, [FailClears] + [], r);
    LeadsOn(s, CreateFails, [FailLocks] + ([FailClears] + []), r);
  }

  /** The session of thread t has ended: its slot is free again, and the thread can be joined. */
  function Ended(s: State, t: nat): State
    requires t < |s.threads| && s.threads[t].slot < |s.slots|
  {
    var i := s.threads[t].slot;
    SetPc(SetSlot(s, i, s.slots[i].(active := false)), t, Exited).(lock := None)
  }

  lemma {:induction false} ThreadClearsSlot(s: State, t: nat)
    requires Shaped(s) && ThreadAt(s, t, Holding)
    ensures Leads(s, [ThreadClears(t)] + ([ThreadUnlocks(t)] + ([ThreadExits(t)] + [])), Ended(s, t))
  {
    var s1 := Do(s, ThreadClears(t));
    var s2 := Do(s1, ThreadUnlocks(t));
    assert Do(s2, ThreadExits(t)).threads == Ended(s, t).threads;
    LeadsNowhere(Ended(s, t));
    LeadsOn(s2, ThreadExits(t), [], Ended(s, t));
    LeadsOn(s1, ThreadUnlocks(t), [ThreadExits(t)] + [], Ended(s, t));
    LeadsOn(s, ThreadClears(t), [ThreadUnlocks(t)] + ([ThreadExits(t)] + []), Ended(s, t));
  }

  /** A running session can end whenever the lock is free. */
  lemma {:induction false} SessionEnds(s: State, t: nat) returns (acts: seq<Action>)
    requires Shaped(s) && ThreadAt(s, t, Running) && s.lock.None?
    ensures Leads(s, acts, Ended(s, t))
  {
    var s1 := Do(s, ThreadLeaves(t));
    var s2 := Do(s1, ThreadLocks(t));
    assert Ended(s2, t).threads == Ended(s, t).threads;
    ThreadClearsSlot(s2, t);
    acts := [ThreadClears(t)] + ([ThreadUnlocks(t)] + ([ThreadExits(t)] + []));
    LeadsOn(s1, ThreadLocks(t), acts, Ended(s, t));
    LeadsOn(s, ThreadLeaves(t), [ThreadLocks(t)] + acts, Ended(s, t));
    acts := [ThreadLeaves(t)] + ([ThreadLocks(t)] + acts);
  }

  /** The slot of an ended session can be used again: its thread can be joined. */
  lemma {:induction false} EndedCanBeJoined(s: State, t: nat)
    requires Inv(s) && ThreadAt(s, t, Running)
    ensures var i, r := s.threads[t].slot, Ended(s, t); !r.slots[i].active && HasExited(r, i)
  {
  }

  /** Injector n is writing to the session in slot i; the table lock is free again, the write lock is its own. */
  function Writing(s: State, n: nat, i: nat): State
    requires n < |s.injectors| && i < |s.slots|
  {
    SetInjector(SetSlot(s, i, s.slots[i].(writer := Some(n))), n, Writes(i)).(lock := None)
  }

  lemma {:induction false} WriteBegins(s: State, n: nat, i: nat)
    requires Shaped(s) && n < |s.injectors| && s.injectors[n] == WantsWrite(i) && i < 8 && s.slots[i].writer.None?
    ensures Leads(s, [InjectorLocksWrite(n)] + ([InjectorUnlocks(n)] + []), Writing(s, n, i))
  {
    var s1 := Do(s, InjectorLocksWrite(n));
    assert Do(s1, InjectorUnlocks(n)).injectors == Writing(s, n, i).injectors;
    LeadsNowhere(Writing(s, n, i));
    LeadsOn(s1, InjectorUnlocks(n), [], Writing(s, n, i));
    LeadsOn(s, InjectorLocksWrite(n), [InjectorUnlocks(n)] + [], Writing(s, n, i));
  }

  /** What comes from the relay can be written to an active session nobody else writes to, whenever the lock is
      free. */
  lemma {:induction false} SessionWritten(s: State, n: nat, i: nat) returns (acts: seq<Action>)
    requires Shaped(s) && s.lock.None? && n < |s.injectors| && s.injectors[n].Away?
    requires i < 8 && s.slots[i].active && s.slots[i].writer.None?
    ensures Leads(s, acts, Writing(s, n, i))
  {
    var w := Writing(s, n, i);
    var s1 := Do(s, InjectorAsks(n));
    var s2 := Do(s1, InjectorLocks(n));
    var s3 := Do(s2, InjectorPicks(n, i));
    assert Writing(s3, n, i).injectors == w.injectors;
    WriteBegins(s3, n, i);
    acts := [InjectorLocksWrite(n)] + ([InjectorUnlocks(n)] + []);
    LeadsOn(s2, InjectorPicks(n, i), acts, w);
    LeadsOn(s1, InjectorLocks(n), [InjectorPicks(n, i)] + acts, w);
    LeadsOn(s, InjectorAsks(n), [InjectorLocks(n)] + ([InjectorPicks(n, i)] + acts), w);
    acts := [InjectorAsks(n)] + ([InjectorLocks(n)] + ([InjectorPicks(n, i)] + acts));
  }

  /** Afterwards everything is as before. */
  lemma {:induction false} WriteLeavesNoTrace(s: State, n: nat, i: nat)
    requires Shaped(s) && s.lock.None? && n < |s.injectors| && s.injectors[n].Away? && i < 8 && s.slots[i].writer.None?
    ensures var w := Writing(s, n, i); Enabled(w, InjectorDone(n)) && Do(w, InjectorDone(n)) == s
  {
    var w := Writing(s, n, i);
    assert Do(w, InjectorDone(n)).slots == s.slots && Do(w, InjectorDone(n)).injectors == s.injectors;
  }

  /** A stopped acceptor joins the threads that have finished, and starts again when none is left. */
  lemma {:induction false} AcceptorRestarts(s: State)
    requires Shaped(s) && s.acceptor.Stopped?
    ensures forall i: nat :: HasExited(s, i) ==>
      Enabled(s, WaiterJoins(i)) && !Do(s, WaiterJoins(i)).slots[i].threadCreated
    ensures Enabled(s, Restarts) <==> forall i :: 0 <= i < 8 ==> !s.slots[i].threadCreated
    ensures Enabled(s, Restarts) ==> Do(s, Restarts) == s.(acceptor := Idle)
  {
  }

  /** The scan finds the first slot not in use, and gives up only if all eight are. */
  lemma {:induction false} ScanFindsFirst(s: State, i: nat)
    requires Shaped(s) && s.acceptor.Scans?
    ensures Enabled(s, FindsFree(i)) <==> i < 8 && !s.slots[i].active && forall j: nat :: j < i ==> s.slots[j].active
    ensures Enabled(s, FindsNone) <==> forall j: nat :: j < 8 ==> s.slots[j].active
  {
  }
}
