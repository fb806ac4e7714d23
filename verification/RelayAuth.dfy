/** The authentication exchange of the relay: when a challenge is made and sent, when a login starts to
    wait, and that a client can get through. */
module RelayAuth {
  import opened Bytes
  import opened Relay
  import opened RelayRuns

  // ---- one event ----

  /** The challenge of object p; one that does not exist yet has none. */
  function ChallengeOf(s: Server, p: nat): Challenge { if p < |s.objects| then s.objects[p].challenge else NoChallenge }

  /** The peer object a message is for. */
  function Receiver(s: Server, e: Event): nat
    requires Valid(s) && e.Message?
  {
    Register(s, e.from, e.now).peers[e.from].peer
  }

  predicate HasUser(s: Server, p: nat) { p < |s.objects| && s.objects[p].user.Some? }

  /** A message that is no login request, from a peer without a user, to a server that asks for one. */
  predicate Demands(s: Server, e: Event, p: nat)
    requires Valid(s)
  {
    s.auth && Registers(e) && e.msg[0] % 128 != 4 && Receiver(s, e) == p && !HasUser(s, p)
  }

  lemma {:induction false} ReceiverIs(s: Server, e: Event)
    requires Valid(s) && e.Message?
    ensures var m, p := Register(s, e.from, e.now), Receiver(s, e);
      && p < |m.objects| && m.objects[p].addr == e.from && m.auth == s.auth && m.logins == s.logins
      && (m.objects[p].user.Some? <==> HasUser(s, p)) && forall q :: ChallengeOf(m, q) == ChallengeOf(s, q)
  {
    RegisterEffect(s, e.from, e.now);
  }

  lemma {:induction false} NeedAuthChallenge(m: Server, p: nat, ty: byte, payload: seq<byte>, q: nat)
    requires Valid(m) && p < |m.objects|
    ensures var r := OnNeedAuth(m, p, ty, payload);
      && ChallengeOf(r.server, q) == (if ty != 4 && q == p && ChallengeOf(m, q).NoChallenge? then Filling
                                      else ChallengeOf(m, q))
      && r.sends == (if ty != 4 && m.objects[p].challenge.Ready? then
                       multiset{Send(m.objects[p].addr, [4, 0] + m.objects[p].challenge.random)} else multiset{})
  {
  }

  lemma {:induction false} DispatchChallenge(m: Server, p: nat, ty: byte, payload: seq<byte>, now: int, q: nat)
    requires Valid(m) && p < |m.objects|
    ensures ChallengeOf(Dispatch(m, p, ty, payload, now).server, q) ==
      if m.auth && m.objects[p].user.None? && ty != 4 && q == p && ChallengeOf(m, q).NoChallenge? then Filling
      else ChallengeOf(m, q)
  {
    if m.auth && m.objects[p].user.None? {
      NeedAuthChallenge(m, p, ty, payload, q);
    } else {
      PacketEffect(m, p, ty, payload, now);
    }
  }

  lemma {:induction false} MessageChallenge(s: Server, e: Event, q: nat)
    requires Valid(s) && Registers(e)
    ensures ChallengeOf(Step(s, e).server, q) ==
      if Demands(s, e, q) && ChallengeOf(s, q).NoChallenge? then Filling else ChallengeOf(s, q)
  {
    MessageStep(s, e);
    ReceiverIs(s, e);
    DispatchChallenge(Register(s, e.from, e.now), Receiver(s, e), e.msg[0] % 128, e.msg[1..], e.now, q);
  }

  lemma {:induction false} LoginChallenge(s: Server, l: Login, verdict: Verdict, q: nat)
    requires Valid(s)
    ensures ChallengeOf(OnLogin(s, l, verdict).server, q) == ChallengeOf(s, q)
  {
  }

  /** A challenge begins with the first such message and is filled by the first random bytes for it. */
  lemma {:induction false} ChallengeStep(s: Server, e: Event, q: nat)
    requires Valid(s)
    ensures ChallengeOf(Step(s, e).server, q) ==
      if Demands(s, e, q) && ChallengeOf(s, q).NoChallenge? then Filling
      else if e.RandomReady? && e.peer == q && ChallengeOf(s, q).Filling? then Ready(e.random)
      else ChallengeOf(s, q)
  {
    if Registers(e) {
      MessageChallenge(s, e, q);
    } else if e.LoginChecked? {
      LoginChallenge(s, e.login, e.verdict, q);
    }
  }

  // ---- every history ----

  /** Event i was a message, no login request, for object p, which no login had been granted to. */
  ghost predicate DemandedAt(auth: bool, es: seq<Event>, i: int, p: nat) {
    && 0 <= i < |es| && auth && Registers(es[i]) && es[i].msg[0] % 128 != 4
    && Receiver(RunServer(auth, es[..i]), es[i]) == p && forall j :: j < i ==> !GrantedAt(auth, es, j, p)
  }

  /** Event j brought random bytes for object p, which a message had been demanded of before. */
  ghost predicate FilledAt(auth: bool, es: seq<Event>, j: int, p: nat) {
    0 <= j < |es| && es[j].RandomReady? && es[j].peer == p && exists i :: i < j && DemandedAt(auth, es, i, p)
  }

  lemma {:induction false} HasUserIff(auth: bool, es: seq<Event>, p: nat)
    ensures HasUser(RunServer(auth, es), p) <==> exists j :: GrantedAt(auth, es, j, p)
  {
    if p < |RunServer(auth, es).objects| {
      UserIffGranted(auth, es, p);
    } else if j :| GrantedAt(auth, es, j, p) {
      GrantedExists(auth, es, j, p);
    }
  }

  lemma {:induction false} GrantedBefore(auth: bool, es: seq<Event>, i: nat, j: int, p: nat)
    requires i <= |es| && j < i
    ensures GrantedAt(auth, es, j, p) <==> GrantedAt(auth, es[..i], j, p)
  {
    if 0 <= j { assert es[..i][..j] == es[..j]; }
  }

  lemma {:induction false} DemandedIff(auth: bool, es: seq<Event>, i: nat, p: nat)
    requires i < |es|
    ensures DemandedAt(auth, es, i, p) <==> Demands(RunServer(auth, es[..i]), es[i], p)
  {
    HasUserIff(auth, es[..i], p);
    forall j | j < i ensures GrantedAt(auth, es, j, p) <==> GrantedAt(auth, es[..i], j, p) {
      GrantedBefore(auth, es, i, j, p);
    }
    if HasUser(RunServer(auth, es[..i]), p) {
      var j :| GrantedAt(auth, es[..i], j, p);
      assert GrantedAt(auth, es, j, p);
    }
  }

  // ---- the challenge along a history ----

  /** What the next event makes of a challenge. */
  function NextChallenge(demand: bool, fill: Option<seq<byte>>, c: Challenge): Challenge {
    if demand && c.NoChallenge? then Filling
    else if fill.Some? && c.Filling? then Ready(fill.value)
    else c
  }

  predicate Follows(demands: seq<bool>, fills: seq<Option<seq<byte>>>, cs: seq<Challenge>) {
    && |cs| == |demands| + 1 == |fills| + 1 && cs[0] == NoChallenge
    && forall n :: 0 <= n < |demands| ==> cs[n + 1] == NextChallenge(demands[n], fills[n], cs[n])
  }

  lemma {:induction false} Begun(demands: seq<bool>, fills: seq<Option<seq<byte>>>, cs: seq<Challenge>, n: nat)
    requires Follows(demands, fills, cs) && n <= |demands|
    ensures cs[n].NoChallenge? <==> forall i :: 0 <= i < n ==> !demands[i]
  {
    if n > 0 { Begun(demands, fills, cs, n - 1); }
  }

  /** Fill j comes after a demand. */
  predicate Fills(demands: seq<bool>, fills: seq<Option<seq<byte>>>, j: int)
    requires |demands| == |fills|
  {
    0 <= j < |fills| && fills[j].Some? && exists i :: 0 <= i < j && demands[i]
  }

  lemma {:induction false} Filled(demands: seq<bool>, fills: seq<Option<seq<byte>>>, cs: seq<Challenge>, n: nat)
    requires Follows(demands, fills, cs) && n <= |demands|
    ensures cs[n].Ready? <==> exists j :: j < n && Fills(demands, fills, j)
    ensures forall j :: j < n && Fills(demands, fills, j) && (forall k :: k < j ==> !Fills(demands, fills, k)) ==>
      cs[n] == Ready(fills[j].value)
  {
    if n > 0 {
      var m := n - 1;
      Filled(demands, fills, cs, m);
      Begun(demands, fills, cs, m);
      assert Fills(demands, fills, m) <==> fills[m].Some? && !cs[m].NoChallenge?;
      assert cs[n] == NextChallenge(demands[m], fills[m], cs[m]);
    }
  }

  ghost function DemandTrace(auth: bool, es: seq<Event>, p: nat): (r: seq<bool>)
    ensures |r| == |es| && forall i :: 0 <= i < |es| ==> r[i] == DemandedAt(auth, es, i, p)
  {
    seq(|es|, i requires 0 <= i < |es| => DemandedAt(auth, es, i, p))
  }

  function FillTrace(es: seq<Event>, p: nat): (r: seq<Option<seq<byte>>>)
    ensures |r| == |es|
  {
    seq(|es|, i requires 0 <= i < |es| =>
      if es[i].RandomReady? && es[i].peer == p then Some(es[i].random) else None)
  }

  ghost function ChallengeTrace(auth: bool, es: seq<Event>, p: nat): (r: seq<Challenge>)
    ensures |r| == |es| + 1
  {
    seq(|es| + 1, n requires 0 <= n <= |es| => ChallengeOf(RunServer(auth, es[..n]), p))
  }

  lemma {:induction false} TraceStep(auth: bool, es: seq<Event>, p: nat, n: nat)
    requires n < |es|
    ensures ChallengeTrace(auth, es, p)[n + 1] ==
      NextChallenge(DemandTrace(auth, es, p)[n], FillTrace(es, p)[n], ChallengeTrace(auth, es, p)[n])
  {
    assert es[..n + 1][..n] == es[..n];
    DemandedIff(auth, es, n, p);
    ChallengeStep(RunServer(auth, es[..n]), es[n], p);
  }

  lemma {:induction false} TraceFollows(auth: bool, es: seq<Event>, p: nat)
    ensures Follows(DemandTrace(auth, es, p), FillTrace(es, p), ChallengeTrace(auth, es, p))
    ensures ChallengeTrace(auth, es, p)[|es|] == ChallengeOf(RunServer(auth, es), p)
  {
    assert es[..|es|] == es;
    forall n | 0 <= n < |es|
      ensures ChallengeTrace(auth, es, p)[n + 1] ==
        NextChallenge(DemandTrace(auth, es, p)[n], FillTrace(es, p)[n], ChallengeTrace(auth, es, p)[n])
    {
      TraceStep(auth, es, p, n);
    }
  }

  /** In every history a peer object has a challenge if and only if a message that is no login request came
      for it while no login had been granted to it. */
  lemma {:induction false} ChallengedIff(auth: bool, es: seq<Event>, p: nat)
    ensures !ChallengeOf(RunServer(auth, es), p).NoChallenge? <==>
      exists i :: 0 <= i < |es| && DemandedAt(auth, es, i, p)
  {
    var ds := DemandTrace(auth, es, p);
    TraceFollows(auth, es, p);
    Begun(ds, FillTrace(es, p), ChallengeTrace(auth, es, p), |es|);
    assert forall i :: 0 <= i < |es| ==> ds[i] == DemandedAt(auth, es, i, p);
  }

  lemma {:induction false} FilledIsFills(auth: bool, es: seq<Event>, j: int, p: nat)
    ensures FilledAt(auth, es, j, p) <==> Fills(DemandTrace(auth, es, p), FillTrace(es, p), j)
  {
    var ds := DemandTrace(auth, es, p);
    if i :| i < j && DemandedAt(auth, es, i, p) && FilledAt(auth, es, j, p) { assert ds[i]; }
    if Fills(ds, FillTrace(es, p), j) {
      var i :| 0 <= i < j && ds[i];
      assert DemandedAt(auth, es, i, p);
    }
  }

  /** Event j was the first to bring random bytes for the challenge of object p. */
  ghost predicate FirstFilledAt(auth: bool, es: seq<Event>, j: int, p: nat) {
    FilledAt(auth, es, j, p) && forall k :: k < j ==> !FilledAt(auth, es, k, p)
  }

  /** And the challenge is filled if and only if random bytes have come for it since; it holds the first. */
  lemma {:induction false} ReadyIff(auth: bool, es: seq<Event>, p: nat)
    ensures ChallengeOf(RunServer(auth, es), p).Ready? <==> exists j :: FilledAt(auth, es, j, p)
    ensures forall j :: FirstFilledAt(auth, es, j, p) ==>
      ChallengeOf(RunServer(auth, es), p) == Ready(es[j].random)
  {
    var ds, fs := DemandTrace(auth, es, p), FillTrace(es, p);
    TraceFollows(auth, es, p);
    Filled(ds, fs, ChallengeTrace(auth, es, p), |es|);
    forall j ensures FilledAt(auth, es, j, p) <==> Fills(ds, fs, j) { FilledIsFills(auth, es, j, p); }
    forall j | FirstFilledAt(auth, es, j, p) ensures fs[j] == Some(es[j].random) { }
  }

  // ---- what is answered ----

  /** A message that is no login request, from a sender no login has been granted to, is answered with the
      challenge of its peer object once that is filled, and until then with nothing. */
  lemma {:induction false} DemandAnswered(es: seq<Event>, e: Event)
    requires Registers(e) && e.msg[0] % 128 != 4
    requires var p := Receiver(RunServer(true, es), e); forall j :: !GrantedAt(true, es, j, p)
    ensures var s := RunServer(true, es); var c := ChallengeOf(s, Receiver(s, e));
      Step(s, e).sends == if c.Ready? then multiset{Send(e.from, [4, 0] + c.random)} else multiset{}
  {
    var s := RunServer(true, es);
    var p := Receiver(s, e);
    HasUserIff(true, es, p);
    MessageStep(s, e);
    ReceiverIs(s, e);
    NeedAuthChallenge(Register(s, e.from, e.now), p, e.msg[0] % 128, e.msg[1..], p);
  }

  /** Random bytes that fill a challenge are sent to its peer at once, and others are ignored. */
  lemma {:induction false} FillAnswered(auth: bool, es: seq<Event>, p: nat, random: seq<byte>)
    ensures var s := RunServer(auth, es); var r := Step(s, RandomReady(p, random));
      if ChallengeOf(s, p).Filling? then r.sends == multiset{Send(s.objects[p].addr, [4, 0] + random)}
      else r == Result(s, multiset{})
  {
  }

  /** A login request of a sender no login has been granted to starts to wait if and only if there is a
      challenge and a user name behind the twenty bytes of the response; nothing is sent. */
  lemma {:induction false} LoginStarts(es: seq<Event>, e: Event)
    requires Registers(e) && e.msg[0] % 128 == 4
    requires var p := Receiver(RunServer(true, es), e); forall j :: !GrantedAt(true, es, j, p)
    ensures var s := RunServer(true, es); var p, r := Receiver(s, e), Step(s, e);
      && r.sends == multiset{}
      && r.server.logins == s.logins +
         if !ChallengeOf(s, p).NoChallenge? && |e.msg| > 21 then multiset{Login(p, e.msg[1..21], e.msg[21..])}
         else multiset{}
  {
    var s := RunServer(true, es);
    HasUserIff(true, es, Receiver(s, e));
    MessageStep(s, e);
    ReceiverIs(s, e);
    if |e.msg| > 21 { assert e.msg[1..][..20] == e.msg[1..21] && e.msg[1..][20..] == e.msg[21..]; }
  }

  /** The answer of the provider: a wrong password is reported twice, another failure once, success not at
      all; only success changes the peer, and it gives it the user name of the request. */
  lemma {:induction false} LoginReported(s: Server, l: Login, verdict: Verdict)
    requires Valid(s) && l in s.logins
    ensures var r, peer := Step(s, LoginChecked(l, verdict)), s.objects[l.peer];
      var info := Send(peer.addr, [16]);
      && r.server.logins == s.logins - multiset{l}
      && r.server.objects == (if verdict.Granted? then s.objects[l.peer := peer.(user := Some(l.username))]
                              else s.objects)
      && r.sends == (match verdict
                     case Granted => multiset{}
                     case WrongPassword => multiset{info, info}
                     case Failed => multiset{info})
  {
  }

  /** A plain ping is answered with its first four bytes and leaves no trace. */
  lemma {:induction false} PingAnswered(s: Server, from: Addr, rest: seq<byte>, now: int)
    requires Valid(s)
    ensures Step(s, Message(from, [2] + rest, now)) == Result(s, multiset{Send(from, [2] + rest[..Min(3, |rest|)])})
  {
    assert ([2] + rest)[..Min(4, 1 + |rest|)] == [2] + rest[..Min(3, |rest|)];
  }

  // ---- a client gets in ----

  /** The exchange: some message, the random bytes, the response, the verdict. */
  function Exchange(a: Addr, msg: seq<byte>, random: seq<byte>, response: seq<byte>, username: seq<byte>, t: int,
    t': int): seq<Event>
  {
    [Message(a, msg, t), RandomReady(0, random), Message(a, [4] + response + username, t'),
     LoginChecked(Login(0, response, username), Granted)]
  }

  /** The server during the exchange. */
  function Joining(a: Addr, c: Challenge, user: Option<seq<byte>>, t: int, logins: multiset<Login>): Server {
    Server(true, [Peer(a, user, c)], map[a := Entry(0, t + 30_000)], map[], logins)
  }

  lemma {:induction false} FirstMessage(a: Addr, msg: seq<byte>, t: int)
    requires |msg| > 0 && msg[0] != 2 && msg[0] % 128 != 4
    ensures Step(Fresh(true), Message(a, msg, t)) == Result(Joining(a, Filling, None, t, multiset{}), multiset{})
  {
  }

  lemma {:induction false} RandomComes(a: Addr, random: seq<byte>, t: int)
    ensures Step(Joining(a, Filling, None, t, multiset{}), RandomReady(0, random)) ==
      Result(Joining(a, Ready(random), None, t, multiset{}), multiset{Send(a, [4, 0] + random)})
  {
  }

  lemma {:induction false} ResponseComes(a: Addr, random: seq<byte>, response: seq<byte>, username: seq<byte>, t: int,
    t': int)
    requires |response| == 20 && |username| > 0
    ensures Step(Joining(a, Ready(random), None, t, multiset{}), Message(a, [4] + response + username, t')) ==
      Result(Joining(a, Ready(random), None, t', multiset{Login(0, response, username)}), multiset{})
  {
    var msg := [4] + response + username;
    assert msg[1..] == response + username && msg[1..][..20] == response && msg[1..][20..] == username;
  }

  lemma {:induction false} GrantComes(a: Addr, random: seq<byte>, response: seq<byte>, username: seq<byte>, t: int)
    ensures var l := Login(0, response, username);
      Step(Joining(a, Ready(random), None, t, multiset{l}), LoginChecked(l, Granted)) ==
      Result(Joining(a, Ready(random), Some(username), t, multiset{}), multiset{})
  {
  }

  lemma {:induction false} RunOn(es: seq<Event>, n: nat)
    requires n < |es|
    ensures RunServer(true, es[..n + 1]) == Step(RunServer(true, es[..n]), es[n]).server
  {
    assert es[..n + 1][..n] == es[..n];
  }

  /** From a fresh server, whoever the client is and whatever it first sends but a ping or a login request:
      the challenge is sent to it once, when it is filled, and after its login is granted its packets are
      accepted. */
  lemma {:induction false} ClientGetsIn(a: Addr, msg: seq<byte>, random: seq<byte>, response: seq<byte>,
    username: seq<byte>, t: int, t': int, e: Event)
    requires |msg| > 0 && msg[0] != 2 && msg[0] % 128 != 4 && |response| == 20 && |username| > 0
    requires CarriesPacket(e) && e.from == a
    ensures var es := Exchange(a, msg, random, response, username, t, t');
      && Step(RunServer(true, es[..0]), es[0]).sends == multiset{}
      && Step(RunServer(true, es[..1]), es[1]).sends == multiset{Send(a, [4, 0] + random)}
      && Step(RunServer(true, es[..2]), es[2]).sends == multiset{}
      && Step(RunServer(true, es[..3]), es[3]).sends == multiset{}
      && Accepts(RunServer(true, es), e)
  {
    var es := Exchange(a, msg, random, response, username, t, t');
    assert es[..0] == [] && es[..4] == es;
    FirstMessage(a, msg, t);
    RunOn(es, 0);
    RandomComes(a, random, t);
    RunOn(es, 1);
    ResponseComes(a, random, response, username, t, t');
    RunOn(es, 2);
    GrantComes(a, random, response, username, t');
    RunOn(es, 3);
  }
}
