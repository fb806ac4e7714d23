/** What the relay guarantees over every run of messages, timer ticks, logins and send errors. */
module RelayRuns {
  import opened Bytes
  import opened Relay

  ghost function RunServer(auth: bool, es: seq<Event>): (s: Server)
    ensures Valid(s) && s.auth == auth
  {
    if es == [] then Fresh(auth) else
      var r := Step(RunServer(auth, es[..|es| - 1]), es[|es| - 1]);
      StepKeepsAuth(RunServer(auth, es[..|es| - 1]), es[|es| - 1]);
      r.server
  }

  lemma {:induction false} StepKeepsAuth(s: Server, e: Event)
    requires Valid(s)
    ensures Step(s, e).server.auth == s.auth
  {
    if e.Message? && |e.msg| > 0 && e.msg[0] != TYPE_PING {
      var m := Register(s, e.from, e.now);
      OnMessageServes(s, e.from, e.msg, e.now);
      DispatchKeepsAuth(m, m.peers[e.from].peer, e.msg[0] % 128, e.msg[1..], e.now);
    }
  }

  lemma {:induction false} DispatchKeepsAuth(s: Server, p: nat, ty: byte, payload: seq<byte>, now: int)
    requires Valid(s) && p < |s.objects|
    ensures Dispatch(s, p, ty, payload, now).server.auth == s.auth
  {
  }

  // ---- the history, without the tables ----

  /** A message that makes its sender a registered peer: anything but an empty one or a plain ping. */
  predicate Registers(e: Event) {
    e.Message? && |e.msg| > 0 && e.msg[0] != 2
  }

  /** A message that carries a forwardable IPv4 packet or fragment. */
  predicate CarriesPacket(e: Event) {
    e.Message? && |e.msg| > 21 && (e.msg[0] % 128 == 1 || e.msg[0] % 128 == 3)
  }

  function Source(e: Event): Ip
    requires CarriesPacket(e)
  {
    if e.msg[0] % 128 == 1 then e.msg[13..17] else e.msg[1..5]
  }

  function Destination(e: Event): Ip
    requires CarriesPacket(e)
  {
    if e.msg[0] % 128 == 1 then e.msg[17..21] else e.msg[5..9]
  }

  /** The peer registered under this address has logged in. */
  predicate LoggedIn(s: Server, a: Addr)
    requires Valid(s)
  {
    a in s.peers && s.objects[s.peers[a].peer].user.Some?
  }

  /** The packet gets past the auth gate. */
  predicate Accepts(s: Server, e: Event)
    requires Valid(s)
  {
    CarriesPacket(e) && (s.auth ==> LoggedIn(s, e.from))
  }

  datatype Seen = Seen(addr: Addr, at: int)

  function SpeakerAfter(s: Server, before: Option<Seen>, e: Event, ip: Ip): Option<Seen>
    requires Valid(s)
  {
    if Accepts(s, e) && Source(e) == ip then Some(Seen(e.from, e.now))
    else if e.Tick? && before.Some? && before.value.at + 30_000 < e.now then None
    else before
  }

  /** Who last spoke with source address ip, and when, unless a tick has outdated it since. */
  ghost function LastSpeaker(auth: bool, es: seq<Event>, ip: Ip): Option<Seen> {
    if es == [] then None
    else SpeakerAfter(RunServer(auth, es[..|es| - 1]), LastSpeaker(auth, es[..|es| - 1], ip), es[|es| - 1], ip)
  }

  function ContactAfter(before: Option<int>, e: Event, a: Addr): Option<int> {
    if Registers(e) && e.from == a then Some(e.now)
    else if e == SendError(a) then None
    else if e.Tick? && before.Some? && before.value + 30_000 < e.now then None
    else before
  }

  /** When the address was last heard from, unless a tick has outdated it or a send to it failed. */
  ghost function LastContact(es: seq<Event>, a: Addr): Option<int> {
    if es == [] then None else ContactAfter(LastContact(es[..|es| - 1], a), es[|es| - 1], a)
  }

  // ---- one message ----

  lemma {:induction false} RegisterEffect(s: Server, a: Addr, now: int)
    requires Valid(s)
    ensures var r := Register(s, a, now);
            && r.ipCache == s.ipCache && r.auth == s.auth && r.logins == s.logins
            && r.peers.Keys == s.peers.Keys + {a} && r.peers[a].expireAt == now + TIMEOUT
            && (forall b :: b in s.peers && b != a ==> r.peers[b] == s.peers[b])
            && s.objects <= r.objects && r.objects[r.peers[a].peer].addr == a
            && (LoggedIn(r, a) <==> LoggedIn(s, a))
  {
  }

  /** A message that registers its sender, in one equation. */
  lemma {:induction false} MessageStep(s: Server, e: Event)
    requires Valid(s) && Registers(e)
    ensures var m := Register(s, e.from, e.now);
            Step(s, e) == Dispatch(m, m.peers[e.from].peer, e.msg[0] % 128, e.msg[1..], e.now)
  {
  }

  /** An accepted packet is learned, then forwarded. */
  lemma {:induction false} AcceptedStep(s: Server, e: Event)
    requires Valid(s) && Accepts(s, e)
    ensures var m := Register(s, e.from, e.now);
            Step(s, e) == Forward(m, m.peers[e.from].peer, e.msg[0] % 128, e.msg[1..], Source(e), Destination(e), e.now)
  {
    MessageStep(s, e);
    RegisterEffect(s, e.from, e.now);
    assert e.msg[1..][12..16] == e.msg[13..17] && e.msg[1..][16..20] == e.msg[17..21];
    assert e.msg[1..][0..4] == e.msg[1..5] && e.msg[1..][4..8] == e.msg[5..9];
  }

  /** The peers table is the same whatever becomes of the message, and only a login request adds a login. */
  lemma {:induction false} DispatchEffect(m: Server, p: nat, ty: byte, payload: seq<byte>, now: int)
    requires Valid(m) && p < |m.objects|
    ensures var r := Dispatch(m, p, ty, payload, now).server;
            && r.peers == m.peers && SameUsers(m.objects, r.objects)
            && (r.logins == m.logins ||
                (ty == TYPE_AUTH_ME && |payload| > 20 &&
                    r.logins == m.logins + multiset{Login(p, payload[..20], payload[20..])}))
  {
    if m.auth && m.objects[p].user.None? { NeedAuthEffect(m, p, ty, payload); }
        else { PacketEffect(m, p, ty, payload, now); }
  }

  lemma {:induction false} NeedAuthEffect(m: Server, p: nat, ty: byte, payload: seq<byte>)
    requires Valid(m) && p < |m.objects|
    ensures var r := OnNeedAuth(m, p, ty, payload).server;
            && r.peers == m.peers && SameUsers(m.objects, r.objects)
            && (r.logins == m.logins ||
                (ty == TYPE_AUTH_ME && |payload| > 20 &&
                    r.logins == m.logins + multiset{Login(p, payload[..20], payload[20..])}))
  {
    if ty != TYPE_AUTH_ME && m.objects[p].challenge.NoChallenge? {
      assert OnNeedAuth(m, p, ty, payload).server.objects == m.objects[p := m.objects[p].(challenge := Filling)];
    }
  }

  lemma {:induction false} PacketEffect(m: Server, p: nat, ty: byte, payload: seq<byte>, now: int)
    requires Valid(m) && p < |m.objects|
    ensures var r := OnPacket(m, p, ty, payload, now).server;
      r.peers == m.peers && r.objects == m.objects && r.logins == m.logins
  {
    if ty == TYPE_IPV4 && |payload| > 20 {
      ForwardEffect(m, p, ty, payload, payload[12..16], payload[16..20], now);
    } else if ty == TYPE_IPV4_FRAG && |payload| > 20 {
      ForwardEffect(m, p, ty, payload, payload[0..4], payload[4..8], now);
    }
  }

  lemma {:induction false} ForwardEffect(m: Server, p: nat, ty: byte, payload: seq<byte>, src: Ip, dst: Ip, now: int)
    requires Valid(m) && p < |m.objects|
    ensures var r := Forward(m, p, ty, payload, src, dst, now).server;
      r.peers == m.peers && r.objects == m.objects && r.logins == m.logins
  {
  }

  lemma {:induction false} DispatchUnaccepted(m: Server, p: nat, ty: byte, payload: seq<byte>, now: int)
    requires Valid(m) && p < |m.objects|
    requires |payload| <= 20 || (ty != TYPE_IPV4 && ty != TYPE_IPV4_FRAG) || (m.auth && m.objects[p].user.None?)
    ensures var r := Dispatch(m, p, ty, payload, now);
            r.server.ipCache == m.ipCache && forall x :: x in r.sends ==>
                x.to == m.objects[p].addr && x.bytes[..1] == [TYPE_AUTH_ME]
  {
  }

  lemma {:induction false} MessageEffect(s: Server, e: Event)
    requires Valid(s) && Registers(e)
    ensures var m := Register(s, e.from, e.now); var r := Step(s, e).server;
            && r.peers == m.peers && SameUsers(m.objects, r.objects)
            && (r.logins == s.logins ||
                (e.msg[0] % 128 == TYPE_AUTH_ME && |e.msg| > 21 &&
                 r.logins == s.logins + multiset{Login(m.peers[e.from].peer, e.msg[1..][..20], e.msg[1..][20..])}))
  {
    var m := Register(s, e.from, e.now);
    DispatchEffect(m, m.peers[e.from].peer, e.msg[0] % 128, e.msg[1..], e.now);
  }

  /** Any other message leaves the learned addresses alone and is answered to its sender at most. */
  lemma {:induction false} UnacceptedStep(s: Server, e: Event)
    requires Valid(s) && Registers(e) && !Accepts(s, e)
    ensures Step(s, e).server.ipCache == s.ipCache
    ensures forall x :: x in Step(s, e).sends ==> x.to == e.from && x.bytes[..1] == [TYPE_AUTH_ME]
  {
    var m := Register(s, e.from, e.now);
    RegisterEffect(s, e.from, e.now);
    DispatchUnaccepted(m, m.peers[e.from].peer, e.msg[0] % 128, e.msg[1..], e.now);
  }

  // ---- last speaker wins ----

  ghost predicate CacheSays(s: Server, ip: Ip, seen: Option<Seen>)
    requires Valid(s)
  {
    match seen
    case None => ip !in s.ipCache
    case Some(w) =>
      ip in s.ipCache && s.objects[s.ipCache[ip].peer].addr == w.addr && s.ipCache[ip].expireAt == w.at + 30_000
  }

  lemma {:induction false} CacheStep(s: Server, e: Event, ip: Ip, before: Option<Seen>)
    requires Valid(s) && CacheSays(s, ip, before)
    ensures CacheSays(Step(s, e).server, ip, SpeakerAfter(s, before, e, ip))
  {
    if Registers(e) {
      if Accepts(s, e) { CacheAccepted(s, e, ip, before); } else { CacheUnaccepted(s, e, ip, before); }
    } else if e.LoginChecked? {
      CacheLogin(s, e.login, e.verdict, ip, before);
    } else {
      CacheOther(s, e, ip, before);
    }
  }

  lemma {:induction false} CacheLogin(s: Server, l: Login, verdict: Verdict, ip: Ip, before: Option<Seen>)
    requires Valid(s) && CacheSays(s, ip, before)
    ensures CacheSays(OnLogin(s, l, verdict).server, ip, before)
  {
  }

  lemma {:induction false} CacheOther(s: Server, e: Event, ip: Ip, before: Option<Seen>)
    requires Valid(s) && CacheSays(s, ip, before) && !Registers(e) && !e.LoginChecked?
    ensures CacheSays(Step(s, e).server, ip, SpeakerAfter(s, before, e, ip))
  {
  }

  lemma {:induction false} CacheAccepted(s: Server, e: Event, ip: Ip, before: Option<Seen>)
    requires Valid(s) && CacheSays(s, ip, before) && Accepts(s, e)
    ensures CacheSays(Step(s, e).server, ip, SpeakerAfter(s, before, e, ip))
  {
    RegisterEffect(s, e.from, e.now);
    AcceptedStep(s, e);
  }

  lemma {:induction false} CacheUnaccepted(s: Server, e: Event, ip: Ip, before: Option<Seen>)
    requires Valid(s) && CacheSays(s, ip, before) && Registers(e) && !Accepts(s, e)
    ensures CacheSays(Step(s, e).server, ip, before)
  {
    RegisterEffect(s, e.from, e.now);
    MessageEffect(s, e);
    UnacceptedStep(s, e);
    assert forall i :: 0 <= i < |s.objects| ==>
      Step(s, e).server.objects[i].addr == Register(s, e.from, e.now).objects[i].addr;
  }

  /** ipCache[ip] is the peer of the most recent accepted packet from ip, unless a tick expired it. */
  lemma {:induction false} LastSpeakerWins(auth: bool, es: seq<Event>, ip: Ip)
    ensures CacheSays(RunServer(auth, es), ip, LastSpeaker(auth, es, ip))
  {
    if es != [] {
      var p := es[..|es| - 1];
      LastSpeakerWins(auth, p, ip);
      CacheStep(RunServer(auth, p), es[|es| - 1], ip, LastSpeaker(auth, p, ip));
    }
  }

  predicate PeersSay(s: Server, a: Addr, contact: Option<int>) {
    (a in s.peers <==> contact.Some?) && (contact.Some? ==> s.peers[a].expireAt == contact.value + 30_000)
  }

  lemma {:induction false} PeersStep(s: Server, e: Event, a: Addr, before: Option<int>)
    requires Valid(s) && PeersSay(s, a, before)
    ensures PeersSay(Step(s, e).server, a, ContactAfter(before, e, a))
  {
    if Registers(e) {
      PeersMessageStep(s, e, a, before);
    }
  }

  lemma {:induction false} PeersMessageStep(s: Server, e: Event, a: Addr, before: Option<int>)
    requires Valid(s) && PeersSay(s, a, before) && Registers(e)
    ensures PeersSay(Step(s, e).server, a, ContactAfter(before, e, a))
  {
    RegisterEffect(s, e.from, e.now);
    MessageEffect(s, e);
  }

  /** A peer is registered exactly while it has been heard from recently and no send to it failed. */
  lemma {:induction false} RegisteredIffHeard(auth: bool, es: seq<Event>, a: Addr)
    ensures PeersSay(RunServer(auth, es), a, LastContact(es, a))
  {
    if es != [] {
      var p := es[..|es| - 1];
      RegisteredIffHeard(auth, p, a);
      PeersStep(RunServer(auth, p), es[|es| - 1], a, LastContact(p, a));
    }
  }

  // ---- where packets go ----

  /** Every accepted packet goes once to whoever last spoke as its destination, the sender itself
      counting as a speaker; otherwise once to every other peer that is still being heard from. */
  lemma {:induction false} ForwardedTo(auth: bool, es: seq<Event>, e: Event)
    requires Accepts(RunServer(auth, es), e)
    ensures var sends := Step(RunServer(auth, es), e).sends;
            var owner := LastSpeaker(auth, es + [e], Destination(e));
            var bytes := [e.msg[0] % 128] + e.msg[1..];
            && (owner.Some? ==> sends == multiset{Send(owner.value.addr, bytes)})
            && (owner.None? ==>
                  && (forall a :: sends[Send(a, bytes)] == if a != e.from && LastContact(es, a).Some? then 1 else 0)
                  && (forall x :: x in sends ==> x.bytes == bytes))
  {
    var s := RunServer(auth, es);
    var es' := es + [e];
    assert es'[..|es'| - 1] == es;
    RegisterEffect(s, e.from, e.now);
    AcceptedStep(s, e);
    LastSpeakerWins(auth, es', Destination(e));
    forall a ensures a in s.peers <==> LastContact(es, a).Some? {
      RegisteredIffHeard(auth, es, a);
    }
  }

  /** A packet addressed to its own source comes back to its sender. */
  lemma {:induction false} SelfAddressedEchoes(auth: bool, es: seq<Event>, e: Event)
    requires Accepts(RunServer(auth, es), e) && Source(e) == Destination(e)
    ensures Step(RunServer(auth, es), e).sends == multiset{Send(e.from, [e.msg[0] % 128] + e.msg[1..])}
  {
    ForwardedTo(auth, es, e);
    assert (es + [e])[..|es|] == es;
  }

  // ---- the auth gate ----

  predicate SameUsers(before: seq<Peer>, after: seq<Peer>) {
    |before| == |after| && forall i :: 0 <= i < |before| ==>
        before[i].addr == after[i].addr && before[i].user == after[i].user
  }

  /** e asks for the login l. */
  predicate LoginRequest(e: Event, l: Login) {
    Registers(e) && |e.msg| > 21 && e.msg[0] % 128 == 4 && e.msg[1..] == l.response + l.username
  }

  /** e grants a login that was waiting, of peer object p. */
  predicate Grants(s: Server, e: Event, p: nat) {
    e.LoginChecked? && e.verdict.Granted? && e.login in s.logins && e.login.peer == p
  }

  lemma {:induction false} OtherEffect(s: Server, e: Event)
    requires Valid(s) && !Registers(e)
    ensures var s' := Step(s, e).server;
            && |s'.objects| == |s.objects| && s'.logins <= s.logins
            && (forall p :: 0 <= p < |s.objects| ==>
                (s'.objects[p].user.Some? <==> s.objects[p].user.Some? || Grants(s, e, p)))
  {
    if e.LoginChecked? { LoginEffect(s, e.login, e.verdict); }
  }

  lemma {:induction false} LoginEffect(s: Server, l: Login, verdict: Verdict)
    requires Valid(s)
    ensures var s' := OnLogin(s, l, verdict).server;
            && |s'.objects| == |s.objects| && s'.logins <= s.logins
            && (forall p :: 0 <= p < |s.objects| ==>
                  (s'.objects[p].user.Some? <==> s.objects[p].user.Some? || Grants(s, LoginChecked(l, verdict), p)))
  {
  }

  /** A peer object has a user from the moment a login of its own is granted. */
  lemma {:induction false} UsersStep(s: Server, e: Event, p: nat)
    requires Valid(s) && p < |Step(s, e).server.objects|
    ensures |s.objects| <= |Step(s, e).server.objects|
    ensures Step(s, e).server.objects[p].user.Some? <==> (p < |s.objects| && s.objects[p].user.Some?) || Grants(s, e, p)
  {
    if Registers(e) {
      RegisterEffect(s, e.from, e.now);
      MessageEffect(s, e);
      assert Register(s, e.from, e.now).objects[|s.objects|..] == [] ||
             Register(s, e.from, e.now).objects[|s.objects|..] == [Peer(e.from, None, NoChallenge)];
    } else {
      OtherEffect(s, e);
    }
  }

  /** A login that starts to wait was asked for by the peer object of the sender. */
  lemma {:induction false} LoginsStep(s: Server, e: Event, l: Login)
    requires Valid(s) && l in Step(s, e).server.logins && l !in s.logins
    ensures LoginRequest(e, l) && e.from in Step(s, e).server.peers && Step(s, e).server.peers[e.from].peer == l.peer
  {
    if Registers(e) {
      RegisterEffect(s, e.from, e.now);
      MessageEffect(s, e);
      assert e.msg[1..][..20] + e.msg[1..][20..] == e.msg[1..];
    } else {
      OtherEffect(s, e);
    }
  }

  /** Event i of the history asked for the login l; from then on the sender's entry is l's peer object. */
  ghost predicate AskedAt(auth: bool, es: seq<Event>, i: int, l: Login) {
    && 0 <= i < |es| && LoginRequest(es[i], l)
    && var s := RunServer(auth, es[..i + 1]); es[i].from in s.peers && s.peers[es[i].from].peer == l.peer
  }

  /** Event j of the history granted a login of peer object p. */
  ghost predicate GrantedAt(auth: bool, es: seq<Event>, j: int, p: nat) {
    0 <= j < |es| && Grants(RunServer(auth, es[..j]), es[j], p)
  }

  lemma {:induction false} Prefixes(es: seq<Event>, i: nat)
    requires es != [] && i < |es|
    ensures es[..|es| - 1][..i] == es[..i] && (i < |es| - 1 ==> es[..|es| - 1][..i + 1] == es[..i + 1])
  {
  }

  lemma {:induction false} GrantedAtPrefix(auth: bool, es: seq<Event>, j: int, p: nat)
    requires es != []
    ensures GrantedAt(auth, es, j, p) <==>
      GrantedAt(auth, es[..|es| - 1], j, p) ||
          (j == |es| - 1 && Grants(RunServer(auth, es[..|es| - 1]), es[|es| - 1], p))
  {
    if 0 <= j < |es| { Prefixes(es, j); }
  }

  lemma {:induction false} AskedAtPrefix(auth: bool, es: seq<Event>, i: int, l: Login)
    requires es != [] && AskedAt(auth, es[..|es| - 1], i, l)
    ensures AskedAt(auth, es, i, l)
  {
    Prefixes(es, i);
  }

  /** Only logins of objects that exist are granted. */
  lemma {:induction false} GrantedExists(auth: bool, es: seq<Event>, j: int, p: nat)
    requires GrantedAt(auth, es, j, p)
    ensures p < |RunServer(auth, es).objects|
  {
    GrantedAtPrefix(auth, es, j, p);
    var s, e := RunServer(auth, es[..|es| - 1]), es[|es| - 1];
    if j < |es| - 1 { GrantedExists(auth, es[..|es| - 1], j, p); }
    ObjectsGrow(s, e);
  }

  lemma {:induction false} ObjectsGrow(s: Server, e: Event)
    requires Valid(s)
    ensures |s.objects| <= |Step(s, e).server.objects|
  {
    if Registers(e) {
      RegisterEffect(s, e.from, e.now);
      MessageEffect(s, e);
    } else {
      OtherEffect(s, e);
    }
  }

  /** In every history a peer object has a user exactly if a login of its own was granted. */
  lemma {:induction false} UserIffGranted(auth: bool, es: seq<Event>, p: nat)
    requires p < |RunServer(auth, es).objects|
    ensures RunServer(auth, es).objects[p].user.Some? <==> exists j :: GrantedAt(auth, es, j, p)
  {
    var pre, e := es[..|es| - 1], es[|es| - 1];
    var s := RunServer(auth, pre);
    UsersStep(s, e, p);
    if p < |s.objects| { UserIffGranted(auth, pre, p); }
    if Grants(s, e, p) { GrantedAtPrefix(auth, es, |es| - 1, p); }
    if j :| GrantedAt(auth, pre, j, p) {
      GrantedAtPrefix(auth, es, j, p);
      GrantedExists(auth, pre, j, p);
    }
    if j :| GrantedAt(auth, es, j, p) { GrantedAtPrefix(auth, es, j, p); }
  }

  lemma {:induction false} WaitingWasAsked(auth: bool, es: seq<Event>, l: Login)
    requires l in RunServer(auth, es).logins
    ensures exists i :: AskedAt(auth, es, i, l)
  {
    var pre, e := es[..|es| - 1], es[|es| - 1];
    var s := RunServer(auth, pre);
    if l in s.logins {
      WaitingWasAsked(auth, pre, l);
      var i :| AskedAt(auth, pre, i, l);
      AskedAtPrefix(auth, es, i, l);
    } else {
      LoginsStep(s, e, l);
      assert es[..|es| - 1 + 1] == es;
      assert AskedAt(auth, es, |es| - 1, l);
    }
  }

  /** The registration entry of a refers to an object whose login was asked for, and then granted. */
  ghost predicate LoginGranted(auth: bool, es: seq<Event>, a: Addr) {
    var s := RunServer(auth, es);
    a in s.peers && exists i, j :: i < j && GrantedAt(auth, es, j, s.peers[a].peer) && AskedAt(auth, es, i, es[j].login)
  }

  lemma {:induction false} GrantWasAsked(auth: bool, es: seq<Event>, j: int, p: nat) returns (i: int)
    requires GrantedAt(auth, es, j, p)
    ensures i < j && AskedAt(auth, es, i, es[j].login)
  {
    WaitingWasAsked(auth, es[..j], es[j].login);
    i :| AskedAt(auth, es[..j], i, es[j].login);
    AskedEarlier(auth, es, j, i, es[j].login);
  }

  lemma {:induction false} AskedEarlier(auth: bool, es: seq<Event>, j: nat, i: int, l: Login)
    requires j <= |es| && AskedAt(auth, es[..j], i, l)
    ensures AskedAt(auth, es, i, l)
  {
    assert es[..j][..i + 1] == es[..i + 1];
  }

  /** The entry of an address stays with its object or passes to a new one, and objects keep their address. */
  lemma {:induction false} EntryStep(s: Server, e: Event, a: Addr)
    requires Valid(s)
    ensures var s' := Step(s, e).server;
      && |s.objects| <= |s'.objects| && (forall p :: 0 <= p < |s.objects| ==> s'.objects[p].addr == s.objects[p].addr)
      && (a in s'.peers ==>
          if a in s.peers then s'.peers[a].peer == s.peers[a].peer else s'.peers[a].peer >= |s.objects|)
  {
    if Registers(e) {
      RegisterEffect(s, e.from, e.now);
      MessageEffect(s, e);
    } else if e.LoginChecked? {
      LoginKeepsPeers(s, e.login, e.verdict);
    }
  }

  lemma {:induction false} LoginKeepsPeers(s: Server, l: Login, verdict: Verdict)
    requires Valid(s)
    ensures var s' := OnLogin(s, l, verdict).server;
      && s'.peers == s.peers && |s'.objects| == |s.objects|
      && forall p :: 0 <= p < |s.objects| ==> s'.objects[p].addr == s.objects[p].addr
  {
  }

  /** Once the address has been unregistered, its entry never again refers to an object made before. */
  lemma {:induction false} ForgottenForGood(auth: bool, es: seq<Event>, k: nat, a: Addr, p: nat)
    requires k <= |es| && a !in RunServer(auth, es[..k]).peers && p < |RunServer(auth, es[..k]).objects|
    ensures var s := RunServer(auth, es); p < |s.objects| && (a in s.peers ==> s.peers[a].peer != p)
    decreases |es|
  {
    if k == |es| {
      assert es[..k] == es;
    } else {
      var pre := es[..|es| - 1];
      assert pre[..k] == es[..k];
      ForgottenForGood(auth, pre, k, a, p);
      EntryStep(RunServer(auth, pre), es[|es| - 1], a);
    }
  }

  /** An object keeps the address it was made for. */
  lemma {:induction false} AddressStays(auth: bool, es: seq<Event>, k: nat, p: nat)
    requires k <= |es| && p < |RunServer(auth, es[..k]).objects|
    ensures var s := RunServer(auth, es);
      p < |s.objects| && s.objects[p].addr == RunServer(auth, es[..k]).objects[p].addr
    decreases |es|
  {
    if k == |es| {
      assert es[..k] == es;
    } else {
      var pre := es[..|es| - 1];
      assert pre[..k] == es[..k];
      AddressStays(auth, pre, k, p);
      EntryStep(RunServer(auth, pre), es[|es| - 1], "");
    }
  }

  /** From event i on the address was registered all the time: heard from in time, and no send failed. */
  ghost predicate RegisteredSince(es: seq<Event>, i: int, a: Addr) {
    forall k :: i < k <= |es| ==> Registered(es, k, a)
  }

  ghost predicate Registered(es: seq<Event>, k: int, a: Addr) {
    0 <= k <= |es| && LastContact(es[..k], a).Some?
  }

  lemma {:induction false} RegisteredIff(auth: bool, es: seq<Event>, k: nat, a: Addr)
    requires k <= |es|
    ensures Registered(es, k, a) <==> a in RunServer(auth, es[..k]).peers
  {
    RegisteredIffHeard(auth, es[..k], a);
  }

  /** While the address stays registered its entry refers to the same object. */
  lemma {:induction false} EntryStays(auth: bool, es: seq<Event>, i: nat, a: Addr)
    requires i < |es| && RegisteredSince(es, i, a)
    ensures a in RunServer(auth, es[..i + 1]).peers && a in RunServer(auth, es).peers
    ensures RunServer(auth, es).peers[a].peer == RunServer(auth, es[..i + 1]).peers[a].peer
    decreases |es|
  {
    assert Registered(es, i + 1, a);
    RegisteredIff(auth, es, i + 1, a);
    if i + 1 == |es| {
      assert es[..i + 1] == es;
    } else {
      var pre := es[..|es| - 1];
      assert pre[..i + 1] == es[..i + 1] && es[..|es|] == es;
      forall k | i < k <= |pre| ensures Registered(pre, k, a) { assert Registered(es, k, a) && pre[..k] == es[..k]; }
      EntryStays(auth, pre, i, a);
      assert Registered(es, |es|, a);
      RegisteredIff(auth, es, |es|, a);
      EntryStep(RunServer(auth, pre), es[|es| - 1], a);
    }
  }

  /** Event i asked from a for a login, event j granted it, and a has been registered ever since i. */
  ghost predicate LoginHeld(auth: bool, es: seq<Event>, i: int, j: int, a: Addr) {
    && 0 <= i < j < |es| && es[j].LoginChecked? && GrantedAt(auth, es, j, es[j].login.peer)
    && AskedAt(auth, es, i, es[j].login) && es[i].from == a && RegisteredSince(es, i, a)
  }

  /** What LoginGranted says of object positions, said of the history. */
  lemma {:induction false} GrantedIsHeld(auth: bool, es: seq<Event>, i: int, j: int, a: Addr)
    requires i < j && a in RunServer(auth, es).peers
    requires GrantedAt(auth, es, j, RunServer(auth, es).peers[a].peer) && AskedAt(auth, es, i, es[j].login)
    ensures LoginHeld(auth, es, i, j, a)
  {
    var p := es[j].login.peer;
    AddressStays(auth, es, i + 1, p);
    forall k | i < k <= |es| ensures Registered(es, k, a) {
      StillThere(auth, es, i + 1, k, a, p);
    }
  }

  /** An object the entry refers to now was not forgotten at any moment since it was made. */
  lemma {:induction false} StillThere(auth: bool, es: seq<Event>, i: nat, k: nat, a: Addr, p: nat)
    requires i <= k <= |es| && p < |RunServer(auth, es[..i]).objects|
    requires a in RunServer(auth, es).peers && RunServer(auth, es).peers[a].peer == p
    ensures Registered(es, k, a)
  {
    assert es[..k][..i] == es[..i];
    AddressStays(auth, es[..k], i, p);
    RegisteredIff(auth, es, k, a);
    if a !in RunServer(auth, es[..k]).peers { ForgottenForGood(auth, es, k, a, p); }
  }

  lemma {:induction false} HeldIsGranted(auth: bool, es: seq<Event>, i: int, j: int, a: Addr)
    requires LoginHeld(auth, es, i, j, a)
    ensures LoginGranted(auth, es, a)
  {
    EntryStays(auth, es, i, a);
  }

  /** With an auth provider a packet is accepted exactly if its sender has asked for a login that was
      granted and has been registered ever since it asked: a login from before the entry expired, or was
      dropped, counts no more. */
  lemma {:induction false} AcceptedIffLogin(es: seq<Event>, e: Event)
    requires CarriesPacket(e)
    ensures Accepts(RunServer(true, es), e) <==> exists i, j :: LoginHeld(true, es, i, j, e.from)
  {
    AcceptedIffGranted(es, e);
    if LoginGranted(true, es, e.from) {
      var p := RunServer(true, es).peers[e.from].peer;
      var i, j :| i < j && GrantedAt(true, es, j, p) && AskedAt(true, es, i, es[j].login);
      GrantedIsHeld(true, es, i, j, e.from);
    }
    if i, j :| LoginHeld(true, es, i, j, e.from) { HeldIsGranted(true, es, i, j, e.from); }
  }

  lemma {:induction false} AcceptedIffGranted(es: seq<Event>, e: Event)
    requires CarriesPacket(e)
    ensures Accepts(RunServer(true, es), e) <==> LoginGranted(true, es, e.from)
  {
    var s := RunServer(true, es);
    if e.from in s.peers {
      var p := s.peers[e.from].peer;
      UserIffGranted(true, es, p);
      if j :| GrantedAt(true, es, j, p) {
        var i := GrantWasAsked(true, es, j, p);
      }
    }
  }

  /** What is not accepted is neither learned nor passed on to anyone else. */
  lemma {:induction false} UnacceptedGoesNowhere(auth: bool, es: seq<Event>, e: Event)
    requires e.Message? && !Accepts(RunServer(auth, es), e)
    ensures var s := RunServer(auth, es); var r := Step(s, e);
            r.server.ipCache == s.ipCache && forall x :: x in r.sends ==> x.to == e.from
  {
    var s := RunServer(auth, es);
    if Registers(e) {
      RegisterEffect(s, e.from, e.now);
      UnacceptedStep(s, e);
    }
  }

  // ---- learned peers stay registered ----

  predicate Timed(e: Event) {
    e.Message? || e.Tick?
  }

  /** The clock never runs backwards. */
  predicate Ordered(es: seq<Event>) {
    forall i, j :: 0 <= i < j < |es| && Timed(es[i]) && Timed(es[j]) ==> es[i].now <= es[j].now
  }

  /** A send to the address has failed since it was last heard from. */
  ghost predicate FailedSince(es: seq<Event>, a: Addr) {
    es != [] && FailedAfter(FailedSince(es[..|es| - 1], a), es[|es| - 1], a)
  }

  predicate FailedAfter(before: bool, e: Event, a: Addr) {
    !(Registers(e) && e.from == a) && (e == SendError(a) || before)
  }

  lemma {:induction false} SpeakerInThePast(auth: bool, es: seq<Event>, ip: Ip, now: int)
    requires forall i :: 0 <= i < |es| && Timed(es[i]) ==> es[i].now <= now
    ensures LastSpeaker(auth, es, ip).Some? ==> LastSpeaker(auth, es, ip).value.at <= now
  {
    if es != [] {
      SpeakerInThePast(auth, es[..|es| - 1], ip, now);
    }
  }

  /** The contact with the speaker is no older than what it said. */
  predicate ContactCovers(w: Option<Seen>, a: Addr, failed: bool, contact: Option<int>) {
    w.Some? && w.value.addr == a && !failed ==> contact.Some? && contact.value >= w.value.at
  }

  lemma {:induction false} ContactCoversStep(s: Server, e: Event, ip: Ip, a: Addr, w: Option<Seen>, failed: bool,
    contact: Option<int>)
    requires Valid(s) && ContactCovers(w, a, failed, contact)
    requires Timed(e) && w.Some? ==> w.value.at <= e.now
    ensures ContactCovers(SpeakerAfter(s, w, e, ip), a, FailedAfter(failed, e, a), ContactAfter(contact, e, a))
  {
  }

  /** Absent send errors the owner of a learned address is still registered: its peer entry never
      expires before the address does. */
  lemma {:induction false} LearnedIsRegistered(auth: bool, es: seq<Event>, ip: Ip, a: Addr)
    requires Ordered(es)
    ensures ContactCovers(LastSpeaker(auth, es, ip), a, FailedSince(es, a), LastContact(es, a))
  {
    if es != [] {
      var p, e := es[..|es| - 1], es[|es| - 1];
      LearnedIsRegistered(auth, p, ip, a);
      if Timed(e) { SpeakerInThePast(auth, p, ip, e.now); }
      ContactCoversStep(RunServer(auth, p), e, ip, a, LastSpeaker(auth, p, ip), FailedSince(p, a), LastContact(p, a));
    }
  }

  lemma {:induction false} LearnedPeersRegistered(auth: bool, es: seq<Event>, ip: Ip)
    requires Ordered(es) && ip in RunServer(auth, es).ipCache
    ensures var s := RunServer(auth, es); var owner := s.objects[s.ipCache[ip].peer].addr;
            owner in s.peers || FailedSince(es, owner)
  {
    LastSpeakerWins(auth, es, ip);
    var owner := RunServer(auth, es).objects[RunServer(auth, es).ipCache[ip].peer].addr;
    LearnedIsRegistered(auth, es, ip, owner);
    RegisteredIffHeard(auth, es, owner);
  }
}
