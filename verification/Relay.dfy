/** The relay server of server/src/udpserver.ts: a learning switch over UDP peers. */
module Relay {
  import opened Bytes

  const TIMEOUT: int := 30000
  const TYPE_PING: byte := 2
  const TYPE_AUTH_ME: byte := 4
  const TYPE_INFO: byte := 16

  /** addr2str: the "address:port" of a peer. */
  type Addr = string

  datatype Challenge = NoChallenge | Filling | Ready(random: seq<byte>)

  /** class Peer. Objects are shared between the two tables and outlive their table entries, so the
      server state keeps them in one list and refers to them by position. */
  datatype Peer = Peer(addr: Addr, user: Option<seq<byte>>, challenge: Challenge)

  /** An entry of either table. */
  datatype Entry = Entry(peer: nat, expireAt: int)

  /** A login being checked by the auth provider. */
  datatype Login = Login(peer: nat, response: seq<byte>, username: seq<byte>)

  datatype Verdict = Granted | WrongPassword | Failed

  datatype Server = Server(
    auth: bool,
    objects: seq<Peer>,
    peers: map<Addr, Entry>,
    ipCache: map<Ip, Entry>,
    logins: multiset<Login>)

  datatype Send = Send(to: Addr, bytes: seq<byte>)

  datatype Event =
    | Message(from: Addr, msg: seq<byte>, now: int)
    | RandomReady(peer: nat, random: seq<byte>)
    | LoginChecked(login: Login, verdict: Verdict)
    | Tick(now: int)
    | SendError(addr: Addr)

  datatype Result = Result(server: Server, sends: multiset<Send>)

  /** Table entries refer to existing objects, and a peer is registered under its own address. */
  predicate Valid(s: Server) {
    && (forall a :: a in s.peers ==> s.peers[a].peer < |s.objects| && s.objects[s.peers[a].peer].addr == a)
    && (forall ip :: ip in s.ipCache ==> s.ipCache[ip].peer < |s.objects|)
    && (forall l :: l in s.logins ==> l.peer < |s.objects|)
  }

  function Fresh(auth: bool): (s: Server)
    ensures Valid(s)
  {
    Server(auth, [], map[], map[], multiset{})
  }

  /** clearCacheItem */
  function Unexpired<K>(m: map<K, Entry>, now: int): map<K, Entry> {
    map k | k in m && m[k].expireAt >= now :: m[k]
  }

  /** PeerManager.get: look the peer up, or create it, and restart its timeout. */
  function Register(s: Server, a: Addr, now: int): (r: Server)
    requires Valid(s)
    ensures Valid(r) && a in r.peers
  {
    if a in s.peers then
      s.(peers := s.peers[a := s.peers[a].(expireAt := now + TIMEOUT)])
    else
      s.(objects := s.objects + [Peer(a, None, NoChallenge)],
         peers := s.peers[a := Entry(|s.objects|, now + TIMEOUT)])
  }

  /** sendBroadcast: one copy to every registered peer but the sender. */
  ghost function Broadcast(peers: map<Addr, Entry>, except: Addr, bytes: seq<byte>): multiset<Send> {
    multiset(set a | a in peers && a != except :: Send(a, bytes))
  }

  /** The common tail of onIpv4 and onIpv4Frag: learn the source, then look up the destination. */
  ghost function Forward(s: Server, p: nat, ty: byte, payload: seq<byte>, src: Ip, dst: Ip, now: int): (r: Result)
    requires Valid(s) && p < |s.objects|
    ensures Valid(r.server)
  {
    var s' := s.(ipCache := s.ipCache[src := Entry(p, now + TIMEOUT)]);
    if dst in s'.ipCache then
      Result(s', multiset{Send(s'.objects[s'.ipCache[dst].peer].addr, [ty] + payload)})
    else
      Result(s', Broadcast(s'.peers, s.objects[p].addr, [ty] + payload))
  }

  ghost function OnPacket(s: Server, p: nat, ty: byte, payload: seq<byte>, now: int): (r: Result)
    requires Valid(s) && p < |s.objects|
    ensures Valid(r.server)
  {
    if ty == TYPE_IPV4 && |payload| > 20 then
      Forward(s, p, ty, payload, payload[12..16], payload[16..20], now)
    else if ty == TYPE_IPV4_FRAG && |payload| > 20 then
      Forward(s, p, ty, payload, payload[0..4], payload[4..8], now)
    else
      Result(s, multiset{})
  }

  /** onNeedAuth, up to its first await. */
  ghost function OnNeedAuth(s: Server, p: nat, ty: byte, payload: seq<byte>): (r: Result)
    requires Valid(s) && p < |s.objects|
    ensures Valid(r.server)
  {
    var peer := s.objects[p];
    if ty == TYPE_AUTH_ME then
      if peer.challenge.NoChallenge? || |payload| <= 20 then Result(s, multiset{})
      else Result(s.(logins := s.logins + multiset{Login(p, payload[..20], payload[20..])}), multiset{})
    else
      match peer.challenge
      case NoChallenge => Result(s.(objects := s.objects[p := peer.(challenge := Filling)]), multiset{})
      case Filling => Result(s, multiset{})
      case Ready(random) => Result(s, multiset{Send(peer.addr, [TYPE_AUTH_ME, 0] + random)})
  }

  /** What onMessage does once it has the peer: the auth gate. */
  ghost function Dispatch(s: Server, p: nat, ty: byte, payload: seq<byte>, now: int): (r: Result)
    requires Valid(s) && p < |s.objects|
    ensures Valid(r.server)
  {
    if s.auth && s.objects[p].user.None? then OnNeedAuth(s, p, ty, payload) else OnPacket(s, p, ty, payload, now)
  }

  ghost function OnMessage(s: Server, from: Addr, msg: seq<byte>, now: int): (r: Result)
    requires Valid(s)
    ensures Valid(r.server)
  {
    if |msg| == 0 then Result(s, multiset{})
    else if msg[0] == TYPE_PING then Result(s, multiset{Send(from, msg[..Min(4, |msg|)])})
    else
      var s' := Register(s, from, now);
      Dispatch(s', s'.peers[from].peer, msg[0] % 128, msg[1..], now)
  }

  lemma {:induction false} OnMessageServes(s: Server, from: Addr, msg: seq<byte>, now: int)
    requires Valid(s) && msg != [] && msg[0] != TYPE_PING
    ensures var s' := Register(s, from, now);
      OnMessage(s, from, msg, now) == Dispatch(s', s'.peers[from].peer, msg[0] % 128, msg[1..], now)
  {
  }

  /** The end of onNeedAuth, once the random bytes are there. */
  ghost function OnRandom(s: Server, p: nat, random: seq<byte>): (r: Result)
    requires Valid(s)
    ensures Valid(r.server)
  {
    if p < |s.objects| && s.objects[p].challenge.Filling? then
      Result(s.(objects := s.objects[p := s.objects[p].(challenge := Ready(random))]),
             multiset{Send(s.objects[p].addr, [TYPE_AUTH_ME, 0] + random)})
    else Result(s, multiset{})
  }

  /** A wrong password is reported twice, any other failure once. */
  function LoginReports(verdict: Verdict): nat {
    match verdict
    case Granted => 0
    case WrongPassword => 2
    case Failed => 1
  }

  ghost function InfoTo(a: Addr, n: nat): multiset<Send> {
    multiset{}[Send(a, [TYPE_INFO]) := n]
  }

  /** The end of onNeedAuth, once the provider has answered. Info texts are left out of the model. */
  ghost function OnLogin(s: Server, l: Login, verdict: Verdict): (r: Result)
    requires Valid(s)
    ensures Valid(r.server)
  {
    if l in s.logins then
      var peer := s.objects[l.peer];
      var s' := s.(logins := s.logins - multiset{l});
      if verdict.Granted? then Result(s'.(objects := s.objects[l.peer := peer.(user := Some(l.username))]), multiset{})
      else Result(s', InfoTo(peer.addr, LoginReports(verdict)))
    else Result(s, multiset{})
  }

  /** One event. An answer nobody is waiting for changes nothing. */
  ghost function Step(s: Server, e: Event): (r: Result)
    requires Valid(s)
    ensures Valid(r.server)
  {
    match e
    case Message(from, msg, now) => OnMessage(s, from, msg, now)
    case RandomReady(p, random) => OnRandom(s, p, random)
    case LoginChecked(l, verdict) => OnLogin(s, l, verdict)
    case Tick(now) => Result(s.(peers := Unexpired(s.peers, now), ipCache := Unexpired(s.ipCache, now)), multiset{})
    case SendError(a) => Result(s.(peers := s.peers - {a}), multiset{})
  }

  lemma {:induction false} GrantedLogin(s: Server, l: Login)
    requires Valid(s) && l in s.logins
    ensures var peer := s.objects[l.peer];
      Step(s, LoginChecked(l, Granted)) ==
      Result(Server(s.auth, s.objects[l.peer := peer.(user := Some(l.username))], s.peers, s.ipCache,
                    s.logins - multiset{l}), multiset([]))
  {
  }

  lemma {:induction false} WrongLogin(s: Server, l: Login)
    requires Valid(s) && l in s.logins
    ensures var x := Send(s.objects[l.peer].addr, [TYPE_INFO]);
      Step(s, LoginChecked(l, WrongPassword)) ==
      Result(Server(s.auth, s.objects, s.peers, s.ipCache, s.logins - multiset{l}), multiset([x, x]))
  {
  }

  lemma {:induction false} FailedLogin(s: Server, l: Login)
    requires Valid(s) && l in s.logins
    ensures var x := Send(s.objects[l.peer].addr, [TYPE_INFO]);
      Step(s, LoginChecked(l, Failed)) ==
      Result(Server(s.auth, s.objects, s.peers, s.ipCache, s.logins - multiset{l}), multiset([x]))
  {
  }

  /** The server object itself: two mutable maps, the peer objects, and the loops over them. */
  class SLPServer {
    const auth: bool
    var objects: seq<Peer>
    var peers: map<Addr, Entry>
    var ipCache: map<Ip, Entry>
    ghost var logins: multiset<Login>

    ghost function Model(): Server reads this {
      Server(auth, objects, peers, ipCache, logins)
    }

    constructor (auth: bool)
      ensures Valid(Model()) && Model() == Fresh(auth)
    {
      this.auth, objects, peers, ipCache, logins := auth, [], map[], map[], multiset{};
    }

    /** clearCacheItem: delete while iterating. */
    static method ClearCacheItem<K(==)>(m: map<K, Entry>, now: int) returns (r: map<K, Entry>)
      ensures r == Unexpired(m, now)
    {
      r := m;
      var todo := m.Keys;
      while todo != {}
        invariant todo <= m.Keys && r.Keys <= m.Keys
        invariant forall k :: k in r ==> r[k] == m[k]
        invariant forall k :: k in m ==> (k in r <==> k in todo || m[k].expireAt >= now)
        decreases |todo|
      {
        var k :| k in todo;
        todo := todo - {k};
        if m[k].expireAt < now {
          r := r - {k};
        }
      }
    }

    method ClearExpire(now: int)
      requires Valid(Model())
      modifies this
      ensures Valid(Model()) && Model() == Step(old(Model()), Tick(now)).server
    {
      peers := ClearCacheItem(peers, now);
      ipCache := ClearCacheItem(ipCache, now);
    }

    method Get(a: Addr, now: int) returns (p: nat)
      requires Valid(Model())
      modifies this
      ensures Valid(Model()) && Model() == Register(old(Model()), a, now)
      ensures a in peers && p == peers[a].peer
    {
      if a !in peers {
        objects := objects + [Peer(a, None, NoChallenge)];
        peers := peers[a := Entry(|objects| - 1, now + TIMEOUT)];
      } else {
        peers := peers[a := peers[a].(expireAt := now + TIMEOUT)];
      }
      p := peers[a].peer;
    }

    method SendBroadcast(except: Addr, bytes: seq<byte>) returns (sent: seq<Send>)
      requires Valid(Model())
      ensures multiset(sent) == Broadcast(peers, except, bytes)
    {
      sent := [];
      var todo := peers.Keys;
      ghost var done: set<Send> := {};
      while todo != {}
        invariant todo <= peers.Keys
        invariant done == set a | a in peers && a !in todo && a != except :: Send(a, bytes)
        invariant multiset(sent) == multiset(done)
        decreases |todo|
      {
        var key :| key in todo;
        todo := todo - {key};
        if key != except {
          var peer := objects[peers[key].peer];
          assert Send(key, bytes) !in done;
          sent := sent + [Send(peer.addr, bytes)];
          done := done + {Send(key, bytes)};
        }
      }
      assert done == set a | a in peers && a != except :: Send(a, bytes);
    }

    method ForwardPacket(p: nat, ty: byte, payload: seq<byte>, src: Ip, dst: Ip, now: int) returns (sent: seq<Send>)
      requires Valid(Model()) && p < |objects|
      modifies this
      ensures Result(Model(), multiset(sent)) == Forward(old(Model()), p, ty, payload, src, dst, now)
    {
      ipCache := ipCache[src := Entry(p, now + TIMEOUT)];
      if dst in ipCache {
        sent := [Send(objects[ipCache[dst].peer].addr, [ty] + payload)];
      } else {
        sent := SendBroadcast(objects[p].addr, [ty] + payload);
      }
    }

    method Packet(p: nat, ty: byte, payload: seq<byte>, now: int) returns (sent: seq<Send>)
      requires Valid(Model()) && p < |objects|
      modifies this
      ensures Result(Model(), multiset(sent)) == OnPacket(old(Model()), p, ty, payload, now)
    {
      sent := [];
      if |payload| > 20 {
        if ty == TYPE_IPV4 {
          sent := ForwardPacket(p, ty, payload, payload[12..16], payload[16..20], now);
        } else if ty == TYPE_IPV4_FRAG {
          sent := ForwardPacket(p, ty, payload, payload[0..4], payload[4..8], now);
        }
      }
    }

    method NeedAuth(p: nat, ty: byte, payload: seq<byte>) returns (sent: seq<Send>)
      requires Valid(Model()) && p < |objects|
      modifies this
      ensures Result(Model(), multiset(sent)) == OnNeedAuth(old(Model()), p, ty, payload)
    {
      sent := [];
      var peer := objects[p];
      if ty == TYPE_AUTH_ME {
        if !peer.challenge.NoChallenge? && |payload| > 20 {
          logins := logins + multiset{Login(p, payload[..20], payload[20..])};
        }
      } else {
        match peer.challenge
        case NoChallenge => objects := objects[p := peer.(challenge := Filling)];
        case Filling =>
        case Ready(random) => sent := [Send(peer.addr, [TYPE_AUTH_ME, 0] + random)];
      }
    }

    method Route(p: nat, ty: byte, payload: seq<byte>, now: int) returns (sent: seq<Send>)
      requires Valid(Model()) && p < |objects|
      modifies this
      ensures Result(Model(), multiset(sent)) == Dispatch(old(Model()), p, ty, payload, now)
    {
      if auth && objects[p].user.None? {
        sent := NeedAuth(p, ty, payload);
      } else {
        sent := Packet(p, ty, payload, now);
      }
    }

    /** onMessage */
    method HandleMessage(from: Addr, msg: seq<byte>, now: int) returns (sent: seq<Send>)
      requires Valid(Model())
      modifies this
      ensures Valid(Model()) && Result(Model(), multiset(sent)) == OnMessage(old(Model()), from, msg, now)
    {
      sent := [];
      if |msg| == 0 {
        return;
      }
      var ty, encrypted := msg[0] % 128, msg[0] >= 128;
      if ty == TYPE_PING && !encrypted {
        sent := [Send(from, msg[..Min(4, |msg|)])];
        return;
      }
      OnMessageServes(Model(), from, msg, now);
      sent := Serve(from, ty, msg[1..], now);
    }

    /** Find or make the peer, then hand the message on. */
    method Serve(from: Addr, ty: byte, payload: seq<byte>, now: int) returns (sent: seq<Send>)
      requires Valid(Model())
      modifies this
      ensures var s := Register(old(Model()), from, now);
        Valid(Model()) && Result(Model(), multiset(sent)) == Dispatch(s, s.peers[from].peer, ty, payload, now)
    {
      var p := Get(from, now);
      sent := Route(p, ty, payload, now);
    }

    /** The rest of onNeedAuth after the random bytes have come. */
    method RandomFilled(p: nat, random: seq<byte>) returns (sent: seq<Send>)
      requires Valid(Model())
      modifies this
      ensures Valid(Model()) && Result(Model(), multiset(sent)) == Step(old(Model()), RandomReady(p, random))
    {
      sent := [];
      if p < |objects| && objects[p].challenge.Filling? {
        objects := objects[p := objects[p].(challenge := Ready(random))];
        sent := [Send(objects[p].addr, [TYPE_AUTH_ME, 0] + random)];
      }
    }

    /** The rest of onNeedAuth after the provider has answered a login that is waiting. */
    method LoginAnswered(l: Login, verdict: Verdict) returns (sent: seq<Send>)
      requires Valid(Model()) && l in logins
      modifies this
      ensures Valid(Model()) && Result(Model(), multiset(sent)) == Step(old(Model()), LoginChecked(l, verdict))
    {
      ghost var s := Model();
      var peer := objects[l.peer];
      logins := logins - multiset{l};
      match verdict {
        case Granted =>
          GrantedLogin(s, l);
          objects, sent := objects[l.peer := peer.(user := Some(l.username))], [];
        case WrongPassword =>
          WrongLogin(s, l);
          sent := [Send(peer.addr, [TYPE_INFO]), Send(peer.addr, [TYPE_INFO])];
        case Failed =>
          FailedLogin(s, l);
          sent := [Send(peer.addr, [TYPE_INFO])];
      }
    }

    /** sendToRaw when the socket reports an error. */
    method SendFailed(a: Addr)
      requires Valid(Model())
      modifies this
      ensures Valid(Model()) && Model() == Step(old(Model()), SendError(a)).server
    {
      peers := peers - {a};
    }
  }
}
