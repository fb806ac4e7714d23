/** A fragmented packet from one client, through the relay, to another client. */
module EndToEnd {
  import opened Bytes
  import opened Fragmenter
  import opened Reassembly
  import opened ReassemblyRuns
  import opened SlotEviction
  import Relay
  import RelayRuns

  /** The relay forwards a fragment only if more than four payload bytes follow its header. */
  const MIN_RELAYED: nat := 4

  lemma {:induction false} LastPartLen(len: nat, pmtu: nat)
    requires 0 < pmtu < len
    ensures TotalPart(len, pmtu) > 0
    ensures PartLen(len, pmtu, TotalPart(len, pmtu) - 1) == if len % pmtu == 0 then pmtu else len % pmtu
  {
    var q, total := len / pmtu, TotalPart(len, pmtu);
    TotalPartIsCeiling(len, pmtu);
    TotalPartByDivision(len, pmtu);
    OffsetIsProduct(pmtu, total - 1);
    assert len == pmtu * q + len % pmtu;
    if total == q {
      assert pmtu * (q - 1) + pmtu == pmtu * q;
    }
  }

  /** No fragment of the packet is too short for the relay. */
  predicate NoRunt(len: nat, pmtu: nat)
    requires pmtu > 0
  {
    len % pmtu == 0 || len % pmtu > MIN_RELAYED
  }

  lemma {:induction false} RuntIsLast(len: nat, pmtu: nat, k: nat)
    requires MIN_RELAYED < pmtu < len && k < TotalPart(len, pmtu)
    ensures PartLen(len, pmtu, k) > MIN_RELAYED <==> k < TotalPart(len, pmtu) - 1 || NoRunt(len, pmtu)
  {
    LastPartLen(len, pmtu);
    var _ := PartLen(len, pmtu, k);
  }

  // ---- through the relay ----

  function FragMessage(a: Relay.Addr, s: Sent, id: nat, k: nat, now: int): Relay.Event
    requires Splits(s.packet, s.pmtu) && k < TotalPart(|s.packet|, s.pmtu)
  {
    Relay.Message(a, [TYPE_IPV4_FRAG] + Fragment(s.packet, s.pmtu, id, k), now)
  }

  function SrcOf(s: Sent): Ip requires |s.packet| >= 20 { s.packet[12..16] }
  function DstOf(s: Sent): Ip requires |s.packet| >= 20 { s.packet[16..20] }

  lemma {:induction false} FragMessageFields(a: Relay.Addr, s: Sent, id: nat, k: nat, now: int)
    requires Splits(s.packet, s.pmtu) && k < TotalPart(|s.packet|, s.pmtu)
    ensures var e := FragMessage(a, s, id, k, now);
            && RelayRuns.Registers(e)
            && (RelayRuns.CarriesPacket(e) <==> PartLen(|s.packet|, s.pmtu, k) > MIN_RELAYED)
            && (RelayRuns.CarriesPacket(e) ==> RelayRuns.Source(e) == SrcOf(s) && RelayRuns.Destination(e) == DstOf(s))
  {
    var d := Fragment(s.packet, s.pmtu, id, k);
    var e := FragMessage(a, s, id, k, now);
    FragmentParses(s.packet, s.pmtu, id, k);
    assert e.msg[1..5] == d[0..4] && e.msg[5..9] == d[4..8];
    assert ParseHeader(d).src == SrcOf(s) && ParseHeader(d).dst == DstOf(s);
  }

  /** The sender is let through, and its packets for dst reach b: b owns dst, or nobody does and b is
      a registered peer. A packet to its own source address would come back to the sender instead. */
  predicate Reaches(s: Relay.Server, a: Relay.Addr, src: Ip, dst: Ip, b: Relay.Addr)
    requires Relay.Valid(s)
  {
    && (s.auth ==> RelayRuns.LoggedIn(s, a))
    && src != dst && a != b
    && if dst in s.ipCache then s.objects[s.ipCache[dst].peer].addr == b else b in s.peers
  }

  lemma {:induction false} ReachesAccepted(s: Relay.Server, e: Relay.Event, src: Ip, dst: Ip, b: Relay.Addr)
    requires Relay.Valid(s) && RelayRuns.Accepts(s, e) && Reaches(s, e.from, src, dst, b)
    requires RelayRuns.Source(e) == src && RelayRuns.Destination(e) == dst
    ensures var r := Relay.Step(s, e);
            Reaches(r.server, e.from, src, dst, b) && r.sends[Relay.Send(b, [e.msg[0] % 128] + e.msg[1..])] == 1
  {
    RelayRuns.RegisterEffect(s, e.from, e.now);
    RelayRuns.AcceptedStep(s, e);
  }

  lemma {:induction false} ReachesUnaccepted(s: Relay.Server, e: Relay.Event, src: Ip, dst: Ip, b: Relay.Addr)
    requires Relay.Valid(s) && RelayRuns.Registers(e) && !RelayRuns.Accepts(s, e) && Reaches(s, e.from, src, dst, b)
    ensures var r := Relay.Step(s, e);
            Reaches(r.server, e.from, src, dst, b) && r.sends[Relay.Send(b, e.msg)] == 0
  {
    RelayRuns.UnacceptedStep(s, e);
    MessageKeepsReaching(s, e, src, dst, b);
  }

  lemma {:induction false} MessageKeepsReaching(s: Relay.Server, e: Relay.Event, src: Ip, dst: Ip, b: Relay.Addr)
    requires Relay.Valid(s) && RelayRuns.Registers(e) && Reaches(s, e.from, src, dst, b)
    requires Relay.Step(s, e).server.ipCache == s.ipCache
    ensures Reaches(Relay.Step(s, e).server, e.from, src, dst, b)
  {
    RelayRuns.RegisterEffect(s, e.from, e.now);
    RelayRuns.MessageEffect(s, e);
    RelayRuns.StepKeepsAuth(s, e);
    var m, s' := Relay.Register(s, e.from, e.now), Relay.Step(s, e).server;
    assert forall i :: 0 <= i < |s.objects| ==> s'.objects[i].addr == m.objects[i].addr == s.objects[i].addr;
  }

  /** The relay clears the top bit of the type byte, which fragments do not use. */
  lemma {:induction false} SameMessage(d: seq<byte>)
    ensures var m := [TYPE_IPV4_FRAG] + d; [m[0] % 128] + m[1..] == m
  {
    assert ([TYPE_IPV4_FRAG] + d)[1..] == d;
  }

  /** One fragment through the relay: b gets one copy, or none if it is a runt. */
  lemma {:induction false} RelayStep(s: Relay.Server, a: Relay.Addr, b: Relay.Addr, sent: Sent, id: nat, k: nat,
    now: int)
    requires Splits(sent.packet, sent.pmtu) && k < TotalPart(|sent.packet|, sent.pmtu)
    requires Relay.Valid(s) && Reaches(s, a, SrcOf(sent), DstOf(sent), b)
    ensures var e := FragMessage(a, sent, id, k, now); var r := Relay.Step(s, e);
            && Reaches(r.server, a, SrcOf(sent), DstOf(sent), b)
            && r.sends[Relay.Send(b, e.msg)] == if PartLen(|sent.packet|, sent.pmtu, k) > MIN_RELAYED then 1 else 0
  {
    var e := FragMessage(a, sent, id, k, now);
    FragMessageFields(a, sent, id, k, now);
    if RelayRuns.Accepts(s, e) {
      ReachesAccepted(s, e, SrcOf(sent), DstOf(sent), b);
      SameMessage(Fragment(sent.packet, sent.pmtu, id, k));
    } else {
      ReachesUnaccepted(s, e, SrcOf(sent), DstOf(sent), b);
    }
  }

  // ---- what reaches a client ----

  /** The relay sends the fragment d to b. */
  predicate Carries(sends: multiset<Relay.Send>, b: Relay.Addr, d: seq<byte>) {
    Relay.Send(b, [TYPE_IPV4_FRAG] + d) in sends
  }

  lemma {:induction false} ForwardedBytes(m: Relay.Server, p: nat, ty: byte, payload: seq<byte>, src: Ip, dst: Ip,
    now: int, x: Relay.Send)
    requires Relay.Valid(m) && p < |m.objects| && x in Relay.Forward(m, p, ty, payload, src, dst, now).sends
    ensures x.bytes == [ty] + payload && Relay.Forward(m, p, ty, payload, src, dst, now).sends[x] == 1
  {
  }

  /** Whatever the relay sends as a fragment is the fragment it has just been sent, once. */
  lemma {:induction false} FragmentSends(s: Relay.Server, e: Relay.Event, b: Relay.Addr, d: seq<byte>)
    requires Relay.Valid(s) && Carries(Relay.Step(s, e).sends, b, d)
    ensures RelayRuns.Accepts(s, e) && e.msg[0] % 128 == TYPE_IPV4_FRAG && d == e.msg[1..]
    ensures Relay.Step(s, e).sends[Relay.Send(b, [TYPE_IPV4_FRAG] + d)] == 1
  {
    var x := Relay.Send(b, [TYPE_IPV4_FRAG] + d);
    if RelayRuns.Accepts(s, e) {
      var m := Relay.Register(s, e.from, e.now);
      RelayRuns.AcceptedStep(s, e);
      ForwardedBytes(m, m.peers[e.from].peer, e.msg[0] % 128, e.msg[1..], RelayRuns.Source(e),
          RelayRuns.Destination(e), e.now, x);
      assert x.bytes[0] == e.msg[0] % 128 && x.bytes[1..] == d && ([e.msg[0] % 128] + e.msg[1..])[1..] == e.msg[1..];
    } else {
      UnacceptedSends(s, e, x);
    }
  }

  lemma {:induction false} UnacceptedSends(s: Relay.Server, e: Relay.Event, x: Relay.Send)
    requires Relay.Valid(s) && !RelayRuns.Accepts(s, e) && x in Relay.Step(s, e).sends
    ensures |x.bytes| > 0 && x.bytes[0] != TYPE_IPV4_FRAG
  {
    if RelayRuns.Registers(e) {
      RelayRuns.UnacceptedStep(s, e);
      assert x.bytes[..1] == [Relay.TYPE_AUTH_ME];
    } else {
      QuietSends(s, e, x);
    }
  }

  /** Pings, and what the authentication exchange sends later. */
  lemma {:induction false} QuietSends(s: Relay.Server, e: Relay.Event, x: Relay.Send)
    requires Relay.Valid(s) && !RelayRuns.Registers(e) && x in Relay.Step(s, e).sends
    ensures |x.bytes| > 0 && x.bytes[0] != TYPE_IPV4_FRAG
  {
    match e
    case Message(_, msg, _) => assert x.bytes == msg[..Min(4, |msg|)];
    case RandomReady(_, _) =>
    case LoginChecked(_, _) =>
    case Tick(_) =>
    case SendError(_) =>
  }

  ghost function After(s: Relay.Server, es: seq<Relay.Event>): (r: Relay.Server)
    requires Relay.Valid(s)
    ensures Relay.Valid(r)
  {
    if es == [] then s else Relay.Step(After(s, es[..|es| - 1]), es[|es| - 1]).server
  }

  /** The fragment an event brings to b, if it brings one. */
  ghost function Brought(s: Relay.Server, e: Relay.Event, b: Relay.Addr): seq<seq<byte>>
    requires Relay.Valid(s)
  {
    if e.Message? && e.msg != [] && Carries(Relay.Step(s, e).sends, b, e.msg[1..]) then [e.msg[1..]] else []
  }

  /** All fragments the relay sends to b, in order. */
  ghost function Inbox(s: Relay.Server, es: seq<Relay.Event>, b: Relay.Addr): seq<seq<byte>>
    requires Relay.Valid(s)
  {
    if es == [] then []
    else Inbox(s, es[..|es| - 1], b) + Brought(After(s, es[..|es| - 1]), es[|es| - 1], b)
  }

  // ---- the parts of one packet among other traffic ----

  /** What comes to the relay: a part of the packet, or any other event. */
  datatype Traffic = Part(k: nat, now: int) | Other(e: Relay.Event)

  /** A fragment under this key. */
  predicate CarriesKey(e: Relay.Event, key: Key) {
    RelayRuns.CarriesPacket(e) && e.msg[0] % 128 == TYPE_IPV4_FRAG && KeyOf(e.msg[1..]) == key
  }

  /** The parts among the traffic, in order. */
  function PartsOf(ts: seq<Traffic>): seq<nat> {
    if ts == [] then []
    else
      var x := ts[|ts| - 1];
      PartsOf(ts[..|ts| - 1]) + if x.Part? then [x.k] else []
  }

  predicate GoodParts(sent: Sent, ks: seq<nat>)
    requires sent.pmtu > 0
  {
    && (forall i :: 0 <= i < |ks| ==> ks[i] < TotalPart(|sent.packet|, sent.pmtu))
    && (forall i, j :: 0 <= i < j < |ks| ==> ks[i] != ks[j])
  }

  /** No part comes twice, and nobody else uses the key. */
  predicate GoodTraffic(sent: Sent, key: Key, ts: seq<Traffic>)
    requires sent.pmtu > 0
  {
    GoodParts(sent, PartsOf(ts)) && forall i :: 0 <= i < |ts| && ts[i].Other? ==> !CarriesKey(ts[i].e, key)
  }

  lemma {:induction false} TrafficPrefix(sent: Sent, key: Key, ts: seq<Traffic>)
    requires sent.pmtu > 0 && GoodTraffic(sent, key, ts) && ts != []
    ensures GoodTraffic(sent, key, ts[..|ts| - 1])
    ensures var x := ts[|ts| - 1]; if x.Part? then x.k < TotalPart(|sent.packet|, sent.pmtu) else !CarriesKey(x.e, key)
  {
    var p, x := ts[..|ts| - 1], ts[|ts| - 1];
    var ks := PartsOf(ts);
    assert forall i :: 0 <= i < |PartsOf(p)| ==> PartsOf(p)[i] == ks[i];
    if x.Part? { assert ks[|ks| - 1] == x.k; }
  }

  function EventOf(a: Relay.Addr, sent: Sent, id: nat, x: Traffic): Relay.Event
    requires Splits(sent.packet, sent.pmtu) && (x.Part? ==> x.k < TotalPart(|sent.packet|, sent.pmtu))
  {
    if x.Part? then FragMessage(a, sent, id, x.k, x.now) else x.e
  }

  function Events(a: Relay.Addr, sent: Sent, key: Key, ts: seq<Traffic>): (es: seq<Relay.Event>)
    requires Splits(sent.packet, sent.pmtu) && GoodTraffic(sent, key, ts)
    ensures |es| == |ts|
  {
    if ts == [] then []
    else
      TrafficPrefix(sent, key, ts);
      Events(a, sent, key, ts[..|ts| - 1]) + [EventOf(a, sent, key.id, ts[|ts| - 1])]
  }

  /** Whenever a part comes in, the relay lets the sender through and knows how to reach b. */
  ghost predicate ReachesAlways(s: Relay.Server, a: Relay.Addr, b: Relay.Addr, sent: Sent, key: Key, ts: seq<Traffic>)
    requires Relay.Valid(s) && Splits(sent.packet, sent.pmtu) && GoodTraffic(sent, key, ts)
  {
    ts == [] ||
    (TrafficPrefix(sent, key, ts);
     var p := ts[..|ts| - 1];
     && ReachesAlways(s, a, b, sent, key, p)
     && (ts[|ts| - 1].Part? ==> Reaches(After(s, Events(a, sent, key, p)), a, SrcOf(sent), DstOf(sent), b)))
  }

  /** What comes to the client: a part of the packet, or a datagram that has nothing to do with it. */
  datatype Arrival = Own(k: nat) | Alien(d: seq<byte>)

  function OwnParts(xs: seq<Arrival>): seq<nat> {
    if xs == [] then []
    else
      var x := xs[|xs| - 1];
      OwnParts(xs[..|xs| - 1]) + if x.Own? then [x.k] else []
  }

  predicate GoodArrival(sent: Sent, key: Key, x: Arrival)
    requires sent.pmtu > 0
  {
    if x.Own? then x.k < TotalPart(|sent.packet|, sent.pmtu) else !Acceptable(x.d) || KeyOf(x.d) != key
  }

  predicate GoodArrivals(sent: Sent, key: Key, xs: seq<Arrival>)
    requires sent.pmtu > 0
  {
    forall i :: 0 <= i < |xs| ==> GoodArrival(sent, key, xs[i])
  }

  function Received(sent: Sent, key: Key, xs: seq<Arrival>): (ds: seq<seq<byte>>)
    requires Splits(sent.packet, sent.pmtu) && GoodArrivals(sent, key, xs)
    ensures |ds| == |xs|
  {
    if xs == [] then []
    else
      var x := xs[|xs| - 1];
      Received(sent, key, xs[..|xs| - 1]) + [if x.Own? then Fragment(sent.packet, sent.pmtu, key.id, x.k) else x.d]
  }

  lemma {:induction false} ArrivalsSnoc(sent: Sent, key: Key, xs: seq<Arrival>, x: Arrival)
    requires Splits(sent.packet, sent.pmtu) && GoodArrivals(sent, key, xs) && GoodArrival(sent, key, x)
    ensures GoodArrivals(sent, key, xs + [x])
    ensures OwnParts(xs + [x]) == OwnParts(xs) + if x.Own? then [x.k] else []
    ensures Received(sent, key, xs + [x]) == Received(sent, key, xs) +
      [if x.Own? then Fragment(sent.packet, sent.pmtu, key.id, x.k) else x.d]
  {
    assert (xs + [x])[..|xs|] == xs;
  }

  predicate Long(sent: Sent, k: nat)
    requires sent.pmtu > 0 && k < TotalPart(|sent.packet|, sent.pmtu)
  {
    PartLen(|sent.packet|, sent.pmtu, k) > MIN_RELAYED
  }

  /** The parts that are not runts. */
  function Passing(sent: Sent, ks: seq<nat>): (r: seq<nat>)
    requires sent.pmtu > 0 && forall i :: 0 <= i < |ks| ==> ks[i] < TotalPart(|sent.packet|, sent.pmtu)
    ensures forall k :: k in r <==> k in ks && Long(sent, k)
  {
    if ks == [] then []
    else
      var k := ks[|ks| - 1];
      var r := Passing(sent, ks[..|ks| - 1]);
      assert ks == ks[..|ks| - 1] + [k];
      if Long(sent, k) then r + [k] else r
  }

  /** Among any other traffic, b gets the parts that are long enough, in order, and fragments under
      other keys. */
  lemma {:induction false} InboxIsPassing(s: Relay.Server, a: Relay.Addr, b: Relay.Addr, sent: Sent, key: Key,
    ts: seq<Traffic>)
    returns (xs: seq<Arrival>)
    requires Relay.Valid(s) && Splits(sent.packet, sent.pmtu) && GoodTraffic(sent, key, ts)
    requires ReachesAlways(s, a, b, sent, key, ts)
    ensures GoodArrivals(sent, key, xs) && OwnParts(xs) == Passing(sent, PartsOf(ts))
    ensures Inbox(s, Events(a, sent, key, ts), b) == Received(sent, key, xs)
  {
    if ts == [] {
      xs := [];
    } else {
      var p, x := ts[..|ts| - 1], ts[|ts| - 1];
      TrafficPrefix(sent, key, ts);
      xs := InboxIsPassing(s, a, b, sent, key, p);
      var es, e := Events(a, sent, key, p), EventOf(a, sent, key.id, x);
      InboxSnoc(s, es, e, b);
      PassingSnoc(sent, ts);
      if x.Part? {
        PartBrought(After(s, es), a, b, sent, key.id, x.k, x.now);
        if Long(sent, x.k) {
          ArrivalsSnoc(sent, key, xs, Own(x.k));
          xs := xs + [Own(x.k)];
        }
      } else if Brought(After(s, es), e, b) != [] {
        AlienBrought(After(s, es), e, b, sent, key);
        ArrivalsSnoc(sent, key, xs, Alien(e.msg[1..]));
        xs := xs + [Alien(e.msg[1..])];
      }
    }
  }

  lemma {:induction false} InboxSnoc(s: Relay.Server, es: seq<Relay.Event>, e: Relay.Event, b: Relay.Addr)
    requires Relay.Valid(s)
    ensures Inbox(s, es + [e], b) == Inbox(s, es, b) + Brought(After(s, es), e, b)
  {
    assert (es + [e])[..|es|] == es;
  }

  lemma {:induction false} PassingSnoc(sent: Sent, ts: seq<Traffic>)
    requires sent.pmtu > 0 && ts != [] && GoodParts(sent, PartsOf(ts))
    ensures var p, x := PartsOf(ts[..|ts| - 1]), ts[|ts| - 1];
      && (forall i :: 0 <= i < |p| ==> p[i] < TotalPart(|sent.packet|, sent.pmtu))
      && (x.Part? ==> x.k < TotalPart(|sent.packet|, sent.pmtu))
      && Passing(sent, PartsOf(ts)) == Passing(sent, p) + if x.Part? && Long(sent, x.k) then [x.k] else []
  {
    var p, x, ks := PartsOf(ts[..|ts| - 1]), ts[|ts| - 1], PartsOf(ts);
    assert forall i :: 0 <= i < |p| ==> p[i] == ks[i];
    if x.Part? { assert ks[..|ks| - 1] == p && ks[|ks| - 1] == x.k; } else { assert ks == p; }
  }

  lemma {:induction false} PartBrought(s: Relay.Server, a: Relay.Addr, b: Relay.Addr, sent: Sent, id: nat, k: nat,
    now: int)
    requires Splits(sent.packet, sent.pmtu) && k < TotalPart(|sent.packet|, sent.pmtu)
    requires Relay.Valid(s) && Reaches(s, a, SrcOf(sent), DstOf(sent), b)
    ensures Brought(s, FragMessage(a, sent, id, k, now), b) ==
      if Long(sent, k) then [Fragment(sent.packet, sent.pmtu, id, k)] else []
  {
    var d := Fragment(sent.packet, sent.pmtu, id, k);
    RelayStep(s, a, b, sent, id, k, now);
    assert ([TYPE_IPV4_FRAG] + d)[1..] == d;
  }

  lemma {:induction false} AlienBrought(s: Relay.Server, e: Relay.Event, b: Relay.Addr, sent: Sent, key: Key)
    requires Relay.Valid(s) && sent.pmtu > 0 && !CarriesKey(e, key) && Brought(s, e, b) != []
    ensures e.Message? && e.msg != [] && Brought(s, e, b) == [e.msg[1..]] && GoodArrival(sent, key, Alien(e.msg[1..]))
  {
    FragmentSends(s, e, b, e.msg[1..]);
  }

  // ---- at the receiver ----

  /** The packets a client with table t hands on under the key while it receives ds. */
  function Deliveries(t: Table, key: Key, ds: seq<seq<byte>>): seq<seq<byte>>
    requires ValidTable(t)
  {
    if ds == [] then []
    else
      var d := ds[|ds| - 1];
      var o := Process(RunFrom(t, ds[..|ds| - 1]), d).outcome;
      Deliveries(t, key, ds[..|ds| - 1]) + if o.Delivered? && |d| >= HEADER_LEN && KeyOf(d) == key then [o.packet]
          else []
  }

  /** The table finds a slot for the key whenever it needs one, and does not give it up for another. */
  ghost predicate Undisturbed(t: Table, key: Key, ds: seq<seq<byte>>)
    requires ValidTable(t)
  {
    ds == [] ||
    var p, d := ds[..|ds| - 1], ds[|ds| - 1];
    var r := Process(RunFrom(t, p), d);
    && Undisturbed(t, key, p) && r.evicted != Some(key)
    && (Acceptable(d) && KeyOf(d) == key ==> !r.outcome.Refused?)
  }

  ghost function SetOf(ks: seq<nat>): set<nat> {
    set k | k in ks
  }

  /** A table that is collecting exactly these parts of the packet. */
  ghost predicate Collecting(t: Table, key: Key, sent: Sent, ks: seq<nat>)
    requires sent.pmtu > 0
  {
    ValidTable(t) && Unique(t) && KeyFaithful(t, key, sent) && MaskOf(t, key) == SetOf(ks)
  }

  lemma {:induction false} OwnStep(t: Table, key: Key, sent: Sent, ks: seq<nat>, k: nat)
    requires SentUnder(key, sent) && k < TotalPart(|sent.packet|, sent.pmtu)
    requires Collecting(t, key, sent, ks) && !Process(t, Fragment(sent.packet, sent.pmtu, key.id, k)).outcome.Refused?
    ensures var d := Fragment(sent.packet, sent.pmtu, key.id, k); var r := Process(t, d);
            && |d| >= HEADER_LEN && KeyOf(d) == key
            && (r.outcome.Delivered? <==> SetOf(ks + [k]) == Below(TotalPart(|sent.packet|, sent.pmtu)))
            && (r.outcome.Delivered? ==> r.outcome.packet == sent.packet)
            && (!r.outcome.Delivered? ==> Collecting(r.table, key, sent, ks + [k]))
  {
    var d := Fragment(sent.packet, sent.pmtu, key.id, k);
    assert IsPart(d, key, sent, k);
    PartReads(d, key, sent, k);
    OwnMask(t, d);
    FaithfulPart(t, d, key, sent, k);
    ProcessKeepsUnique(t, d);
    assert SetOf(ks + [k]) == SetOf(ks) + {k};
  }

  lemma {:induction false} AlienStep(t: Table, key: Key, sent: Sent, ks: seq<nat>, d: seq<byte>)
    requires SentUnder(key, sent) && Collecting(t, key, sent, ks)
    requires (!Acceptable(d) || KeyOf(d) != key) && Process(t, d).evicted != Some(key)
    ensures Collecting(Process(t, d).table, key, sent, ks)
  {
    FaithfulStep(t, d, key, sent);
    ProcessKeepsUnique(t, d);
    if Acceptable(d) { OtherMask(t, d, key); }
  }

  lemma {:induction false} RunFromSnoc(t: Table, key: Key, ds: seq<seq<byte>>, d: seq<byte>)
    requires ValidTable(t)
    ensures var r := Process(RunFrom(t, ds), d);
      && RunFrom(t, ds + [d]) == r.table
      && Deliveries(t, key, ds + [d]) == Deliveries(t, key, ds) +
         (if r.outcome.Delivered? && |d| >= HEADER_LEN && KeyOf(d) == key then [r.outcome.packet] else [])
      && (Undisturbed(t, key, ds + [d]) <==>
          Undisturbed(t, key, ds) && r.evicted != Some(key) &&
              (Acceptable(d) && KeyOf(d) == key ==> !r.outcome.Refused?))
  {
    assert (ds + [d])[..|ds|] == ds;
  }

  predicate Distinct(ks: seq<nat>) { forall i, j :: 0 <= i < j < |ks| ==> ks[i] != ks[j] }

  /** The packet has been handed on once if all its parts have come, and otherwise not at all. */
  ghost predicate HandedOn(t: Table, key: Key, sent: Sent, ds: seq<seq<byte>>, ks: seq<nat>)
    requires ValidTable(t) && sent.pmtu > 0
  {
    if SetOf(ks) == Below(TotalPart(|sent.packet|, sent.pmtu)) then Deliveries(t, key, ds) == [sent.packet]
    else Deliveries(t, key, ds) == [] && Collecting(RunFrom(t, ds), key, sent, ks)
  }

  lemma {:induction false} OwnHandedOn(t: Table, key: Key, sent: Sent, ds: seq<seq<byte>>, ks: seq<nat>, k: nat)
    requires SentUnder(key, sent) && k < TotalPart(|sent.packet|, sent.pmtu) && k !in ks && ValidTable(t)
    requires HandedOn(t, key, sent, ds, ks)
    requires Undisturbed(t, key, ds + [Fragment(sent.packet, sent.pmtu, key.id, k)])
    ensures HandedOn(t, key, sent, ds + [Fragment(sent.packet, sent.pmtu, key.id, k)], ks + [k])
  {
    var d := Fragment(sent.packet, sent.pmtu, key.id, k);
    StillMissing(ks, TotalPart(|sent.packet|, sent.pmtu), k);
    RunFromSnoc(t, key, ds, d);
    assert IsPart(d, key, sent, k);
    PartReads(d, key, sent, k);
    OwnStep(RunFrom(t, ds), key, sent, ks, k);
  }

  lemma {:induction false} StillMissing(ks: seq<nat>, total: nat, missing: nat)
    requires missing < total && missing !in ks
    ensures SetOf(ks) != Below(total)
  {
    assert missing in Below(total) && missing !in SetOf(ks);
  }

  lemma {:induction false} AlienHandedOn(t: Table, key: Key, sent: Sent, ds: seq<seq<byte>>, ks: seq<nat>, d: seq<byte>)
    requires SentUnder(key, sent) && (!Acceptable(d) || KeyOf(d) != key) && ValidTable(t)
    requires HandedOn(t, key, sent, ds, ks) && Undisturbed(t, key, ds + [d])
    ensures HandedOn(t, key, sent, ds + [d], ks)
  {
    RunFromSnoc(t, key, ds, d);
    if SetOf(ks) != Below(TotalPart(|sent.packet|, sent.pmtu)) {
      AlienStep(RunFrom(t, ds), key, sent, ks, d);
    }
  }

  /** Among any other datagrams, parts in any order make the packet be handed on once, at the last of them. */
  lemma {:induction false} CollectAll(t: Table, key: Key, sent: Sent, xs: seq<Arrival>)
    requires SentUnder(key, sent) && GoodArrivals(sent, key, xs) && Distinct(OwnParts(xs))
    requires Collecting(t, key, sent, []) && Undisturbed(t, key, Received(sent, key, xs))
    ensures HandedOn(t, key, sent, Received(sent, key, xs), OwnParts(xs))
  {
    if xs == [] {
      TotalPartIsCeiling(|sent.packet|, sent.pmtu);
      StillMissing([], TotalPart(|sent.packet|, sent.pmtu), 0);
    } else {
      var p, x := xs[..|xs| - 1], xs[|xs| - 1];
      assert xs == p + [x];
      ArrivalsSnoc(sent, key, p, x);
      var ds := Received(sent, key, p);
      var d := if x.Own? then Fragment(sent.packet, sent.pmtu, key.id, x.k) else x.d;
      RunFromSnoc(t, key, ds, d);
      DistinctPrefix(OwnParts(p), if x.Own? then [x.k] else []);
      CollectAll(t, key, sent, p);
      if x.Own? { OwnHandedOn(t, key, sent, ds, OwnParts(p), x.k); }
          else { AlienHandedOn(t, key, sent, ds, OwnParts(p), x.d); }
    }
  }

  lemma {:induction false} DistinctPrefix(p: seq<nat>, q: seq<nat>)
    requires Distinct(p + q)
    ensures Distinct(p) && (q != [] ==> q[0] !in p)
  {
    assert forall i :: 0 <= i < |p| ==> (p + q)[i] == p[i];
    if q != [] {
      assert (p + q)[|p|] == q[0];
      forall i | 0 <= i < |p| ensures p[i] != q[0] { assert (p + q)[i] != (p + q)[|p|]; }
    }
  }

  /** Every part is among ks. */
  predicate Covers(sent: Sent, ks: seq<nat>)
    requires sent.pmtu > 0
  {
    forall k: nat :: k < TotalPart(|sent.packet|, sent.pmtu) ==> k in ks
  }

  lemma {:induction false} PassingDistinct(sent: Sent, ks: seq<nat>)
    requires sent.pmtu > 0 && GoodParts(sent, ks)
    ensures Distinct(Passing(sent, ks))
  {
    if ks != [] {
      var p, k := ks[..|ks| - 1], ks[|ks| - 1];
      PassingDistinct(sent, p);
      forall i | 0 <= i < |Passing(sent, p)| ensures Passing(sent, p)[i] != k { assert Passing(sent, p)[i] in p; }
    }
  }

  /** All parts that pass are all parts there are exactly if the last one is no runt. */
  lemma {:induction false} PassingWhich(sent: Sent, ks: seq<nat>)
    requires Splits(sent.packet, sent.pmtu) && GoodParts(sent, ks) && Covers(sent, ks)
    ensures SetOf(Passing(sent, ks)) == Below(TotalPart(|sent.packet|, sent.pmtu)) <==> NoRunt(|sent.packet|, sent.pmtu)
  {
    var total, r := TotalPart(|sent.packet|, sent.pmtu), Passing(sent, ks);
    LastPartLen(|sent.packet|, sent.pmtu);
    forall k: nat | k < total ensures k in r <==> k < total - 1 || NoRunt(|sent.packet|, sent.pmtu) {
      RuntIsLast(|sent.packet|, sent.pmtu, k);
    }
    if !NoRunt(|sent.packet|, sent.pmtu) { StillMissing(r, total, total - 1); }
  }

  /** End to end. Every part of the packet enters the relay once, in any order and among any other
      traffic; whenever one does, the relay can reach b. The receiver has nothing yet under the key and
      is not driven out of slots. Then it hands on the packet, once, exactly if the last part is not a
      runt; otherwise the relay swallows that part and the packet is not handed on. */
  lemma {:induction false} EndToEnd(s: Relay.Server, a: Relay.Addr, b: Relay.Addr, t: Table, key: Key, sent: Sent,
    ts: seq<Traffic>)
    requires SentUnder(key, sent) && GoodTraffic(sent, key, ts) && Covers(sent, PartsOf(ts))
    requires Relay.Valid(s) && ReachesAlways(s, a, b, sent, key, ts)
    requires ValidTable(t) && Unique(t) && Absent(t, key)
    requires Undisturbed(t, key, Inbox(s, Events(a, sent, key, ts), b))
    ensures Deliveries(t, key, Inbox(s, Events(a, sent, key, ts), b)) ==
      if NoRunt(|sent.packet|, sent.pmtu) then [sent.packet] else []
  {
    var xs := InboxIsPassing(s, a, b, sent, key, ts);
    PassingDistinct(sent, PartsOf(ts));
    PassingWhich(sent, PartsOf(ts));
    MaskAbsent(t, key);
    CollectAll(t, key, sent, xs);
  }

  // ---- when the conditions hold ----

  predicate HasFree(t: Table) {
    exists i :: 0 <= i < |t.slots| && !t.slots[i].used
  }

  /** A table that never fills up is not driven out of slots. */
  lemma {:induction false} RoomIsEnough(t: Table, key: Key, ds: seq<seq<byte>>)
    requires ValidTable(t) && forall i :: 0 <= i < |ds| ==> HasFree(RunFrom(t, ds[..i]))
    ensures Undisturbed(t, key, ds)
  {
    if ds != [] {
      var p := ds[..|ds| - 1];
      assert forall i :: 0 <= i < |p| ==> p[..i] == ds[..i];
      RoomIsEnough(t, key, p);
      FreeIsTaken(RunFrom(t, p), ds[|ds| - 1]);
    }
  }

  lemma {:induction false} FreeIsTaken(t: Table, d: seq<byte>)
    requires ValidTable(t) && HasFree(t)
    ensures Process(t, d).evicted == None && !Process(t, d).outcome.Refused?
  {
    if Acceptable(d) {
      var i :| 0 <= i < |t.slots| && !t.slots[i].used;
      assert FindFree(t.slots, 0) <= i;
    }
  }

  /** With no other traffic it is enough that the relay can reach b at the start. */
  lemma {:induction false} AloneReaches(s: Relay.Server, a: Relay.Addr, b: Relay.Addr, sent: Sent, key: Key,
    ts: seq<Traffic>)
    requires Relay.Valid(s) && Splits(sent.packet, sent.pmtu) && GoodTraffic(sent, key, ts)
    requires (forall i :: 0 <= i < |ts| ==> ts[i].Part?) && Reaches(s, a, SrcOf(sent), DstOf(sent), b)
    ensures ReachesAlways(s, a, b, sent, key, ts)
    ensures Reaches(After(s, Events(a, sent, key, ts)), a, SrcOf(sent), DstOf(sent), b)
  {
    if ts != [] {
      var p, x := ts[..|ts| - 1], ts[|ts| - 1];
      TrafficPrefix(sent, key, ts);
      AloneReaches(s, a, b, sent, key, p);
      var es := Events(a, sent, key, p);
      RelayStep(After(s, es), a, b, sent, key.id, x.k, x.now);
      assert (es + [FragMessage(a, sent, key.id, x.k, x.now)])[..|es|] == es;
    }
  }

  /** A slot is free, or the key has one. */
  predicate Ready(t: Table, key: Key) { HasFree(t) || !Absent(t, key) }

  lemma {:induction false} ReadyStep(t: Table, key: Key, d: seq<byte>)
    requires ValidTable(t) && Unique(t) && Ready(t, key) && Acceptable(d) && KeyOf(d) == key
    ensures var r := Process(t, d); r.evicted == None && !r.outcome.Refused? && Ready(r.table, key)
  {
    if Absent(t, key) { FreeIsTaken(t, d); }
    var i := ProcessAt(t, d);
    var r := Process(t, d);
    if r.outcome.Delivered? { assert !r.table.slots[i].used; } else { assert Holds(r.table.slots[i], key); }
  }

  /** One free slot is enough for parts that come alone: the first takes it and the others find it. */
  lemma {:induction false} OneSlotIsEnough(t: Table, key: Key, ds: seq<seq<byte>>)
    requires ValidTable(t) && Unique(t) && Ready(t, key)
    requires AllUnder(key, ds)
    ensures Undisturbed(t, key, ds) && Unique(RunFrom(t, ds)) && Ready(RunFrom(t, ds), key)
  {
    if ds != [] {
      var p, d := ds[..|ds| - 1], ds[|ds| - 1];
      OneSlotIsEnough(t, key, p);
      ReadyStep(RunFrom(t, p), key, d);
      ProcessKeepsUnique(RunFrom(t, p), d);
    }
  }

  predicate AllUnder(key: Key, ds: seq<seq<byte>>) {
    forall i :: 0 <= i < |ds| ==> Acceptable(ds[i]) && KeyOf(ds[i]) == key
  }

  lemma {:induction false} UnderBoth(key: Key, ds: seq<seq<byte>>, es: seq<seq<byte>>)
    requires AllUnder(key, ds) && AllUnder(key, es)
    ensures AllUnder(key, ds + es)
  {
  }

  lemma {:induction false} BroughtUnder(s: Relay.Server, a: Relay.Addr, b: Relay.Addr, sent: Sent, key: Key, k: nat,
    now: int)
    requires Relay.Valid(s) && SentUnder(key, sent) && k < TotalPart(|sent.packet|, sent.pmtu)
    requires Reaches(s, a, SrcOf(sent), DstOf(sent), b)
    ensures AllUnder(key, Brought(s, FragMessage(a, sent, key.id, k, now), b))
  {
    PartBrought(s, a, b, sent, key.id, k, now);
    PartReads(Fragment(sent.packet, sent.pmtu, key.id, k), key, sent, k);
  }

  /** With no other traffic the relay brings nothing but parts of the packet. */
  lemma {:induction false} AloneInbox(s: Relay.Server, a: Relay.Addr, b: Relay.Addr, sent: Sent, key: Key,
    ts: seq<Traffic>)
    requires Relay.Valid(s) && SentUnder(key, sent) && GoodTraffic(sent, key, ts)
    requires (forall j :: 0 <= j < |ts| ==> ts[j].Part?) && Reaches(s, a, SrcOf(sent), DstOf(sent), b)
    ensures AllUnder(key, Inbox(s, Events(a, sent, key, ts), b))
  {
    if ts != [] {
      var p, x := ts[..|ts| - 1], ts[|ts| - 1];
      TrafficPrefix(sent, key, ts);
      AloneReaches(s, a, b, sent, key, p);
      AloneInbox(s, a, b, sent, key, p);
      var es, e := Events(a, sent, key, p), FragMessage(a, sent, key.id, x.k, x.now);
      BroughtUnder(After(s, es), a, b, sent, key, x.k, x.now);
      UnderBoth(key, Inbox(s, es, b), Brought(After(s, es), e, b));
      InboxSnoc(s, es, e, b);
    }
  }

  /** End to end with no other traffic: it is enough that the relay can reach b at the start, and that the
      receiver has one free slot and nothing yet under the key. */
  lemma {:induction false} EndToEndAlone(s: Relay.Server, a: Relay.Addr, b: Relay.Addr, t: Table, key: Key,
    sent: Sent, ts: seq<Traffic>)
    requires SentUnder(key, sent) && GoodTraffic(sent, key, ts) && Covers(sent, PartsOf(ts))
    requires Relay.Valid(s) && Reaches(s, a, SrcOf(sent), DstOf(sent), b)
    requires forall i :: 0 <= i < |ts| ==> ts[i].Part?
    requires ValidTable(t) && Unique(t) && Absent(t, key) && HasFree(t)
    ensures Deliveries(t, key, Inbox(s, Events(a, sent, key, ts), b)) ==
      if NoRunt(|sent.packet|, sent.pmtu) then [sent.packet] else []
  {
    var ds := Inbox(s, Events(a, sent, key, ts), b);
    AloneReaches(s, a, b, sent, key, ts);
    AloneInbox(s, a, b, sent, key, ts);
    OneSlotIsEnough(t, key, ds);
    EndToEnd(s, a, b, t, key, sent, ts);
  }
}
