/** The ARP cache of src/arp.c: a first-fit table that may hold an address twice. */
module ArpCache {
  import opened Bytes

  const ARP_CACHE_LEN: nat := 100
  const NONE_IP: Ip := [0, 0, 0, 0]
  type Mac = seq<byte>

  /** struct arp_item */
  datatype Item = Item(ip: Ip, mac: Mac, expireAt: int)

  function EmptyList(): (r: seq<Item>)
    ensures |r| == ARP_CACHE_LEN
  {
    seq(ARP_CACHE_LEN, _ => Item(NONE_IP, [0, 0, 0, 0, 0, 0], 0))
  }

  /** The slots arp_set may overwrite. */
  predicate Reusable(item: Item, ip: Ip, now: int) {
    item.ip == NONE_IP || item.ip == ip || item.expireAt < now
  }

  /** The slots a lookup may answer from. */
  predicate Live(item: Item, ip: Ip, now: int) {
    item.ip == ip && item.expireAt > now
  }

  function FirstFit(items: seq<Item>, ip: Ip, now: int, i: nat): (r: nat)
    requires i <= |items|
    ensures i <= r <= |items|
    ensures r < |items| ==> Reusable(items[r], ip, now)
    ensures forall j :: i <= j < r ==> !Reusable(items[j], ip, now)
    decreases |items| - i
  {
    if i == |items| || Reusable(items[i], ip, now) then i else FirstFit(items, ip, now, i + 1)
  }

  function FirstLive(items: seq<Item>, ip: Ip, now: int, i: nat): (r: nat)
    requires i <= |items|
    ensures i <= r <= |items|
    ensures r < |items| ==> Live(items[r], ip, now)
    ensures forall j :: i <= j < r ==> !Live(items[j], ip, now)
    decreases |items| - i
  {
    if i == |items| || Live(items[i], ip, now) then i else FirstLive(items, ip, now, i + 1)
  }

  /** arp_set fails, and changes nothing, when no slot may be overwritten. */
  predicate CanSet(items: seq<Item>, ip: Ip, now: int) {
    FirstFit(items, ip, now, 0) < |items|
  }

  function AfterSet(items: seq<Item>, mac: Mac, ip: Ip, now: int, ttl: int): (r: seq<Item>)
    ensures |r| == |items|
  {
    if CanSet(items, ip, now) then items[FirstFit(items, ip, now, 0) := Item(ip, mac, now + ttl)] else items
  }

  function Lookup(items: seq<Item>, ip: Ip, now: int): Option<Mac> {
    var i := FirstLive(items, ip, now, 0);
    if i < |items| then Some(items[i].mac) else None
  }

  class Cache {
    const list: array<Item>
    const ttl: int

    /** arp_list_init */
    constructor (ttl: int)
      ensures fresh(list) && list[..] == EmptyList() && this.ttl == ttl
    {
      list := new Item[ARP_CACHE_LEN](_ => Item(NONE_IP, [0, 0, 0, 0, 0, 0], 0));
      this.ttl := ttl;
      new;
      assert list[..] == EmptyList();
    }

    /** arp_set */
    method Set(mac: Mac, ip: Ip, now: int) returns (ok: bool)
      modifies list
      ensures ok == CanSet(old(list[..]), ip, now)
      ensures list[..] == AfterSet(old(list[..]), mac, ip, now, ttl)
    {
      var i := 0;
      while i < list.Length
        invariant 0 <= i <= list.Length && list[..] == old(list[..])
        invariant FirstFit(list[..], ip, now, 0) == FirstFit(list[..], ip, now, i)
      {
        if list[i].ip == NONE_IP || list[i].ip == ip || list[i].expireAt < now {
          list[i] := Item(ip, mac, now + ttl);
          return true;
        }
        i := i + 1;
      }
      return false;
    }

    /** arp_get_mac_by_ip; a miss also sends an ARP request for the address. */
    method Get(ip: Ip, now: int) returns (r: Option<Mac>, request: Option<Ip>)
      ensures r == Lookup(list[..], ip, now)
      ensures request == if r.Some? then None else Some(ip)
    {
      var i := 0;
      while i < list.Length
        invariant 0 <= i <= list.Length
        invariant FirstLive(list[..], ip, now, 0) == FirstLive(list[..], ip, now, i)
      {
        if list[i].ip == ip && list[i].expireAt > now {
          return Some(list[i].mac), None;
        }
        i := i + 1;
      }
      return None, Some(ip);
    }

    /** arp_has_ip */
    method Has(ip: Ip, now: int) returns (r: bool)
      ensures r == Lookup(list[..], ip, now).Some?
    {
      var i := 0;
      while i < list.Length
        invariant 0 <= i <= list.Length
        invariant FirstLive(list[..], ip, now, 0) == FirstLive(list[..], ip, now, i)
      {
        if list[i].ip == ip && list[i].expireAt > now {
          return true;
        }
        i := i + 1;
      }
      return false;
    }

    /** arp_for_each with the callback cb; the indices of the entries it was called with. */
    method ForEach(cb: Item -> int, now: int) returns (seen: seq<nat>)
      ensures seen == Shown(list[..], cb, now, 0)
    {
      seen := [];
      var i := 0;
      while i < list.Length
        invariant 0 <= i <= list.Length && Shown(list[..], cb, now, 0) == seen + Shown(list[..], cb, now, i)
      {
        if list[i].expireAt > now {
          seen := seen + [i];
          if cb(list[i]) != 0 {
            return;
          }
        }
        i := i + 1;
      }
    }
  }

  /** The entries a walk from i on shows to cb, in order, up to the first for which it returns non-zero. */
  function Shown(items: seq<Item>, cb: Item -> int, now: int, i: nat): (seen: seq<nat>)
    requires i <= |items|
    decreases |items| - i
  {
    if i == |items| then []
    else if items[i].expireAt <= now then Shown(items, cb, now, i + 1)
    else if cb(items[i]) != 0 then [i]
    else [i] + Shown(items, cb, now, i + 1)
  }

  // ---- runs ----

  datatype SetCall = SetCall(mac: Mac, ip: Ip, now: int)

  function Run(ttl: int, calls: seq<SetCall>): (items: seq<Item>)
    ensures |items| == ARP_CACHE_LEN
  {
    if calls == [] then EmptyList()
    else
      var c := calls[|calls| - 1];
      AfterSet(Run(ttl, calls[..|calls| - 1]), c.mac, c.ip, c.now, ttl)
  }

  /** The simple map the cache stands for: the last successful set of each address, with its deadline. */
  function LastSet(ttl: int, calls: seq<SetCall>, ip: Ip): Option<Item> {
    if calls == [] then None
    else
      var c := calls[|calls| - 1];
      if c.ip == ip && CanSet(Run(ttl, calls[..|calls| - 1]), ip, c.now) then Some(Item(ip, c.mac, c.now + ttl))
      else LastSet(ttl, calls[..|calls| - 1], ip)
  }

  /** The clock does not run backwards. */
  predicate Ordered(calls: seq<SetCall>, now: int) {
    && (forall i :: 0 <= i < |calls| ==> calls[i].now <= now)
    && (forall i, j :: 0 <= i < j < |calls| ==> calls[i].now <= calls[j].now)
  }

  /** Of two entries for one address the one at the lower index expires later: it is the newer one. */
  predicate NewestFirst(items: seq<Item>, ip: Ip) {
    forall i, j :: 0 <= i < j < |items| && items[i].ip == ip && items[j].ip == ip ==>
        items[i].expireAt >= items[j].expireAt
  }

  predicate FirstFor(items: seq<Item>, i: int, ip: Ip) {
    0 <= i < |items| && items[i].ip == ip && forall j :: 0 <= j < i ==> items[j].ip != ip
  }

  /** The table against the map: the last set is the first entry for its address, unless it expired
      and its slot was reused; then whatever entries are left for the address expired before it. */
  ghost predicate Represents(items: seq<Item>, ip: Ip, last: Option<Item>, now: int) {
    match last
    case None => forall i :: 0 <= i < |items| ==> items[i].ip != ip
    case Some(w) =>
      || (exists i :: FirstFor(items, i, ip) && items[i] == w)
      || (w.expireAt < now && DueBy(items, ip, w.expireAt))
  }

  lemma {:induction false} Later(items: seq<Item>, ip: Ip, last: Option<Item>, now: int, now': int)
    requires Represents(items, ip, last, now) && now <= now'
    ensures Represents(items, ip, last, now')
  {
  }

  /** Setting the address itself: first fit never lands behind an older entry for it. */
  lemma {:induction false} SetSame(items: seq<Item>, mac: Mac, ip: Ip, now: int, ttl: int)
    requires CanSet(items, ip, now) && NewestFirst(items, ip)
    requires DueBy(items, ip, now + ttl)
    ensures var r := AfterSet(items, mac, ip, now, ttl);
            NewestFirst(r, ip) && FirstFor(r, FirstFit(items, ip, now, 0), ip)
  {
  }

  /** Setting another address: it can only displace an entry of ours that has expired. */
  lemma {:induction false} SetOther(items: seq<Item>, mac: Mac, other: Ip, now: int, ttl: int, ip: Ip,
    last: Option<Item>)
    requires ip != NONE_IP && other != ip && CanSet(items, other, now)
    requires NewestFirst(items, ip) && Represents(items, ip, last, now)
    ensures var r := AfterSet(items, mac, other, now, ttl); NewestFirst(r, ip) && Represents(r, ip, last, now)
  {
    var k := FirstFit(items, other, now, 0);
    DisplaceOther(items, k, Item(other, mac, now + ttl), ip, last, now);
  }

  lemma {:induction false} DisplaceOther(items: seq<Item>, k: nat, item: Item, ip: Ip, last: Option<Item>, now: int)
    requires k < |items| && item.ip != ip && (items[k].ip == ip ==> items[k].expireAt < now)
    requires NewestFirst(items, ip) && Represents(items, ip, last, now)
    ensures NewestFirst(items[k := item], ip) && Represents(items[k := item], ip, last, now)
  {
    var r := items[k := item];
    if last.Some? {
      if i :| FirstFor(items, i, ip) && items[i] == last.value {
        if i == k {
          assert DueBy(r, ip, last.value.expireAt);
        } else {
          assert FirstFor(r, i, ip) && r[i] == last.value;
        }
      } else {
        assert DueBy(r, ip, last.value.expireAt);
      }
    }
  }

  predicate DueBy(items: seq<Item>, ip: Ip, deadline: int) {
    forall i :: 0 <= i < |items| && items[i].ip == ip ==> items[i].expireAt <= deadline
  }

  lemma {:induction false} RunDueBy(ttl: int, calls: seq<SetCall>, ip: Ip, now: int)
    requires ip != NONE_IP && Ordered(calls, now)
    ensures DueBy(Run(ttl, calls), ip, now + ttl)
  {
    if calls != [] {
      RunDueBy(ttl, calls[..|calls| - 1], ip, now);
      assert calls[|calls| - 1].now <= now;
    }
  }

  lemma {:induction false} RunRepresents(ttl: int, calls: seq<SetCall>, ip: Ip, now: int)
    requires ip != NONE_IP && Ordered(calls, now)
    ensures NewestFirst(Run(ttl, calls), ip)
    ensures Represents(Run(ttl, calls), ip, LastSet(ttl, calls, ip), now)
  {
    if calls != [] {
      var p, c := calls[..|calls| - 1], calls[|calls| - 1];
      var items := Run(ttl, p);
      RunRepresents(ttl, p, ip, c.now);
      if CanSet(items, c.ip, c.now) {
        if c.ip == ip {
          RunDueBy(ttl, p, ip, c.now);
          SetSame(items, c.mac, ip, c.now, ttl);
        } else {
          SetOther(items, c.mac, c.ip, c.now, ttl, ip, LastSet(ttl, p, ip));
        }
      }
      Later(Run(ttl, calls), ip, LastSet(ttl, calls, ip), c.now, now);
    }
  }

  /** Although the table may hold an address twice, a lookup answers with exactly the last successful
      set of the address while that is unexpired, and with nothing otherwise. */
  lemma {:induction false} LookupIsLastSet(ttl: int, calls: seq<SetCall>, ip: Ip, now: int)
    requires ip != NONE_IP && Ordered(calls, now)
    ensures var w := LastSet(ttl, calls, ip);
            Lookup(Run(ttl, calls), ip, now) == if w.Some? && w.value.expireAt > now then Some(w.value.mac) else None
  {
    RunRepresents(ttl, calls, ip, now);
    LookupRepresents(Run(ttl, calls), ip, LastSet(ttl, calls, ip), now);
  }

  lemma {:induction false} LookupRepresents(items: seq<Item>, ip: Ip, w: Option<Item>, now: int)
    requires NewestFirst(items, ip) && Represents(items, ip, w, now)
    ensures Lookup(items, ip, now) == if w.Some? && w.value.expireAt > now then Some(w.value.mac) else None
  {
    var k := FirstLive(items, ip, now, 0);
    if w.Some? && exists i :: FirstFor(items, i, ip) && items[i] == w.value {
      var i :| FirstFor(items, i, ip) && items[i] == w.value;
      assert w.value.expireAt > now ==> Live(items[i], ip, now);
    }
  }

  /** 0.0.0.0 marks free slots, so the law fails for it: a live entry for it is overwritten by the
      next set of any address. */
  lemma {:induction false} NoneIpIsForgotten(ttl: int, now: int, mac: Mac, other: Ip, mac': Mac)
    requires ttl > 0 && now >= 0 && other != NONE_IP
    ensures var calls := [SetCall(mac, NONE_IP, now), SetCall(mac', other, now)];
            && Ordered(calls, now)
            && LastSet(ttl, calls, NONE_IP) == Some(Item(NONE_IP, mac, now + ttl))
            && Lookup(Run(ttl, calls), NONE_IP, now) == None
  {
    var c1, c2 := SetCall(mac, NONE_IP, now), SetCall(mac', other, now);
    assert [c1, c2][..1] == [c1] && [c1][..0] == [];
    var one := AfterSet(EmptyList(), mac, NONE_IP, now, ttl);
    assert Run(ttl, [c1]) == one;
    assert one[0] == Item(NONE_IP, mac, now + ttl);
    var two := AfterSet(one, mac', other, now, ttl);
    assert Run(ttl, [c1, c2]) == two;
    assert two[0].ip == other && forall i :: 0 < i < |two| ==> two[i].expireAt == 0;
  }

  // ---- arp_for_each ----

  /** The entries arp_for_each shows to a callback that never stops it, by index. */
  predicate Visited(items: seq<Item>, i: int, now: int) {
    0 <= i < |items| && items[i].expireAt > now
  }

  /** The walk shows an entry exactly if it has not expired and the callback returned 0 for all before it. */
  lemma {:induction false} ShownIff(items: seq<Item>, cb: Item -> int, now: int, i: nat, k: nat)
    requires i <= |items|
    ensures k in Shown(items, cb, now, i) <==>
      && i <= k < |items| && items[k].expireAt > now
      && forall j :: i <= j < k && items[j].expireAt > now ==> cb(items[j]) == 0
    decreases |items| - i
  {
    if i < |items| { ShownIff(items, cb, now, i + 1, k); }
  }

  /** And in the order of the table. */
  lemma {:induction false} ShownInOrder(items: seq<Item>, cb: Item -> int, now: int, i: nat)
    requires i <= |items|
    ensures Rising(Shown(items, cb, now, i), i)
    decreases |items| - i
  {
    if i < |items| {
      ShownInOrder(items, cb, now, i + 1);
      RisingFrom(Shown(items, cb, now, i + 1), i);
    }
  }

  predicate Rising(r: seq<nat>, i: nat) {
    (forall a :: 0 <= a < |r| ==> r[a] >= i) && forall a, b :: 0 <= a < b < |r| ==> r[a] < r[b]
  }

  lemma {:induction false} RisingFrom(r: seq<nat>, i: nat)
    requires Rising(r, i + 1)
    ensures Rising(r, i) && Rising([i] + r, i)
  {
  }

  predicate AllDueBy(items: seq<Item>, deadline: int) {
    forall i :: 0 <= i < |items| && items[i].ip != NONE_IP ==> items[i].expireAt <= deadline
  }

  /** Of two entries for one address the lower one expires strictly later, and an entry that was set at
      `now` has no reusable slot below it. */
  predicate Guarded(items: seq<Item>, ttl: int, now: int) {
    forall i, j :: 0 <= i < j < |items| && items[j].ip != NONE_IP ==>
      if items[i].ip == items[j].ip then items[i].expireAt > items[j].expireAt
      else items[j].expireAt == now + ttl ==> items[i].ip != NONE_IP && items[i].expireAt >= now
  }

  lemma {:induction false} SetGuarded(items: seq<Item>, mac: Mac, ip: Ip, now: int, ttl: int)
    requires Guarded(items, ttl, now) && AllDueBy(items, now + ttl) && ttl >= 0
    ensures Guarded(AfterSet(items, mac, ip, now, ttl), ttl, now)
  {
    var k, r := FirstFit(items, ip, now, 0), AfterSet(items, mac, ip, now, ttl);
    if k < |items| {
      forall j | k < j < |items| && items[j].ip != NONE_IP && items[j].expireAt == now + ttl
        ensures ip != items[j].ip && ip != NONE_IP
      {
        SlotBelow(items, k, j, ip, now, ttl);
      }
    }
  }

  /** A slot below an entry set at `now` is reused only for its own address. */
  lemma {:induction false} SlotBelow(items: seq<Item>, k: nat, j: nat, ip: Ip, now: int, ttl: int)
    requires Guarded(items, ttl, now) && AllDueBy(items, now + ttl) && ttl >= 0
    requires k < j < |items| && items[j].ip != NONE_IP && items[j].expireAt == now + ttl && Reusable(items[k], ip, now)
    ensures ip == items[k].ip != items[j].ip && ip != NONE_IP
  {
  }

  lemma {:induction false} GuardedLater(items: seq<Item>, ttl: int, now: int, now': int)
    requires Guarded(items, ttl, now) && AllDueBy(items, now + ttl) && now <= now'
    ensures Guarded(items, ttl, now') && AllDueBy(items, now' + ttl)
  {
  }

  lemma {:induction false} RunGuarded(ttl: int, calls: seq<SetCall>, now: int)
    requires Ordered(calls, now) && ttl >= 0
    ensures Guarded(Run(ttl, calls), ttl, now) && AllDueBy(Run(ttl, calls), now + ttl)
  {
    if calls != [] {
      var p, c := calls[..|calls| - 1], calls[|calls| - 1];
      RunGuarded(ttl, p, c.now);
      SetGuarded(Run(ttl, p), c.mac, c.ip, c.now, ttl);
      GuardedLater(Run(ttl, calls), ttl, c.now, now);
    }
  }

  lemma {:induction false} VisitedTtl(ttl: int, calls: seq<SetCall>, now: int, i: nat)
    requires Ordered(calls, now) && Visited(Run(ttl, calls), i, now) && Run(ttl, calls)[i].ip != NONE_IP
    ensures ttl > 0
  {
    RunDueBy(ttl, calls, Run(ttl, calls)[i].ip, now);
  }

  /** A visited entry is the last set of its address if and only if no lower index holds the address;
      if one does, that one is visited too, so the address is served twice, once from an older set. */
  lemma {:induction false} VisitsLastSetOrDuplicate(ttl: int, calls: seq<SetCall>, now: int, i: nat)
    requires Ordered(calls, now) && Visited(Run(ttl, calls), i, now) && Run(ttl, calls)[i].ip != NONE_IP
    ensures var items := Run(ttl, calls); var ip := items[i].ip;
            && (FirstFor(items, i, ip) <==> LastSet(ttl, calls, ip) == Some(items[i]))
            && (forall j :: 0 <= j < i && items[j].ip == ip ==> Visited(items, j, now))
  {
    var items := Run(ttl, calls);
    VisitedTtl(ttl, calls, now, i);
    RunRepresents(ttl, calls, items[i].ip, now);
    RunGuarded(ttl, calls, now);
  }

  /** It does happen: a refresh can land in a reclaimed lower slot and leave a live duplicate behind. */
  lemma {:induction false} DuplicateExists(a: Ip, b: Ip, mac: Mac, mac': Mac)
    requires a != NONE_IP && b != NONE_IP && a != b
    ensures var calls := [SetCall(mac, b, 0), SetCall(mac, a, 5), SetCall(mac', a, 11)];
            var items := Run(10, calls);
            Ordered(calls, 11) && Visited(items, 0, 11) && Visited(items, 1, 11) && items[0] == Item(a, mac', 21) &&
                items[1] == Item(a, mac, 15)
  {
    var c1, c2, c3 := SetCall(mac, b, 0), SetCall(mac, a, 5), SetCall(mac', a, 11);
    assert [c1, c2, c3][..2] == [c1, c2] && [c1, c2][..1] == [c1] && [c1][..0] == [];
    var one := AfterSet(EmptyList(), mac, b, 0, 10);
    assert Run(10, [c1]) == one && one[0] == Item(b, mac, 10) && one[1].ip == NONE_IP;
    var two := AfterSet(one, mac, a, 5, 10);
    assert !Reusable(one[0], a, 5) && Reusable(one[1], a, 5);
    assert FirstFit(one, a, 5, 0) == 1;
    assert Run(10, [c1, c2]) == two && two[0] == one[0] && two[1] == Item(a, mac, 15);
    assert Run(10, [c1, c2, c3]) == AfterSet(two, mac', a, 11, 10);
  }

  /** A set fails exactly if every entry belongs to another address and has not expired: one that expires
      this very second cannot be overwritten yet, although it is no longer served. */
  lemma {:induction false} SetFailsIff(items: seq<Item>, ip: Ip, now: int)
    ensures !CanSet(items, ip, now) <==>
      forall i :: 0 <= i < |items| ==> items[i].ip != [0, 0, 0, 0] && items[i].ip != ip && items[i].expireAt >= now
  {
    var k := FirstFit(items, ip, now, 0);
    if k < |items| { assert Reusable(items[k], ip, now); }
  }

  /** A set that succeeds writes one entry, with the address, the MAC and the expiry, and no other. */
  lemma {:induction false} SetWritesOne(items: seq<Item>, mac: Mac, ip: Ip, now: int, ttl: int)
    requires CanSet(items, ip, now)
    ensures var r := AfterSet(items, mac, ip, now, ttl);
      exists k :: 0 <= k < |items| && r == items[k := Item(ip, mac, now + ttl)]
        && (items[k].ip == [0, 0, 0, 0] || items[k].ip == ip || items[k].expireAt < now)
        && forall j :: 0 <= j < k ==> items[j].ip != [0, 0, 0, 0] && items[j].ip != ip && items[j].expireAt >= now
  {
    var k := FirstFit(items, ip, now, 0);
    assert Reusable(items[k], ip, now);
  }
}
