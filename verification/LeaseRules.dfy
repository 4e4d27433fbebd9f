/**
 What the DHCP server (src/dhcp/server.c) promises its clients, in terms of who holds
 which address until when, and of nothing else in the lease table.
 */
module LeaseRules {
  import opened Optional
  import opened LeaseTable

  // ---- who holds what --------------------------------------------------

  ghost predicate Client(t: Table, mac: Mac) {
    exists id :: id in t.store && t.store[id].mac == mac
  }

  ghost predicate Owner(t: Table, mac: Mac, nip: nat) {
    exists id :: id in t.store && t.store[id].mac == mac && t.store[id].nip == nip
  }

  ghost predicate Recorded(t: Table, nip: nat) {
    exists id :: id in t.store && t.store[id].nip == nip
  }

  /** Now this client holds this address, nobody else does, and everything else is as
      before. */
  ghost predicate Granted(t: Table, u: Table, mac: Mac, nip: nat, expire: Time) {
    forall m, a, e :: Holds(u, m, a, e) <==>
      if m == mac then a == nip && e == expire else a != nip && Holds(t, m, a, e)
  }

  /** Now this client holds nothing, and everything else is as before. */
  ghost predicate Freed(t: Table, u: Table, mac: Mac) {
    forall m, a, e :: Holds(u, m, a, e) <==> m != mac && Holds(t, m, a, e)
  }

  predicate RealMac(mac: Mac) {
    mac != 0 && mac != 0xffff_ffff_ffff
  }

  /** There is a record to use, or memory for one. */
  ghost predicate Room(t: Table, mac: Mac, nip: nat, alloc: bool) {
    alloc || Client(t, mac) || Recorded(t, nip)
  }

  // ---- lookups ---------------------------------------------------------

  lemma MacFound(cfg: Config, t: Table, mac: Mac)
    requires Inv(cfg, t)
    ensures forall id :: id in t.list ==> id in t.store
    ensures var own := FindByMac(t.store, t.list, mac);
      && (own.Some? <==> Client(t, mac))
      && (own.Some? ==> own.value in t.store && t.store[own.value].mac == mac)
      && (own.Some? ==> forall id :: id in t.store && t.store[id].mac == mac ==> id == own.value)
  {
    hide Indexes, Sorted, GoodLeases, Distinct, FindByMac;
    IdsStored(cfg, t);
  }

  lemma NipFound(cfg: Config, t: Table, nip: nat)
    requires Inv(cfg, t)
    ensures nip in t.index <==> Recorded(t, nip)
    ensures nip in t.index ==> t.index[nip] in t.store && t.store[t.index[nip]].nip == nip
    ensures forall id :: id in t.store && t.store[id].nip == nip ==> nip in t.index && id == t.index[nip]
  {
    hide Inv;
    IndexedByNip(cfg, t);
  }

  lemma OwnNip(cfg: Config, t: Table, mac: Mac, nip: nat)
    requires Inv(cfg, t)
    ensures forall id :: id in t.list ==> id in t.store
    ensures var own := FindByMac(t.store, t.list, mac);
      && (own.Some? ==> own.value in t.store)
      && (Owner(t, mac, nip) <==> own.Some? && t.store[own.value].nip == nip)
  {
    hide Inv, FindByMac;
    MacFound(cfg, t, mac);
  }

  // ---- adding ----------------------------------------------------------

  lemma AddLeaseRoom(cfg: Config, t: Table, expire: Time, mac: Mac, nip: nat, now: Time, alloc: bool)
    requires Inv(cfg, t)
    ensures AddLease(cfg, t, expire, mac, nip, now, alloc).Some?
      <==> Acceptable(cfg, nip, mac) && Room(t, mac, nip, alloc)
  {
    hide Inv, Detach, RemoveLease, FindByMac, Client, Recorded, Acceptable;
    MacFound(cfg, t, mac);
    NipFound(cfg, t, nip);
    GetLeaseKeeps(cfg, t, nip, mac, alloc);
  }

  /** Nothing but the lease asked for is added. */
  lemma AddLeaseOnly(cfg: Config, t: Table, expire: Time, mac: Mac, nip: nat, now: Time, alloc: bool, y: nat)
    requires Inv(cfg, t)
    ensures var r := AddLease(cfg, t, expire, mac, nip, now, alloc);
      r.Some? && y in r.value.0.store && y != r.value.1 ==> y in t.store && r.value.0.store[y] == t.store[y]
  {
    hide Inv, RemoveId, Position, InsertAt, FindByMac;
    MacFound(cfg, t, mac);
    GetLeaseKeeps(cfg, t, nip, mac, alloc);
  }

  lemma UniqueLeases(cfg: Config, u: Table, id: nat, y: nat)
    requires Inv(cfg, u) && id in u.store && y in u.store && y != id
    ensures u.store[y].mac != u.store[id].mac && u.store[y].nip != u.store[id].nip
  {
    hide Inv;
    InvAgrees(cfg, u);
  }

  lemma AddLeaseGrants(cfg: Config, t: Table, expire: Time, mac: Mac, nip: nat, now: Time, alloc: bool)
    requires Inv(cfg, t)
    requires expire < INT_LIMIT && now + cfg.leaseSeconds < INT_LIMIT
    ensures var r := AddLease(cfg, t, expire, mac, nip, now, alloc);
      && (r.Some? ==> Inv(cfg, r.value.0))
      && (r.Some? ==> Granted(t, r.value.0, mac, nip, if expire == 0 then now + cfg.leaseSeconds else expire))
  {
    hide Inv, AddLease;
    AddLeaseKeeps(cfg, t, expire, mac, nip, now, alloc);
    var r := AddLease(cfg, t, expire, mac, nip, now, alloc);
    if r.Some? {
      var (u, id) := r.value;
      forall y | y in u.store && y != id
        ensures y in t.store && u.store[y] == t.store[y] && u.store[y].mac != mac && u.store[y].nip != nip
      {
        AddLeaseOnly(cfg, t, expire, mac, nip, now, alloc, y);
        UniqueLeases(cfg, u, id, y);
      }
      forall y | y in t.store && t.store[y].mac != mac && t.store[y].nip != nip
        ensures y in u.store && u.store[y] == t.store[y]
      {
        AddLeaseOthers(cfg, t, expire, mac, nip, now, alloc, y);
      }
      GrantedBy(t, u, id);
    }
  }

  lemma GrantedBy(t: Table, u: Table, id: nat)
    requires id in u.store
    requires forall y :: y in u.store && y != id ==>
      y in t.store && u.store[y] == t.store[y] && u.store[y].mac != u.store[id].mac && u.store[y].nip != u.store[id].nip
    requires forall y :: y in t.store && t.store[y].mac != u.store[id].mac && t.store[y].nip != u.store[id].nip ==>
      y in u.store && u.store[y] == t.store[y]
    ensures Granted(t, u, u.store[id].mac, u.store[id].nip, u.store[id].expire)
  {
    var x := u.store[id];
    forall m, a, e
      ensures Holds(u, m, a, e) <==> if m == x.mac then a == x.nip && e == x.expire else a != x.nip && Holds(t, m, a, e)
    {
      if m != x.mac && a != x.nip && Holds(t, m, a, e) {
        var y :| y in t.store && t.store[y] == Lease(e, a, m);
        assert y in u.store;
      }
    }
  }

  // ---- REQUEST ---------------------------------------------------------

  /** Granting again only moves the expiry. */
  lemma GrantedTwice(t: Table, u: Table, v: Table, mac: Mac, nip: nat, e1: Time, e2: Time)
    requires Granted(t, u, mac, nip, e1) && Granted(u, v, mac, nip, e2)
    ensures Granted(t, v, mac, nip, e2)
  {
    hide Holds;
  }

  lemma OwnerServed(cfg: Config, t: Table, mac: Mac, nip: nat)
    requires Inv(cfg, t) && Owner(t, mac, nip)
    ensures Acceptable(cfg, nip, mac) && Client(t, mac) && Recorded(t, nip)
  {
    hide Lists, Indexes, Sorted, OnePerMac;
  }

  lemma AckGrants(cfg: Config, t: Table, mac: Mac, nip: nat, now: Time, alloc: bool)
    requires Inv(cfg, t) && now + cfg.leaseSeconds < INT_LIMIT && Owner(t, mac, nip)
    ensures var (u, reply) := SendAck(cfg, t, mac, nip, now, alloc);
      reply == Ack(nip) && Granted(t, u, mac, nip, now + cfg.leaseSeconds)
  {
    hide Inv, AddLease, Owner, Granted;
    OwnerServed(cfg, t, mac, nip);
    AddLeaseRoom(cfg, t, 0, mac, nip, now, alloc);
    AddLeaseGrants(cfg, t, 0, mac, nip, now, alloc);
  }

  /** A client is served the address it owns, and one that owns nothing is served any
      address the server hands out, if there is room. */
  ghost predicate Serves(cfg: Config, t: Table, mac: Mac, nip: nat, alloc: bool) {
    || Owner(t, mac, nip)
    || (!Client(t, mac) && RealMac(mac) && nip != 0 && cfg.startIp <= nip <= cfg.endIp && (alloc || Recorded(t, nip)))
  }

  /** The answer to a REQUEST and what it does, from what is held alone. */
  lemma RequestExact(cfg: Config, t: Table, mac: Mac, requested: nat, ciaddr: nat, serverId: bool, now: Time,
                     alloc: bool)
    requires Inv(cfg, t) && now + cfg.leaseSeconds < INT_LIMIT
    ensures var nip := if requested == 0 then ciaddr else requested;
      var (u, reply) := OnRequest(cfg, t, mac, requested, ciaddr, serverId, now, alloc);
      && (reply == Ack(nip) <==> nip != 0 && Serves(cfg, t, mac, nip, alloc))
      && (reply == Silence <==> nip == 0 || (Client(t, mac) && !Owner(t, mac, nip) && !serverId))
      && (reply == Nak <==> nip != 0 && !Serves(cfg, t, mac, nip, alloc) && (Client(t, mac) ==> serverId))
      && (if reply == Ack(nip) then Granted(t, u, mac, nip, now + cfg.leaseSeconds) else u == t)
  {
    hide Inv, AddLease, SendAck, FindByMac, Granted;
    var nip := if requested == 0 then ciaddr else requested;
    MacFound(cfg, t, mac);
    OwnNip(cfg, t, mac, nip);
    if nip != 0 {
      if Owner(t, mac, nip) {
        AckGrants(cfg, t, mac, nip, now, alloc);
      } else if !Client(t, mac) {
        NewcomerServed(cfg, t, mac, nip, now, alloc);
      }
    }
  }

  lemma NewcomerServed(cfg: Config, t: Table, mac: Mac, nip: nat, now: Time, alloc: bool)
    requires Inv(cfg, t) && now + cfg.leaseSeconds < INT_LIMIT && !Client(t, mac)
    ensures var r := AddLease(cfg, t, OFFER_TIME, mac, nip, now, alloc);
      && (r.Some? <==> Serves(cfg, t, mac, nip, alloc))
      && (r.Some? ==> Inv(cfg, r.value.0))
      && (r.Some? ==> var (u, reply) := SendAck(cfg, r.value.0, mac, nip, now, alloc);
            reply == Ack(nip) && Granted(t, u, mac, nip, now + cfg.leaseSeconds))
  {
    hide Inv, AddLease, SendAck, Granted;
    AddLeaseRoom(cfg, t, OFFER_TIME, mac, nip, now, alloc);
    AddLeaseKeeps(cfg, t, OFFER_TIME, mac, nip, now, alloc);
    AddLeaseGrants(cfg, t, OFFER_TIME, mac, nip, now, alloc);
    var r := AddLease(cfg, t, OFFER_TIME, mac, nip, now, alloc);
    if r.Some? {
      AckGrants(cfg, r.value.0, mac, nip, now, alloc);
      GrantedTwice(t, r.value.0, SendAck(cfg, r.value.0, mac, nip, now, alloc).0, mac, nip, OFFER_TIME,
                   now + cfg.leaseSeconds);
    }
  }

  // ---- DISCOVER --------------------------------------------------------

  /** An address that can be handed out and is not recorded. */
  ghost predicate Free(cfg: Config, t: Table, a: nat) {
    cfg.startIp <= a <= cfg.endIp && a % 256 != 0 && a % 256 != 255 && !Recorded(t, a)
  }

  /** A lease that ran out, and none ran out before it. */
  ghost predicate Oldest(t: Table, a: nat, now: Time) {
    exists id :: id in t.store && t.store[id].nip == a && t.store[id].expire < now
      && forall y :: y in t.store ==> t.store[y].expire >= t.store[id].expire
  }

  /** What the server gives to somebody without wishes: the lowest free address, or else
      the one that ran out first. */
  ghost predicate Spare(cfg: Config, t: Table, now: Time, a: nat) {
    || (Free(cfg, t, a) && forall b :: Free(cfg, t, b) ==> a <= b)
    || ((forall b :: !Free(cfg, t, b)) && Oldest(t, a, now))
  }

  /** An address that a client without a lease may ask for. */
  ghost predicate Grantable(cfg: Config, t: Table, now: Time, a: nat) {
    && a != 0 && cfg.startIp <= a <= cfg.endIp
    && forall id :: id in t.store && t.store[id].nip == a ==> t.store[id].expire < now
  }

  ghost predicate MayOffer(cfg: Config, t: Table, mac: Mac, requested: nat, now: Time, a: nat) {
    if Client(t, mac) then Owner(t, mac, a)
    else if Grantable(cfg, t, now, requested) then a == requested
    else Spare(cfg, t, now, a)
  }

  lemma {:induction false} FirstFreeLeast(cfg: Config, t: Table, ip: nat, endIp: nat)
    ensures var r := FirstFree(t, ip, endIp);
      forall b :: ip <= b <= endIp && b % 256 != 0 && b % 256 != 255 && b !in t.index ==> r != 0 && r <= b
    decreases endIp + 1 - ip
  {
    if ip <= endIp {
      FirstFreeLeast(cfg, t, ip + 1, endIp);
    }
  }

  /** The allocator's preference. */
  lemma AllocatorPrefers(cfg: Config, t: Table, now: Time)
    requires Inv(cfg, t)
    ensures var r := FindFreeOrExpired(cfg, t, now);
      && (r != 0 ==> Spare(cfg, t, now, r))
      && (r == 0 ==> forall a :: !Spare(cfg, t, now, a))
  {
    hide Inv, FirstFree, Recorded;
    FirstFreeIsFirst(t, cfg.startIp, cfg.endIp);
    FirstFreeLeast(cfg, t, cfg.startIp, cfg.endIp);
    forall b
      ensures b in t.index <==> Recorded(t, b)
    {
      NipFound(cfg, t, b);
    }
    LastIsOldest(cfg, t, now);
  }

  lemma LastIsOldest(cfg: Config, t: Table, now: Time)
    requires Inv(cfg, t)
    ensures forall id :: id in t.list ==> id in t.store && t.store[id].nip != 0
    ensures t.list == [] ==> forall a :: !Oldest(t, a, now)
    ensures t.list != [] ==>
      var x := t.store[t.list[|t.list| - 1]];
      (x.expire < now ==> Oldest(t, x.nip, now)) && (x.expire >= now ==> forall a :: !Oldest(t, a, now))
  {
    hide Indexes, OnePerMac, Distinct;
    if t.list != [] {
      var n := |t.list| - 1;
      assert t.list[n] in t.list;
      forall id | id in t.store
        ensures t.store[id].expire >= t.store[t.list[n]].expire
      {
        var i :| 0 <= i < |t.list| && t.list[i] == id;
      }
    }
  }

  lemma GrantableIsChecked(cfg: Config, t: Table, nip: nat, now: Time)
    requires Inv(cfg, t)
    ensures CheckRequested(cfg, t, nip, now) <==> Grantable(cfg, t, now, nip)
  {
    hide Inv;
    NipFound(cfg, t, nip);
    IndexedByNip(cfg, t);
  }

  lemma ChooseExact(cfg: Config, t: Table, mac: Mac, requested: nat, now: Time)
    requires Inv(cfg, t)
    ensures var c := Choose(cfg, t, mac, requested, now);
      && (c != 0 ==> MayOffer(cfg, t, mac, requested, now, c))
      && (c == 0 ==> forall a :: !MayOffer(cfg, t, mac, requested, now, a))
  {
    hide Inv, FindFreeOrExpired, CheckRequested, Spare, Grantable, FindByMac;
    MacFound(cfg, t, mac);
    GrantableIsChecked(cfg, t, requested, now);
    AllocatorPrefers(cfg, t, now);
    var own := FindByMac(t.store, t.list, mac);
    if own.Some? {
      OwnNip(cfg, t, mac, t.store[own.value].nip);
      OwnerServed(cfg, t, mac, t.store[own.value].nip);
    } else {
      WishNotZero(cfg, t, now, requested);
    }
  }

  lemma WishNotZero(cfg: Config, t: Table, now: Time, a: nat)
    ensures Grantable(cfg, t, now, a) ==> a != 0
  {
  }

  /** Only addresses of the configured range are offered. */
  lemma OfferInRange(cfg: Config, t: Table, mac: Mac, requested: nat, now: Time, a: nat)
    requires Inv(cfg, t) && MayOffer(cfg, t, mac, requested, now, a)
    ensures a != 0 && cfg.startIp <= a <= cfg.endIp
    ensures Client(t, mac) ==> RealMac(mac)
  {
    hide Lists, Indexes, Sorted, OnePerMac;
    if Client(t, mac) {
      OwnerServed(cfg, t, mac, a);
    }
  }

  /** The answer to a DISCOVER and what it does, from what is held alone. */
  lemma DiscoverExact(cfg: Config, t: Table, mac: Mac, requested: nat, now: Time, alloc: bool)
    requires Inv(cfg, t) && now + cfg.leaseSeconds < INT_LIMIT
    ensures var (u, reply) := OnDiscover(cfg, t, mac, requested, now, alloc);
      && (reply.Offer? || reply == Silence)
      && (reply.Offer? ==> MayOffer(cfg, t, mac, requested, now, reply.nip))
      && (reply.Offer? <==> RealMac(mac) && exists a :: MayOffer(cfg, t, mac, requested, now, a)
                                                  && Room(t, mac, a, alloc))
      && (if reply.Offer? then Granted(t, u, mac, reply.nip, OFFER_TIME) else u == t)
  {
    hide Inv, AddLease, Choose, MayOffer, Granted, Room;
    var c := Choose(cfg, t, mac, requested, now);
    ChooseExact(cfg, t, mac, requested, now);
    if c != 0 {
      OfferInRange(cfg, t, mac, requested, now, c);
      AddLeaseRoom(cfg, t, OFFER_TIME, mac, c, now, alloc);
      AddLeaseGrants(cfg, t, OFFER_TIME, mac, c, now, alloc);
      forall a | MayOffer(cfg, t, mac, requested, now, a)
        ensures Room(t, mac, a, alloc) <==> Room(t, mac, c, alloc)
      {
        SameRoom(cfg, t, mac, requested, now, a, c, alloc);
      }
    }
  }

  lemma SameRoom(cfg: Config, t: Table, mac: Mac, requested: nat, now: Time, a: nat, b: nat, alloc: bool)
    requires MayOffer(cfg, t, mac, requested, now, a) && MayOffer(cfg, t, mac, requested, now, b)
    ensures Room(t, mac, a, alloc) <==> Room(t, mac, b, alloc)
  {
    hide Grantable, Client;
  }

  // ---- DECLINE, RELEASE and INFORM -------------------------------------

  lemma RemoveFrees(cfg: Config, t: Table, id: nat)
    requires Inv(cfg, t) && id in t.store
    ensures Freed(t, RemoveLease(t, id), t.store[id].mac)
  {
    hide Inv;
    var u := RemoveLease(t, id);
    assert u.store == t.store - {id};
    forall y | y in t.store && y != id
      ensures t.store[y].mac != t.store[id].mac
    {
      UniqueLeases(cfg, t, id, y);
    }
    forall m, a, e
      ensures Holds(u, m, a, e) <==> m != t.store[id].mac && Holds(t, m, a, e)
    {
      if m != t.store[id].mac && Holds(t, m, a, e) {
        var y :| y in t.store && t.store[y] == Lease(e, a, m);
        assert y in u.store;
      }
    }
  }

  lemma SetExpireGrants(cfg: Config, t: Table, id: nat, expire: Time)
    requires Inv(cfg, t) && id in t.store
    ensures Granted(t, SetExpire(cfg, t, id, expire), t.store[id].mac, t.store[id].nip, expire)
  {
    hide Inv;
    var u := SetExpire(cfg, t, id, expire);
    assert u.store == t.store[id := t.store[id].(expire := expire)];
    forall y | y in t.store && y != id
      ensures t.store[y].mac != t.store[id].mac && t.store[y].nip != t.store[id].nip
    {
      UniqueLeases(cfg, t, id, y);
    }
    GrantedBy(t, u, id);
  }

  /** A client can give back only what it owns, and then it owns nothing. */
  lemma DeclineExact(cfg: Config, t: Table, mac: Mac, declined: Option<nat>, serverId: bool, now: Time, alloc: bool)
    requires Inv(cfg, t) && now + cfg.leaseSeconds < INT_LIMIT
    ensures var (u, reply) := Handle(cfg, t, Decline(mac, declined, serverId), now, alloc);
      && reply == Silence
      && (if serverId && declined.Some? && Owner(t, mac, declined.value) then Freed(t, u, mac) else u == t)
  {
    hide Inv, RemoveLease, FindByMac, Freed;
    MacFound(cfg, t, mac);
    if declined.Some? {
      OwnNip(cfg, t, mac, declined.value);
      if Owner(t, mac, declined.value) {
        RemoveFrees(cfg, t, FindByMac(t.store, t.list, mac).value);
      }
    }
  }

  /** Releasing ends the lease now, and leaves the client its address. */
  lemma ReleaseExact(cfg: Config, t: Table, mac: Mac, ciaddr: nat, serverId: bool, now: Time, alloc: bool)
    requires Inv(cfg, t) && now + cfg.leaseSeconds < INT_LIMIT
    ensures var (u, reply) := Handle(cfg, t, Release(mac, ciaddr, serverId), now, alloc);
      && reply == Silence
      && (if serverId && Owner(t, mac, ciaddr) then Granted(t, u, mac, ciaddr, now) else u == t)
  {
    hide Inv, SetExpire, FindByMac, Granted;
    MacFound(cfg, t, mac);
    OwnNip(cfg, t, mac, ciaddr);
    if Owner(t, mac, ciaddr) {
      SetExpireGrants(cfg, t, FindByMac(t.store, t.list, mac).value, now);
    }
  }

  lemma InformExact(cfg: Config, t: Table, mac: Mac, now: Time, alloc: bool)
    requires Inv(cfg, t) && now + cfg.leaseSeconds < INT_LIMIT
    ensures Handle(cfg, t, Inform(mac), now, alloc) == (t, InformAck)
  {
  }

  // ---- exchanges -------------------------------------------------------

  lemma HolderOwns(t: Table, mac: Mac, nip: nat, expire: Time)
    requires Holds(t, mac, nip, expire)
    ensures Owner(t, mac, nip) && Client(t, mac)
  {
    var id :| id in t.store && t.store[id] == Lease(expire, nip, mac);
    assert t.store[id].mac == mac && t.store[id].nip == nip;
  }

  /** A client that asks for what it was offered gets it, for the full time, whether or
      not there is memory. */
  lemma Exchange(cfg: Config, t: Table, mac: Mac, requested: nat, now: Time, alloc: bool, serverId: bool, later: Time,
                 alloc2: bool)
    requires Inv(cfg, t) && now + cfg.leaseSeconds < INT_LIMIT && later + cfg.leaseSeconds < INT_LIMIT
    requires Handle(cfg, t, Discover(mac, requested), now, alloc).1.Offer?
    ensures var (u, offer) := Handle(cfg, t, Discover(mac, requested), now, alloc);
      && Inv(cfg, u)
      && var (v, reply) := Handle(cfg, u, Request(mac, offer.nip, 0, serverId), later, alloc2);
         reply == Ack(offer.nip) && Granted(t, v, mac, offer.nip, later + cfg.leaseSeconds)
  {
    hide Inv, OnDiscover, OnRequest, Granted, MayOffer;
    var (u, offer) := Handle(cfg, t, Discover(mac, requested), now, alloc);
    var nip := offer.nip;
    HandleKeeps(cfg, t, Discover(mac, requested), now, alloc);
    HolderOwns(u, mac, nip, OFFER_TIME);
    OwnerServed(cfg, u, mac, nip);
    RequestExact(cfg, u, mac, nip, 0, serverId, later, alloc2);
    DiscoverExact(cfg, t, mac, requested, now, alloc);
    GrantedTwice(t, u, OnRequest(cfg, u, mac, nip, 0, serverId, later, alloc2).0, mac, nip, OFFER_TIME,
                 later + cfg.leaseSeconds);
  }

  /** A released address is offered, at any later time, to whoever has no lease and asks
      for it, and a declined one at any time. */
  lemma GivenBackIsOffered(cfg: Config, t: Table, p: Packet, now: Time, alloc: bool, nip: nat, other: Mac, later: Time,
                           alloc2: bool)
    requires Inv(cfg, t) && now + cfg.leaseSeconds < INT_LIMIT && later + cfg.leaseSeconds < INT_LIMIT
    requires Owner(t, p.mac, nip) && RealMac(other) && !Client(t, other) && alloc2
    requires (p.Release? && p.ciaddr == nip && p.serverId && later > now)
          || (p.Decline? && p.declined == Some(nip) && p.serverId)
    ensures var u := Handle(cfg, t, p, now, alloc).0;
      && Inv(cfg, u)
      && Handle(cfg, u, Discover(other, nip), later, alloc2).1 == Offer(nip)
  {
    hide Inv, OnDiscover, Handle;
    var u := Handle(cfg, t, p, now, alloc).0;
    HandleKeeps(cfg, t, p, now, alloc);
    OwnerServed(cfg, t, p.mac, nip);
    if p.Release? {
      ReleaseExact(cfg, t, p.mac, nip, true, now, alloc);
    } else {
      DeclineExact(cfg, t, p.mac, Some(nip), true, now, alloc);
    }
    NowGrantable(cfg, t, u, p.mac, nip, now, other, later);
    WishOffered(cfg, u, other, nip, later);
  }

  /** A client without a lease is offered the address it asks for, if it may have it. */
  lemma WishOffered(cfg: Config, t: Table, mac: Mac, nip: nat, now: Time)
    requires Inv(cfg, t) && now + cfg.leaseSeconds < INT_LIMIT
    requires RealMac(mac) && !Client(t, mac) && Grantable(cfg, t, now, nip)
    ensures Handle(cfg, t, Discover(mac, nip), now, true).1 == Offer(nip)
  {
    hide Inv, OnDiscover, Grantable, Client, Granted;
    DiscoverExact(cfg, t, mac, nip, now, true);
    assert MayOffer(cfg, t, mac, nip, now, nip) && Room(t, mac, nip, true);
  }

  lemma NowGrantable(cfg: Config, t: Table, u: Table, mac: Mac, nip: nat, now: Time, other: Mac, later: Time)
    requires Inv(cfg, t) && Acceptable(cfg, nip, mac) && Owner(t, mac, nip) && !Client(t, other)
    requires (Granted(t, u, mac, nip, now) && later > now) || Freed(t, u, mac)
    ensures Grantable(cfg, u, later, nip) && !Client(u, other)
  {
    hide Inv;
    forall id | id in u.store
      ensures u.store[id].mac != other && (u.store[id].nip == nip ==> u.store[id].expire < later)
    {
      var x := u.store[id];
      assert Holds(u, x.mac, x.nip, x.expire);
      if x.mac != mac {
        assert Holds(t, x.mac, x.nip, x.expire);
        HolderOwns(t, x.mac, x.nip, x.expire);
        OneOwner(cfg, t, mac, x.mac, nip);
      } else {
        assert Client(t, mac);
      }
    }
  }

  lemma OneOwner(cfg: Config, t: Table, a: Mac, b: Mac, nip: nat)
    requires Inv(cfg, t) && a != b && Owner(t, a, nip)
    ensures !Owner(t, b, nip)
  {
    hide Inv;
    InvAgrees(cfg, t);
  }
}
