/**
 The lease table of the DHCP server (src/dhcp/server.c): lease records that are
 shared by a list, sorted by expiry with the latest first, and an index by address.
 A pointer to a record is modelled by its number.
 */
module LeaseTable {
  import opened Optional

  type Mac = nat
  type Time = nat

  const MAC_BCAST: Mac := 0xffff_ffff_ffff
  const MAC_ANY: Mac := 0
  const OFFER_TIME: Time := 5 * 60
  const INT_LIMIT: nat := 0x8000_0000
  const IP_LIMIT: nat := 0x1_0000_0000

  datatype Lease = Lease(expire: Time, nip: nat, mac: Mac)

  datatype Config = Config(startIp: nat, endIp: nat, leaseSeconds: nat)

  datatype Table = Table(store: map<nat, Lease>, list: seq<nat>, index: map<nat, nat>, used: nat)

  const EMPTY := Table(map[], [], map[], 0)

  // ---- the order -------------------------------------------------------

  /** A 64-bit difference cut down to an int. */
  function ToInt(x: int): int {
    var y := x % (2 * INT_LIMIT);
    if y >= INT_LIMIT then y - 2 * INT_LIMIT else y
  }

  /** `compare_expire` */
  function CompareExpire(a: Lease, b: Lease): int {
    ToInt(b.expire - a.expire)
  }

  /** The comparison tells which of two leases expires later. */
  predicate Ordered(a: Lease, b: Lease) {
    && (CompareExpire(a, b) > 0 <==> b.expire > a.expire)
    && (CompareExpire(a, b) == 0 <==> b.expire == a.expire)
  }

  /** The comparison is right exactly if cutting the difference down keeps its sign,
      which for differences of less than 2^32 means that it fits in an int. */
  lemma CompareExact(a: Lease, b: Lease)
    ensures var d := b.expire - a.expire;
      var low := d % (2 * INT_LIMIT);
      && (Ordered(a, b) <==> d == 0 || (d > 0 && 0 < low < INT_LIMIT) || (d < 0 && low >= INT_LIMIT))
      && (-2 * INT_LIMIT < d < 2 * INT_LIMIT ==> (Ordered(a, b) <==> -(INT_LIMIT as int) <= d < INT_LIMIT))
  {
    var d := b.expire - a.expire;
    var low := d % (2 * INT_LIMIT);
    if 0 <= d < 2 * INT_LIMIT {
      assert low == d;
    } else if -2 * INT_LIMIT < d < 0 {
      assert low == d + 2 * INT_LIMIT;
    }
  }

  // ---- lists of record numbers -----------------------------------------

  function IndexOf(list: seq<nat>, id: nat): (i: nat)
    ensures i <= |list|
    ensures i < |list| ==> list[i] == id
    ensures i == |list| <==> id !in list
  {
    if list == [] || list[0] == id then 0 else 1 + IndexOf(list[1..], id)
  }

  /** `g_list_remove` */
  function RemoveId(list: seq<nat>, id: nat): seq<nat> {
    var i := IndexOf(list, id);
    if i == |list| then list else RemoveAt(list, i)
  }

  function RemoveAt(list: seq<nat>, i: nat): seq<nat>
    requires i < |list|
  {
    list[..i] + list[i + 1..]
  }

  /** Where `g_list_insert_sorted` puts a record: in front of the first one that
      does not compare as greater. */
  function Position(store: map<nat, Lease>, list: seq<nat>, x: Lease): (i: nat)
    requires forall id :: id in list ==> id in store
    ensures i <= |list|
  {
    if list == [] || CompareExpire(x, store[list[0]]) <= 0 then 0
    else 1 + Position(store, list[1..], x)
  }

  function InsertAt(list: seq<nat>, i: nat, id: nat): seq<nat>
    requires i <= |list|
  {
    list[..i] + [id] + list[i..]
  }

  // ---- the operations --------------------------------------------------

  /** `find_lease_by_mac` */
  function FindByMac(store: map<nat, Lease>, list: seq<nat>, mac: Mac): (r: Option<nat>)
    requires forall id :: id in list ==> id in store
    ensures r.Some? ==> r.value in list && store[r.value].mac == mac
    ensures r.None? ==> forall id :: id in list ==> store[id].mac != mac
  {
    if list == [] then None
    else if store[list[0]].mac == mac then Some(list[0])
    else FindByMac(store, list[1..], mac)
  }

  function FindByNip(t: Table, nip: nat): Option<nat> {
    if nip in t.index then Some(t.index[nip]) else None
  }

  /** Takes a record out of the list and the index. */
  function Detach(t: Table, id: nat): Table
    requires id in t.store
  {
    t.(list := RemoveId(t.list, id), index := t.index - {t.store[id].nip})
  }

  /** `remove_lease` */
  function RemoveLease(t: Table, id: nat): Table
    requires id in t.store
  {
    Detach(t, id).(store := t.store - {id})
  }

  predicate Acceptable(cfg: Config, nip: nat, mac: Mac) {
    nip != 0 && cfg.startIp <= nip <= cfg.endIp && mac != MAC_BCAST && mac != MAC_ANY
  }

  /** `get_lease`: the record to use for this address and client, detached; a
      second one is freed. */
  function GetLease(cfg: Config, t: Table, nip: nat, mac: Mac, alloc: bool): Option<(Table, nat)>
    requires Inv(cfg, t)
  {
    if !Acceptable(cfg, nip, mac) then None
    else
      var byMac, byNip := FindByMac(t.store, t.list, mac), FindByNip(t, nip);
      if byNip.Some? then
        var t1 := Detach(t, byNip.value);
        if byMac.Some? && byMac.value != byNip.value then Some((RemoveLease(t1, byMac.value), byNip.value))
        else Some((t1, byNip.value))
      else if byMac.Some? then Some((Detach(t, byMac.value), byMac.value))
      else if alloc then Some((t.(store := t.store[t.used := Lease(0, 0, 0)], used := t.used + 1), t.used))
      else None
  }

  /** Fills in the record and puts it into the list and the index. */
  function Attach(t: Table, id: nat, x: Lease): Table
    requires forall i :: i in t.list ==> i in t.store
  {
    t.(store := t.store[id := x], list := InsertAt(t.list, Position(t.store, t.list, x), id),
       index := t.index[x.nip := id])
  }

  /** `add_lease`; an expiry of zero stands for the configured lease time. */
  function AddLease(cfg: Config, t: Table, expire: Time, mac: Mac, nip: nat, now: Time, alloc: bool)
    : Option<(Table, nat)>
    requires Inv(cfg, t)
  {
    GetLeaseKeeps(cfg, t, nip, mac, alloc);
    var got := GetLease(cfg, t, nip, mac, alloc);
    if got.None? then None
    else
      var (t1, id) := got.value;
      Some((Attach(t1, id, Lease(if expire == 0 then now + cfg.leaseSeconds else expire, nip, mac)), id))
  }

  // ---- what every operation keeps --------------------------------------

  ghost predicate Distinct(list: seq<nat>) {
    forall i, j :: 0 <= i < j < |list| ==> list[i] != list[j]
  }

  /** The list holds exactly the records, but for `but`. */
  ghost predicate Lists(t: Table, but: set<nat>) {
    Distinct(t.list) && forall id :: id in t.list <==> id in t.store && id !in but
  }

  /** The index leads exactly to the records, but for `but`, by their address. */
  ghost predicate Indexes(t: Table, but: set<nat>) {
    && (forall n :: n in t.index ==> t.index[n] in t.store && t.index[n] !in but && t.store[t.index[n]].nip == n)
    && (forall id :: id in t.store && id !in but ==> t.store[id].nip in t.index && t.index[t.store[id].nip] == id)
  }

  /** At most one record per client. */
  ghost predicate OnePerMac(t: Table, but: set<nat>) {
    forall a, b :: a in t.store && b in t.store && a !in but && b !in but && t.store[a].mac == t.store[b].mac ==> a == b
  }

  ghost predicate Sorted(t: Table) {
    && (forall id :: id in t.list ==> id in t.store)
    && forall i, j :: 0 <= i < j < |t.list| ==> t.store[t.list[i]].expire >= t.store[t.list[j]].expire
  }

  predicate GoodLease(cfg: Config, x: Lease) {
    Acceptable(cfg, x.nip, x.mac) && x.expire < INT_LIMIT
  }

  ghost predicate GoodLeases(cfg: Config, t: Table, but: set<nat>) {
    && (forall id :: id in t.store ==> id < t.used)
    && forall id :: id in t.store && id !in but ==> GoodLease(cfg, t.store[id])
  }

  /** The invariant, with the records in `but` detached. */
  ghost predicate InvBut(cfg: Config, t: Table, but: set<nat>) {
    Lists(t, but) && Indexes(t, but) && OnePerMac(t, but) && Sorted(t) && GoodLeases(cfg, t, but)
  }

  ghost predicate Inv(cfg: Config, t: Table) {
    InvBut(cfg, t, {})
  }

  lemma RemoveIdKeeps(list: seq<nat>, id: nat)
    requires Distinct(list)
    ensures Distinct(RemoveId(list, id))
    ensures forall x :: x in RemoveId(list, id) <==> x in list && x != id
  {
    var k, r := IndexOf(list, id), RemoveId(list, id);
    if k < |list| {
      forall x | x in list && x != id
        ensures x in r
      {
        var i :| 0 <= i < |list| && list[i] == x;
        assert r[if i < k then i else i - 1] == x;
      }
    }
  }

  lemma RemovedAt(list: seq<nat>, id: nat, i: nat)
    requires i < |RemoveId(list, id)|
    ensures var k := IndexOf(list, id);
      |RemoveId(list, id)| <= |list| && RemoveId(list, id)[i] == list[if i < k then i else i + 1]
  {
    var k := IndexOf(list, id);
    hide IndexOf, RemoveAt;
    if k < |list| { RemovedElement(list, k, i); }
  }

  lemma RemovedElement(list: seq<nat>, k: nat, i: nat)
    requires k < |list|
    ensures |RemoveAt(list, k)| == |list| - 1
    ensures i < |list| - 1 ==> RemoveAt(list, k)[i] == list[if i < k then i else i + 1]
  {
  }

  lemma DetachLists(t: Table, id: nat, but: set<nat>)
    requires Lists(t, but) && Sorted(t) && id in t.store && id !in but
    ensures Lists(Detach(t, id), but + {id}) && Sorted(Detach(t, id))
  {
    RemoveIdKeeps(t.list, id);
    var r := RemoveId(t.list, id);
    hide RemoveId, IndexOf, Distinct, RemoveAt;
    forall i, j | 0 <= i < j < |r|
      ensures t.store[r[i]].expire >= t.store[r[j]].expire
    {
      RemovedAt(t.list, id, i);
      RemovedAt(t.list, id, j);
    }
  }

  lemma DetachIndexes(t: Table, id: nat, but: set<nat>)
    requires Indexes(t, but) && id in t.store && id !in but
    ensures Indexes(Detach(t, id), but + {id})
  {
    hide RemoveId;
  }

  lemma DetachKeeps(cfg: Config, t: Table, id: nat, but: set<nat>)
    requires InvBut(cfg, t, but) && id in t.store && id !in but
    ensures InvBut(cfg, Detach(t, id), but + {id})
  {
    DetachLists(t, id, but);
    DetachIndexes(t, id, but);
    hide Lists, Indexes, Sorted, RemoveId;
  }

  lemma FreeKeeps(cfg: Config, t: Table, id: nat, but: set<nat>)
    requires InvBut(cfg, t, but) && id in but
    ensures InvBut(cfg, t.(store := t.store - {id}), but - {id})
  {
  }

  /** No record but those in `but` has this client or this address. */
  ghost predicate Vacant(t: Table, but: set<nat>, nip: nat, mac: Mac) {
    forall id :: id in t.store && id !in but ==> t.store[id].nip != nip && t.store[id].mac != mac
  }

  lemma GetLeaseKeeps(cfg: Config, t: Table, nip: nat, mac: Mac, alloc: bool)
    requires Inv(cfg, t)
    ensures var got := GetLease(cfg, t, nip, mac, alloc);
      got.Some? ==>
        var (t1, id) := got.value;
        id in t1.store && InvBut(cfg, t1, {id}) && Vacant(t1, {id}, nip, mac)
  {
    hide Inv, InvBut, Vacant, RemoveLease, FindByMac;
    IdsStored(cfg, t);
    var byMac, byNip := FindByMac(t.store, t.list, mac), FindByNip(t, nip);
    if Acceptable(cfg, nip, mac) {
      if byNip.Some? {
        ReuseNip(cfg, t, nip, mac, byMac, byNip.value);
      } else if byMac.Some? {
        ReuseMac(cfg, t, nip, mac, byMac.value);
      } else {
        NewRecord(cfg, t, nip, mac);
      }
    }
  }

  lemma IdsStored(cfg: Config, t: Table)
    requires Inv(cfg, t)
    ensures forall id :: id in t.list <==> id in t.store
    ensures forall n :: n in t.index ==> t.index[n] in t.store
  {
    hide Distinct, OnePerMac, GoodLeases;
  }

  lemma ReuseMac(cfg: Config, t: Table, nip: nat, mac: Mac, id: nat)
    requires Inv(cfg, t) && nip !in t.index && id in t.store && t.store[id].mac == mac
    ensures InvBut(cfg, Detach(t, id), {id}) && Vacant(Detach(t, id), {id}, nip, mac)
  {
    OthersDiffer(cfg, t, nip, mac, id);
    hide InvBut, RemoveId, Inv;
    DetachOne(cfg, t, id);
  }

  lemma OthersDiffer(cfg: Config, t: Table, nip: nat, mac: Mac, id: nat)
    requires Inv(cfg, t) && nip !in t.index && id in t.store && t.store[id].mac == mac
    ensures InvBut(cfg, t, {}) && Vacant(t, {id}, nip, mac)
  {
    hide Lists, Sorted, GoodLeases;
  }

  lemma NewRecord(cfg: Config, t: Table, nip: nat, mac: Mac)
    requires Inv(cfg, t) && nip !in t.index && FindByMac(t.store, t.list, mac).None?
    ensures var t1 := t.(store := t.store[t.used := Lease(0, 0, 0)], used := t.used + 1);
      InvBut(cfg, t1, {t.used}) && Vacant(t1, {t.used}, nip, mac)
  {
    hide Distinct;
    assert t.used !in t.store;
  }

  lemma ReuseNip(cfg: Config, t: Table, nip: nat, mac: Mac, byMac: Option<nat>, id: nat)
    requires Inv(cfg, t) && nip in t.index && id == t.index[nip]
    requires byMac == FindByMac(t.store, t.list, mac)
    ensures id in t.store && (byMac.Some? ==> byMac.value in t.store)
    ensures var t1 := Detach(t, id);
      var t2 := if byMac.Some? && byMac.value != id then RemoveLease(t1, byMac.value) else t1;
      id in t2.store && InvBut(cfg, t2, {id}) && Vacant(t2, {id}, nip, mac)
  {
    hide RemoveId, Inv, InvBut, FindByMac;
    IdsStored(cfg, t);
    DetachOne(cfg, t, id);
    VacantBut(cfg, t, nip, mac, byMac, id);
    if byMac.Some? && byMac.value != id {
      FreeOther(cfg, Detach(t, id), id, byMac.value);
    }
  }

  lemma DetachOne(cfg: Config, t: Table, id: nat)
    requires Inv(cfg, t) && id in t.store
    ensures InvBut(cfg, Detach(t, id), {id})
    ensures Detach(t, id).store == t.store
  {
    hide InvBut, RemoveId;
    assert {} + {id} == {id};
    DetachKeeps(cfg, t, id, {});
  }

  lemma FreeOther(cfg: Config, t: Table, id: nat, m: nat)
    requires InvBut(cfg, t, {id}) && m in t.store && m != id
    ensures InvBut(cfg, RemoveLease(t, m), {id})
  {
    DetachKeeps(cfg, t, m, {id});
    FreeKeeps(cfg, Detach(t, m), m, {id} + {m});
    assert {id} + {m} - {m} == {id};
    hide RemoveId, InvBut;
  }

  /** Only the two records found have this address or this client. */
  lemma VacantBut(cfg: Config, t: Table, nip: nat, mac: Mac, byMac: Option<nat>, id: nat)
    requires Inv(cfg, t) && nip in t.index && id == t.index[nip]
    requires (forall x :: x in t.list ==> x in t.store) && byMac == FindByMac(t.store, t.list, mac)
    ensures forall x :: x in t.store && x != id && byMac != Some(x) ==> t.store[x].nip != nip && t.store[x].mac != mac
  {
    hide Distinct;
  }

  lemma {:induction false} PositionSorts(t: Table, list: seq<nat>, x: Lease)
    requires forall id :: id in list ==> id in t.store && t.store[id].expire < INT_LIMIT
    requires x.expire < INT_LIMIT
    requires forall i, j :: 0 <= i < j < |list| ==> t.store[list[i]].expire >= t.store[list[j]].expire
    ensures var k := Position(t.store, list, x);
      && (forall i :: 0 <= i < k ==> t.store[list[i]].expire >= x.expire)
      && (forall i :: k <= i < |list| ==> x.expire >= t.store[list[i]].expire)
  {
    if list != [] {
      CompareExact(x, t.store[list[0]]);
      PositionSorts(t, list[1..], x);
      var k := Position(t.store, list, x);
      if k > 0 {
        assert k == 1 + Position(t.store, list[1..], x);
        assert forall i :: 1 <= i < |list| ==> list[i] == list[1..][i - 1];
      }
    }
  }

  lemma AttachKeeps(cfg: Config, t: Table, id: nat, x: Lease)
    requires id in t.store && InvBut(cfg, t, {id}) && Vacant(t, {id}, x.nip, x.mac)
    requires GoodLease(cfg, x)
    ensures Inv(cfg, Attach(t, id, x)) && Attach(t, id, x).store == t.store[id := x]
  {
    hide Position, InsertAt, Indexes, Distinct;
    AttachLists(t, id, Position(t.store, t.list, x), Attach(t, id, x).list);
    AttachSorted(cfg, t, id, x);
    AttachIndexes(t, id, x);
    AttachRest(cfg, t, id, x);
    hide Sorted, OnePerMac, GoodLeases, Vacant;
    assert Lists(Attach(t, id, x), {});
  }

  lemma AttachRest(cfg: Config, t: Table, id: nat, x: Lease)
    requires id in t.store && Sorted(t) && OnePerMac(t, {id}) && GoodLeases(cfg, t, {id})
      && Vacant(t, {id}, x.nip, x.mac)
    requires GoodLease(cfg, x)
    ensures OnePerMac(Attach(t, id, x), {}) && GoodLeases(cfg, Attach(t, id, x), {})
  {
    hide Position, InsertAt, GoodLease;
  }

  lemma InsertedLength(list: seq<nat>, k: nat, id: nat)
    requires k <= |list|
    ensures |InsertAt(list, k, id)| == |list| + 1
  {
  }

  lemma InsertedAt(list: seq<nat>, k: nat, id: nat, i: nat)
    requires k <= |list| && i < |InsertAt(list, k, id)|
    ensures |InsertAt(list, k, id)| == |list| + 1
    ensures InsertAt(list, k, id)[i] == (if i < k then list[i] else if i == k then id else list[i - 1])
  {
  }

  lemma AttachSorted(cfg: Config, t: Table, id: nat, x: Lease)
    requires id in t.store && Lists(t, {id}) && Sorted(t) && GoodLeases(cfg, t, {id}) && GoodLease(cfg, x)
    ensures Sorted(Attach(t, id, x))
  {
    hide Position, InsertAt, Distinct;
    PositionSorts(t, t.list, x);
    InsertSorted(t, Position(t.store, t.list, x), id, x, Attach(t, id, x));
  }

  lemma InsertSorted(t: Table, k: nat, id: nat, x: Lease, u: Table)
    requires Sorted(t) && id !in t.list && k <= |t.list|
    requires forall i :: 0 <= i < k ==> t.store[t.list[i]].expire >= x.expire
    requires forall i :: k <= i < |t.list| ==> x.expire >= t.store[t.list[i]].expire
    requires u.list == InsertAt(t.list, k, id) && u.store == t.store[id := x]
    ensures Sorted(u)
  {
    hide InsertAt;
    InsertedMembers(t.list, k, id, u.list);
    forall i, j | 0 <= i < j < |u.list|
      ensures u.store[u.list[i]].expire >= u.store[u.list[j]].expire
    {
      InsertedAt(t.list, k, id, i);
      InsertedAt(t.list, k, id, j);
    }
  }

  lemma AttachIndexes(t: Table, id: nat, x: Lease)
    requires id in t.store && Sorted(t) && Indexes(t, {id}) && Vacant(t, {id}, x.nip, x.mac)
    ensures Indexes(Attach(t, id, x), {})
  {
    hide Position, InsertAt;
  }

  lemma AttachLists(t: Table, id: nat, k: nat, list: seq<nat>)
    requires Lists(t, {id}) && id in t.store && k <= |t.list| && list == InsertAt(t.list, k, id)
    ensures Distinct(list) && forall x :: x in list <==> x in t.store
  {
    hide InsertAt;
    InsertedMembers(t.list, k, id, list);
    assert id !in t.list;
    forall i, j | 0 <= i < j < |list|
      ensures list[i] != list[j]
    {
      InsertedAt(t.list, k, id, i);
      InsertedAt(t.list, k, id, j);
    }
  }

  lemma InsertedMembers(before: seq<nat>, k: nat, id: nat, list: seq<nat>)
    requires k <= |before| && list == InsertAt(before, k, id)
    ensures forall x :: x in list <==> x in before || x == id
  {
    forall x | x in before ensures x in list {
      var i :| 0 <= i < |before| && before[i] == x;
      assert list[if i < k then i else i + 1] == x;
    }
    assert list[k] == id;
  }

  lemma GetLeaseAccepts(cfg: Config, t: Table, nip: nat, mac: Mac, alloc: bool)
    requires Inv(cfg, t)
    ensures GetLease(cfg, t, nip, mac, alloc).Some? ==> Acceptable(cfg, nip, mac)
  {
  }

  /** Adding a lease keeps the invariant, and the client then holds the address. */
  lemma AddLeaseKeeps(cfg: Config, t: Table, expire: Time, mac: Mac, nip: nat, now: Time, alloc: bool)
    requires Inv(cfg, t)
    requires expire < INT_LIMIT && now + cfg.leaseSeconds < INT_LIMIT
    ensures var r := AddLease(cfg, t, expire, mac, nip, now, alloc);
      r.Some? ==>
        var (u, id) := r.value;
        && Inv(cfg, u) && id in u.store
        && u.store[id] == Lease(if expire == 0 then now + cfg.leaseSeconds else expire, nip, mac)
  {
    hide Lists, Indexes, OnePerMac, Sorted, GoodLeases, Vacant, GetLease, Attach;
    GetLeaseKeeps(cfg, t, nip, mac, alloc);
    var got := GetLease(cfg, t, nip, mac, alloc);
    if got.Some? {
      assert Acceptable(cfg, nip, mac) by { GetLeaseAccepts(cfg, t, nip, mac, alloc); }
      var (t1, id) := got.value;
      AttachKeeps(cfg, t1, id, Lease(if expire == 0 then now + cfg.leaseSeconds else expire, nip, mac));
    }
  }

  /** Adding a lease touches no record but those of this address and this client. */
  lemma AddLeaseOthers(cfg: Config, t: Table, expire: Time, mac: Mac, nip: nat, now: Time, alloc: bool, y: nat)
    requires Inv(cfg, t) && y in t.store && t.store[y].mac != mac && t.store[y].nip != nip
    ensures var r := AddLease(cfg, t, expire, mac, nip, now, alloc);
      r.Some? ==> y in r.value.0.store && r.value.0.store[y] == t.store[y]
  {
    hide RemoveId, Position, InsertAt;
    GetLeaseKeeps(cfg, t, nip, mac, alloc);
    assert y in t.list && y < t.used;
  }

  /** A client that has a lease needs no memory for another one. */
  lemma AddLeaseSucceeds(cfg: Config, t: Table, expire: Time, mac: Mac, nip: nat, now: Time, alloc: bool)
    requires Inv(cfg, t) && Acceptable(cfg, nip, mac)
    requires alloc || nip in t.index || FindByMac(t.store, t.list, mac).Some?
    ensures AddLease(cfg, t, expire, mac, nip, now, alloc).Some?
  {
  }

  // ---- the allocator ---------------------------------------------------

  /** `is_expired_lease` */
  predicate IsExpired(x: Lease, now: Time) {
    x.expire < now
  }

  /** Neither a network nor a broadcast address. */
  predicate Usable(ip: nat) {
    ip % 256 != 0 && ip % 256 != 255
  }

  /** The first usable address from `ip` on without a lease, or zero. */
  function FirstFree(t: Table, ip: nat, endIp: nat): nat
    decreases endIp + 1 - ip
  {
    if ip > endIp then 0
    else if Usable(ip) && ip !in t.index then ip
    else FirstFree(t, ip + 1, endIp)
  }

  /** `find_free_or_expired_nip` */
  function FindFreeOrExpired(cfg: Config, t: Table, now: Time): nat
    requires Inv(cfg, t)
  {
    var ip := FirstFree(t, cfg.startIp, cfg.endIp);
    if ip != 0 then ip
    else if t.list == [] then 0
    else
      var oldest := t.store[t.list[|t.list| - 1]];
      if IsExpired(oldest, now) then oldest.nip else 0
  }

  lemma {:induction false} FirstFreeIsFirst(t: Table, ip: nat, endIp: nat)
    ensures var r := FirstFree(t, ip, endIp);
      && (r != 0 ==> ip <= r <= endIp && Usable(r) && r !in t.index)
      && (r == 0 <==> forall a :: ip <= a <= endIp && Usable(a) ==> a in t.index)
    decreases endIp + 1 - ip
  {
    if ip <= endIp { FirstFreeIsFirst(t, ip + 1, endIp); }
  }

  /** An address is found exactly when a usable one has no lease or some lease is
      expired, and it is such an address. That only the last lease is looked at
      suffices because of the order. */
  lemma AllocatorExact(cfg: Config, t: Table, now: Time)
    requires Inv(cfg, t)
    ensures var r := FindFreeOrExpired(cfg, t, now);
      && (r == 0 <==> (forall a :: cfg.startIp <= a <= cfg.endIp && Usable(a) ==> a in t.index)
                      && (forall id :: id in t.store ==> !IsExpired(t.store[id], now)))
      && (r != 0 ==> cfg.startIp <= r <= cfg.endIp && (r in t.index ==> IsExpired(t.store[t.index[r]], now)))
  {
    FirstFreeIsFirst(t, cfg.startIp, cfg.endIp);
    hide FirstFree;
    if t.list != [] {
      var n := |t.list| - 1;
      assert t.list[n] in t.store;
      forall id | id in t.store
        ensures t.store[id].expire >= t.store[t.list[n]].expire
      {
        var i :| 0 <= i < |t.list| && t.list[i] == id;
      }
    }
  }

  // ---- the packets -----------------------------------------------------

  /** A packet that passed the checks on its type and server identifier. `serverId`
      says whether it carries one. */
  datatype Packet =
    | Discover(mac: Mac, requested: nat)
    | Request(mac: Mac, requested: nat, ciaddr: nat, serverId: bool)
    | Decline(mac: Mac, declined: Option<nat>, serverId: bool)
    | Release(mac: Mac, ciaddr: nat, serverId: bool)
    | Inform(mac: Mac)

  datatype Reply = Silence | Offer(nip: nat) | Ack(nip: nat) | Nak | InformAck

  /** `check_requested_nip` */
  predicate CheckRequested(cfg: Config, t: Table, nip: nat, now: Time)
    requires Inv(cfg, t)
  {
    && nip != 0 && cfg.startIp <= nip <= cfg.endIp
    && (nip in t.index ==> IsExpired(t.store[t.index[nip]], now))
  }

  /** The address a DISCOVER is offered, or zero. */
  function Choose(cfg: Config, t: Table, mac: Mac, requested: nat, now: Time): nat
    requires Inv(cfg, t)
  {
    var own := FindByMac(t.store, t.list, mac);
    if own.Some? then t.store[own.value].nip
    else if CheckRequested(cfg, t, requested, now) then requested
    else FindFreeOrExpired(cfg, t, now)
  }

  function OnDiscover(cfg: Config, t: Table, mac: Mac, requested: nat, now: Time, alloc: bool): (Table, Reply)
    requires Inv(cfg, t)
  {
    var nip := Choose(cfg, t, mac, requested, now);
    if nip == 0 then (t, Silence)
    else
      var r := AddLease(cfg, t, OFFER_TIME, mac, nip, now, alloc);
      if r.None? then (t, Silence) else (r.value.0, Offer(nip))
  }

  /** `send_ACK` records the lease anew. */
  function SendAck(cfg: Config, t: Table, mac: Mac, nip: nat, now: Time, alloc: bool): (Table, Reply)
    requires Inv(cfg, t)
  {
    var r := AddLease(cfg, t, 0, mac, nip, now, alloc);
    (if r.None? then t else r.value.0, Ack(nip))
  }

  function OnRequest(cfg: Config, t: Table, mac: Mac, requested: nat, ciaddr: nat, serverId: bool, now: Time,
                     alloc: bool): (Table, Reply)
    requires Inv(cfg, t) && now + cfg.leaseSeconds < INT_LIMIT
  {
    var nip := if requested == 0 then ciaddr else requested;
    if nip == 0 then (t, Silence)
    else
      var own := FindByMac(t.store, t.list, mac);
      if own.Some? then
        if nip == t.store[own.value].nip then SendAck(cfg, t, mac, nip, now, alloc)
        else (t, if serverId then Nak else Silence)
      else
        AddLeaseKeeps(cfg, t, OFFER_TIME, mac, nip, now, alloc);
        var r := AddLease(cfg, t, OFFER_TIME, mac, nip, now, alloc);
        if r.None? then (t, Nak) else SendAck(cfg, r.value.0, mac, nip, now, alloc)
  }

  /** `lease_set_expire` */
  function SetExpire(cfg: Config, t: Table, id: nat, expire: Time): Table
    requires Inv(cfg, t) && id in t.store
  {
    RemoveIdKeeps(t.list, id);
    var x, rest := t.store[id].(expire := expire), RemoveId(t.list, id);
    t.(store := t.store[id := x], list := InsertAt(rest, Position(t.store, rest, x), id))
  }

  /** `listener_event` */
  function Handle(cfg: Config, t: Table, p: Packet, now: Time, alloc: bool): (Table, Reply)
    requires Inv(cfg, t) && now + cfg.leaseSeconds < INT_LIMIT
  {
    match p
    case Discover(mac, requested) => OnDiscover(cfg, t, mac, requested, now, alloc)
    case Request(mac, requested, ciaddr, serverId) => OnRequest(cfg, t, mac, requested, ciaddr, serverId, now, alloc)
    case Decline(mac, declined, serverId) =>
      var own := FindByMac(t.store, t.list, mac);
      if serverId && declined.Some? && own.Some? && declined.value == t.store[own.value].nip
      then (RemoveLease(t, own.value), Silence) else (t, Silence)
    case Release(mac, ciaddr, serverId) =>
      var own := FindByMac(t.store, t.list, mac);
      if serverId && own.Some? && ciaddr == t.store[own.value].nip
      then (SetExpire(cfg, t, own.value, now), Silence) else (t, Silence)
    case Inform(mac) => (t, InformAck)
  }

  // ---- what every packet keeps -----------------------------------------

  /** The client holds this address until then. */
  ghost predicate Holds(t: Table, mac: Mac, nip: nat, expire: Time) {
    exists id :: id in t.store && t.store[id] == Lease(expire, nip, mac)
  }

  lemma GoodAfter(cfg: Config, t: Table, id: nat, expire: Time)
    requires Inv(cfg, t) && id in t.store && expire < INT_LIMIT
    ensures InvBut(cfg, t, {}) && GoodLease(cfg, t.store[id].(expire := expire))
    ensures t.store[id].nip in t.index && t.index[t.store[id].nip] == id
    ensures Vacant(Detach(t, id), {id}, t.store[id].nip, t.store[id].mac)
    ensures forall y :: y in Detach(t, id).list ==> y in t.store
  {
    RemoveIdKeeps(t.list, id);
    hide RemoveId, Sorted;
  }

  lemma SetExpireKeeps(cfg: Config, t: Table, id: nat, expire: Time)
    requires Inv(cfg, t) && id in t.store && expire < INT_LIMIT
    ensures Inv(cfg, SetExpire(cfg, t, id, expire))
  {
    GoodAfter(cfg, t, id, expire);
    var x, d := t.store[id].(expire := expire), Detach(t, id);
    hide InvBut, Position, InsertAt, RemoveId;
    assert d.index[x.nip := id] == t.index;
    assert SetExpire(cfg, t, id, expire) == Attach(d, id, x) by {
      RemoveIdKeeps(t.list, id);
    }
    DetachKeeps(cfg, t, id, {});
    assert {} + {id} == {id};
    AttachKeeps(cfg, d, id, x);
  }

  lemma RemoveLeaseKeeps(cfg: Config, t: Table, id: nat)
    requires Inv(cfg, t) && id in t.store
    ensures Inv(cfg, RemoveLease(t, id))
  {
    DetachKeeps(cfg, t, id, {});
    FreeKeeps(cfg, Detach(t, id), id, {} + {id});
    assert {} + {id} - {id} == {};
  }

  lemma SendAckHolds(cfg: Config, t: Table, mac: Mac, nip: nat, now: Time, alloc: bool, own: nat)
    requires Inv(cfg, t) && now + cfg.leaseSeconds < INT_LIMIT
    requires own in t.store && t.store[own].mac == mac && t.store[own].nip == nip
    ensures var (u, reply) := SendAck(cfg, t, mac, nip, now, alloc);
      reply == Ack(nip) && Inv(cfg, u) && Holds(u, mac, nip, now + cfg.leaseSeconds)
  {
    assert own in t.list;
    AddLeaseSucceeds(cfg, t, 0, mac, nip, now, alloc);
    AddLeaseKeeps(cfg, t, 0, mac, nip, now, alloc);
  }

  lemma RequestHolds(cfg: Config, t: Table, mac: Mac, requested: nat, ciaddr: nat, serverId: bool, now: Time,
                     alloc: bool)
    requires Inv(cfg, t) && now + cfg.leaseSeconds < INT_LIMIT
    ensures var (u, reply) := OnRequest(cfg, t, mac, requested, ciaddr, serverId, now, alloc);
      && Inv(cfg, u)
      && (reply.Ack? ==> Holds(u, mac, reply.nip, now + cfg.leaseSeconds))
      && (!reply.Ack? ==> u == t)
  {
    var nip := if requested == 0 then ciaddr else requested;
    if nip != 0 {
      var own := FindByMac(t.store, t.list, mac);
      if own.Some? {
        hide SendAck, Holds, InvBut;
        if nip == t.store[own.value].nip { SendAckHolds(cfg, t, mac, nip, now, alloc, own.value); }
      } else {
        AddLeaseKeeps(cfg, t, OFFER_TIME, mac, nip, now, alloc);
        hide AddLease, SendAck, Holds, InvBut;
        var r := AddLease(cfg, t, OFFER_TIME, mac, nip, now, alloc);
        if r.Some? { SendAckHolds(cfg, r.value.0, mac, nip, now, alloc, r.value.1); }
      }
    }
  }

  lemma DiscoverHolds(cfg: Config, t: Table, mac: Mac, requested: nat, now: Time, alloc: bool)
    requires Inv(cfg, t) && now + cfg.leaseSeconds < INT_LIMIT
    ensures var (u, reply) := OnDiscover(cfg, t, mac, requested, now, alloc);
      && Inv(cfg, u)
      && (reply.Offer? ==> Holds(u, mac, reply.nip, OFFER_TIME))
      && (!reply.Offer? ==> reply == Silence && u == t)
  {
    var nip := Choose(cfg, t, mac, requested, now);
    AddLeaseKeeps(cfg, t, OFFER_TIME, mac, nip, now, alloc);
    hide InvBut, AddLease, Choose;
  }

  /** Every packet keeps the table consistent; who is acknowledged or offered an
      address holds it. */
  lemma HandleKeeps(cfg: Config, t: Table, p: Packet, now: Time, alloc: bool)
    requires Inv(cfg, t) && now + cfg.leaseSeconds < INT_LIMIT
    ensures var (u, reply) := Handle(cfg, t, p, now, alloc);
      && Inv(cfg, u)
      && (reply.Ack? ==> p.Request? && Holds(u, p.mac, reply.nip, now + cfg.leaseSeconds))
      && (reply.Offer? ==> p.Discover? && Holds(u, p.mac, reply.nip, OFFER_TIME))
  {
    match p
    case Discover(mac, requested) =>
      DiscoverHolds(cfg, t, mac, requested, now, alloc);
      hide OnDiscover, Holds, InvBut;
    case Request(mac, requested, ciaddr, serverId) =>
      RequestHolds(cfg, t, mac, requested, ciaddr, serverId, now, alloc);
      RequestReplies(cfg, t, mac, requested, ciaddr, serverId, now, alloc);
      hide OnRequest, Holds, InvBut;
    case Decline(mac, declined, serverId) =>
      var own := FindByMac(t.store, t.list, mac);
      if own.Some? { RemoveLeaseKeeps(cfg, t, own.value); }
      hide RemoveLease, InvBut, Holds;
    case Release(mac, ciaddr, serverId) =>
      var own := FindByMac(t.store, t.list, mac);
      if own.Some? { SetExpireKeeps(cfg, t, own.value, now); }
      hide SetExpire, InvBut, Holds;
    case Inform(mac) =>
  }

  lemma RequestReplies(cfg: Config, t: Table, mac: Mac, requested: nat, ciaddr: nat, serverId: bool, now: Time,
                       alloc: bool)
    requires Inv(cfg, t) && now + cfg.leaseSeconds < INT_LIMIT
    ensures !OnRequest(cfg, t, mac, requested, ciaddr, serverId, now, alloc).1.Offer?
  {
    hide AddLease, InvBut;
  }

  // ---- displacement ----------------------------------------------------

  /** No other client loses an unexpired lease. */
  ghost predicate Spares(t: Table, u: Table, mac: Mac, now: Time) {
    forall y :: y in t.store && t.store[y].mac != mac && !IsExpired(t.store[y], now)
      ==> y in u.store && u.store[y] == t.store[y]
  }

  /** What a DISCOVER is offered is its own, free, or expired. */
  lemma ChooseSpares(cfg: Config, t: Table, mac: Mac, requested: nat, now: Time, y: nat)
    requires Inv(cfg, t) && y in t.store && t.store[y].mac != mac && !IsExpired(t.store[y], now)
    ensures Choose(cfg, t, mac, requested, now) != t.store[y].nip
  {
    AllocatorExact(cfg, t, now);
    hide FindFreeOrExpired;
    assert t.store[y].nip in t.index && t.index[t.store[y].nip] == y;
    var own := FindByMac(t.store, t.list, mac);
    if own.Some? { assert own.value in t.store; }
  }

  lemma DiscoverSpares(cfg: Config, t: Table, mac: Mac, requested: nat, now: Time, alloc: bool)
    requires Inv(cfg, t)
    ensures Spares(t, OnDiscover(cfg, t, mac, requested, now, alloc).0, mac, now)
  {
    var nip := Choose(cfg, t, mac, requested, now);
    forall y | y in t.store && t.store[y].mac != mac && !IsExpired(t.store[y], now)
      ensures y in OnDiscover(cfg, t, mac, requested, now, alloc).0.store
      ensures OnDiscover(cfg, t, mac, requested, now, alloc).0.store[y] == t.store[y]
    {
      ChooseSpares(cfg, t, mac, requested, now, y);
      AddLeaseOthers(cfg, t, OFFER_TIME, mac, nip, now, alloc, y);
      hide Choose, AddLease, InvBut;
    }
  }

  /** The address is leased to another client and not expired. */
  predicate Taken(cfg: Config, t: Table, mac: Mac, nip: nat, now: Time)
    requires Inv(cfg, t)
  {
    nip in t.index && t.store[t.index[nip]].mac != mac && !IsExpired(t.store[t.index[nip]], now)
  }

  lemma SendAckSpares(cfg: Config, t: Table, mac: Mac, nip: nat, now: Time, alloc: bool, y: nat)
    requires Inv(cfg, t) && y in t.store && t.store[y].mac != mac && t.store[y].nip != nip
    ensures var u := SendAck(cfg, t, mac, nip, now, alloc).0;
      y in u.store && u.store[y] == t.store[y]
  {
    AddLeaseOthers(cfg, t, 0, mac, nip, now, alloc, y);
    hide AddLease, InvBut;
  }

  lemma RequestSparesOne(cfg: Config, t: Table, mac: Mac, requested: nat, ciaddr: nat, serverId: bool, now: Time,
                         alloc: bool, y: nat)
    requires Inv(cfg, t) && now + cfg.leaseSeconds < INT_LIMIT
    requires y in t.store && t.store[y].mac != mac
    requires t.store[y].nip != if requested == 0 then ciaddr else requested
    ensures var u := OnRequest(cfg, t, mac, requested, ciaddr, serverId, now, alloc).0;
      y in u.store && u.store[y] == t.store[y]
  {
    var nip := if requested == 0 then ciaddr else requested;
    if nip != 0 {
      if FindByMac(t.store, t.list, mac).Some? {
        SendAckSpares(cfg, t, mac, nip, now, alloc, y);
      } else {
        AddLeaseKeeps(cfg, t, OFFER_TIME, mac, nip, now, alloc);
        AddLeaseOthers(cfg, t, OFFER_TIME, mac, nip, now, alloc, y);
        var r := AddLease(cfg, t, OFFER_TIME, mac, nip, now, alloc);
        hide AddLease, SendAck, InvBut;
        if r.Some? { SendAckSpares(cfg, r.value.0, mac, nip, now, alloc, y); }
      }
    }
  }

  /** A REQUEST takes another client's unexpired lease away exactly when it comes
      from a client without a lease and names that lease's address. */
  lemma RequestSparesExact(cfg: Config, t: Table, mac: Mac, requested: nat, ciaddr: nat, serverId: bool, now: Time,
                           alloc: bool)
    requires Inv(cfg, t) && now + cfg.leaseSeconds < INT_LIMIT
    ensures var nip := if requested == 0 then ciaddr else requested;
      Spares(t, OnRequest(cfg, t, mac, requested, ciaddr, serverId, now, alloc).0, mac, now)
      <==> !(FindByMac(t.store, t.list, mac).None? && Acceptable(cfg, nip, mac) && Taken(cfg, t, mac, nip, now))
  {
    hide Inv, AddLease, OnRequest, Holds, FindByMac, IsExpired;
    IndexedByNip(cfg, t);
    var nip := if requested == 0 then ciaddr else requested;
    var own, u := FindByMac(t.store, t.list, mac), OnRequest(cfg, t, mac, requested, ciaddr, serverId, now, alloc).0;
    if own.None? && Acceptable(cfg, nip, mac) && Taken(cfg, t, mac, nip, now) {
      AddLeaseSucceeds(cfg, t, OFFER_TIME, mac, nip, now, alloc);
      RequestHolds(cfg, t, mac, requested, ciaddr, serverId, now, alloc);
      RequestAcks(cfg, t, mac, requested, ciaddr, serverId, now, alloc);
      TakenAway(cfg, t, u, mac, nip, now);
    } else {
      forall y | y in t.store && t.store[y].mac != mac && !IsExpired(t.store[y], now)
        ensures y in u.store && u.store[y] == t.store[y]
      {
        RequestSparesThis(cfg, t, mac, requested, ciaddr, serverId, now, alloc, y);
      }
    }
  }

  lemma RequestSparesThis(cfg: Config, t: Table, mac: Mac, requested: nat, ciaddr: nat, serverId: bool, now: Time,
                          alloc: bool, y: nat)
    requires Inv(cfg, t) && now + cfg.leaseSeconds < INT_LIMIT
    requires var nip := if requested == 0 then ciaddr else requested;
      !(FindByMac(t.store, t.list, mac).None? && Acceptable(cfg, nip, mac) && Taken(cfg, t, mac, nip, now))
    requires y in t.store && t.store[y].mac != mac && !IsExpired(t.store[y], now)
    ensures var u := OnRequest(cfg, t, mac, requested, ciaddr, serverId, now, alloc).0;
      y in u.store && u.store[y] == t.store[y]
  {
    IndexedByNip(cfg, t);
    hide Inv, AddLease, OnRequest;
    if t.store[y].nip == if requested == 0 then ciaddr else requested {
      RequestIgnored(cfg, t, mac, requested, ciaddr, serverId, now, alloc);
    } else {
      RequestSparesOne(cfg, t, mac, requested, ciaddr, serverId, now, alloc, y);
    }
  }

  lemma IndexedByNip(cfg: Config, t: Table)
    requires Inv(cfg, t)
    ensures forall n :: n in t.index ==> t.index[n] in t.store && t.store[t.index[n]].nip == n
    ensures forall y :: y in t.store ==> t.store[y].nip in t.index && t.index[t.store[y].nip] == y
    ensures forall y :: y in t.list ==> y in t.store
  {
    hide Distinct, OnePerMac, GoodLeases;
  }

  lemma RequestAcks(cfg: Config, t: Table, mac: Mac, requested: nat, ciaddr: nat, serverId: bool, now: Time,
                    alloc: bool)
    requires Inv(cfg, t) && now + cfg.leaseSeconds < INT_LIMIT
    requires var nip := if requested == 0 then ciaddr else requested;
      nip != 0 && FindByMac(t.store, t.list, mac).None? && AddLease(cfg, t, OFFER_TIME, mac, nip, now, alloc).Some?
    ensures OnRequest(cfg, t, mac, requested, ciaddr, serverId, now, alloc).1
      == Ack(if requested == 0 then ciaddr else requested)
  {
    AddLeaseKeeps(cfg, t, OFFER_TIME, mac, if requested == 0 then ciaddr else requested, now, alloc);
    hide AddLease, InvBut;
  }

  /** A request for another client's address by a client with a lease, or by one
      that cannot be served, changes nothing. */
  lemma RequestIgnored(cfg: Config, t: Table, mac: Mac, requested: nat, ciaddr: nat, serverId: bool, now: Time,
                       alloc: bool)
    requires Inv(cfg, t) && now + cfg.leaseSeconds < INT_LIMIT
    requires var nip := if requested == 0 then ciaddr else requested;
      && nip in t.index && t.store[t.index[nip]].mac != mac
      && !(FindByMac(t.store, t.list, mac).None? && Acceptable(cfg, nip, mac))
    ensures OnRequest(cfg, t, mac, requested, ciaddr, serverId, now, alloc).0 == t
  {
    var own := FindByMac(t.store, t.list, mac);
    if own.Some? { assert own.value in t.store; }
  }

  lemma TakenAway(cfg: Config, t: Table, u: Table, mac: Mac, nip: nat, now: Time)
    requires Inv(cfg, t) && Inv(cfg, u) && Taken(cfg, t, mac, nip, now)
    requires Holds(u, mac, nip, now + cfg.leaseSeconds)
    ensures !Spares(t, u, mac, now)
  {
    var id :| id in u.store && u.store[id] == Lease(now + cfg.leaseSeconds, nip, mac);
    var y := t.index[nip];
    assert u.index[nip] == id;
    assert y in u.store ==> u.index[u.store[y].nip] == y;
  }

  // ---- whole runs ------------------------------------------------------

  datatype Input = Input(p: Packet, now: Time, alloc: bool)

  ghost predicate InTime(cfg: Config, inputs: seq<Input>) {
    forall i :: 0 <= i < |inputs| ==> inputs[i].now + cfg.leaseSeconds < INT_LIMIT
  }

  /** The table after a run; it is consistent in every run that ends before expiry
      times leave the range of an int. */
  function Run(cfg: Config, inputs: seq<Input>): (t: Table)
    requires InTime(cfg, inputs)
    ensures Inv(cfg, t)
  {
    if inputs == [] then EMPTY
    else
      var n := |inputs| - 1;
      var t := Run(cfg, inputs[..n]);
      HandleKeeps(cfg, t, inputs[n].p, inputs[n].now, inputs[n].alloc);
      Handle(cfg, t, inputs[n].p, inputs[n].now, inputs[n].alloc).0
  }

  /** List and index hold the same leases; addresses and clients have at most one. */
  ghost predicate Agree(t: Table) {
    && (forall id :: id in t.list <==> id in t.store)
    && (forall nip :: nip in t.index <==> exists id :: id in t.store && t.store[id].nip == nip)
    && (forall nip :: nip in t.index ==> t.index[nip] in t.store && t.store[t.index[nip]].nip == nip)
    && (forall a, b :: a in t.store && b in t.store && a != b ==>
          t.store[a].nip != t.store[b].nip && t.store[a].mac != t.store[b].mac)
  }

  lemma InvAgrees(cfg: Config, t: Table)
    requires Inv(cfg, t)
    ensures Agree(t)
  {
    forall nip | nip in t.index ensures exists id :: id in t.store && t.store[id].nip == nip {
      assert t.index[nip] in t.store;
    }
  }

  /** In every run the list, sorted by expiry, and the index agree, and all leases
      are in range. */
  lemma RunConsistent(cfg: Config, inputs: seq<Input>)
    requires InTime(cfg, inputs)
    ensures var t := Run(cfg, inputs);
      Agree(t) && Sorted(t) && forall id :: id in t.store ==> GoodLease(cfg, t.store[id])
  {
    hide Run, Agree;
    InvAgrees(cfg, Run(cfg, inputs));
  }

  lemma ListedStored(cfg: Config, t: Table, id: nat)
    requires InvBut(cfg, t, {id})
    ensures forall i :: i in t.list ==> i in t.store
  {
    hide Indexes, OnePerMac, GoodLeases, Distinct;
  }

  // ---- late clocks -----------------------------------------------------

  /** The latest expiry in the list. */
  function Latest(t: Table): Time
    requires t.list != [] && t.list[0] in t.store
  {
    t.store[t.list[0]].expire
  }

  /**
   The limit on the clock is needed. A lease for any client and address that is
   accepted, with any expiry, gets its place in the order exactly if the expiry is below
   the limit, or there is no other lease, or its distance to the latest other expiry,
   cut down to 32 bits, is at most 2^31.
   */
  lemma LateClockExact(cfg: Config, t: Table, mac: Mac, nip: nat, alloc: bool, expire: Time)
    requires Inv(cfg, t) && GetLease(cfg, t, nip, mac, alloc).Some?
    ensures var (t1, id) := GetLease(cfg, t, nip, mac, alloc).value;
      && (forall i :: i in t1.list ==> i in t1.store)
      && (Sorted(Attach(t1, id, Lease(expire, nip, mac)))
          <==> expire < INT_LIMIT || t1.list == [] || (expire - Latest(t1)) % (2 * INT_LIMIT) <= INT_LIMIT)
  {
    hide Inv, InvBut, GetLease, Vacant, Attach;
    GetLeaseKeeps(cfg, t, nip, mac, alloc);
    var (t1, id) := GetLease(cfg, t, nip, mac, alloc).value;
    ListedStored(cfg, t1, id);
    LatePlace(cfg, t1, id, Lease(expire, nip, mac));
  }

  lemma LatePlace(cfg: Config, t: Table, id: nat, x: Lease)
    requires InvBut(cfg, t, {id}) && id in t.store
    ensures forall i :: i in t.list ==> i in t.store
    ensures Sorted(Attach(t, id, x))
      <==> x.expire < INT_LIMIT || t.list == [] || (x.expire - Latest(t)) % (2 * INT_LIMIT) <= INT_LIMIT
  {
    hide Indexes, OnePerMac, InsertAt;
    var k, u := Position(t.store, t.list, x), Attach(t, id, x);
    assert id !in t.list;
    if x.expire < INT_LIMIT {
      PositionSorts(t, t.list, x);
      InsertSorted(t, k, id, x, u);
    } else if t.list == [] {
      InsertSorted(t, k, id, x, u);
    } else {
      var first := t.list[0];
      assert first in t.store && t.store[first].expire < INT_LIMIT;
      CutDown(x, t.store[first]);
      if CompareExpire(x, t.store[first]) <= 0 {
        InsertSorted(t, k, id, x, u);
      } else {
        InsertedLength(t.list, k, id);
        InsertedAt(t.list, k, id, 0);
        InsertedAt(t.list, k, id, k);
      }
    }
  }

  /** A later lease is put in front of an earlier one exactly if the distance, cut down
      to 32 bits, is at most 2^31. */
  lemma CutDown(x: Lease, y: Lease)
    requires y.expire < x.expire
    ensures CompareExpire(x, y) <= 0 <==> (x.expire - y.expire) % (2 * INT_LIMIT) <= INT_LIMIT
  {
    var m, d := 2 * INT_LIMIT, x.expire - y.expire;
    var r := d % m;
    assert (-d) % m == if r == 0 then 0 else m - r;
  }

  // ---- the server object -----------------------------------------------

  class Server {
    const cfg: Config
    var store: map<nat, Lease>
    var list: seq<nat>
    var index: map<nat, nat>
    var used: nat

    function View(): Table
      reads this
    {
      Table(store, list, index, used)
    }

    ghost predicate Valid()
      reads this
    {
      Inv(cfg, View())
    }

    /** The last address is below 255.255.255.255, behind which a 32-bit address
        would start over. */
    constructor (cfg: Config)
      requires cfg.endIp < IP_LIMIT - 1
      ensures Valid() && View() == EMPTY && this.cfg == cfg
    {
      this.cfg := cfg;
      store, list, index, used := map[], [], map[], 0;
    }

    method FindLeaseByMac(mac: Mac) returns (r: Option<nat>)
      requires Valid()
      ensures r == FindByMac(store, list, mac)
    {
      var i := 0;
      while i < |list|
        invariant 0 <= i <= |list|
        invariant FindByMac(store, list, mac) == FindByMac(store, list[i..], mac)
      {
        if store[list[i]].mac == mac {
          return Some(list[i]);
        }
        assert list[i..][1..] == list[i + 1..];
        i := i + 1;
      }
      return None;
    }

    method FindFreeOrExpiredNip(now: Time) returns (r: nat)
      requires Valid()
      ensures r == FindFreeOrExpired(cfg, View(), now)
    {
      var ip := cfg.startIp;
      while ip <= cfg.endIp
        invariant FirstFree(View(), cfg.startIp, cfg.endIp) == FirstFree(View(), ip, cfg.endIp)
        decreases cfg.endIp + 1 - ip
      {
        if ip % 256 != 0 && ip % 256 != 255 && ip !in index {
          return ip;
        }
        ip := ip + 1;
      }
      if list == [] {
        return 0;
      }
      var oldest := store[list[|list| - 1]];
      if !IsExpired(oldest, now) {
        return 0;
      }
      return oldest.nip;
    }

    /** `g_list_remove` and `g_hash_table_remove` for one record */
    method Take(id: nat)
      requires id in store
      modifies this`list, this`index
      ensures View() == Detach(old(View()), id)
    {
      list := RemoveId(list, id);
      index := index - {store[id].nip};
    }

    method Remove(id: nat)
      requires id in store
      modifies this`store, this`list, this`index
      ensures View() == RemoveLease(old(View()), id)
    {
      Take(id);
      store := store - {id};
    }

    /** `get_lease` */
    method Get(nip: nat, mac: Mac, alloc: bool) returns (r: Option<nat>)
      requires Valid()
      modifies this
      ensures var g := GetLease(cfg, old(View()), nip, mac, alloc);
        if g.Some? then View() == g.value.0 && r == Some(g.value.1) else View() == old(View()) && r == None
    {
      hide RemoveId, FindByMac, OnePerMac, GoodLeases;
      if !Acceptable(cfg, nip, mac) {
        return None;
      }
      var byMac := FindLeaseByMac(mac);
      if nip in index {
        var id := index[nip];
        Take(id);
        if byMac.Some? && byMac.value != id {
          Remove(byMac.value);
        }
        return Some(id);
      }
      if byMac.Some? {
        Take(byMac.value);
        return byMac;
      }
      if !alloc {
        return None;
      }
      store := store[used := Lease(0, 0, 0)];
      used := used + 1;
      return Some(used - 1);
    }

    /** The end of `add_lease`: fills in the record and puts it into list and index. */
    method Put(id: nat, x: Lease)
      requires forall i :: i in list ==> i in store
      modifies this`store, this`list, this`index
      ensures View() == Attach(old(View()), id, x)
    {
      hide Position, InsertAt;
      list := InsertAt(list, Position(store, list, x), id);
      store := store[id := x];
      index := index[x.nip := id];
    }

    /** `add_lease` */
    method Add(expire: Time, mac: Mac, nip: nat, now: Time, alloc: bool) returns (r: Option<nat>)
      requires Valid() && expire < INT_LIMIT && now + cfg.leaseSeconds < INT_LIMIT
      modifies this
      ensures Valid()
      ensures var a := AddLease(cfg, old(View()), expire, mac, nip, now, alloc);
        if a.Some? then View() == a.value.0 && r == Some(a.value.1) else View() == old(View()) && r == None
    {
      hide GetLease, Attach, Inv, InvBut, Vacant;
      AddLeaseKeeps(cfg, View(), expire, mac, nip, now, alloc);
      GetLeaseKeeps(cfg, View(), nip, mac, alloc);
      r := Get(nip, mac, alloc);
      if r.Some? {
        ListedStored(cfg, View(), r.value);
        Put(r.value, Lease(if expire == 0 then now + cfg.leaseSeconds else expire, nip, mac));
      }
    }

    method LeaseSetExpire(id: nat, expire: Time)
      requires Valid() && id in store && expire < INT_LIMIT
      modifies this`store, this`list
      ensures Valid() && View() == SetExpire(cfg, old(View()), id, expire)
    {
      SetExpireKeeps(cfg, View(), id, expire);
      RemoveIdKeeps(list, id);
      hide Indexes, OnePerMac, GoodLeases, Position, InsertAt, RemoveId;
      list := RemoveId(list, id);
      var x := store[id].(expire := expire);
      list := InsertAt(list, Position(store, list, x), id);
      store := store[id := x];
    }

    /** `send_offer` */
    method SendOffer(mac: Mac, requested: nat, now: Time, alloc: bool) returns (reply: Reply)
      requires Valid() && now + cfg.leaseSeconds < INT_LIMIT
      modifies this
      ensures Valid() && (View(), reply) == OnDiscover(cfg, old(View()), mac, requested, now, alloc)
    {
      hide InvBut, AddLease, FindFreeOrExpired;
      var own := FindLeaseByMac(mac);
      var nip;
      if own.Some? {
        assert own.value in store by { OwnInStore(cfg, View(), mac); }
        nip := store[own.value].nip;
      } else if CheckRequested(cfg, View(), requested, now) {
        nip := requested;
      } else {
        nip := FindFreeOrExpiredNip(now);
      }
      if nip == 0 {
        return Silence;
      }
      var r := Add(OFFER_TIME, mac, nip, now, alloc);
      return if r.None? then Silence else Offer(nip);
    }

    /** The REQUEST branch of `listener_event` */
    method HandleRequest(mac: Mac, requested: nat, ciaddr: nat, serverId: bool, now: Time, alloc: bool)
      returns (reply: Reply)
      requires Valid() && now + cfg.leaseSeconds < INT_LIMIT
      modifies this
      ensures Valid() && (View(), reply) == OnRequest(cfg, old(View()), mac, requested, ciaddr, serverId, now, alloc)
    {
      AddLeaseKeeps(cfg, View(), OFFER_TIME, mac, if requested == 0 then ciaddr else requested, now, alloc);
      OwnInStore(cfg, View(), mac);
      hide InvBut, AddLease, FindByMac;
      var nip := requested;
      if nip == 0 {
        nip := ciaddr;
        if nip == 0 {
          return Silence;
        }
      }
      var own := FindLeaseByMac(mac);
      if own.None? {
        own := Add(OFFER_TIME, mac, nip, now, alloc);
      }
      if own.Some? && nip == store[own.value].nip {
        var _ := Add(0, mac, nip, now, alloc);
        return Ack(nip);
      }
      return if serverId || own.None? then Nak else Silence;
    }

    method Listen(p: Packet, now: Time, alloc: bool) returns (reply: Reply)
      requires Valid() && now + cfg.leaseSeconds < INT_LIMIT
      modifies this
      ensures Valid() && (View(), reply) == Handle(cfg, old(View()), p, now, alloc)
    {
      HandleKeeps(cfg, View(), p, now, alloc);
      OwnInStore(cfg, View(), p.mac);
      hide InvBut, OnRequest, OnDiscover, FindByMac, Detach, SetExpire;
      reply := Silence;
      match p {
        case Discover(mac, requested) =>
          reply := SendOffer(mac, requested, now, alloc);
        case Request(mac, requested, ciaddr, serverId) =>
          reply := HandleRequest(mac, requested, ciaddr, serverId, now, alloc);
        case Decline(mac, declined, serverId) =>
          var own := FindLeaseByMac(mac);
          if serverId && declined.Some? && own.Some? && declined.value == store[own.value].nip {
            Remove(own.value);
          }
        case Release(mac, ciaddr, serverId) =>
          var own := FindLeaseByMac(mac);
          if serverId && own.Some? && ciaddr == store[own.value].nip {
            LeaseSetExpire(own.value, now);
          }
        case Inform(mac) =>
          reply := InformAck;
      }
    }
  }

  lemma OwnInStore(cfg: Config, t: Table, mac: Mac)
    requires Inv(cfg, t)
    ensures FindByMac(t.store, t.list, mac).Some? ==> FindByMac(t.store, t.list, mac).value in t.store
  {
  }
}
