/**
 The renewal timers of the DHCP client (src/dhcp/client.c), in milliseconds. A bound
 client asks its server again at T1, any server at T2, and gives the address up when
 the lease is over; in between it repeats after half of the time that is left
 (section 4.4.5 of RFC 2131).
 */
module ClientTimers {
  import opened Optional
  import opened TaggedWords
  import R = Ring

  const U32: nat := 0x1_0000_0000
  const LEASE_LIMIT: nat := 0x1000_0000

  /** `get_lease`, from the lease time option */
  function LeaseSeconds(option: Option<nat>): (r: nat)
    ensures 10 <= r < LEASE_LIMIT
  {
    if option.None? then 3600
    else
      var s := option.value % LEASE_LIMIT;
      if s < 10 then 10 else s
  }

  // ---- the machine -----------------------------------------------------

  datatype Phase = Bound | Renewing | Rebinding | Expired

  /**
   The fields of the client and the times at which its three timers fire. `boundAt`,
   `lease` and `tries`, the requests sent in the phase, are history.
   */
  datatype Client = Client(
    phase: Phase, t1: nat, t2: nat, expire: nat,
    renewAt: Option<int>, rebindAt: Option<int>, expireAt: Option<int>,
    boundAt: int, lease: nat, tries: nat)

  /** `rand() % 2000 - 1000` */
  predicate Jitter(j: int) {
    -1000 <= j < 1000
  }

  /** The delay in the width of the source, or no new timer. */
  function Again(now: int, t: nat, j: int): Option<int> {
    if t > 60 then Some(now + (t * 1000 + j) % U32) else None
  }

  /** `start_bound` */
  function StartBound(now: int, lease: nat): Client {
    var t1, t2 := lease / 2, lease * 7 / 8;
    Client(Bound, t1, t2, lease, Some(now + t1 * 1000), Some(now + t2 * 1000), Some(now + lease * 1000),
           now, lease, 0)
  }

  /** `continue_renew` */
  function ContinueRenew(c: Client, now: int, j: int): Client {
    c.(t1 := c.t1 / 2, renewAt := Again(now, c.t1 / 2, j), tries := c.tries + 1)
  }

  /** `start_renew` */
  function StartRenew(c: Client, now: int, j: int): Client
    requires c.t1 <= c.t2
  {
    ContinueRenew(c.(phase := Renewing, t1 := c.t2 - c.t1, tries := 0), now, j)
  }

  /** `continue_rebound` */
  function ContinueRebound(c: Client, now: int, j: int): Client {
    c.(t2 := c.t2 / 2, rebindAt := Again(now, c.t2 / 2, j), tries := c.tries + 1)
  }

  /** `start_rebound` */
  function StartRebound(c: Client, now: int, j: int): Client
    requires c.t2 <= c.expire
  {
    ContinueRebound(c.(phase := Rebinding, renewAt := None, t2 := c.expire - c.t2, tries := 0), now, j)
  }

  /** `start_expire` */
  function StartExpire(c: Client): Client {
    c.(phase := Expired, renewAt := None, rebindAt := None, expireAt := None)
  }

  // ---- events ----------------------------------------------------------

  /** A timer fires, or the server confirms the lease. */
  datatype Event = FireRenew(j: int) | FireRebind(j: int) | FireExpire | Ack(at: int, lease: nat)

  predicate NoneBefore(m: Option<int>, t: int) {
    m.Some? ==> t <= m.value
  }

  /** A timer fires at its time, and the earliest first. */
  predicate Earliest(c: Client, t: int) {
    NoneBefore(c.renewAt, t) && NoneBefore(c.rebindAt, t) && NoneBefore(c.expireAt, t)
  }

  predicate Enabled(c: Client, e: Event) {
    match e
    case FireRenew(j) => Jitter(j) && c.renewAt.Some? && Earliest(c, c.renewAt.value)
    case FireRebind(j) => Jitter(j) && c.rebindAt.Some? && Earliest(c, c.rebindAt.value)
    case FireExpire => c.expireAt.Some? && Earliest(c, c.expireAt.value)
    case Ack(at, lease) => Earliest(c, at) && 10 <= lease < LEASE_LIMIT
  }

  /** The handler behind a timer depends on who armed it. */
  function Step(c: Client, e: Event): Client
    requires Enabled(c, e)
    requires c.t1 <= c.t2 || c.phase != Bound
    requires c.t2 <= c.expire || c.phase == Rebinding
  {
    match e
    case FireRenew(j) =>
      if c.phase == Bound then StartRenew(c, c.renewAt.value, j) else ContinueRenew(c, c.renewAt.value, j)
    case FireRebind(j) =>
      if c.phase == Rebinding then ContinueRebound(c, c.rebindAt.value, j)
      else StartRebound(c, c.rebindAt.value, j)
    case FireExpire => StartExpire(c)
    case Ack(at, lease) => StartBound(at, lease)
  }

  // ---- what every step keeps -------------------------------------------

  /** No delay of the phase needs more than 32 bits. */
  predicate Unwrapped(total: nat) {
    total / 2 * 1000 + 999 < U32
  }

  /**
   One phase: `total` seconds from its start to the deadline `end`, `tries` requests,
   `t` the last wait, `next` the next request. The next request plus its wait stays
   before the deadline but for the jitter, and reaches it but for rounding.
   */
  ghost predicate Phased(total: nat, end: int, tries: nat, t: nat, next: Option<int>) {
    && tries >= 1
    && t * Pow2(tries) <= total
    && (next.Some? ==>
          && t > 60
          && next.value + t * 1000 <= end + 999 * tries
          && (Unwrapped(total) ==> end - 2000 * tries <= next.value + t * 1000))
  }

  ghost predicate Inv(c: Client) {
    && 10 <= c.lease < LEASE_LIMIT
    && c.expire == c.lease
    && var t1, t2 := c.lease / 2, c.lease * 7 / 8;
    && (c.phase != Expired ==> c.expireAt == Some(c.boundAt + c.lease * 1000))
    && (c.phase == Bound ==>
          && c.t1 == t1 && c.t2 == t2
          && c.renewAt == Some(c.boundAt + t1 * 1000) && c.rebindAt == Some(c.boundAt + t2 * 1000))
    && (c.phase == Renewing ==>
          && c.t2 == t2 && c.rebindAt == Some(c.boundAt + t2 * 1000)
          && Phased(t2 - t1, c.boundAt + t2 * 1000, c.tries, c.t1, c.renewAt))
    && (c.phase == Rebinding ==>
          && c.renewAt.None?
          && Phased(c.lease - t2, c.boundAt + c.lease * 1000, c.tries, c.t2, c.rebindAt))
    && (c.phase == Expired ==> c.renewAt.None? && c.rebindAt.None? && c.expireAt.None? && c.t2 <= c.lease)
  }

  /** The three times of a lease are in order. */
  lemma TimesOrdered(lease: nat)
    requires lease >= 10
    ensures 0 < lease / 2 < lease * 7 / 8 < lease
  {
  }

  /** Leases of up to 2^24 seconds need no more than 32 bits. */
  lemma ShortLeaseUnwrapped(lease: nat)
    requires lease <= 0x100_0000
    ensures Unwrapped(lease * 7 / 8 - lease / 2) && Unwrapped(lease - lease * 7 / 8)
  {
  }

  lemma Halving(t: nat, p: nat, total: nat)
    requires t * p <= total
    ensures t / 2 * (2 * p) <= total
  {
    assert t / 2 * 2 <= t;
    Scale(t / 2 * 2, t, p);
    assert t / 2 * 2 * p == t / 2 * (2 * p);
  }

  lemma Scale(a: nat, b: nat, p: nat)
    requires a <= b
    ensures a * p <= b * p
  {
  }

  /** The wait is the nominal one exactly if it fits in 32 bits. */
  lemma AgainIs(now: int, t: nat, j: int)
    requires t > 60 && Jitter(j)
    ensures var n := Again(now, t, j);
      && n.Some? && now <= n.value <= now + t * 1000 + 999
      && (n.value == now + t * 1000 + j <==> t * 1000 + j < U32)
  {
  }

  /** The first request of a phase. */
  lemma PhaseStarts(total: nat, end: int, now: int, j: int)
    requires now + total * 1000 == end && Jitter(j)
    ensures Phased(total, end, 1, total / 2, Again(now, total / 2, j))
  {
    assert Pow2(1) == 2 by { assert Pow2(0) == 1; }
    Halving(total, 1, total);
    if total / 2 > 60 {
      AgainIs(now, total / 2, j);
    }
  }

  /** A further request. */
  lemma PhaseContinues(total: nat, end: int, tries: nat, t: nat, now: int, j: int)
    requires Phased(total, end, tries, t, Some(now)) && Jitter(j)
    ensures Phased(total, end, tries + 1, t / 2, Again(now, t / 2, j))
  {
    Halving(t, Pow2(tries), total);
    if t / 2 > 60 {
      AgainIs(now, t / 2, j);
      assert t <= total by { ProductAtLeast(t, Pow2(tries)); }
    }
  }

  lemma PhaseBound(total: nat, end: int, tries: nat, t: nat, next: Option<int>)
    requires Phased(total, end, tries, t, next)
    ensures t <= total
  {
    ProductAtLeast(t, Pow2(tries));
  }

  lemma ProductAtLeast(t: nat, p: nat)
    requires p >= 1
    ensures t * p >= t
  {
    Scale(1, p, t);
  }

  /** Waits of more than a minute cannot be halved more than 21 times. */
  lemma FewTries(total: nat, t: nat, tries: nat)
    requires total < 0x800_0000 && t > 60 && t * Pow2(tries) <= total
    ensures tries <= 21
  {
    if tries > 21 {
      R.Pow2Monotone(22, tries);
      assert Pow2(22) == 0x40_0000 by {
        assert Pow2(8) == 256;
        assert Pow2(16) == 65536;
      }
      Scale(61, t, Pow2(tries));
    }
  }

  /** So every pending request of a phase is more than half a minute before its
      deadline. */
  lemma PhaseInTime(total: nat, end: int, tries: nat, t: nat, next: int)
    requires total < 0x800_0000 && Phased(total, end, tries, t, Some(next))
    ensures next + 30_000 < end
  {
    FewTries(total, t, tries);
  }

  lemma InOrder(c: Client)
    requires Inv(c)
    ensures c.t1 <= c.t2 || c.phase != Bound
    ensures c.t2 <= c.expire || c.phase == Rebinding
  {
    TimesOrdered(c.lease);
  }

  lemma RenewKeeps(c: Client, j: int)
    requires Inv(c) && Enabled(c, FireRenew(j))
    ensures Inv(Step(c, FireRenew(j)))
  {
    hide Phased;
    TimesOrdered(c.lease);
    if c.phase == Bound {
      PhaseStarts(c.t2 - c.t1, c.boundAt + c.t2 * 1000, c.renewAt.value, j);
    } else {
      PhaseContinues(c.t2 - c.lease / 2, c.boundAt + c.t2 * 1000, c.tries, c.t1, c.renewAt.value, j);
    }
  }

  lemma RebindKeeps(c: Client, j: int)
    requires Inv(c) && Enabled(c, FireRebind(j))
    ensures Inv(Step(c, FireRebind(j)))
  {
    hide Phased;
    TimesOrdered(c.lease);
    if c.phase == Rebinding {
      PhaseContinues(c.lease - c.lease * 7 / 8, c.boundAt + c.lease * 1000, c.tries, c.t2, c.rebindAt.value, j);
    } else {
      PhaseStarts(c.expire - c.t2, c.boundAt + c.lease * 1000, c.rebindAt.value, j);
    }
  }

  lemma StepKeeps(c: Client, e: Event)
    requires Inv(c) && Enabled(c, e)
    ensures Inv(Step(c, e))
  {
    match e
    case FireRenew(j) => RenewKeeps(c, j);
    case FireRebind(j) => RebindKeeps(c, j);
    case FireExpire =>
      InOrder(c);
      if c.phase == Rebinding {
        PhaseBound(c.lease - c.lease * 7 / 8, c.boundAt + c.lease * 1000, c.tries, c.t2, c.rebindAt);
      }
    case Ack(at, lease) => TimesOrdered(lease);
  }

  // ---- whole runs ------------------------------------------------------

  /** A client bound at `now`, and what happens to it since. */
  ghost predicate IsRun(run: seq<Client>, events: seq<Event>, now: int, lease: nat) {
    && |run| == |events| + 1
    && run[0] == StartBound(now, lease)
    && forall i :: 0 <= i < |events| ==> Follows(run[i], events[i], run[i + 1])
  }

  /** Steps are defined where the invariant holds, which is everywhere in a run. */
  ghost predicate Follows(c: Client, e: Event, d: Client) {
    Inv(c) ==> Enabled(c, e) && d == Moved(c, e)
  }

  ghost function Moved(c: Client, e: Event): Client
    requires Inv(c) && Enabled(c, e)
  {
    Step(c, e)
  }

  lemma StartKeeps(now: int, lease: nat)
    requires 10 <= lease < LEASE_LIMIT
    ensures Inv(StartBound(now, lease))
  {
    TimesOrdered(lease);
  }

  lemma {:induction false} RunKeeps(run: seq<Client>, events: seq<Event>, now: int, lease: nat, i: nat)
    requires IsRun(run, events, now, lease) && 10 <= lease < LEASE_LIMIT && i < |run|
    ensures Inv(run[i])
  {
    hide Inv, Step, StartBound, Enabled;
    StartKeeps(now, lease);
    if i > 0 {
      RunKeeps(run, events, now, lease, i - 1);
      assert Follows(run[i - 1], events[i - 1], run[i - 1 + 1]);
      StepKeeps(run[i - 1], events[i - 1]);
    }
  }

  /**
   In every state of every run, with any jitter: a pending renewal is before T2, a
   pending rebinding before the end of the lease, and the end of the lease is where
   the lease puts it.
   */
  lemma RequestsInTime(run: seq<Client>, events: seq<Event>, now: int, lease: nat, i: nat)
    requires IsRun(run, events, now, lease) && 10 <= lease < LEASE_LIMIT && i < |run|
    ensures var c := run[i];
      && (c.phase != Expired ==> c.expireAt == Some(c.boundAt + c.lease * 1000))
      && (c.renewAt.Some? ==> c.rebindAt.Some? && c.renewAt.value < c.rebindAt.value
                              && c.rebindAt.value == c.boundAt + c.lease * 7 / 8 * 1000)
      && (c.rebindAt.Some? ==> c.expireAt.Some? && c.rebindAt.value < c.expireAt.value)
  {
    RunKeeps(run, events, now, lease, i);
    var c := run[i];
    TimesOrdered(c.lease);
    if c.phase == Renewing && c.renewAt.Some? {
      PhaseInTime(c.t2 - c.lease / 2, c.boundAt + c.t2 * 1000, c.tries, c.t1, c.renewAt.value);
    }
    if c.phase == Rebinding && c.rebindAt.Some? {
      PhaseInTime(c.lease - c.lease * 7 / 8, c.boundAt + c.lease * 1000, c.tries, c.t2, c.rebindAt.value);
    }
  }

  /** The difference between twice the wait and the time that is left. */
  predicate AboutHalf(wait: int, remaining: int, tries: nat) {
    -(2000 * tries + 1000) <= 2 * wait - remaining <= 2000 * tries + 1000
  }

  lemma FirstHalf(total: nat, end: int, now: int, j: int)
    requires now + total * 1000 == end && Jitter(j) && Unwrapped(total) && total / 2 > 60
    ensures AboutHalf(Again(now, total / 2, j).value - now, end - now, 1)
  {
    AgainIs(now, total / 2, j);
  }

  lemma NextHalf(total: nat, end: int, tries: nat, t: nat, now: int, j: int)
    requires Phased(total, end, tries, t, Some(now)) && Jitter(j) && Unwrapped(total) && t / 2 > 60
    ensures AboutHalf(Again(now, t / 2, j).value - now, end - now, tries + 1)
  {
    assert t <= total by { ProductAtLeast(t, Pow2(tries)); }
    AgainIs(now, t / 2, j);
  }

  /**
   Each request is repeated after half of the time left to T2, up to two seconds per
   request already sent, if the lease needs no more than 32 bits.
   */
  lemma RenewalsHalve(c: Client, j: int)
    requires Inv(c) && Enabled(c, FireRenew(j)) && Unwrapped(c.lease * 7 / 8 - c.lease / 2)
    ensures var d := Step(c, FireRenew(j));
      d.renewAt.Some? ==>
        AboutHalf(d.renewAt.value - c.renewAt.value, c.rebindAt.value - c.renewAt.value, d.tries)
  {
    TimesOrdered(c.lease);
    if c.phase == Bound {
      if (c.t2 - c.t1) / 2 > 60 {
        FirstHalf(c.t2 - c.t1, c.rebindAt.value, c.renewAt.value, j);
      }
    } else if c.t1 / 2 > 60 {
      NextHalf(c.t2 - c.lease / 2, c.rebindAt.value, c.tries, c.t1, c.renewAt.value, j);
    }
  }

  /** Likewise for the time left to the end of the lease. */
  lemma RebindingsHalve(c: Client, j: int)
    requires Inv(c) && Enabled(c, FireRebind(j)) && Unwrapped(c.lease - c.lease * 7 / 8)
    ensures var d := Step(c, FireRebind(j));
      d.rebindAt.Some? ==>
        AboutHalf(d.rebindAt.value - c.rebindAt.value, c.expireAt.value - c.rebindAt.value, d.tries)
  {
    TimesOrdered(c.lease);
    if c.phase != Rebinding {
      if (c.expire - c.t2) / 2 > 60 {
        FirstHalf(c.expire - c.t2, c.expireAt.value, c.rebindAt.value, j);
      }
    } else if c.t2 / 2 > 60 {
      NextHalf(c.lease - c.lease * 7 / 8, c.expireAt.value, c.tries, c.t2, c.rebindAt.value, j);
    }
  }

  /**
   The condition is exact: in either phase the first request is repeated after half
   of the time left whatever the jitter, if and only if no delay needs more than 32
   bits.
   */
  lemma FirstWaitExact(total: nat, end: int, first: int)
    requires first + total * 1000 == end && total < LEASE_LIMIT && total / 2 > 60
    ensures (forall j :: Jitter(j) ==> AboutHalf(Again(first, total / 2, j).value - first, end - first, 1))
      <==> Unwrapped(total)
  {
    if Unwrapped(total) {
      forall j | Jitter(j)
        ensures AboutHalf(Again(first, total / 2, j).value - first, end - first, 1)
      {
        FirstHalf(total, end, first, j);
      }
    } else {
      var d := total / 2 * 1000 + 999;
      assert Jitter(999);
      assert d % U32 <= d - U32;
      assert !AboutHalf(Again(first, total / 2, 999).value - first, end - first, 1);
    }
  }

  /** So renewals halve the time to T2 exactly for these leases. */
  lemma FirstRenewalExact(c: Client)
    requires Inv(c) && c.phase == Bound && (c.t2 - c.t1) / 2 > 60
    ensures (forall j :: Jitter(j) ==>
               AboutHalf(StartRenew(c, c.renewAt.value, j).renewAt.value - c.renewAt.value,
                         c.rebindAt.value - c.renewAt.value, 1))
      <==> Unwrapped(c.lease * 7 / 8 - c.lease / 2)
  {
    hide Again, AboutHalf, Unwrapped;
    TimesOrdered(c.lease);
    var first := c.renewAt.value;
    FirstWaitExact(c.t2 - c.t1, c.rebindAt.value, first);
    forall j
      ensures StartRenew(c, first, j).renewAt == Again(first, (c.t2 - c.t1) / 2, j)
    {
    }
  }

  /** And rebindings the time to the end of the lease. */
  lemma FirstRebindingExact(c: Client)
    requires Inv(c) && c.phase in {Bound, Renewing} && (c.expire - c.t2) / 2 > 60
    ensures (forall j :: Jitter(j) ==>
               AboutHalf(StartRebound(c, c.rebindAt.value, j).rebindAt.value - c.rebindAt.value,
                         c.expireAt.value - c.rebindAt.value, 1))
      <==> Unwrapped(c.lease - c.lease * 7 / 8)
  {
    hide Again, AboutHalf, Unwrapped;
    TimesOrdered(c.lease);
    var first := c.rebindAt.value;
    FirstWaitExact(c.expire - c.t2, c.expireAt.value, first);
    forall j
      ensures StartRebound(c, first, j).rebindAt == Again(first, (c.expire - c.t2) / 2, j)
    {
    }
  }

  /** Renewals of leases of 267 days and more need more, rebindings of 796 days and
      more. */
  lemma LongLeaseWraps(lease: nat)
    requires lease < LEASE_LIMIT
    ensures lease >= 0x160_0000 ==> !Unwrapped(lease * 7 / 8 - lease / 2)
    ensures lease >= 0x41A_0000 ==> !Unwrapped(lease - lease * 7 / 8)
  {
  }

  /** The rebinding of a lease of 0x5000000 seconds is repeated far too early. */
  lemma LongRebindingWraps()
    ensures var lease := 0x500_0000;
      var total := lease - lease * 7 / 8;
      && !Unwrapped(total)
      && Again(0, total / 2, 0) == Some(total / 2 * 1000 - U32)
      && !AboutHalf(total / 2 * 1000 - U32, total * 1000, 1)
  {
  }

  // ---- when a request is repeated --------------------------------------

  /** The lease time of the option, at least ten seconds; an hour without an option. */
  lemma LeaseSecondsIs(option: Option<nat>)
    ensures option.None? ==> LeaseSeconds(option) == 3600
    ensures option.Some? && 10 <= option.value < 0x1000_0000 ==> LeaseSeconds(option) == option.value
    ensures option.Some? && option.value < 10 ==> LeaseSeconds(option) == 10
    ensures option.Some? ==> LeaseSeconds(Some(option.value + 0x1000_0000)) == LeaseSeconds(option)
  {
  }

  /** The wait after `k` requests of a phase of `total` seconds: half of the time, and
      half of the last wait again and again. */
  function WaitAfter(total: nat, k: nat): nat {
    if k == 0 then total else WaitAfter(total, k - 1) / 2
  }

  lemma WaitSteps(total: nat, k: nat)
    ensures WaitAfter(total, k + 1) == WaitAfter(total, k) / 2 && WaitAfter(total, 0) == total
  {
  }

  /** From step `k` on only this timer fired. */
  ghost predicate OnlyRenews(events: seq<Event>, k: nat, i: nat) {
    forall m :: k <= m < i ==> 0 <= m < |events| && events[m].FireRenew?
  }

  ghost predicate OnlyRebinds(events: seq<Event>, k: nat, i: nat) {
    forall m :: k <= m < i ==> 0 <= m < |events| && events[m].FireRebind?
  }

  /** One request: when it is repeated, if it is. */
  lemma RenewStep(c: Client, j: int)
    requires Inv(c) && Enabled(c, FireRenew(j))
    ensures var d, t := Moved(c, FireRenew(j)), (if c.phase == Bound then c.lease * 7 / 8 - c.lease / 2 else c.t1) / 2;
      && d.phase == Renewing && d.t1 == t && d.lease == c.lease && d.boundAt == c.boundAt
      && d.renewAt == (if t > 60 then Some(c.renewAt.value + (t * 1000 + j) % 0x1_0000_0000) else None)
      && d.rebindAt == c.rebindAt && d.expireAt == c.expireAt
  {
    hide Phased;
    TimesOrdered(c.lease);
  }

  lemma RebindStep(c: Client, j: int)
    requires Inv(c) && Enabled(c, FireRebind(j))
    ensures var d := Moved(c, FireRebind(j));
      var t := (if c.phase == Rebinding then c.t2 else c.lease - c.lease * 7 / 8) / 2;
      && d.phase == Rebinding && d.t2 == t && d.lease == c.lease && d.boundAt == c.boundAt
      && d.rebindAt == (if t > 60 then Some(c.rebindAt.value + (t * 1000 + j) % 0x1_0000_0000) else None)
      && d.renewAt == None && d.expireAt == c.expireAt
  {
    hide Phased;
    TimesOrdered(c.lease);
  }

  /**
   In every run, after the renewal timer fired for the `n`th time since the client was
   bound, another renewal is pending exactly if the time from T1 to T2, halved `n` times,
   is more than a minute.
   */
  lemma {:induction false} RenewalPendingExactly(run: seq<Client>, events: seq<Event>, now: int, lease: nat,
                                                 k: nat, i: nat)
    requires IsRun(run, events, now, lease) && 10 <= lease < LEASE_LIMIT && k < i < |run|
    requires run[k].phase == Bound && OnlyRenews(events, k, i)
    ensures var c := run[i];
      var wait := WaitAfter(run[k].lease * 7 / 8 - run[k].lease / 2, i - k);
      && c.phase == Renewing && c.t1 == wait && c.lease == run[k].lease
      && (c.renewAt.Some? <==> wait > 60)
  {
    hide Inv, Step, StartBound, Enabled, WaitAfter, Moved;
    RunKeeps(run, events, now, lease, i - 1);
    assert Follows(run[i - 1], events[i - 1], run[i - 1 + 1]);
    WaitSteps(run[k].lease * 7 / 8 - run[k].lease / 2, i - 1 - k);
    if i - 1 > k {
      RenewalPendingExactly(run, events, now, lease, k, i - 1);
    }
    RenewStep(run[i - 1], events[i - 1].j);
  }

  /** Likewise for rebindings and the time from T2 to the end of the lease. */
  lemma {:induction false} RebindingPendingExactly(run: seq<Client>, events: seq<Event>, now: int, lease: nat,
                                                   k: nat, i: nat)
    requires IsRun(run, events, now, lease) && 10 <= lease < LEASE_LIMIT && k < i < |run|
    requires run[k].phase != Rebinding && OnlyRebinds(events, k, i)
    ensures var c := run[i];
      var wait := WaitAfter(run[k].lease - run[k].lease * 7 / 8, i - k);
      && c.phase == Rebinding && c.t2 == wait && c.lease == run[k].lease
      && (c.rebindAt.Some? <==> wait > 60) && c.renewAt.None?
  {
    hide Inv, Step, StartBound, Enabled, WaitAfter, Moved;
    RunKeeps(run, events, now, lease, i - 1);
    assert Follows(run[i - 1], events[i - 1], run[i - 1 + 1]);
    WaitSteps(run[k].lease - run[k].lease * 7 / 8, i - 1 - k);
    if i - 1 > k {
      RebindingPendingExactly(run, events, now, lease, k, i - 1);
    }
    RebindStep(run[i - 1], events[i - 1].j);
  }

  /** At the end of the lease nothing is pending; a confirmation begins a new one, with a
      half and seven eighths of the time. */
  lemma OtherSteps(c: Client, e: Event)
    requires Inv(c) && Enabled(c, e)
    ensures e.FireExpire? ==>
      var d := Moved(c, e); d.phase == Expired && d.renewAt == d.rebindAt == d.expireAt == None
    ensures e.Ack? ==>
      var d := Moved(c, e);
      && d.phase == Bound && d.lease == e.lease && d.boundAt == e.at
      && d.renewAt == Some(e.at + e.lease / 2 * 1000)
      && d.rebindAt == Some(e.at + e.lease * 7 / 8 * 1000)
      && d.expireAt == Some(e.at + e.lease * 1000)
  {
  }

  // ---- the client ------------------------------------------------------

  class Timers {
    var phase: Phase
    var t1: nat
    var t2: nat
    var expire: nat
    var renewAt: Option<int>
    var rebindAt: Option<int>
    var expireAt: Option<int>
    ghost var boundAt: int
    ghost var lease: nat
    ghost var tries: nat

    ghost function View(): Client
      reads this
    {
      Client(phase, t1, t2, expire, renewAt, rebindAt, expireAt, boundAt, lease, tries)
    }

    /** `start_bound` */
    constructor (now: int, lease: nat)
      requires 10 <= lease < LEASE_LIMIT
      ensures View() == StartBound(now, lease) && Inv(View())
    {
      phase := Bound;
      t1 := lease / 2;
      t2 := lease * 7 / 8;
      expire := lease;
      renewAt := Some(now + lease / 2 * 1000);
      rebindAt := Some(now + lease * 7 / 8 * 1000);
      expireAt := Some(now + lease * 1000);
      boundAt := now;
      this.lease := lease;
      tries := 0;
      StartKeeps(now, lease);
    }

    method RenewAgain(now: int, j: int)
      modifies this`t1, this`renewAt, this`tries
      ensures View() == ContinueRenew(old(View()), now, j)
    {
      renewAt := None;
      tries := tries + 1;
      t1 := t1 / 2;
      if t1 > 60 {
        renewAt := Some(now + (t1 * 1000 + j) % U32);
      }
    }

    method RenewFirst(now: int, j: int)
      requires t1 <= t2
      modifies this`phase, this`t1, this`renewAt, this`tries
      ensures View() == StartRenew(old(View()), now, j)
    {
      phase := Renewing;
      t1 := t2 - t1;
      tries := 0;
      RenewAgain(now, j);
    }

    method RebindAgain(now: int, j: int)
      modifies this`t2, this`rebindAt, this`tries
      ensures View() == ContinueRebound(old(View()), now, j)
    {
      rebindAt := None;
      tries := tries + 1;
      t2 := t2 / 2;
      if t2 > 60 {
        rebindAt := Some(now + (t2 * 1000 + j) % U32);
      }
    }

    method RebindFirst(now: int, j: int)
      requires t2 <= expire
      modifies this`phase, this`t2, this`renewAt, this`rebindAt, this`tries
      ensures View() == StartRebound(old(View()), now, j)
    {
      renewAt := None;
      phase := Rebinding;
      t2 := expire - t2;
      tries := 0;
      RebindAgain(now, j);
    }

    /** A timer runs out. Which handler it calls depends on who armed it. */
    method Fire(e: Event)
      requires Inv(View()) && Enabled(View(), e) && !e.Ack?
      modifies this
      ensures Inv(View()) && View() == Step(old(View()), e)
    {
      hide Inv;
      InOrder(View());
      StepKeeps(View(), e);
      match e {
        case FireRenew(j) =>
          if phase == Bound {
            RenewFirst(renewAt.value, j);
          } else {
            RenewAgain(renewAt.value, j);
          }
        case FireRebind(j) =>
          if phase == Rebinding {
            RebindAgain(rebindAt.value, j);
          } else {
            RebindFirst(rebindAt.value, j);
          }
        case FireExpire =>
          phase := Expired;
          renewAt := None;
          rebindAt := None;
          expireAt := None;
      }
    }
  }
}
