/**
 What the link-local machine (src/dhcp/client.c) does, stated over the events it meets
 and what it sends and reports: ARP packets are counted as the network delivers them,
 not as the machine notes them.
 */
module LinkLocalRuns {
  import opened LinkLocal

  /** The packet speaks of this address. */
  predicate Hits(e: Event, ip: Ip) {
    e.Arp? && (e.spa == ip || e.tpa == ip)
  }

  /** What is sent and reported between two states. */
  function Output(c: Client, d: Client): seq<Act> {
    if |c.log| <= |d.log| then d.log[|c.log|..] else []
  }

  // ---- single conflicts ------------------------------------------------

  /** A packet about another address does nothing at all. */
  lemma OthersPass(c: Client, e: Event)
    requires e.Arp? && !Hits(e, c.ip)
    ensures Step(c, e) == c
  {
  }

  /** A conflict before the address is taken ends it: the address is dropped, and the
      machine begins again or, after too many conflicts, gives up. */
  lemma ConflictStops(c: Client, e: Event)
    requires Inv(c) && c.listening && c.state in {Probing, Announcing} && Hits(e, c.ip)
    ensures var d := Step(c, e);
      && d.ip == 0 && !d.listening && d.state == Probing
      && Output(c, d) == [Conflict(c.ip, e.spa == c.ip)] + (if d.timer == NoTimer then [NoLease] else [])
      && d.timer == (if (c.conflicts + 1) % 256 < 10 then SendProbe else NoTimer)
  {
    hide TakenFairly, LostFairly, EndsWith;
    var d := Step(c, e);
    var x := Conflict(c.ip, e.spa == c.ip);
    assert (c.log + [x])[|c.log|..] == [x];
    assert (c.log + [x] + [NoLease])[|c.log|..] == [x, NoLease];
  }

  /** A packet that only asks for an address in use changes no more than the count. */
  lemma TargetOnly(c: Client, e: Event)
    requires c.state in {Monitoring, Defending} && e.Arp? && e.spa != c.ip && e.tpa == c.ip
    ensures var d := Step(c, e);
      d == c.(conflicts := (c.conflicts + 1) % 256, log := c.log + [Conflict(c.ip, false)])
  {
  }

  /** The first packet from another owner is answered by one announcement. */
  lemma SourceDefended(c: Client, e: Event)
    requires c.state == Monitoring && e.Arp? && e.spa == c.ip
    ensures var d := Step(c, e);
      && d.state == Defending && d.timer == DefendTimeout && d.ip == c.ip && d.listening == c.listening
      && d.log == c.log + [Conflict(c.ip, true), Announce(c.ip)]
  {
    assert c.log + [Conflict(c.ip, true)] + [Announce(c.ip)] == c.log + [Conflict(c.ip, true), Announce(c.ip)];
  }

  /** If no other packet comes in time, the address stays, and nothing is sent. */
  lemma DefenceEnds(c: Client, tmp: nat)
    requires c.timer == DefendTimeout
    ensures var d := Step(c, Fire(tmp));
      d.state == Monitoring && d.timer == NoTimer && (d.ip, d.listening, d.log) == (c.ip, c.listening, c.log)
  {
  }

  /** Once stopped, the machine listens to nothing and waits for nothing. */
  lemma Stopped(c: Client)
    ensures var d := Step(c, End);
      d.ip == 0 && !d.listening && d.timer == NoTimer && d.state !in {Monitoring, Defending} && d.log == c.log
  {
  }

  // ---- how an address is taken -----------------------------------------

  /** Since step `k`, which sent the first probe for this address, the network was
      silent about it and the machine was neither stopped nor started. */
  ghost predicate Silent(run: seq<Client>, events: seq<Event>, k: nat, n: nat, ip: Ip) {
    && k < n <= |events| < |run|
    && run[k + 1].log == run[k].log + [Probe(ip)]
    && forall j :: k < j < n ==> (events[j].Fire? || (events[j].Arp? && !Hits(events[j], ip)))
  }

  /** What was sent since. */
  function Progress(c: Client): seq<Act> {
    if c.state == Announcing then Probes(c.ip, 3) + Announces(c.ip, c.retries) else Probes(c.ip, c.retries)
  }

  predicate Taking(c: Client) {
    c.timer == ProbeTimeout || c.timer == AnnounceTimeout
  }

  ghost predicate SinceFirst(run: seq<Client>, events: seq<Event>, k: nat, n: nat) {
    n < |run| && Silent(run, events, k, n, run[n].ip) && run[n].log == run[k].log + Progress(run[n])
  }

  /** One more step of taking the address. */
  lemma TakingStep(c: Client, e: Event)
    requires Inv(c) && Enabled(c, e) && Taking(Step(c, e))
    ensures var d := Step(c, e);
      || (c.timer == SendProbe && e.Fire? && d.log == c.log + [Probe(d.ip)] && Progress(d) == [Probe(d.ip)])
      || (&& Taking(c) && d.ip == c.ip && (e.Fire? || (e.Arp? && !Hits(e, c.ip)))
          && exists more :: d.log == c.log + more && Progress(d) == Progress(c) + more)
  {
    hide TakenFairly, LostFairly, EndsWith, Held, Defended;
    var d := Step(c, e);
    match e
    case Begin(tmp) =>
    case End =>
    case Arp(spa, tpa) =>
      assert d.log == c.log + [] && Progress(d) == Progress(c) + [];
    case Fire(tmp) =>
      if c.timer == SendProbe {
        assert Probes(d.ip, 1) == [Probe(d.ip)];
      } else {
        FireProgress(c, tmp);
      }
  }

  lemma FireProgress(c: Client, tmp: nat)
    requires Inv(c) && Taking(c) && Drawn(tmp) && Taking(Step(c, Fire(tmp)))
    ensures var d := Step(c, Fire(tmp));
      d.ip == c.ip && exists more :: d.log == c.log + more && Progress(d) == Progress(c) + more
  {
    hide TakenFairly, LostFairly, EndsWith, Held, Defended;
    var d, ip := Step(c, Fire(tmp)), c.ip;
    if c.timer == ProbeTimeout && c.retries == 3 {
      assert d.log == c.log + [Announce(ip)];
      assert Probes(ip, 3) + Announces(ip, 1) == Probes(ip, 3) + [Announce(ip)];
    } else if c.timer == ProbeTimeout {
      ProbesMore(ip, c.retries);
      assert d.log == c.log + [Probe(ip)];
    } else {
      AnnouncesMore(ip, c.retries);
      assert d.log == c.log + [Announce(ip)];
    }
  }

  lemma {:induction false} TakingSince(run: seq<Client>, events: seq<Event>, n: nat) returns (k: nat)
    requires IsRun(run, events) && n < |run| && Taking(run[n])
    ensures SinceFirst(run, events, k, n)
  {
    hide Inv, Step, Enabled, Progress;
    assert n > 0;
    var c, e, d := run[n - 1], events[n - 1], run[n];
    RunKeeps(run, events, n - 1);
    assert Follows(run[n - 1], events[n - 1], run[n - 1 + 1]);
    TakingStep(c, e);
    if c.timer == SendProbe && e.Fire? && d.log == c.log + [Probe(d.ip)] && Progress(d) == [Probe(d.ip)] {
      k := n - 1;
    } else {
      k := TakingSince(run, events, n - 1);
      var more :| d.log == c.log + more && Progress(d) == Progress(c) + more;
      assert run[k].log + Progress(c) + more == run[k].log + (Progress(c) + more);
    }
  }

  lemma AvailableStep(c: Client, e: Event, ip: Ip)
    requires Inv(c) && Enabled(c, e) && Available(ip) in Output(c, Step(c, e))
    ensures e.Fire? && c.timer == AnnounceTimeout && c.retries == 2 && c.state == Announcing && c.ip == ip
    ensures Step(c, e).log == c.log + [Available(ip)]
  {
    hide TakenFairly, LostFairly, EndsWith, Held, Defended;
    StepOutput(c, e);
  }

  /** What one event makes the machine send and report. */
  lemma StepOutput(c: Client, e: Event)
    ensures c.log <= Step(c, e).log
    ensures var out := Output(c, Step(c, e));
      match e
      case Begin(_) => out == []
      case End => out == []
      case Arp(spa, tpa) => forall a :: a in out ==> !a.Available?
      case Fire(tmp) =>
        if c.timer == AnnounceTimeout && c.retries == 2 then out == [Available(c.ip)]
        else forall a :: a in out ==> !a.Available?
  {
    var d := Step(c, e);
    match e
    case Begin(_) =>
    case End =>
    case Arp(spa, tpa) =>
    case Fire(tmp) =>
      if c.timer == AnnounceTimeout && c.retries == 2 {
        assert d.log == c.log + [Available(c.ip)];
      }
  }

  /**
   In every run, if an address is reported available, then before that it was probed
   three times and announced twice, and from the first probe on no ARP packet named it
   as sender or as target, and the machine was neither stopped nor started.
   */
  lemma TakenInSilence(run: seq<Client>, events: seq<Event>, i: nat, ip: Ip) returns (k: nat)
    requires IsRun(run, events) && i < |events|
    requires Available(ip) in Output(run[i], run[i + 1])
    ensures k < i && run[k + 1].log == run[k].log + [Probe(ip)]
    ensures forall j :: k < j < i ==>
      events[j].Fire? || (events[j].Arp? && events[j].spa != ip && events[j].tpa != ip)
    ensures run[i + 1].log == run[k].log + Probes(ip, 3) + Announces(ip, 2) + [Available(ip)]
  {
    hide Inv, Step, Enabled;
    RunKeeps(run, events, i);
    assert Follows(run[i], events[i], run[i + 1]);
    AvailableStep(run[i], events[i], ip);
    k := TakingSince(run, events, i);
    assert run[k].log + (Probes(ip, 3) + Announces(ip, 2)) == run[k].log + Probes(ip, 3) + Announces(ip, 2);
  }

  /** A machine that is about to probe takes its address, or the one it then draws, if the
      network stays silent, in six timeouts. */
  lemma SilenceTakes(c: Client, tmp: nat)
    requires Inv(c) && c.timer == SendProbe
    ensures var ip, d := if c.ip == 0 then RandomIp(tmp) else c.ip, Wait(c, tmp, 6);
      && d.state == Monitoring && d.ip == ip && d.timer == NoTimer && d.listening && d.conflicts == 0
      && d.log == c.log + Probes(ip, 3) + Announces(ip, 2) + [Available(ip)]
  {
    hide Inv;
    assert c.retries == 1 by { ProbesFromOne(c); }
    var ip := if c.ip == 0 then RandomIp(tmp) else c.ip;
    assert Wait(c, tmp, 0) == c;
    var one, two := Wait(c, tmp, 1), Wait(c, tmp, 2);
    assert one == c.(state := Probing, ip := ip, listening := true, timer := ProbeTimeout, log := c.log + [Probe(ip)]);
    assert two == one.(retries := 2, log := one.log + [Probe(ip)]);
    var three, four := Wait(c, tmp, 3), Wait(c, tmp, 4);
    assert three == two.(retries := 3, log := two.log + [Probe(ip)]);
    assert four == three.(state := Announcing, retries := 1, timer := AnnounceTimeout,
                          log := three.log + [Announce(ip)]);
    var five := Wait(c, tmp, 5);
    assert five == four.(retries := 2, log := four.log + [Announce(ip)]);
    assert five.log + [Available(ip)] == c.log + Probes(ip, 3) + Announces(ip, 2) + [Available(ip)];
  }

  lemma ProbesFromOne(c: Client)
    requires Inv(c) && c.timer == SendProbe
    ensures c.retries == 1
  {
    hide TakenFairly, LostFairly, EndsWith, Held, Defended;
  }

  // ---- how an address is lost ------------------------------------------

  /** From step `k + 1` to step `n` only packets came, none of them sent from `ip`. */
  ghost predicate NoOwner(events: seq<Event>, k: nat, n: nat, ip: Ip) {
    forall j :: k < j < n ==> 0 <= j < |events| && events[j].Arp? && events[j].spa != ip
  }

  lemma DefendingStep(c: Client, e: Event)
    requires Inv(c) && Enabled(c, e) && Step(c, e).state == Defending
    ensures var d := Step(c, e);
      && d.ip == c.ip
      && ((c.state == Monitoring && e.Arp? && e.spa == c.ip) || (c.state == Defending && e.Arp? && e.spa != c.ip))
  {
    hide TakenFairly, LostFairly, EndsWith, Held, Defended;
  }

  lemma {:induction false} DefendingSince(run: seq<Client>, events: seq<Event>, n: nat) returns (k: nat)
    requires IsRun(run, events) && n < |run| && run[n].state == Defending
    ensures k < n <= |events| && run[k].state == Monitoring && run[k].ip == run[n].ip
    ensures events[k].Arp? && events[k].spa == run[n].ip && NoOwner(events, k, n, run[n].ip)
  {
    hide Inv, Step, Enabled;
    assert n > 0;
    var c, e := run[n - 1], events[n - 1];
    RunKeeps(run, events, n - 1);
    assert Follows(run[n - 1], events[n - 1], run[n - 1 + 1]);
    DefendingStep(c, e);
    if c.state == Monitoring && e.spa == c.ip {
      k := n - 1;
    } else {
      k := DefendingSince(run, events, n - 1);
    }
  }

  lemma LostStep(c: Client, e: Event, ip: Ip)
    ensures Lost(ip) in Output(c, Step(c, e)) <==> c.state == Defending && e.Arp? && e.spa == c.ip == ip
  {
    var d := Step(c, e);
    if c.state == Defending && e.Arp? && e.spa == c.ip == ip {
      assert d.log[|c.log| + 1] == Lost(ip);
      assert d.log[|c.log|..][1] == Lost(ip);
    }
  }

  /**
   In every run, an address is reported lost exactly at the second packet from another
   owner: a packet sent from the address, after another such packet was answered while
   the address was watched, with nothing in between but packets from other addresses.
   */
  lemma LostAtSecond(run: seq<Client>, events: seq<Event>, i: nat, ip: Ip)
    requires IsRun(run, events) && i < |events|
    ensures Lost(ip) in Output(run[i], run[i + 1]) <==>
      && events[i].Arp? && events[i].spa == ip
      && exists k: nat :: Answered(run, events, k, ip) && k < i && NoOwner(events, k, i, ip)
  {
    hide Inv, Step, Enabled;
    assert Follows(run[i], events[i], run[i + 1]);
    LostStep(run[i], events[i], ip);
    if run[i].state == Defending && events[i].Arp? && events[i].spa == run[i].ip == ip {
      var k := DefendingSince(run, events, i);
      assert Answered(run, events, k, ip);
    }
    if k: nat :| Answered(run, events, k, ip) && k < i && NoOwner(events, k, i, ip) {
      DefendingUntil(run, events, k, i, ip);
    }
  }

  /** At step `k` the address was watched, and a packet came from another owner. */
  ghost predicate Answered(run: seq<Client>, events: seq<Event>, k: nat, ip: Ip) {
    k < |events| < |run| && run[k].state == Monitoring && run[k].ip == ip && events[k].Arp? && events[k].spa == ip
  }

  lemma {:induction false} DefendingUntil(run: seq<Client>, events: seq<Event>, k: nat, n: nat, ip: Ip)
    requires IsRun(run, events) && k < n < |run| && Answered(run, events, k, ip) && NoOwner(events, k, n, ip)
    ensures run[n].state == Defending && run[n].ip == ip
  {
    hide Inv, Step, Enabled;
    assert Follows(run[n - 1], events[n - 1], run[n - 1 + 1]);
    if n - 1 == k {
      SourceDefended(run[k], events[k]);
    } else {
      DefendingUntil(run, events, k, n - 1, ip);
      if events[n - 1].tpa == ip {
        TargetOnly(run[n - 1], events[n - 1]);
      } else {
        OthersPass(run[n - 1], events[n - 1]);
      }
    }
  }

  // ---- giving up -------------------------------------------------------

  /** How many packets named the address in use since the count was last cleared, which
      happens when an address is taken and when a defence ends. */
  ghost function Tally(run: seq<Client>, events: seq<Event>, n: nat): nat
    requires n <= |events| < |run|
  {
    if n == 0 then 0
    else if Hits(events[n - 1], run[n - 1].ip) then Tally(run, events, n - 1) + 1
    else if events[n - 1].Fire? && (run[n - 1].state == Defending || Reported(run, n - 1)) then 0
    else Tally(run, events, n - 1)
  }

  /** Step `i` reports an address as available. */
  ghost predicate Reported(run: seq<Client>, i: nat)
    requires i + 1 < |run|
  {
    exists ip :: run[i + 1].log == run[i].log + [Available(ip)]
  }

  lemma CountStep(c: Client, e: Event)
    requires Inv(c) && Enabled(c, e)
    ensures var d := Step(c, e);
      d.conflicts == if Hits(e, c.ip) then (c.conflicts + 1) % 256
                     else if e.Fire? && (c.state == Defending || exists ip :: d.log == c.log + [Available(ip)]) then 0
                     else c.conflicts
  {
    hide TakenFairly, LostFairly, EndsWith, Held, Defended;
    var d := Step(c, e);
    if e.Fire? && c.timer == AnnounceTimeout && c.retries == 2 {
      assert d.log == c.log + [Available(c.ip)];
    } else if e.Fire? {
      assert d.log == c.log || (d.log != [] && !d.log[|d.log| - 1].Available?);
    }
  }

  lemma {:induction false} TallyKept(run: seq<Client>, events: seq<Event>, n: nat)
    requires IsRun(run, events) && n < |run|
    ensures run[n].conflicts == Tally(run, events, n) % 256
  {
    hide Inv, Step, Enabled, Reported, Hits;
    if n > 0 {
      TallyKept(run, events, n - 1);
      RunKeeps(run, events, n - 1);
      assert Follows(run[n - 1], events[n - 1], run[n - 1 + 1]);
      CountStep(run[n - 1], events[n - 1]);
      ReportedIs(run, n - 1);
    }
  }

  lemma ReportedIs(run: seq<Client>, i: nat)
    requires i + 1 < |run|
    ensures Reported(run, i) <==> exists ip :: run[i + 1].log == run[i].log + [Available(ip)]
  {
  }

  lemma NoLeaseStep(c: Client, e: Event)
    requires Inv(c) && Enabled(c, e)
    ensures NoLease in Output(c, Step(c, e)) <==>
      && Hits(e, c.ip) && (c.state in {Monitoring, Defending} ==> c.state == Defending && e.spa == c.ip)
      && (c.conflicts + 1) % 256 >= 10
  {
    hide TakenFairly, LostFairly, EndsWith, Held, Defended;
    var d := Step(c, e);
    if Hits(e, c.ip) && (c.state in {Monitoring, Defending} ==> c.state == Defending && e.spa == c.ip)
      && (c.conflicts + 1) % 256 >= 10 {
      assert d.log[|d.log| - 1] == NoLease;
      assert d.log[|c.log|..][|d.log| - 1 - |c.log|] == NoLease;
    }
  }

  /**
   In every run, the machine reports failure exactly when a packet ends its claim to an
   address and is at least the tenth about an address in use since the count was last
   cleared, the count being kept in eight bits.
   */
  lemma GivesUpAtTenth(run: seq<Client>, events: seq<Event>, i: nat)
    requires IsRun(run, events) && i < |events|
    ensures NoLease in Output(run[i], run[i + 1]) <==>
      && Hits(events[i], run[i].ip)
      && (run[i].state in {Monitoring, Defending} ==> run[i].state == Defending && events[i].spa == run[i].ip)
      && (Tally(run, events, i) + 1) % 256 >= 10
  {
    hide Inv, Step, Enabled, Tally;
    RunKeeps(run, events, i);
    assert Follows(run[i], events[i], run[i + 1]);
    NoLeaseStep(run[i], events[i]);
    TallyKept(run, events, i);
  }
}
