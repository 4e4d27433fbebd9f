/**
 The link-local address machine of the client (src/dhcp/client.c, src/dhcp/ipv4ll.h,
 src/dhcp/ipv4ll.c; RFC 3927): probe an address, announce it, watch it, defend it
 once. Timers and ARP packets are events; every packet sent and every conflict seen
 goes into a log, and the promises are about the log.
 */
module LinkLocal {

  const PROBE_NUM: nat := 3
  const ANNOUNCE_NUM: nat := 2
  const MAX_CONFLICTS: nat := 10
  const LINKLOCAL_ADDR: nat := 0xa9fe_0000

  type Ip = nat

  /** `ipv4ll_random_ip` for the number drawn: 169.254.1.0 to 169.254.254.255. */
  predicate Drawn(tmp: nat) {
    tmp <= 0xffff - 0x200
  }

  function RandomIp(tmp: nat): Ip {
    LINKLOCAL_ADDR + 0x100 + tmp
  }

  predicate Usable(ip: Ip) {
    0xa9fe_0100 <= ip <= 0xa9fe_feff
  }

  datatype State = Selecting | Released | Probing | Announcing | Monitoring | Defending

  datatype Timer = NoTimer | SendProbe | ProbeTimeout | AnnounceTimeout | DefendTimeout

  /** What the machine sends, sees and reports. */
  datatype Act =
    | Probe(ip: Ip) | Announce(ip: Ip)
    | Conflict(ip: Ip, source: bool)
    | Available(ip: Ip) | Lost(ip: Ip) | NoLease

  datatype Client = Client(
    state: State, retries: nat, ip: Ip, conflicts: nat, timer: Timer, listening: bool, log: seq<Act>)

  // ---- the handlers ----------------------------------------------------

  /** `send_probe_packet` */
  function SendProbePacket(c: Client, tmp: nat): Client {
    var ip := if c.ip == 0 then RandomIp(tmp) else c.ip;
    c.(ip := ip,
       state := if c.retries == 1 then Probing else c.state,
       listening := c.retries == 1 || c.listening,
       timer := ProbeTimeout,
       log := c.log + [Probe(ip)])
  }

  /** `send_announce_packet` */
  function SendAnnouncePacket(c: Client): Client {
    c.(timer := if c.state == Defending then DefendTimeout else AnnounceTimeout,
       log := c.log + [Announce(c.ip)])
  }

  /** `g_dhcp_client_start` with `ipv4ll_start` */
  function Start(c: Client, tmp: nat): Client {
    c.(state := Selecting, listening := false, retries := 1, ip := RandomIp(tmp), timer := SendProbe)
  }

  /** `g_dhcp_client_stop` */
  function Stop(c: Client): Client {
    c.(state := Released, listening := false, retries := 0, ip := 0, timer := NoTimer)
  }

  /** `ipv4ll_stop` */
  function LinkLocalStop(c: Client): Client {
    c.(state := Probing, listening := false, retries := 0, ip := 0, timer := NoTimer)
  }

  /** The end of `ipv4ll_recv_arp_packet`: begin again, or give up. */
  function BeginAgain(c: Client): Client {
    var d := LinkLocalStop(c);
    if d.conflicts < MAX_CONFLICTS then d.(retries := 1, timer := SendProbe)
    else d.(log := d.log + [NoLease])
  }

  /** `ipv4ll_recv_arp_packet`, for a request or a reply */
  function RecvArp(c: Client, spa: Ip, tpa: Ip): Client {
    var source, target := spa == c.ip, tpa == c.ip;
    if !source && !target then c
    else
      var d := c.(conflicts := (c.conflicts + 1) % 256, log := c.log + [Conflict(c.ip, source)]);
      if d.state == Monitoring then
        if !source then d else SendAnnouncePacket(d.(state := Defending))
      else if d.state == Defending then
        if !source then d else BeginAgain(d.(log := d.log + [Lost(d.ip)]))
      else BeginAgain(d)
  }

  /** `ipv4ll_probe_timeout` */
  function OnProbeTimeout(c: Client, tmp: nat): Client {
    if c.retries == PROBE_NUM then SendAnnouncePacket(c.(state := Announcing, retries := 1))
    else SendProbePacket(c.(retries := c.retries + 1), tmp)
  }

  /** `ipv4ll_announce_timeout` */
  function OnAnnounceTimeout(c: Client): Client {
    if c.retries != ANNOUNCE_NUM then SendAnnouncePacket(c.(retries := c.retries + 1))
    else c.(state := Monitoring, timer := NoTimer, conflicts := 0, log := c.log + [Available(c.ip)])
  }

  /** `ipv4ll_defend_timeout` */
  function OnDefendTimeout(c: Client): Client {
    c.(conflicts := 0, state := Monitoring, timer := NoTimer)
  }

  // ---- events ----------------------------------------------------------

  datatype Event = Begin(tmp: nat) | End | Fire(tmp: nat) | Arp(spa: Ip, tpa: Ip)

  predicate Enabled(c: Client, e: Event) {
    match e
    case Begin(tmp) => Drawn(tmp)
    case End => true
    case Fire(tmp) => Drawn(tmp) && c.timer != NoTimer
    case Arp(_, _) => c.listening
  }

  function Step(c: Client, e: Event): Client {
    match e
    case Begin(tmp) => Start(c, tmp)
    case End => Stop(c)
    case Arp(spa, tpa) => RecvArp(c, spa, tpa)
    case Fire(tmp) =>
      match c.timer
      case NoTimer => c
      case SendProbe => SendProbePacket(c, tmp)
      case ProbeTimeout => OnProbeTimeout(c, tmp)
      case AnnounceTimeout => OnAnnounceTimeout(c)
      case DefendTimeout => OnDefendTimeout(c)
  }

  const INITIAL := Client(Selecting, 0, 0, 0, NoTimer, false, [])

  // ---- the promises ----------------------------------------------------

  predicate EndsWith(log: seq<Act>, tail: seq<Act>) {
    |tail| <= |log| && log[|log| - |tail|..] == tail
  }

  function Probes(ip: Ip, n: nat): (r: seq<Act>)
    ensures |r| == n
  {
    seq(n, _ => Probe(ip))
  }

  function Announces(ip: Ip, n: nat): (r: seq<Act>)
    ensures |r| == n
  {
    seq(n, _ => Announce(ip))
  }

  /** An address becomes available right after its three probes and two
      announcements, with nothing else in between: no conflict, no other address. */
  ghost predicate TakenFairly(log: seq<Act>) {
    forall i :: 0 <= i < |log| && log[i].Available? ==>
      && Usable(log[i].ip)
      && EndsWith(log[..i], Probes(log[i].ip, PROBE_NUM) + Announces(log[i].ip, ANNOUNCE_NUM))
  }

  predicate Quiet(a: Act, ip: Ip) {
    a == Announce(ip) || (a.Conflict? && a.ip == ip)
  }

  /** The address has been reported and not given up since. */
  ghost predicate Held(log: seq<Act>, ip: Ip) {
    exists k :: 0 <= k < |log| && log[k] == Available(ip) && forall j :: k < j < |log| ==> Quiet(log[j], ip)
  }

  /** A source conflict is the last one and has been answered: the defence. */
  predicate JustDefended(log: seq<Act>, ip: Ip, k: nat) {
    && k + 1 < |log| && log[k] == Conflict(ip, true) && log[k + 1] == Announce(ip)
    && forall j :: k + 1 < j < |log| ==> log[j] == Conflict(ip, false)
  }

  ghost predicate Defended(log: seq<Act>, ip: Ip) {
    exists k :: JustDefended(log, ip, k)
  }

  /** An address is given up at a source conflict soon after its defence. */
  ghost predicate LostFairly(log: seq<Act>) {
    forall i :: 0 <= i < |log| && log[i].Lost? ==>
      && i > 0 && log[i - 1] == Conflict(log[i].ip, true)
      && Defended(log[..i - 1], log[i].ip)
  }

  ghost predicate Inv(c: Client) {
    && TakenFairly(c.log) && LostFairly(c.log)
    && (c.listening <==> c.timer in {ProbeTimeout, AnnounceTimeout, DefendTimeout} || c.state == Monitoring)
    && (c.ip != 0 ==> Usable(c.ip))
    && (c.state == Monitoring ==> c.timer == NoTimer && c.ip != 0 && Held(c.log, c.ip))
    && (c.state == Defending <==> c.timer == DefendTimeout)
    && (c.state == Defending ==>
          && c.ip != 0 && Held(c.log, c.ip)
          && Defended(c.log, c.ip))
    && (c.state == Announcing <==> c.timer == AnnounceTimeout)
    && (c.state == Announcing ==>
          && c.ip != 0 && 1 <= c.retries <= ANNOUNCE_NUM
          && EndsWith(c.log, Probes(c.ip, PROBE_NUM) + Announces(c.ip, c.retries)))
    && (c.timer == ProbeTimeout ==>
          && c.state == Probing && c.ip != 0 && 1 <= c.retries <= PROBE_NUM
          && EndsWith(c.log, Probes(c.ip, c.retries)))
    && (c.timer == SendProbe ==> c.retries == 1 && (c.state == Selecting || c.state == Probing))
  }

  // ---- one more entry --------------------------------------------------

  lemma EndsMore(log: seq<Act>, tail: seq<Act>, a: Act)
    requires EndsWith(log, tail)
    ensures EndsWith(log + [a], tail + [a])
  {
    var n := |log| - |tail|;
    assert (log + [a])[n..] == log[n..] + [a];
  }

  lemma ProbesMore(ip: Ip, n: nat)
    ensures Probes(ip, n) + [Probe(ip)] == Probes(ip, n + 1)
  {
  }

  lemma AnnouncesMore(ip: Ip, n: nat)
    ensures Probes(ip, PROBE_NUM) + Announces(ip, n) + [Announce(ip)]
         == Probes(ip, PROBE_NUM) + Announces(ip, n + 1)
  {
  }

  lemma TakenMore(log: seq<Act>, a: Act)
    requires TakenFairly(log)
    requires a.Available? ==>
      Usable(a.ip) && EndsWith(log, Probes(a.ip, PROBE_NUM) + Announces(a.ip, ANNOUNCE_NUM))
    ensures TakenFairly(log + [a])
  {
    var all := log + [a];
    forall i | 0 <= i < |all| && all[i].Available?
      ensures Usable(all[i].ip)
      ensures EndsWith(all[..i], Probes(all[i].ip, PROBE_NUM) + Announces(all[i].ip, ANNOUNCE_NUM))
    {
      assert all[..i] == log[..i];
      if i == |log| {
        assert log[..i] == log;
      }
    }
  }

  lemma LostMore(log: seq<Act>, a: Act)
    requires LostFairly(log)
    requires a.Lost? ==>
      && log != [] && log[|log| - 1] == Conflict(a.ip, true)
      && Defended(log[..|log| - 1], a.ip)
    ensures LostFairly(log + [a])
  {
    var all := log + [a];
    forall i | 0 <= i < |all| && all[i].Lost?
      ensures i > 0 && all[i - 1] == Conflict(all[i].ip, true)
      ensures Defended(all[..i - 1], all[i].ip)
    {
      if i < |log| {
        assert log[i].Lost? && all[..i - 1] == log[..i - 1];
      } else {
        assert all[..i - 1] == log[..|log| - 1];
      }
    }
  }

  /** Any entry but the two reports. */
  lemma LogMore(log: seq<Act>, a: Act)
    requires TakenFairly(log) && LostFairly(log) && !a.Available? && !a.Lost?
    ensures TakenFairly(log + [a]) && LostFairly(log + [a])
  {
    TakenMore(log, a);
    LostMore(log, a);
  }

  lemma HeldMore(log: seq<Act>, ip: Ip, a: Act)
    requires Held(log, ip) && Quiet(a, ip)
    ensures Held(log + [a], ip)
  {
    var k :| 0 <= k < |log| && log[k] == Available(ip) && forall j :: k < j < |log| ==> Quiet(log[j], ip);
    assert (log + [a])[k] == Available(ip);
  }

  lemma DefendedMore(log: seq<Act>, ip: Ip)
    requires Defended(log, ip)
    ensures Defended(log + [Conflict(ip, false)], ip)
  {
    var k :| JustDefended(log, ip, k);
    assert JustDefended(log + [Conflict(ip, false)], ip, k);
  }

  // ---- what every step keeps -------------------------------------------

  lemma SendProbeKeeps(c: Client, tmp: nat)
    requires TakenFairly(c.log) && LostFairly(c.log) && Drawn(tmp)
    requires c.state == Selecting || c.state == Probing
    requires 1 <= c.retries <= PROBE_NUM
    requires c.ip != 0 ==> Usable(c.ip)
    requires c.retries > 1 ==> c.listening && c.state == Probing && c.ip != 0
    requires c.retries > 1 ==> EndsWith(c.log, Probes(c.ip, c.retries - 1))
    ensures Inv(SendProbePacket(c, tmp))
  {
    var d := SendProbePacket(c, tmp);
    LogMore(c.log, Probe(d.ip));
    if c.retries > 1 {
      EndsMore(c.log, Probes(c.ip, c.retries - 1), Probe(d.ip));
      ProbesMore(c.ip, c.retries - 1);
    } else {
      assert d.log[|c.log|..] == [Probe(d.ip)] == Probes(d.ip, 1);
    }
  }

  lemma AnnounceKeeps(c: Client)
    requires TakenFairly(c.log) && LostFairly(c.log)
    requires c.state == Announcing && c.listening && Usable(c.ip) && 1 <= c.retries <= ANNOUNCE_NUM
    requires EndsWith(c.log, Probes(c.ip, PROBE_NUM) + Announces(c.ip, c.retries - 1))
    ensures Inv(SendAnnouncePacket(c))
  {
    LogMore(c.log, Announce(c.ip));
    EndsMore(c.log, Probes(c.ip, PROBE_NUM) + Announces(c.ip, c.retries - 1), Announce(c.ip));
    AnnouncesMore(c.ip, c.retries - 1);
  }

  lemma FireKeeps(c: Client, tmp: nat)
    requires Inv(c) && Enabled(c, Fire(tmp))
    ensures Inv(Step(c, Fire(tmp)))
  {
    hide TakenFairly, LostFairly, EndsWith, Held;
    match c.timer
    case SendProbe => SendProbeKeeps(c, tmp);
    case ProbeTimeout =>
      if c.retries == PROBE_NUM {
        assert Probes(c.ip, PROBE_NUM) + Announces(c.ip, 0) == Probes(c.ip, PROBE_NUM);
        AnnounceKeeps(c.(state := Announcing, retries := 1));
      } else {
        SendProbeKeeps(c.(retries := c.retries + 1), tmp);
      }
    case AnnounceTimeout =>
      if c.retries != ANNOUNCE_NUM {
        AnnounceKeeps(c.(retries := c.retries + 1));
      } else {
        TakenMore(c.log, Available(c.ip));
        LostMore(c.log, Available(c.ip));
        HeldNow(c.log, c.ip);
      }
    case DefendTimeout =>
  }

  lemma HeldNow(log: seq<Act>, ip: Ip)
    ensures Held(log + [Available(ip)], ip)
  {
    assert (log + [Available(ip)])[|log|] == Available(ip);
  }

  lemma BeginAgainKeeps(c: Client)
    requires TakenFairly(c.log) && LostFairly(c.log)
    ensures Inv(BeginAgain(c))
  {
    hide TakenFairly, LostFairly;
    LogMore(c.log, NoLease);
  }

  /** A source conflict while watching is answered by one announcement. */
  lemma DefenceKeeps(c: Client)
    requires Inv(c) && c.state == Monitoring
    ensures Inv(RecvArp(c, c.ip, c.ip))
    ensures forall tpa :: RecvArp(c, c.ip, tpa) == RecvArp(c, c.ip, c.ip)
  {
    var one := c.log + [Conflict(c.ip, true)];
    var two := one + [Announce(c.ip)];
    LogMore(c.log, Conflict(c.ip, true));
    LogMore(one, Announce(c.ip));
    HeldMore(c.log, c.ip, Conflict(c.ip, true));
    HeldMore(one, c.ip, Announce(c.ip));
    assert JustDefended(two, c.ip, |c.log|);
  }

  /**
   A second source conflict while defending gives the address up: it is reported
   lost, no longer listened for, and not used again without new probes.
   */
  lemma SecondConflictGivesUp(c: Client, spa: Ip, tpa: Ip)
    requires Inv(c) && c.state == Defending && spa == c.ip
    ensures var d := RecvArp(c, spa, tpa);
      && Inv(d)
      && d.state == Probing && d.ip == 0 && !d.listening
      && c.log + [Conflict(c.ip, true), Lost(c.ip)] <= d.log
      && (d.timer == SendProbe || (d.timer == NoTimer && d.log[|d.log| - 1] == NoLease))
  {
    hide TakenFairly, LostFairly, Defended, Held, EndsWith;
    var one := c.log + [Conflict(c.ip, true)];
    LogMore(c.log, Conflict(c.ip, true));
    assert one[..|one| - 1] == c.log;
    TakenMore(one, Lost(c.ip));
    LostMore(one, Lost(c.ip));
    assert one + [Lost(c.ip)] == c.log + [Conflict(c.ip, true), Lost(c.ip)];
    BeginAgainKeeps(c.(conflicts := (c.conflicts + 1) % 256, log := one + [Lost(c.ip)]));
  }

  lemma ArpKeeps(c: Client, spa: Ip, tpa: Ip)
    requires Inv(c) && c.listening
    ensures Inv(RecvArp(c, spa, tpa))
  {
    hide TakenFairly, LostFairly, EndsWith, Held, Defended;
    var source := spa == c.ip;
    if source || tpa == c.ip {
      LogMore(c.log, Conflict(c.ip, source));
      if c.state == Monitoring {
        if source {
          DefenceKeeps(c);
        } else {
          HeldMore(c.log, c.ip, Conflict(c.ip, false));
        }
      } else if c.state == Defending {
        if source {
          SecondConflictGivesUp(c, spa, tpa);
        } else {
          HeldMore(c.log, c.ip, Conflict(c.ip, false));
          DefendedMore(c.log, c.ip);
        }
      } else {
        BeginAgainKeeps(c.(conflicts := (c.conflicts + 1) % 256, log := c.log + [Conflict(c.ip, source)]));
      }
    }
  }

  lemma StepKeeps(c: Client, e: Event)
    requires Inv(c) && Enabled(c, e)
    ensures Inv(Step(c, e))
    ensures c.log <= Step(c, e).log
  {
    match e
    case Begin(_) =>
    case End =>
    case Fire(tmp) => FireKeeps(c, tmp);
    case Arp(spa, tpa) => ArpKeeps(c, spa, tpa);
  }

  // ---- whole runs ------------------------------------------------------

  ghost predicate IsRun(run: seq<Client>, events: seq<Event>) {
    && |run| == |events| + 1 && run[0] == INITIAL
    && forall i :: 0 <= i < |events| ==> Follows(run[i], events[i], run[i + 1])
  }

  predicate Follows(c: Client, e: Event, d: Client) {
    Enabled(c, e) && d == Step(c, e)
  }

  lemma {:induction false} RunKeeps(run: seq<Client>, events: seq<Event>, i: nat)
    requires IsRun(run, events) && i < |run|
    ensures Inv(run[i])
  {
    if i > 0 {
      RunKeeps(run, events, i - 1);
      assert Follows(run[i - 1], events[i - 1], run[i - 1 + 1]);
      StepKeeps(run[i - 1], events[i - 1]);
    }
  }

  /**
   In every run, every address that was reported available is a link-local one, was
   probed three times and announced twice right before, and saw no conflict in
   between; while the machine watches or defends an address, it is one that was
   reported and not given up since; and every loss follows a second source conflict
   after a single defence.
   */
  lemma RunIsFair(run: seq<Client>, events: seq<Event>, i: nat)
    requires IsRun(run, events) && i < |run|
    ensures TakenFairly(run[i].log) && LostFairly(run[i].log)
    ensures run[i].state in {Monitoring, Defending} ==> Held(run[i].log, run[i].ip)
  {
    RunKeeps(run, events, i);
  }

  // ---- without conflicts -----------------------------------------------

  /** The timers run out `n` times, and nothing else happens. */
  function Wait(c: Client, tmp: nat, n: nat): Client {
    if n == 0 then c else Step(Wait(c, tmp, n - 1), Fire(tmp))
  }

  /** On a quiet network a start leads to the address it drew, in six timeouts and
      not before. */
  lemma QuietNetworkTakes(c: Client, first: nat, tmp: nat)
    requires Drawn(first) && Drawn(tmp)
    ensures var ip, d := RandomIp(first), Wait(Start(c, first), tmp, 6);
      && d.state == Monitoring && d.ip == ip && d.timer == NoTimer && d.conflicts == 0
      && d.log == c.log + Probes(ip, 3) + Announces(ip, 2) + [Available(ip)]
    ensures forall n: nat :: n < 6 ==> Wait(Start(c, first), tmp, n).timer != NoTimer
  {
    var ip, s := RandomIp(first), Start(c, first);
    assert Wait(s, tmp, 0) == s;
    var one, two := Wait(s, tmp, 1), Wait(s, tmp, 2);
    assert one == s.(state := Probing, listening := true, timer := ProbeTimeout, log := c.log + [Probe(ip)]);
    assert two == one.(retries := 2, log := one.log + [Probe(ip)]);
    var three, four := Wait(s, tmp, 3), Wait(s, tmp, 4);
    assert three == two.(retries := 3, log := two.log + [Probe(ip)]);
    assert four == three.(state := Announcing, retries := 1, timer := AnnounceTimeout,
                          log := three.log + [Announce(ip)]);
    var five := Wait(s, tmp, 5);
    assert five == four.(retries := 2, log := four.log + [Announce(ip)]);
    var all := c.log + Probes(ip, 3) + Announces(ip, 2) + [Available(ip)];
    assert five.log + [Available(ip)] == all;
    forall n: nat | n < 6 ensures Wait(s, tmp, n).timer != NoTimer {
      assert n == 0 || n == 1 || n == 2 || n == 3 || n == 4 || n == 5;
    }
  }

  // ---- the client ------------------------------------------------------

  class Machine {
    var state: State
    var retries: nat
    var ip: Ip
    var conflicts: nat
    var timer: Timer
    var listening: bool
    ghost var log: seq<Act>

    ghost function View(): Client
      reads this
    {
      Client(state, retries, ip, conflicts, timer, listening, log)
    }

    constructor ()
      ensures View() == INITIAL && Inv(View())
    {
      state, retries, ip, conflicts, timer, listening, log := Selecting, 0, 0, 0, NoTimer, false, [];
    }

    /** `g_dhcp_client_start` with `ipv4ll_start` */
    method OnStart(tmp: nat)
      requires Inv(View()) && Drawn(tmp)
      modifies this
      ensures Inv(View()) && View() == Step(old(View()), Begin(tmp))
    {
      StepKeeps(View(), Begin(tmp));
      state := Selecting;
      timer, listening, retries := NoTimer, false, 0;
      ip := RandomIp(tmp);
      retries := retries + 1;
      timer := SendProbe;
    }

    /** `g_dhcp_client_stop` */
    method OnStop()
      requires Inv(View())
      modifies this
      ensures Inv(View()) && View() == Step(old(View()), End)
    {
      StepKeeps(View(), End);
      listening, timer, retries, ip, state := false, NoTimer, 0, 0, Released;
    }

    /** `send_probe_packet` */
    method ProbeAddress(tmp: nat)
      modifies this
      ensures View() == SendProbePacket(old(View()), tmp)
    {
      if ip == 0 {
        ip := RandomIp(tmp);
      }
      if retries == 1 {
        state := Probing;
        listening := true;
      }
      log := log + [Probe(ip)];
      timer := ProbeTimeout;
    }

    /** `send_announce_packet` */
    method AnnounceAddress()
      modifies this`timer, this`log
      ensures View() == SendAnnouncePacket(old(View()))
    {
      log := log + [Announce(ip)];
      timer := NoTimer;
      timer := if state == Defending then DefendTimeout else AnnounceTimeout;
    }

    /** Whichever timer is due. */
    method OnTimer(tmp: nat)
      requires Inv(View()) && Enabled(View(), Fire(tmp))
      modifies this
      ensures Inv(View()) && View() == Step(old(View()), Fire(tmp))
    {
      hide Inv;
      StepKeeps(View(), Fire(tmp));
      match timer {
        case SendProbe => ProbeAddress(tmp);
        case ProbeTimeout =>
          if retries == PROBE_NUM {
            state := Announcing;
            retries := 0;
            retries := retries + 1;
            AnnounceAddress();
          } else {
            retries := retries + 1;
            ProbeAddress(tmp);
          }
        case AnnounceTimeout =>
          if retries != ANNOUNCE_NUM {
            retries := retries + 1;
            AnnounceAddress();
          } else {
            state := Monitoring;
            timer := NoTimer;
            log := log + [Available(ip)];
            conflicts := 0;
          }
        case DefendTimeout =>
          conflicts := 0;
          state := Monitoring;
          timer := NoTimer;
      }
    }

    /** `ipv4ll_recv_arp_packet` */
    method OnArp(spa: Ip, tpa: Ip)
      requires Inv(View()) && listening
      modifies this
      ensures Inv(View()) && View() == Step(old(View()), Arp(spa, tpa))
    {
      hide Inv;
      StepKeeps(View(), Arp(spa, tpa));
      var source, target := spa == ip, tpa == ip;
      if !source && !target {
        return;
      }
      conflicts := (conflicts + 1) % 256;
      log := log + [Conflict(ip, source)];
      if state == Monitoring {
        if source {
          state := Defending;
          AnnounceAddress();
        }
        return;
      }
      if state == Defending {
        if !source {
          return;
        }
        log := log + [Lost(ip)];
      }
      state, listening, retries, ip, timer := Probing, false, 0, 0, NoTimer;
      if conflicts < MAX_CONFLICTS {
        retries := retries + 1;
        timer := SendProbe;
      } else {
        log := log + [NoLease];
      }
    }
  }
}
