/**
 The request queue of the wpa_supplicant control bus (src/shared/wpas.c) and its
 peer. Replies carry no serial number: the bus hands a reply to the request at the
 head of its queue.
 */
module WpasPairing {

  const COOKIE_LIMIT: nat := 0x1_0000_0000_0000_0000

  /** A queued request. `serial` names it in this model; it is not on the wire. */
  datatype Request = Request(serial: nat, cookie: nat, sent: bool, removed: bool)

  /** What the peer sends. `answers` is the request the peer meant. */
  datatype Packet = Reply(answers: nat) | Event

  /** A callback was invoked: whose, and with the reply to what. */
  datatype Delivery = Delivery(callback: nat, reply: nat)

  datatype System = System(
    queue: seq<Request>, cookies: nat, issued: nat, dead: bool,
    toPeer: seq<nat>, toBus: seq<Packet>,
    log: seq<Delivery>, answered: seq<nat>, cancelled: set<nat>)

  datatype Step = Call | Cancel(cookie: nat) | Write(accepted: bool) | Read | Hup | PeerAnswers | PeerNotifies

  const INITIAL := System([], 0, 0, false, [], [], [], [], {})

  // ---- the steps -------------------------------------------------------

  /** `++w->cookies ? : ++w->cookies` */
  function NextCookie(c: nat): (r: nat)
    ensures r != 0
  {
    var n := (c + 1) % COOKIE_LIMIT;
    if n != 0 then n else 1
  }

  /** `wpas_call_async` */
  function CallAsync(s: System): System {
    var cookie := NextCookie(s.cookies);
    s.(queue := s.queue + [Request(s.issued, cookie, false, false)], cookies := cookie, issued := s.issued + 1)
  }

  /** The first request with that cookie, or the length of the queue. */
  function Find(queue: seq<Request>, cookie: nat): (i: nat)
    ensures i <= |queue|
    ensures i < |queue| ==> queue[i].cookie == cookie
    ensures forall j :: 0 <= j < i ==> queue[j].cookie != cookie
  {
    if queue == [] || queue[0].cookie == cookie then 0 else 1 + Find(queue[1..], cookie)
  }

  /** `wpas_call_async_cancel`: a request already sent is only marked. */
  function CancelAsync(s: System, cookie: nat): System {
    var i := Find(s.queue, cookie);
    if cookie == 0 || i == |s.queue| then s
    else
      s.(cancelled := s.cancelled + {s.queue[i].serial},
         queue := if s.queue[i].sent then s.queue[i := s.queue[i].(removed := true)]
                  else s.queue[..i] + s.queue[i + 1..])
  }

  /** `wpas__write`: sends the head if it is not under way yet. */
  function WriteOne(s: System, accepted: bool): System {
    if s.dead || s.queue == [] || s.queue[0].sent || !accepted then s
    else s.(queue := s.queue[0 := s.queue[0].(sent := true)], toPeer := s.toPeer + [s.queue[0].serial])
  }

  /** `wpas__read`: a reply goes to the head, unless that one is not sent. */
  function ReadOne(s: System): System {
    if s.dead || s.toBus == [] then s
    else
      var t := s.(toBus := s.toBus[1..]);
      match s.toBus[0]
      case Event => t
      case Reply(answers) =>
        var t' := t.(answered := t.answered + [answers]);
        if s.queue == [] || !s.queue[0].sent then t'
        else
          t'.(queue := s.queue[1..],
              log := if s.queue[0].removed then s.log else s.log + [Delivery(s.queue[0].serial, answers)])
  }

  function Next(s: System, step: Step): System {
    match step
    case Call => CallAsync(s)
    case Cancel(cookie) => CancelAsync(s, cookie)
    case Write(accepted) => WriteOne(s, accepted)
    case Read => ReadOne(s)
    case Hup => s.(dead := true)
    case PeerAnswers =>
      if s.toPeer == [] then s
      else s.(toPeer := s.toPeer[1..], toBus := s.toBus + [Reply(s.toPeer[0])])
    case PeerNotifies => s.(toBus := s.toBus + [Event])
  }

  function Run(steps: seq<Step>): System {
    if steps == [] then INITIAL else Next(Run(steps[..|steps| - 1]), steps[|steps| - 1])
  }

  // ---- what every step keeps -------------------------------------------

  /** The requests whose replies are on the way to the bus. */
  function Replies(packets: seq<Packet>): seq<nat> {
    if packets == [] then []
    else Replies(packets[..|packets| - 1])
         + (if packets[|packets| - 1].Reply? then [packets[|packets| - 1].answers] else [])
  }

  lemma {:induction false} RepliesFirst(packets: seq<Packet>)
    requires packets != []
    ensures Replies(packets) == (if packets[0].Reply? then [packets[0].answers] else []) + Replies(packets[1..])
  {
    var n := |packets| - 1;
    if n == 0 {
      assert packets[..0] == [] && packets[1..] == [];
    } else {
      RepliesFirst(packets[..n]);
      assert packets[..n][1..] == packets[1..][..n - 1];
    }
  }

  lemma RepliesMore(packets: seq<Packet>, p: Packet)
    ensures Replies(packets + [p]) == Replies(packets) + (if p.Reply? then [p.answers] else [])
  {
    assert (packets + [p])[..|packets|] == packets;
  }

  /** Only the head may be sent, and only a sent request may be marked removed. */
  predicate HeadOnly(queue: seq<Request>) {
    && (forall i :: 1 <= i < |queue| ==> !queue[i].sent)
    && (forall i :: 0 <= i < |queue| && queue[i].removed ==> queue[i].sent)
  }

  /** What is under way in either direction is exactly the sent head. */
  predicate OneOutstanding(s: System) {
    Replies(s.toBus) + s.toPeer == if s.queue != [] && s.queue[0].sent then [s.queue[0].serial] else []
  }

  /** Requests are queued in the order of their serials, answered ones precede. */
  predicate InOrder(s: System) {
    && (forall i, j :: 0 <= i < j < |s.queue| ==> s.queue[i].serial < s.queue[j].serial)
    && (forall i :: 0 <= i < |s.queue| ==> s.queue[i].serial < s.issued)
    && (forall a :: a in s.answered ==> a < s.issued)
    && (forall a, i :: a in s.answered && 0 <= i < |s.queue| ==> a < s.queue[i].serial)
    && (forall i, j :: 0 <= i < j < |s.answered| ==> s.answered[i] < s.answered[j])
  }

  /** A queued request is marked removed exactly when it was cancelled. */
  predicate MarksRight(s: System) {
    && (forall i :: 0 <= i < |s.queue| ==> (s.queue[i].removed <==> s.queue[i].serial in s.cancelled))
    && (forall c :: c in s.cancelled ==> c < s.issued)
  }

  /** Every callback got the reply to its own request, none that was cancelled ran,
      and every answered request that was not cancelled had its callback run. */
  predicate Paired(s: System) {
    && (forall d :: d in s.log ==> d.callback == d.reply && d.callback in s.answered && d.callback !in s.cancelled)
    && (forall a :: a in s.answered ==> a in s.cancelled || Delivery(a, a) in s.log)
    && (forall i, j :: 0 <= i < j < |s.log| ==> s.log[i].callback < s.log[j].callback)
  }

  predicate Inv(s: System) {
    HeadOnly(s.queue) && OneOutstanding(s) && InOrder(s) && MarksRight(s) && Paired(s)
  }

  lemma CallKeeps(s: System)
    requires Inv(s)
    ensures Inv(CallAsync(s))
  {
    hide Replies, NextCookie, Paired;
    var t := CallAsync(s);
    if s.queue != [] { assert t.queue[0] == s.queue[0]; }
    CallPaired(s);
  }

  lemma CallPaired(s: System)
    requires Paired(s)
    ensures Paired(CallAsync(s))
  {
    hide NextCookie;
  }

  /** Taking an unsent request out, or marking a sent one. */
  lemma CancelKeeps(s: System, cookie: nat)
    requires Inv(s)
    ensures Inv(CancelAsync(s, cookie))
  {
    hide HeadOnly, OneOutstanding, InOrder, MarksRight, Paired;
    var i, t := Find(s.queue, cookie), CancelAsync(s, cookie);
    if cookie != 0 && i < |s.queue| {
      assert CancelledAt(s, i, t);
      CancelOthers(s, i, t);
      CancelInOrder(s, i, t);
      CancelPaired(s, i, t);
    }
  }

  /** The queue after the cancellation holds the requests it held, in order. */
  predicate CancelledAt(s: System, i: nat, t: System) {
    && i < |s.queue| && t == s.(queue := t.queue, cancelled := s.cancelled + {s.queue[i].serial})
    && if s.queue[i].sent then t.queue == s.queue[i := s.queue[i].(removed := true)]
       else |t.queue| == |s.queue| - 1
            && forall k :: 0 <= k < |t.queue| ==> t.queue[k] == s.queue[if k < i then k else k + 1]
  }

  lemma CancelOthers(s: System, i: nat, t: System)
    requires Inv(s) && CancelledAt(s, i, t)
    ensures HeadOnly(t.queue) && OneOutstanding(t) && MarksRight(t)
  {
    hide Replies, Paired;
  }

  lemma CancelInOrder(s: System, i: nat, t: System)
    requires Inv(s) && CancelledAt(s, i, t)
    ensures InOrder(t)
  {
    hide Replies, Paired, OneOutstanding, MarksRight, HeadOnly;
  }

  lemma CancelPaired(s: System, i: nat, t: System)
    requires Inv(s) && CancelledAt(s, i, t)
    ensures Paired(t)
  {
    hide Replies, OneOutstanding, HeadOnly;
    assert s.queue[i].serial !in s.answered;
  }

  lemma WriteKeeps(s: System, accepted: bool)
    requires Inv(s)
    ensures Inv(WriteOne(s, accepted))
  {
    hide Replies;
  }

  lemma ReadKeeps(s: System)
    requires Inv(s)
    ensures Inv(ReadOne(s))
  {
    if !s.dead && s.toBus != [] {
      RepliesFirst(s.toBus);
      hide Replies, HeadOnly, InOrder, MarksRight, Paired;
      if s.toBus[0].Reply? {
        ReplyIsForHead(s);
        PopInOrder(s, ReadOne(s));
        PopPaired(s, ReadOne(s));
      } else {
        assert [] + Replies(s.toBus[1..]) == Replies(s.toBus[1..]);
        SameBus(s, ReadOne(s));
      }
    }
  }

  /** A reply can only be the one to the head, which is then no longer under way. */
  lemma ReplyIsForHead(s: System)
    requires Inv(s) && s.toBus != [] && s.toBus[0].Reply?
    ensures s.queue != [] && s.queue[0].sent && s.queue[0].serial == s.toBus[0].answers
    ensures Replies(s.toBus[1..]) + s.toPeer == []
  {
    RepliesFirst(s.toBus);
    hide Replies, InOrder, MarksRight, Paired;
    var rest := Replies(s.toBus[1..]) + s.toPeer;
    assert Replies(s.toBus) + s.toPeer == [s.toBus[0].answers] + rest;
    assert ([s.toBus[0].answers] + rest)[0] == s.toBus[0].answers;
  }

  /** The head was answered and left the queue. */
  predicate Popped(s: System, t: System) {
    && s.queue != [] && s.queue[0].sent
    && var a := s.queue[0].serial;
       t == s.(queue := s.queue[1..], toBus := t.toBus, answered := s.answered + [a],
               log := if s.queue[0].removed then s.log else s.log + [Delivery(a, a)])
  }

  lemma PopInOrder(s: System, t: System)
    requires Inv(s) && Popped(s, t)
    ensures HeadOnly(t.queue) && InOrder(t) && MarksRight(t)
  {
    hide Replies, OneOutstanding, Paired;
    forall i, j | 0 <= i < j < |t.answered|
      ensures t.answered[i] < t.answered[j]
    {
      assert s.answered[i] in s.answered;
    }
  }

  lemma PopPaired(s: System, t: System)
    requires Inv(s) && Popped(s, t)
    ensures Paired(t)
  {
    hide Replies, OneOutstanding, HeadOnly;
    var a := s.queue[0].serial;
    assert a !in s.answered;
    forall i, j | 0 <= i < j < |t.log|
      ensures t.log[i].callback < t.log[j].callback
    {
      if j == |s.log| { assert s.log[i] in s.log && s.log[i].callback in s.answered; }
    }
    forall x | x in t.answered
      ensures x in t.cancelled || Delivery(x, x) in t.log
    {
      if x in s.answered { assert x in s.cancelled || Delivery(x, x) in s.log; }
    }
  }

  lemma PeerKeeps(s: System, step: Step)
    requires Inv(s) && (step.PeerAnswers? || step.PeerNotifies? || step.Hup?)
    ensures Inv(Next(s, step))
  {
    hide Replies, HeadOnly, InOrder, MarksRight, Paired;
    var t := Next(s, step);
    assert OneOutstanding(t) by {
      RepliesMore(s.toBus, Event);
      if s.toPeer != [] {
        RepliesMore(s.toBus, Reply(s.toPeer[0]));
        assert Replies(s.toBus) + [s.toPeer[0]] + s.toPeer[1..] == Replies(s.toBus) + s.toPeer;
      }
      assert Replies(s.toBus) + [] == Replies(s.toBus);
    }
    SameBus(s, t);
  }

  lemma SameBus(s: System, t: System)
    requires HeadOnly(s.queue) && InOrder(s) && MarksRight(s) && Paired(s)
    requires t == s.(toPeer := t.toPeer, toBus := t.toBus, dead := t.dead)
    ensures HeadOnly(t.queue) && InOrder(t) && MarksRight(t) && Paired(t)
  {
  }

  /** In every run, with a peer that answers each request once and in order, only
      the head is ever marked sent, and each reply goes to the callback of the
      request it answers, or to none if that request was cancelled. */
  lemma {:induction false} RunPairs(steps: seq<Step>)
    ensures Inv(Run(steps))
  {
    if steps != [] {
      var n := |steps| - 1;
      RunPairs(steps[..n]);
      hide Inv, CallAsync, CancelAsync, WriteOne, ReadOne;
      var s := Run(steps[..n]);
      match steps[n]
      case Call => CallKeeps(s);
      case Cancel(cookie) => CancelKeeps(s, cookie);
      case Write(accepted) => WriteKeeps(s, accepted);
      case Read => ReadKeeps(s);
      case _ => PeerKeeps(s, steps[n]);
    } else {
      assert Replies([]) == [];
    }
  }

  // ---- the bus object --------------------------------------------------

  class Bus {
    var queue: seq<Request>
    var cookies: nat
    var dead: bool
    var issued: nat

    /** The peer and the history. */
    ghost var world: System

    ghost function View(): System
      reads this
    {
      world.(queue := queue, cookies := cookies, dead := dead, issued := issued)
    }

    constructor ()
      ensures View() == INITIAL
    {
      queue, cookies, dead, issued, world := [], 0, false, 0, INITIAL;
    }

    method Call() returns (cookie: nat)
      modifies this
      ensures View() == CallAsync(old(View())) && cookie == cookies != 0
    {
      cookies := (cookies + 1) % COOKIE_LIMIT;
      if cookies == 0 {
        cookies := 1;
      }
      cookie := cookies;
      queue := queue + [Request(issued, cookie, false, false)];
      issued := issued + 1;
    }

    method Cancel(cookie: nat)
      modifies this
      ensures View() == CancelAsync(old(View()), cookie)
    {
      if cookie == 0 {
        return;
      }
      var i := 0;
      while i < |queue| && queue[i].cookie != cookie
        invariant 0 <= i <= |queue| && View() == old(View())
        invariant Find(queue, cookie) == i + Find(queue[i..], cookie)
      {
        assert queue[i..][1..] == queue[i + 1..];
        i := i + 1;
      }
      if i < |queue| {
        assert queue[i..][0] == queue[i];
        world := world.(cancelled := world.cancelled + {queue[i].serial});
        if queue[i].sent {
          queue := queue[i := queue[i].(removed := true)];
        } else {
          queue := queue[..i] + queue[i + 1..];
        }
      }
    }

    method WriteMessage(accepted: bool)
      modifies this
      ensures View() == WriteOne(old(View()), accepted)
    {
      if dead || queue == [] || queue[0].sent {
        return;
      }
      if accepted {
        world := world.(toPeer := world.toPeer + [queue[0].serial]);
        queue := queue[0 := queue[0].(sent := true)];
      }
    }

    /** Reads the packet that is next on the socket. */
    method ReadMessage(packet: Packet)
      requires world.toBus != [] && packet == world.toBus[0] && !dead
      modifies this
      ensures View() == ReadOne(old(View()))
    {
      world := world.(toBus := world.toBus[1..]);
      if packet.Reply? {
        world := world.(answered := world.answered + [packet.answers]);
        if queue == [] || !queue[0].sent {
          return;
        }
        var m := queue[0];
        queue := queue[1..];
        if !m.removed {
          world := world.(log := world.log + [Delivery(m.serial, packet.answers)]);
        }
      }
    }
  }
}
