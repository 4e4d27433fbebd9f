/**
 What users of the control bus (src/shared/wpas.c) may rely on, stated over the steps
 of a run: which callbacks run, what a cancellation does and to whom, and that every
 request is answered in the end.
 */
module WpasRuns {
  import opened WpasPairing

  // ---- what the steps say ----------------------------------------------

  /** The request at position `p` is the first one with this cookie. */
  predicate FirstWith(queue: seq<Request>, cookie: nat, p: nat) {
    && p < |queue| && queue[p].cookie == cookie
    && forall j :: 0 <= j < p ==> queue[j].cookie != cookie
  }

  /** Cancelling with this cookie means request `k`. */
  ghost predicate Names(queue: seq<Request>, cookie: nat, k: nat) {
    cookie != 0 && exists p: nat :: FirstWith(queue, cookie, p) && queue[p].serial == k
  }

  /** Step `j` of the run cancels request `k`. */
  ghost predicate CancelsAt(steps: seq<Step>, j: int, k: nat) {
    0 <= j < |steps| && steps[j].Cancel? && Names(Run(steps[..j]).queue, steps[j].cookie, k)
  }

  /** Step `i` of the run reads the reply to request `k`. */
  ghost predicate ReadsAt(steps: seq<Step>, i: int, k: nat) {
    && 0 <= i < |steps| && steps[i] == Read
    && var s := Run(steps[..i]); !s.dead && s.toBus != [] && s.toBus[0] == Reply(k)
  }

  ghost predicate Cancelled(steps: seq<Step>, k: nat) {
    exists j :: CancelsAt(steps, j, k)
  }

  ghost predicate ReplyRead(steps: seq<Step>, k: nat) {
    exists i :: ReadsAt(steps, i, k)
  }

  // ---- one step --------------------------------------------------------

  lemma CancelledNext(s: System, step: Step, k: nat)
    ensures k in Next(s, step).cancelled <==>
      k in s.cancelled || (step.Cancel? && Names(s.queue, step.cookie, k))
  {
    hide WriteOne, ReadOne, CallAsync;
    match step
    case Cancel(cookie) =>
      var i := Find(s.queue, cookie);
      if i < |s.queue| {
        assert FirstWith(s.queue, cookie, i);
      }
    case Write(accepted) => SameCancelled(s, accepted);
    case Read => SameCancelled(s, true);
    case Call => SameCancelled(s, true);
    case Hup =>
    case PeerAnswers =>
    case PeerNotifies =>
  }

  lemma SameCancelled(s: System, accepted: bool)
    ensures WriteOne(s, accepted).cancelled == ReadOne(s).cancelled == CallAsync(s).cancelled == s.cancelled
  {
  }

  lemma SameAnswered(s: System, accepted: bool, cookie: nat)
    ensures WriteOne(s, accepted).answered == CallAsync(s).answered == CancelAsync(s, cookie).answered == s.answered
  {
  }

  lemma AnsweredNext(s: System, step: Step, k: nat)
    ensures k in Next(s, step).answered <==>
      k in s.answered || (step == Read && !s.dead && s.toBus != [] && s.toBus[0] == Reply(k))
  {
    hide WriteOne, CallAsync, CancelAsync;
    match step
    case Cancel(cookie) => SameAnswered(s, true, cookie);
    case Write(accepted) => SameAnswered(s, accepted, 0);
    case Read =>
    case Call => SameAnswered(s, true, 0);
    case Hup =>
    case PeerAnswers =>
    case PeerNotifies =>
  }

  // ---- whole runs ------------------------------------------------------

  lemma Prefixes(steps: seq<Step>, j: int)
    requires steps != [] && 0 <= j < |steps|
    ensures j < |steps| - 1 ==> steps[..|steps| - 1][..j] == steps[..j] && steps[..|steps| - 1][j] == steps[j]
    ensures j == |steps| - 1 ==> steps[..j] == steps[..|steps| - 1]
  {
  }

  lemma {:induction false} CancelledBySteps(steps: seq<Step>, k: nat)
    ensures k in Run(steps).cancelled <==> Cancelled(steps, k)
  {
    if steps != [] {
      var n := |steps| - 1;
      var before := steps[..n];
      CancelledBySteps(before, k);
      CancelledNext(Run(before), steps[n], k);
      hide Next, Names, Run;
      RunLast(steps);
      forall j | 0 <= j < |steps|
        ensures j < n ==> (CancelsAt(steps, j, k) <==> CancelsAt(before, j, k))
        ensures j == n ==> (CancelsAt(steps, j, k) <==>
          steps[n].Cancel? && Names(Run(before).queue, steps[n].cookie, k))
      {
        Prefixes(steps, j);
      }
      assert CancelsAt(steps, n, k) || !CancelsAt(steps, n, k);
    }
  }

  lemma RunLast(steps: seq<Step>)
    requires steps != []
    ensures Run(steps) == Next(Run(steps[..|steps| - 1]), steps[|steps| - 1])
  {
  }

  lemma {:induction false} AnsweredBySteps(steps: seq<Step>, k: nat)
    ensures k in Run(steps).answered <==> ReplyRead(steps, k)
  {
    if steps != [] {
      var n := |steps| - 1;
      var before := steps[..n];
      AnsweredBySteps(before, k);
      AnsweredNext(Run(before), steps[n], k);
      hide Next, Run;
      RunLast(steps);
      forall j | 0 <= j < |steps|
        ensures j < n ==> (ReadsAt(steps, j, k) <==> ReadsAt(before, j, k))
        ensures j == n ==> (ReadsAt(steps, j, k) <==>
          steps[n] == Read && !Run(before).dead && Run(before).toBus != [] && Run(before).toBus[0] == Reply(k))
      {
        Prefixes(steps, j);
      }
      assert ReadsAt(steps, n, k) || !ReadsAt(steps, n, k);
    }
  }

  /**
   In every run, the callback of a request has run exactly if the reply to that request
   was read and no step cancelled the request; and it has run once, with that reply.
   */
  lemma DeliveredExactly(steps: seq<Step>, k: nat)
    ensures Delivery(k, k) in Run(steps).log <==> ReplyRead(steps, k) && !Cancelled(steps, k)
    ensures forall d :: d in Run(steps).log && (d.callback == k || d.reply == k) ==> d == Delivery(k, k)
    ensures forall i, j :: 0 <= i < j < |Run(steps).log| ==> Run(steps).log[i].callback < Run(steps).log[j].callback
  {
    RunPairs(steps);
    CancelledBySteps(steps, k);
    AnsweredBySteps(steps, k);
    hide Run, Replies, HeadOnly, OneOutstanding, InOrder, MarksRight;
  }

  // ---- cancelling ------------------------------------------------------

  /** The queue without request `k`. */
  function Others(queue: seq<Request>, k: nat): seq<Request> {
    if queue == [] then []
    else
      var n := |queue| - 1;
      Others(queue[..n], k) + if queue[n].serial == k then [] else [queue[n]]
  }

  lemma {:induction false} OthersConcat(a: seq<Request>, b: seq<Request>, k: nat)
    ensures Others(a + b, k) == Others(a, k) + Others(b, k)
  {
    if b == [] {
      assert a + b == a && Others(a, k) + [] == Others(a, k);
    } else {
      var n := |b| - 1;
      assert (a + b)[..|a + b| - 1] == a + b[..n];
      OthersConcat(a, b[..n], k);
    }
  }

  lemma OthersOne(r: Request)
    ensures Others([r], r.serial) == []
  {
    assert [r][..0] == [];
  }

  /** The named request out of the queue, or marked in it. */
  lemma OthersKept(queue: seq<Request>, i: nat)
    requires i < |queue|
    ensures var k := queue[i].serial;
      && Others(queue[..i] + queue[i + 1..], k) == Others(queue, k)
      && Others(queue[i := queue[i].(removed := true)], k) == Others(queue, k)
  {
    hide Others;
    var r, a, b := queue[i], queue[..i], queue[i + 1..];
    OthersOne(r);
    OthersOne(r.(removed := true));
    OthersAround(a, [r], b, r.serial);
    OthersAround(a, [r.(removed := true)], b, r.serial);
    OthersConcat(a, b, r.serial);
    assert queue == a + [r] + b;
    assert queue[i := r.(removed := true)] == a + [r.(removed := true)] + b;
  }

  lemma NamesFirst(queue: seq<Request>, cookie: nat, k: nat)
    ensures Names(queue, cookie, k)
      <==> cookie != 0 && Find(queue, cookie) < |queue| && queue[Find(queue, cookie)].serial == k
  {
    var i := Find(queue, cookie);
    if i < |queue| {
      assert FirstWith(queue, cookie, i);
    }
  }

  /** Whatever is under way, a cancellation takes request `k` out of the hands of its
      callback: it is no longer queued, or it is at the head, under way and marked.
      Nobody else's request moves. */
  lemma CancelExact(s: System, cookie: nat, k: nat)
    requires Inv(s) && Names(s.queue, cookie, k)
    ensures var t := CancelAsync(s, cookie);
      && Others(t.queue, k) == Others(s.queue, k)
      && (forall i :: 0 <= i < |t.queue| && t.queue[i].serial == k ==> i == 0 && t.queue[i].removed)
      && (s.queue[0].sent && s.queue[0].serial == k <==> t.queue != [] && t.queue[0].serial == k)
  {
    hide Others, Names, OneOutstanding, MarksRight, Paired, Find;
    NamesFirst(s.queue, cookie, k);
    OthersKept(s.queue, Find(s.queue, cookie));
  }

  /** A cancellation changes nothing else, and nothing at all if it names no request. */
  lemma CancelOnly(s: System, cookie: nat)
    ensures var t := CancelAsync(s, cookie);
      && (t.log, t.toPeer, t.toBus, t.dead, t.cookies, t.issued)
         == (s.log, s.toPeer, s.toBus, s.dead, s.cookies, s.issued)
      && ((forall x :: !Names(s.queue, cookie, x)) ==> t == s)
  {
    hide Names;
    var i := Find(s.queue, cookie);
    if i < |s.queue| {
      NamesFirst(s.queue, cookie, s.queue[i].serial);
    }
  }

  lemma OthersAround(a: seq<Request>, m: seq<Request>, b: seq<Request>, k: nat)
    requires Others(m, k) == []
    ensures Others(a + m + b, k) == Others(a, k) + Others(b, k)
  {
    OthersConcat(a, m, k);
    OthersConcat(a + m, b, k);
    assert Others(a, k) + [] == Others(a, k);
  }

  /** After the step that cancels a request its callback never runs, however the run
      goes on. */
  lemma CancelledStaysSilent(steps: seq<Step>, j: nat, k: nat)
    requires CancelsAt(steps, j, k)
    ensures forall d :: d in Run(steps).log ==> d.callback != k
  {
    hide Run, CancelsAt, ReplyRead;
    assert Cancelled(steps, k);
    DeliveredExactly(steps, k);
  }

  // ---- calling ---------------------------------------------------------

  /** How many requests a run issues. */
  function Calls(steps: seq<Step>): nat {
    if steps == [] then 0
    else Calls(steps[..|steps| - 1]) + if steps[|steps| - 1] == Call then 1 else 0
  }

  /** The cookie of the request with number `k`, from the numbers other than zero. */
  function CookieOf(k: nat): nat {
    k % (COOKIE_LIMIT - 1) + 1
  }

  lemma CookieMore(k: nat)
    ensures NextCookie(CookieOf(k)) == CookieOf(k + 1) && NextCookie(0) == CookieOf(0)
  {
  }

  ghost predicate Cookies(s: System) {
    && s.cookies == (if s.issued == 0 then 0 else CookieOf(s.issued - 1))
    && forall i :: 0 <= i < |s.queue| ==> s.queue[i].cookie == CookieOf(s.queue[i].serial)
  }

  lemma CookiesNext(s: System, step: Step)
    requires Cookies(s)
    ensures Cookies(Next(s, step)) && Next(s, step).issued == s.issued + if step == Call then 1 else 0
  {
    hide CookieOf, NextCookie;
    match step
    case Call =>
      if s.issued > 0 {
        CookieMore(s.issued - 1);
      } else {
        CookieMore(0);
      }
    case Cancel(cookie) =>
    case Write(accepted) =>
    case Read =>
    case Hup =>
    case PeerAnswers =>
    case PeerNotifies =>
  }

  /** Requests are numbered in the order of the calls, and the cookies go with the
      numbers. */
  lemma {:induction false} RunCookies(steps: seq<Step>)
    ensures Cookies(Run(steps)) && Run(steps).issued == Calls(steps)
  {
    if steps != [] {
      var n := |steps| - 1;
      RunCookies(steps[..n]);
      CookiesNext(Run(steps[..n]), steps[n]);
      hide Cookies, Next;
      RunLast(steps);
    }
  }

  /** A call puts its request behind all others, unsent, and changes nothing else. */
  lemma CallExact(steps: seq<Step>)
    ensures var s, t := Run(steps), Run(steps + [Call]);
      && t.queue == s.queue + [Request(Calls(steps), CookieOf(Calls(steps)), false, false)]
      && (t.log, t.toPeer, t.toBus, t.dead) == (s.log, s.toPeer, s.toBus, s.dead)
  {
    hide Run, CookieOf;
    RunMore(steps, Call);
    RunCookies(steps);
    RunCookies(steps + [Call]);
    var t := Run(steps + [Call]);
    assert t.queue[|t.queue| - 1].serial == Calls(steps);
  }

  lemma RunMore(steps: seq<Step>, step: Step)
    ensures Run(steps + [step]) == Next(Run(steps), step)
  {
    assert (steps + [step])[..|steps|] == steps;
  }

  /** The cookie that a call returned stands for that request exactly as long as no
      older queued request has a number that agrees with its own modulo 2^64 - 1. */
  lemma CookieStandsFor(steps: seq<Step>, p: nat)
    requires p < |Run(steps).queue|
    ensures var q := Run(steps).queue;
      Names(q, CookieOf(q[p].serial), q[p].serial)
      <==> forall j :: 0 <= j < p ==> q[j].serial % (COOKIE_LIMIT - 1) != q[p].serial % (COOKIE_LIMIT - 1)
  {
    hide Run, Inv;
    RunCookies(steps);
    var q := Run(steps).queue;
    forall j | 0 <= j < p
      ensures q[j].cookie == q[p].cookie <==> q[j].serial % (COOKIE_LIMIT - 1) == q[p].serial % (COOKIE_LIMIT - 1)
    {
    }
    hide CookieOf;
    if Names(q, CookieOf(q[p].serial), q[p].serial) {
      var i: nat :| FirstWith(q, CookieOf(q[p].serial), i) && q[i].serial == q[p].serial;
      SerialsDiffer(steps, i, p);
    } else {
      assert !FirstWith(q, CookieOf(q[p].serial), p) by { CookieNotZero(q[p].serial); }
    }
  }

  lemma CookieNotZero(k: nat)
    ensures CookieOf(k) != 0
  {
  }

  lemma SerialsDiffer(steps: seq<Step>, i: nat, j: nat)
    requires i < |Run(steps).queue| && j < |Run(steps).queue|
    ensures Run(steps).queue[i].serial == Run(steps).queue[j].serial ==> i == j
  {
    hide Run, Replies;
    RunPairs(steps);
  }

  // ---- sending and answering -------------------------------------------

  /** Nothing is under way. */
  predicate Idle(s: System) {
    s.toPeer == [] && Replies(s.toBus) == []
  }

  /** A write sends the oldest request as soon as nothing is under way, and never
      otherwise. */
  lemma WriteExact(s: System, accepted: bool)
    requires Inv(s)
    ensures var t := WriteOne(s, accepted);
      && t.toPeer == s.toPeer + (if !s.dead && accepted && s.queue != [] && Idle(s) then [s.queue[0].serial] else [])
      && |t.queue| == |s.queue|
      && (forall i :: 0 <= i < |s.queue| ==> t.queue[i] == s.queue[i].(sent := t.queue[i].sent))
      && (t.log, t.toBus, t.dead, t.issued) == (s.log, s.toBus, s.dead, s.issued)
  {
    hide Replies, InOrder, MarksRight, Paired;
    assert Idle(s) <==> Replies(s.toBus) + s.toPeer == [];
    assert s.toPeer + [] == s.toPeer;
  }

  /** The callbacks due: one for each queued request that is not cancelled, in order. */
  function Due(queue: seq<Request>): seq<Delivery> {
    if queue == [] then []
    else (if queue[0].removed then [] else [Delivery(queue[0].serial, queue[0].serial)]) + Due(queue[1..])
  }

  /** Steps in which the users of the bus do nothing and the peer hangs up never. */
  predicate Quiet(steps: seq<Step>) {
    forall i :: 0 <= i < |steps| ==> steps[i] in {Write(true), Read, PeerAnswers}
  }

  lemma ReadHead(s: System)
    requires Inv(s) && !s.dead && s.toBus != [] && s.toBus[0].Reply?
    ensures var t := ReadOne(s);
      && s.queue != [] && t.queue == s.queue[1..] && t.log + Due(t.queue) == s.log + Due(s.queue)
      && t.toBus == s.toBus[1..] && !t.dead
  {
    ReplyIsForHead(s);
    hide Replies, HeadOnly, OneOutstanding, InOrder, MarksRight, Paired;
    var t := ReadOne(s);
    var a := s.queue[0].serial;
    if s.queue[0].removed {
      assert Due(s.queue) == Due(t.queue);
    } else {
      assert s.log + [Delivery(a, a)] + Due(t.queue) == s.log + ([Delivery(a, a)] + Due(t.queue));
    }
  }

  lemma SkipEvent(s: System)
    requires !s.dead && s.toBus != [] && s.toBus[0] == Event
    ensures ReadOne(s) == s.(toBus := s.toBus[1..]) && Replies(s.toBus[1..]) == Replies(s.toBus)
  {
    RepliesFirst(s.toBus);
    hide Replies;
    assert [] + Replies(s.toBus[1..]) == Replies(s.toBus[1..]);
  }

  /** Reading on, the reply to the head is reached. */
  lemma {:induction false} ReadOn(steps: seq<Step>) returns (more: seq<Step>)
    requires var s := Run(steps); !s.dead && Replies(s.toBus) != []
    ensures Quiet(more)
    ensures var s, t := Run(steps), Run(steps + more);
      !t.dead && s.queue != [] && t.queue == s.queue[1..] && t.log + Due(t.queue) == s.log + Due(s.queue)
    decreases |Run(steps).toBus|
  {
    hide Run, Inv, Replies, ReadOne, Due, WriteOne, CallAsync, CancelAsync;
    var s := Run(steps);
    RepliesNone(s.toBus);
    RunPairs(steps);
    RunMore(steps, Read);
    if s.toBus[0].Reply? {
      ReadHead(s);
      more := [Read];
    } else {
      SkipEvent(s);
      var rest := ReadOn(steps + [Read]);
      more := [Read] + rest;
      assert steps + [Read] + rest == steps + more;
    }
  }

  lemma RepliesNone(packets: seq<Packet>)
    requires Replies(packets) != []
    ensures packets != []
  {
  }

  /** The head is sent, unless it is under way, and then the peer answers, unless it has. */
  lemma ReachReply(steps: seq<Step>) returns (more: seq<Step>)
    requires var s := Run(steps); !s.dead && s.queue != []
    ensures Quiet(more)
    ensures var s, t := Run(steps), Run(steps + more);
      !t.dead && Replies(t.toBus) != [] && |t.queue| == |s.queue| && t.log == s.log && Due(t.queue) == Due(s.queue)
  {
    hide Run, Inv, Replies, WriteOne, ReadOne, CallAsync, CancelAsync, Due;
    RunPairs(steps);
    RunMore(steps, Write(true));
    RunMore(steps + [Write(true)], PeerAnswers);
    more := [Write(true), PeerAnswers];
    assert steps + more == steps + [Write(true)] + [PeerAnswers];
    HeadUnderWay(Run(steps));
    PeerReplies(Run(steps + [Write(true)]));
  }

  lemma PeerReplies(u: System)
    requires Replies(u.toBus) + u.toPeer != []
    ensures var t := Next(u, PeerAnswers);
      Replies(t.toBus) != [] && t == u.(toPeer := t.toPeer, toBus := t.toBus)
  {
    hide Replies;
    if u.toPeer != [] {
      RepliesMore(u.toBus, Reply(u.toPeer[0]));
    }
  }

  lemma HeadUnderWay(s: System)
    requires Inv(s) && !s.dead && s.queue != []
    ensures var u := WriteOne(s, true);
      && Replies(u.toBus) + u.toPeer != [] && !u.dead
      && |u.queue| == |s.queue| && u.log == s.log && Due(u.queue) == Due(s.queue)
  {
    hide Replies, InOrder, MarksRight, Paired;
    var u := WriteOne(s, true);
    assert u.queue[1..] == s.queue[1..];
  }

  lemma QuietStep(s: System, step: Step)
    requires Inv(s) && !s.dead && step in {Write(true), Read, PeerAnswers}
    ensures var t := Next(s, step); !t.dead && t.log + Due(t.queue) == s.log + Due(s.queue)
  {
    hide Inv, Replies, ReadOne, WriteOne, Due;
    match step
    case Write(accepted) =>
      if s.queue == [] { EmptyWrite(s); } else { HeadUnderWay(s); }
    case Read =>
      if s.toBus == [] { EmptyRead(s); }
      else if s.toBus[0].Reply? { ReadHead(s); }
      else { SkipEvent(s); }
    case PeerAnswers =>
    case Call =>
    case Cancel(cookie) =>
    case Hup =>
    case PeerNotifies =>
  }

  lemma EmptyWrite(s: System)
    ensures s.queue == [] ==> WriteOne(s, true) == s
  {
  }

  lemma EmptyRead(s: System)
    ensures s.toBus == [] ==> ReadOne(s) == s
  {
  }

  /** Conservation: sending, answering and reading only turn callbacks that are due into
      callbacks that have run. */
  lemma {:induction false} QuietConserves(steps: seq<Step>, more: seq<Step>)
    requires !Run(steps).dead && Quiet(more)
    ensures var s, t := Run(steps), Run(steps + more);
      !t.dead && t.log + Due(t.queue) == s.log + Due(s.queue)
  {
    hide Run, Inv, Next, Due;
    if more == [] {
      assert steps + more == steps;
    } else {
      var n := |more| - 1;
      QuietConserves(steps, more[..n]);
      assert steps + more == steps + more[..n] + [more[n]];
      RunMore(steps + more[..n], more[n]);
      RunPairs(steps + more[..n]);
      QuietStep(Run(steps + more[..n]), more[n]);
    }
  }

  /**
   Progress: as long as the bus is alive, with a peer that answers, every run can go on
   so that the queue is empty and exactly the requests that were queued and not cancelled
   have been called back, in their order.
   */
  lemma {:induction false} Drained(steps: seq<Step>) returns (more: seq<Step>)
    requires !Run(steps).dead
    ensures Quiet(more)
    ensures Run(steps + more).queue == [] && Run(steps + more).log == Run(steps).log + Due(Run(steps).queue)
    decreases |Run(steps).queue|
  {
    hide Run;
    var s := Run(steps);
    if s.queue == [] {
      more := [];
      assert steps + more == steps && s.log + [] == s.log;
    } else {
      var a := ReachReply(steps);
      hide Due;
      var b := ReadOn(steps + a);
      var c := Drained(steps + a + b);
      more := a + b + c;
      assert steps + more == steps + a + b + c;
    }
  }
}
