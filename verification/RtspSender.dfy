/**
 The sending side of the RTSP bus (src/shared/rtsp.c): a queue of sealed messages
 written to a stream socket that may take any part of what it is offered.
 */
module RtspSender {
  import opened RtspAutomaton
  import opened RtspFraming

  datatype Item = Item(msg: Outgoing, hasCallback: bool, waiting: bool, sending: bool, sent: nat)

  /** What `send` answers. */
  datatype SendResult = Again | Error | Took(n: nat)

  /** The queue, and with it what the socket took so far and the messages that
      left the queue by being sent. */
  datatype Line = Line(queue: seq<Item>, done: seq<Outgoing>, wire: seq<char>)

  datatype Event = Call(m: Outgoing, hasCallback: bool) | Drop(i: nat) | Write(res: SendResult)

  // ---- one event -------------------------------------------------------

  /** `rtsp_call_async` on a sealed message: waiting, and last in the queue. */
  function Link(s: Line, m: Outgoing, hasCallback: bool): Line {
    s.(queue := s.queue + [Item(m, hasCallback, true, false, 0)])
  }

  /** `rtsp_drop_message`, as a timeout, a reply or a cancellation causes it: a
      message of which a part may be sent only stops waiting. */
  function Dropped(s: Line, i: nat): Line {
    if i >= |s.queue| then s
    else if s.queue[i].sending then s.(queue := s.queue[i := s.queue[i].(waiting := false)])
    else s.(queue := s.queue[..i] + s.queue[i + 1..])
  }

  /** `rtsp_write_message` on the first message. When all of it is sent and nobody
      listens for an answer, the first write only ends the waiting; the message
      leaves the queue with the next one. */
  function Written(s: Line, res: SendResult): Line {
    if s.queue == [] then s
    else
      var m, raw := s.queue[0].(sending := true), Raw(s.queue[0].msg);
      if !res.Took? || m.sent > |raw| then s.(queue := [m] + s.queue[1..])
      else
        var n := if res.n > |raw| - m.sent then |raw| - m.sent else res.n;
        var wire, m' := s.wire + raw[m.sent..m.sent + n], m.(sent := m.sent + n);
        if m'.sent < |raw| then Line([m'] + s.queue[1..], s.done, wire)
        else if !m'.hasCallback && m'.waiting then
          Line([m'.(waiting := false)] + s.queue[1..], s.done, wire)
        else Line(s.queue[1..], s.done + [m'.msg], wire)
  }

  function Next(s: Line, e: Event): Line {
    match e
    case Call(m, hasCallback) => Link(s, m, hasCallback)
    case Drop(i) => Dropped(s, i)
    case Write(res) => Written(s, res)
  }

  // ---- what every event keeps ------------------------------------------

  /** The part of the first queued message that was sent. */
  function Partial(queue: seq<Item>): seq<char> {
    if queue == [] || queue[0].sent > |Raw(queue[0].msg)| then []
    else Raw(queue[0].msg)[..queue[0].sent]
  }

  /** Only the first message is under way. */
  predicate FirstOnly(queue: seq<Item>) {
    && (queue != [] ==> queue[0].sent <= |Raw(queue[0].msg)| && (queue[0].sending || queue[0].sent == 0))
    && forall i :: 1 <= i < |queue| ==> queue[i].sent == 0 && !queue[i].sending
  }

  /** On the wire are whole messages and a part of the first one queued. */
  ghost predicate Inv(s: Line) {
    FirstOnly(s.queue) && s.wire == RawAll(s.done) + Partial(s.queue)
  }

  /** The messages sent and still to be sent, in order. */
  function Live(s: Line): seq<Outgoing> {
    s.done + Messages(s.queue)
  }

  function Messages(items: seq<Item>): (r: seq<Outgoing>)
    ensures |r| == |items|
    ensures forall i :: 0 <= i < |items| ==> r[i] == items[i].msg
  {
    seq(|items|, i requires 0 <= i < |items| => items[i].msg)
  }

  lemma LinkKeeps(s: Line, m: Outgoing, hasCallback: bool)
    requires Inv(s)
    ensures Inv(Link(s, m, hasCallback)) && Live(Link(s, m, hasCallback)) == Live(s) + [m]
  {
    hide RawAll, Raw;
    var t := Link(s, m, hasCallback);
    if s.queue == [] {
      assert Partial(s.queue) == [] == Partial(t.queue);
    } else {
      assert t.queue[0] == s.queue[0];
    }
  }

  lemma DroppedKeeps(s: Line, i: nat)
    requires Inv(s)
    ensures Inv(Dropped(s, i))
  {
    hide RawAll, Raw;
    var t := Dropped(s, i);
    if i == 0 && s.queue != [] && !s.queue[0].sending {
      assert Partial(s.queue) == [] == Partial(t.queue);
    }
  }

  /** A message leaves the queue unsent only before any part of it is offered. */
  lemma DroppedLive(s: Line, i: nat)
    ensures Live(Dropped(s, i)) ==
      if i < |s.queue| && !s.queue[i].sending
      then Live(s)[..|s.done| + i] + Live(s)[|s.done| + i + 1..]
      else Live(s)
  {
    hide RawAll, Raw;
  }

  lemma WrittenKeeps(s: Line, res: SendResult)
    requires Inv(s)
    ensures Inv(Written(s, res)) && s.wire <= Written(s, res).wire
  {
    hide RawAll, Raw;
    var t := Written(s, res);
    if s.queue != [] && res.Took? {
      var m, raw := s.queue[0], Raw(s.queue[0].msg);
      var n := if res.n > |raw| - m.sent then |raw| - m.sent else res.n;
      assert raw[..m.sent] + raw[m.sent..m.sent + n] == raw[..m.sent + n];
      assert t.wire == RawAll(s.done) + raw[..m.sent + n];
      if |t.done| == |s.done| + 1 {
        RawAllMore(s.done, m.msg);
        assert raw[..m.sent + n] == raw;
        assert Partial(t.queue) == [];
      }
    }
  }

  /** Writing neither loses nor reorders a message. */
  lemma WrittenLive(s: Line, res: SendResult)
    ensures Live(Written(s, res)) == Live(s)
  {
    hide RawAll, Raw, Messages;
    var t := Written(s, res);
    if s.queue != [] {
      FirstMessage(s.done, s.queue);
      if t.queue != s.queue[1..] || t.done == s.done {
        FirstMessage(t.done, t.queue);
      }
    }
  }

  lemma FirstMessage(done: seq<Outgoing>, queue: seq<Item>)
    requires queue != []
    ensures done + Messages(queue) == (done + [queue[0].msg]) + Messages(queue[1..])
  {
  }

  lemma RawAllMore(ms: seq<Outgoing>, m: Outgoing)
    ensures RawAll(ms + [m]) == RawAll(ms) + Raw(m)
  {
    assert (ms + [m])[..|ms|] == ms;
  }

  // ---- whole runs ------------------------------------------------------

  const IDLE := Line([], [], [])

  function Run(events: seq<Event>): Line {
    if events == [] then IDLE else Next(Run(events[..|events| - 1]), events[|events| - 1])
  }

  /** In every run the wire holds whole messages in queue order, then a part of the
      first one queued. */
  lemma {:induction false} RunKeeps(events: seq<Event>)
    ensures Inv(Run(events))
  {
    if events != [] {
      hide Inv, Link, Dropped, Written;
      var n := |events| - 1;
      var s, e := Run(events[..n]), events[n];
      RunKeeps(events[..n]);
      match e
      case Call(m, hasCallback) => LinkKeeps(s, m, hasCallback);
      case Drop(i) => DroppedKeeps(s, i);
      case Write(res) => WrittenKeeps(s, res);
    }
  }

  /** Nothing is sent that was not handed over. */
  lemma {:induction false} RunSendsCalls(events: seq<Event>, m: Outgoing)
    requires m in Live(Run(events))
    ensures exists e :: e in events && e.Call? && e.m == m
  {
    if events != [] {
      hide Inv, Link, Dropped, Written, Live;
      var n := |events| - 1;
      var s, e := Run(events[..n]), events[n];
      RunKeeps(events[..n]);
      match e {
        case Call(x, hasCallback) => LinkKeeps(s, x, hasCallback);
        case Drop(i) => DroppedLive(s, i);
        case Write(res) => WrittenLive(s, res);
      }
      if m in Live(s) {
        RunSendsCalls(events[..n], m);
      } else {
        assert e.Call? && e.m == m;
      }
    }
  }

  /** Whether the sent part of the first queued message is enough to deliver it. */
  function HeadDelivered(queue: seq<Item>): seq<Message> {
    if queue != [] && queue[0].sent >= DeliveredAt(queue[0].msg) then [Received(queue[0].msg)] else []
  }

  lemma RunSendable(events: seq<Event>, m: Outgoing)
    requires forall e :: e in events && e.Call? ==> Sendable(e.m)
    requires m in Live(Run(events))
    ensures Sendable(m)
  {
    RunSendsCalls(events, m);
  }

  /**
   What the receiver makes of the wire of any run: exactly the messages sent, in
   order, and the first queued one exactly if enough of it is sent. With nothing of
   it sent the receiver is between messages.
   */
  lemma EndToEnd(events: seq<Event>)
    requires forall e :: e in events && e.Call? ==> Sendable(e.m)
    ensures var s := Run(events);
      var q := Feed(INITIAL, s.wire);
      && q.Parser? && q.out == ReceivedAll(s.done) + HeadDelivered(s.queue)
      && (Partial(s.queue) == [] ==> Idle(q))
  {
    hide Feed, RawAll, Raw, Sendable, Received, DeliveredAt, Run;
    var s := Run(events);
    RunKeeps(events);
    forall m | m in s.done
      ensures Sendable(m)
    {
      assert m in Live(s);
      RunSendable(events, m);
    }
    StreamDelivered(INITIAL, s.done);
    assert [] + ReceivedAll(s.done) == ReceivedAll(s.done);
    var p := Feed(INITIAL, RawAll(s.done));
    FeedConcat(INITIAL, RawAll(s.done), Partial(s.queue));
    FeedMore(p, [], 'x');
    if s.queue != [] {
      var m := s.queue[0].msg;
      assert Messages(s.queue)[0] == m && m in Live(s);
      RunSendable(events, m);
      PartDelivered(p, m, s.queue[0].sent);
    }
  }

  // ---- progress --------------------------------------------------------

  /** The writes, one after the other. */
  function WriteAll(s: Line, results: seq<SendResult>): Line {
    if results == [] then s
    else Written(WriteAll(s, results[..|results| - 1]), results[|results| - 1])
  }

  /** How many writes a message may still need: one a byte, one to leave the queue, and
      one to stop waiting if nobody listens for an answer. */
  function Needs(m: Item): int {
    |Raw(m.msg)| - m.sent + 1 + if m.waiting && !m.hasCallback then 1 else 0
  }

  function Left(queue: seq<Item>): int {
    if queue == [] then 0 else Needs(queue[0]) + Left(queue[1..])
  }

  lemma {:induction false} LeftSize(queue: seq<Item>)
    requires forall i :: 0 <= i < |queue| ==> queue[i].sent <= |Raw(queue[i].msg)|
    ensures Left(queue) >= |queue|
  {
    if queue != [] {
      LeftSize(queue[1..]);
    }
  }

  /** Every write that takes something comes closer to the end. */
  lemma WriteAdvances(s: Line, n: nat)
    requires Inv(s) && s.queue != [] && n > 0
    ensures Left(Written(s, Took(n)).queue) < Left(s.queue)
  {
    hide RawAll, Raw;
    var t := Written(s, Took(n));
    if |t.queue| == |s.queue| {
      assert t.queue[1..] == s.queue[1..];
    }
  }

  lemma SentBounded(s: Line)
    requires Inv(s)
    ensures Left(s.queue) >= |s.queue|
  {
    hide RawAll, Raw;
    LeftSize(s.queue);
  }

  lemma {:induction false} WritesAdvance(s: Line, results: seq<SendResult>)
    requires Inv(s) && forall i :: 0 <= i < |results| ==> results[i].Took? && results[i].n > 0
    ensures var t := WriteAll(s, results);
      Inv(t) && Live(t) == Live(s) && (t.queue == [] || Left(t.queue) <= Left(s.queue) - |results|)
  {
    hide Inv, Live, Written, Left;
    if results != [] {
      var n := |results| - 1;
      WritesAdvance(s, results[..n]);
      var u := WriteAll(s, results[..n]);
      WrittenKeeps(u, results[n]);
      WrittenLive(u, results[n]);
      if u.queue != [] {
        WriteAdvances(u, results[n].n);
      } else {
        NothingToWrite(u, results[n]);
      }
    }
  }

  lemma NothingToWrite(s: Line, res: SendResult)
    ensures s.queue == [] ==> Written(s, res) == s
  {
  }

  /**
   Progress: however little the socket takes at a time, after that many writes that take
   something every message of the queue is sent, in order and whole.
   */
  lemma Flushed(s: Line, results: seq<SendResult>)
    requires Inv(s) && forall i :: 0 <= i < |results| ==> results[i].Took? && results[i].n > 0
    requires |results| >= Left(s.queue)
    ensures var t := WriteAll(s, results);
      && t.queue == [] && t.done == s.done + Messages(s.queue) && t.wire == RawAll(s.done + Messages(s.queue))
  {
    hide Left, WriteAll, RawAll, Raw;
    WritesAdvance(s, results);
    var t := WriteAll(s, results);
    SentBounded(t);
    assert t.queue == [];
    assert t.done + Messages(t.queue) == t.done;
    assert RawAll(t.done) + [] == RawAll(t.done);
  }

  /** A message that is wholly sent leaves the queue at once, unless nobody listens for
      an answer and it waits; then it leaves with the next write. */
  lemma HeadLeaves(s: Line, n: nat)
    requires Inv(s) && s.queue != [] && s.queue[0].sent + n >= |Raw(s.queue[0].msg)|
    ensures var m, t := s.queue[0], Written(s, Took(n));
      if m.waiting && !m.hasCallback then
        && t.done == s.done && |t.queue| == |s.queue| && t.queue[1..] == s.queue[1..]
        && Written(t, Took(n)).queue == s.queue[1..] && Written(t, Took(n)).done == s.done + [m.msg]
      else t.queue == s.queue[1..] && t.done == s.done + [m.msg]
  {
    hide RawAll, Raw;
  }

  /** On an idle line, a call whose answer somebody listens for is sent and gone with one
      write that takes all of it, and any other call with two. */
  lemma CallLeaves(s: Line, m: Outgoing, hasCallback: bool, n: nat)
    requires Inv(s) && s.queue == [] && n >= |Raw(m)|
    ensures var t := Written(Link(s, m, hasCallback), Took(n));
      && (t.queue == [] <==> hasCallback)
      && Written(t, Took(n)) == Line([], s.done + [m], s.wire + Raw(m))
  {
    hide RawAll, Raw;
    var u := Link(s, m, hasCallback);
    assert u.queue[1..] == [] && Raw(m)[0..|Raw(m)|] == Raw(m) && Raw(m)[|Raw(m)|..|Raw(m)|] == [];
    assert s.wire + Raw(m) + [] == s.wire + Raw(m);
  }

  /** A dropped message of which a part may be sent is sent to its end and then leaves at
      once. */
  lemma DroppedLeaves(s: Line, n: nat)
    requires Inv(s) && s.queue != [] && s.queue[0].sending && s.queue[0].sent + n >= |Raw(s.queue[0].msg)|
    ensures var t := Written(Dropped(s, 0), Took(n));
      t.queue == s.queue[1..] && t.done == s.done + [s.queue[0].msg]
  {
    hide RawAll, Raw;
    DroppedKeeps(s, 0);
    HeadLeaves(Dropped(s, 0), n);
  }

  // ---- the bus object --------------------------------------------------

  class Sender {
    var queue: seq<Item>
    ghost var done: seq<Outgoing>
    ghost var wire: seq<char>

    ghost function View(): Line
      reads this
    {
      Line(queue, done, wire)
    }

    constructor ()
      ensures View() == IDLE
    {
      queue, done, wire := [], [], [];
    }

    method CallAsync(m: Outgoing, hasCallback: bool)
      modifies this
      ensures View() == Link(old(View()), m, hasCallback)
    {
      queue := queue + [Item(m, hasCallback, true, false, 0)];
    }

    method DropMessage(i: nat)
      requires i < |queue|
      modifies this
      ensures View() == Dropped(old(View()), i)
    {
      if !queue[i].sending {
        queue := queue[..i] + queue[i + 1..];
      } else {
        queue := queue[i := queue[i].(waiting := false)];
      }
    }

    method WriteMessage(res: SendResult) returns (ok: bool)
      requires Inv(View())
      modifies this
      ensures View() == Written(old(View()), res)
      ensures ok == (old(queue) == [] || res.Took?)
    {
      hide Raw, RawAll;
      if queue == [] {
        return true;
      }
      var m := queue[0].(sending := true);
      queue := queue[0 := m];
      var raw := Raw(m.msg);
      var remaining := |raw| - m.sent;
      if !res.Took? {
        return false;
      }
      var n := if res.n > remaining then remaining else res.n;
      wire := wire + raw[m.sent..m.sent + n];
      m := m.(sent := m.sent + n);
      queue := queue[0 := m];
      if m.sent >= |raw| {
        var unlinked := false;
        if !m.hasCallback && m.waiting {
          queue := queue[0 := m.(waiting := false)];
          unlinked := true;
        }
        if !unlinked {
          done := done + [m.msg];
          queue := queue[1..];
        }
      }
      return true;
    }
  }
}
