/**
 Reference counts of the wpa_supplicant control bus (src/shared/wpas.c). Every
 message holds a reference to its bus and the bus holds one to every queued
 message; dropping a bus reference may have to break this cycle.
 */
module WpasRefs {

  /** A message: its count and whether it is queued. */
  datatype Message = Message(ref: nat, queued: bool)

  /** The references to a message other than the queue's. */
  function Holders(x: Message): int {
    x.ref - (if x.queued then 1 else 0)
  }

  ghost predicate NoneHeld(msgs: map<nat, Message>) {
    forall m :: m in msgs ==> Holders(msgs[m]) == 0
  }

  /** The queue lists exactly the queued messages, each once. */
  ghost predicate QueueFits(queue: seq<nat>, msgs: map<nat, Message>) {
    && (forall i, j :: 0 <= i < j < |queue| ==> queue[i] != queue[j])
    && (forall m :: m in queue <==> m in msgs && msgs[m].queued)
    && (forall m :: m in msgs ==> msgs[m].ref >= 1)
  }

  lemma {:induction false} DistinctCount(queue: seq<nat>) returns (s: set<nat>)
    requires forall i, j :: 0 <= i < j < |queue| ==> queue[i] != queue[j]
    ensures |s| == |queue| && forall m :: m in s <==> m in queue
  {
    if queue == [] {
      s := {};
    } else {
      var n := |queue| - 1;
      s := DistinctCount(queue[..n]);
      assert queue[n] !in s;
      s := s + {queue[n]};
      assert queue == queue[..n] + [queue[n]];
    }
  }

  /** There are as many messages as queued ones exactly when all are queued. */
  lemma AllQueued(queue: seq<nat>, msgs: map<nat, Message>)
    requires QueueFits(queue, msgs)
    ensures |queue| <= |msgs|
    ensures |queue| == |msgs| <==> forall m :: m in msgs ==> m in queue
  {
    var s := DistinctCount(queue);
    assert s <= msgs.Keys;
    SubsetCount(s, msgs.Keys);
  }

  lemma {:induction false} SubsetCount(a: set<nat>, b: set<nat>)
    requires a <= b
    ensures |a| <= |b| && (|a| == |b| <==> b <= a)
  {
    if a != {} {
      var x :| x in a;
      SubsetCount(a - {x}, b - {x});
    }
  }

  /** `queue` without its `i`-th entry. */
  function Without(queue: seq<nat>, i: nat): seq<nat>
    requires i < |queue|
  {
    queue[..i] + queue[i + 1..]
  }

  lemma UnlinkFits(queue: seq<nat>, msgs: map<nat, Message>, i: nat)
    requires QueueFits(queue, msgs) && i < |queue|
    ensures QueueFits(Without(queue, i), msgs[queue[i] := msgs[queue[i]].(queued := false)])
  {
    var m, rest := queue[i], Without(queue, i);
    forall x ensures x in rest <==> x in queue && x != m {
      if x in queue && x != m {
        var k :| 0 <= k < |queue| && queue[k] == x;
        assert rest[if k < i then k else k - 1] == x;
      }
    }
  }

  /** The bus with its messages; `msgs` are those not freed, and the bus itself is
      freed when its count is zero. */
  class Bus {
    var ref: nat
    var queue: seq<nat>
    var msgs: map<nat, Message>

    /** Besides its messages, `outside` others hold a reference to the bus. */
    ghost predicate Valid(outside: nat)
      reads this
    {
      QueueFits(queue, msgs) && ref == outside + |msgs|
    }

    ghost predicate Released()
      reads this
    {
      ref == 0 && queue == [] && msgs == map[]
    }

    constructor ()
      ensures Valid(1) && queue == [] && msgs == map[]
    {
      ref, queue, msgs := 1, [], map[];
    }

    /** `wpas_ref` */
    method Ref(ghost outside: nat)
      requires Valid(outside) && ref > 0
      modifies this`ref
      ensures Valid(outside + 1)
    {
      ref := ref + 1;
    }

    /** `wpas_message_new`: the creator holds the message, the message the bus. */
    method MessageNew(m: nat, ghost outside: nat)
      requires Valid(outside) && ref > 0 && m !in msgs
      modifies this`ref, this`msgs
      ensures Valid(outside) && msgs == old(msgs)[m := Message(1, false)]
    {
      msgs := msgs[m := Message(1, false)];
      ref := ref + 1;
    }

    /** `wpas_message_ref` */
    method MessageRef(m: nat, ghost outside: nat)
      requires Valid(outside) && m in msgs
      modifies this`msgs
      ensures Valid(outside) && msgs == old(msgs)[m := old(msgs[m]).(ref := old(msgs[m]).ref + 1)]
    {
      msgs := msgs[m := msgs[m].(ref := msgs[m].ref + 1)];
    }

    /** `wpas__link_message` */
    method Link(m: nat, ghost outside: nat)
      requires Valid(outside) && m in msgs && !msgs[m].queued
      modifies this`queue, this`msgs
      ensures Valid(outside) && queue == old(queue) + [m]
      ensures msgs == old(msgs)[m := Message(old(msgs[m]).ref + 1, true)]
    {
      queue := queue + [m];
      msgs := msgs[m := Message(msgs[m].ref + 1, true)];
    }

    /** `wpas_unref`, giving up one reference so that `outside` remain. It releases
        everything exactly if nothing outside refers to the bus or a message. */
    method Unref(ghost outside: nat)
      requires Valid(outside + 1)
      modifies this
      ensures if outside == 0 && NoneHeld(old(msgs)) then Released()
              else Valid(outside) && queue == old(queue) && msgs == old(msgs)
      decreases |queue|, 2
    {
      AllQueued(queue, msgs);
      if ref <= |queue| + 1 {
        var q := true;
        var i := 0;
        while i < |queue|
          invariant 0 <= i <= |queue| && q
          invariant forall j :: 0 <= j < i ==> msgs[queue[j]].ref == 1
          invariant ref == old(ref) && queue == old(queue) && msgs == old(msgs)
        {
          if msgs[queue[i]].ref > 1 {
            q := false;
            break;
          }
          i := i + 1;
        }
        if q {
          DropQueue();
        }
      }
      if ref == 0 {
        return;
      }
      ref := ref - 1;
    }

    /** The loop that empties the queue; each message freed in it gives up a bus
        reference by calling `Unref` again. */
    method DropQueue()
      requires Valid(1)
      requires forall m :: m in msgs ==> msgs[m].queued && msgs[m].ref == 1
      modifies this
      ensures ref == 1 && queue == [] && msgs == map[]
      decreases |queue|, 1
    {
      while queue != []
        invariant Valid(1) && |queue| <= old(|queue|)
        invariant forall m :: m in msgs ==> msgs[m].queued && msgs[m].ref == 1
        decreases |queue|
      {
        Unlink(0, 1);
      }
      assert msgs.Keys == {};
    }

    /** `wpas__unlink_message` */
    method Unlink(i: nat, ghost outside: nat)
      requires Valid(outside) && i < |queue|
      modifies this
      ensures var m := old(queue[i]);
        var after := old(msgs)[m := old(msgs[m]).(queued := false)];
        Dropped(m, outside, Without(old(queue), i), after)
      decreases |queue|, 0
    {
      var m := queue[i];
      UnlinkFits(queue, msgs, i);
      queue := queue[..i] + queue[i + 1..];
      msgs := msgs[m := msgs[m].(queued := false)];
      MessageUnref(m, outside);
    }

    /** What is left when one reference to message `m` is given up. */
    ghost predicate Dropped(m: nat, outside: nat, q: seq<nat>, was: map<nat, Message>)
      reads this
      requires m in was
    {
      if was[m].ref > 1 then
        Valid(outside) && queue == q && msgs == was[m := was[m].(ref := was[m].ref - 1)]
      else if outside == 0 && NoneHeld(was - {m}) then Released()
      else Valid(outside) && queue == q && msgs == was - {m}
    }

    /** `wpas_message_unref`, giving up a reference to `m` that is not the queue's.
        Freeing the message gives up its bus reference. */
    method MessageUnref(m: nat, ghost outside: nat)
      requires Valid(outside) && m in msgs && Holders(msgs[m]) >= 1
      modifies this
      ensures Dropped(m, outside, old(queue), old(msgs))
      decreases |queue|, 3
    {
      if msgs[m].ref > 1 {
        msgs := msgs[m := msgs[m].(ref := msgs[m].ref - 1)];
        return;
      }
      msgs := msgs - {m};
      Unref(outside);
    }
  }

  // ---- whole runs ------------------------------------------------------

  /** What the outside can see: how often the bus is held, and the messages. */
  datatype World = Alive(outside: nat, queue: seq<nat>, msgs: map<nat, Message>) | Gone

  datatype Op = BusRef | BusUnref | New(m: nat) | MsgRef(m: nat) | MsgUnref(m: nat) | Queue(m: nat) | Unqueue(i: nat)

  /** Calls are made by those who hold what they pass. */
  predicate Enabled(w: World, op: Op) {
    w.Alive? &&
    match op
    case BusRef => w.outside > 0
    case BusUnref => w.outside > 0
    case New(m) => w.outside > 0 && m !in w.msgs
    case MsgRef(m) => m in w.msgs && Holders(w.msgs[m]) > 0
    case MsgUnref(m) => m in w.msgs && Holders(w.msgs[m]) > 0
    case Queue(m) => m in w.msgs && Holders(w.msgs[m]) > 0 && !w.msgs[m].queued
    case Unqueue(i) => w.outside > 0 && i < |w.queue|
  }

  /** The references after the call, before anything is freed for want of any. */
  function After(w: World, op: Op): (r: World)
    requires Enabled(w, op)
    ensures r.Alive?
  {
    match op
    case BusRef => w.(outside := w.outside + 1)
    case BusUnref => w.(outside := w.outside - 1)
    case New(m) => w.(msgs := w.msgs[m := Message(1, false)])
    case MsgRef(m) => w.(msgs := w.msgs[m := w.msgs[m].(ref := w.msgs[m].ref + 1)])
    case MsgUnref(m) => w.(msgs := LessOne(w.msgs, m))
    case Queue(m) => w.(queue := w.queue + [m], msgs := w.msgs[m := Message(w.msgs[m].ref + 1, true)])
    case Unqueue(i) =>
      if w.queue[i] !in w.msgs then w
      else
        var m := w.queue[i];
        w.(queue := Without(w.queue, i), msgs := LessOne(w.msgs[m := w.msgs[m].(queued := false)], m))
  }

  function LessOne(msgs: map<nat, Message>, m: nat): map<nat, Message>
    requires m in msgs
  {
    if msgs[m].ref > 1 then msgs[m := msgs[m].(ref := msgs[m].ref - 1)] else msgs - {m}
  }

  ghost predicate Unreachable(w: World) {
    w.Alive? && w.outside == 0 && NoneHeld(w.msgs)
  }

  /** One call: everything is released if it gave up the last outside reference,
      unless that was one to a queued message. */
  ghost function Next(w: World, op: Op): World {
    if !Enabled(w, op) then w
    else if Unreachable(After(w, op)) && !Overlooked(w, op) then Gone
    else After(w, op)
  }

  /** The count of a queued message does not drop to zero, so nobody looks at the
      bus. */
  predicate Overlooked(w: World, op: Op)
    requires Enabled(w, op)
  {
    op.MsgUnref? && w.msgs[op.m].queued
  }

  ghost predicate Shows(bus: Bus, w: World)
    reads bus
  {
    if w.Gone? then bus.Released()
    else bus.Valid(w.outside) && bus.queue == w.queue && bus.msgs == w.msgs
  }

  /** The methods of `Bus` carry out exactly these steps. */
  method Perform(bus: Bus, op: Op, ghost w: World)
    requires Enabled(w, op) && Shows(bus, w)
    modifies bus
    ensures Shows(bus, Next(w, op))
  {
    match op
    case BusRef => bus.Ref(w.outside);
    case BusUnref => bus.Unref(w.outside - 1);
    case New(m) => bus.MessageNew(m, w.outside);
    case MsgRef(m) =>
      assert Holders(After(w, op).msgs[m]) > 0;
      bus.MessageRef(m, w.outside);
    case MsgUnref(m) => PerformUnref(bus, m, w);
    case Queue(m) =>
      assert Holders(After(w, op).msgs[m]) > 0;
      bus.Link(m, w.outside);
    case Unqueue(i) => PerformUnqueue(bus, i, w);
  }

  method PerformUnref(bus: Bus, m: nat, ghost w: World)
    requires Enabled(w, MsgUnref(m)) && Shows(bus, w)
    modifies bus
    ensures Shows(bus, Next(w, MsgUnref(m)))
  {
    bus.MessageUnref(m, w.outside);
  }

  method PerformUnqueue(bus: Bus, i: nat, ghost w: World)
    requires Enabled(w, Unqueue(i)) && Shows(bus, w)
    modifies bus
    ensures Shows(bus, Next(w, Unqueue(i)))
  {
    bus.Unlink(i, w.outside);
  }

  ghost function Run(ops: seq<Op>): World {
    if ops == [] then Alive(1, [], map[]) else Next(Run(ops[..|ops| - 1]), ops[|ops| - 1])
  }

  ghost predicate Consistent(w: World) {
    w.Alive? ==> QueueFits(w.queue, w.msgs)
  }

  lemma NextConsistent(w: World, op: Op)
    requires Consistent(w)
    ensures Consistent(Next(w, op))
  {
    if Enabled(w, op) && op.Unqueue? {
      UnlinkFits(w.queue, w.msgs, op.i);
    }
  }

  /** Nothing is released while an outside reference to the bus or to one of its
      messages exists. */
  lemma {:induction false} RunSafe(ops: seq<Op>)
    ensures Consistent(Run(ops))
    ensures Run(ops).Gone? ==>
      exists k :: 0 <= k < |ops| && Run(ops[..k]).Alive? && Enabled(Run(ops[..k]), ops[k])
                  && Unreachable(After(Run(ops[..k]), ops[k]))
  {
    if ops != [] {
      var n := |ops| - 1;
      RunSafe(ops[..n]);
      NextConsistent(Run(ops[..n]), ops[n]);
      if Run(ops[..n]).Gone? {
        var k :| 0 <= k < n && Run(ops[..n][..k]).Alive? && Enabled(Run(ops[..n][..k]), ops[..n][k])
                 && Unreachable(After(Run(ops[..n][..k]), ops[..n][k]));
        assert ops[..n][..k] == ops[..k];
      }
    }
  }

  /** Giving up the last outside reference releases everything exactly when that
      reference was not one to a queued message; otherwise the bus stays for good. */
  lemma LastReference(w: World, op: Op)
    requires Consistent(w) && Enabled(w, op) && Unreachable(After(w, op))
    ensures Next(w, op).Gone? <==> !(op.MsgUnref? && w.msgs[op.m].queued)
    ensures !Next(w, op).Gone? ==> forall later :: Next(Next(w, op), later) == Next(w, op)
  {
    if !Next(w, op).Gone? {
      forall later ensures Next(Next(w, op), later) == Next(w, op) {
        assert !Enabled(Next(w, op), later);
      }
    }
  }

  // ---- runs of the object ----------------------------------------------

  /** Every call is made by someone who holds what it passes. */
  ghost predicate Proper(ops: seq<Op>) {
    forall k :: 0 <= k < |ops| ==> Enabled(Run(ops[..k]), ops[k])
  }

  /** The outside references to the bus, counted from the calls alone. */
  function BusHeld(ops: seq<Op>): int {
    if ops == [] then 1
    else BusHeld(ops[..|ops| - 1]) + match ops[|ops| - 1] case BusRef => 1 case BusUnref => -1 case _ => 0
  }

  /** Likewise those to message `m`. */
  function MsgHeld(ops: seq<Op>, m: nat): int {
    if ops == [] then 0
    else MsgHeld(ops[..|ops| - 1], m) + match ops[|ops| - 1]
      case New(x) => if x == m then 1 else 0
      case MsgRef(x) => if x == m then 1 else 0
      case MsgUnref(x) => if x == m then -1 else 0
      case _ => 0
  }

  /** Nobody outside holds anything any more. */
  ghost predicate NothingHeld(ops: seq<Op>) {
    BusHeld(ops) == 0 && forall m: nat :: MsgHeld(ops, m) == 0
  }

  /** The last call gave up a reference to a message that was still queued. */
  ghost predicate LeftQueued(ops: seq<Op>) {
    ops != [] && var n := |ops| - 1;
    && ops[n].MsgUnref? && Run(ops[..n]).Alive?
    && ops[n].m in Run(ops[..n]).msgs && Run(ops[..n]).msgs[ops[n].m].queued
  }

  function HoldersOf(w: World, m: nat): int {
    if w.Alive? && m in w.msgs then Holders(w.msgs[m]) else 0
  }

  ghost predicate CountsRight(w: World, ops: seq<Op>) {
    && BusHeld(ops) == (if w.Alive? then w.outside else 0)
    && forall m: nat :: MsgHeld(ops, m) == HoldersOf(w, m)
  }

  /** One call changes the references as it is counted. */
  lemma AfterCounts(w: World, op: Op, m: nat)
    requires Consistent(w) && Enabled(w, op)
    ensures HoldersOf(After(w, op), m) - HoldersOf(w, m) ==
      match op
      case New(x) => if x == m then 1 else 0
      case MsgRef(x) => if x == m then 1 else 0
      case MsgUnref(x) => if x == m then -1 else 0
      case _ => 0
  {
  }

  lemma ProperPrefix(ops: seq<Op>, n: nat)
    requires Proper(ops) && n <= |ops|
    ensures Proper(ops[..n])
  {
    forall k | 0 <= k < n
      ensures Enabled(Run(ops[..n][..k]), ops[..n][k])
    {
      assert ops[..n][..k] == ops[..k];
    }
  }

  /** The counts kept by the object are those of the calls; when it is released the
      calls have given everything up. */
  lemma {:induction false} CountsAgree(ops: seq<Op>)
    requires Proper(ops)
    ensures CountsRight(Run(ops), ops)
  {
    if ops != [] {
      hide After, Enabled, Consistent;
      var n := |ops| - 1;
      ProperPrefix(ops, n);
      CountsAgree(ops[..n]);
      RunSafe(ops[..n]);
      var w, op := Run(ops[..n]), ops[n];
      BusCounts(w, op);
      forall m: nat
        ensures MsgHeld(ops, m) == HoldersOf(Run(ops), m)
      {
        AfterCounts(w, op, m);
      }
    }
  }

  lemma BusCounts(w: World, op: Op)
    requires Enabled(w, op)
    ensures w.Alive?
    ensures After(w, op).outside - w.outside == match op case BusRef => 1 case BusUnref => -1 case _ => 0
  {
  }

  /** Among runs of proper calls the object is gone exactly after those that leave
      nothing held, unless the last one left a message queued. */
  lemma GoneExactly(ops: seq<Op>)
    requires Proper(ops)
    ensures Run(ops).Gone? <==> NothingHeld(ops) && !LeftQueued(ops)
  {
    CountsAgree(ops);
    if ops != [] {
      var n := |ops| - 1;
      ProperPrefix(ops, n);
      CountsAgree(ops[..n]);
      RunSafe(ops[..n]);
      var w, op := Run(ops[..n]), ops[n];
      assert Enabled(w, op);
      assert LeftQueued(ops) <==> Overlooked(w, op);
      HeldExactly(w, op, ops);
    }
  }

  lemma HeldExactly(w: World, op: Op, ops: seq<Op>)
    requires Consistent(w) && Enabled(w, op)
    requires ops != [] && ops[|ops| - 1] == op && CountsRight(w, ops[..|ops| - 1])
    ensures NothingHeld(ops) <==> Unreachable(After(w, op))
  {
    hide After, Enabled, Consistent;
    BusCounts(w, op);
    var r := After(w, op);
    forall m: nat
      ensures MsgHeld(ops, m) == HoldersOf(r, m)
    {
      AfterCounts(w, op, m);
    }
    assert NoneHeld(r.msgs) <==> forall m: nat :: HoldersOf(r, m) == 0 by {
      forall m: nat | m in r.msgs
        ensures HoldersOf(r, m) == Holders(r.msgs[m])
      {
      }
    }
  }

  /** The queue, from the calls alone: in the order in which messages were queued. */
  function QueueOf(ops: seq<Op>): seq<nat> {
    if ops == [] then []
    else
      var q := QueueOf(ops[..|ops| - 1]);
      match ops[|ops| - 1]
      case Queue(m) => q + [m]
      case Unqueue(i) => if i < |q| then q[..i] + q[i + 1..] else q
      case _ => q
  }

  lemma {:induction false} QueueAgrees(ops: seq<Op>)
    requires Proper(ops)
    ensures Run(ops).Alive? ==> Run(ops).queue == QueueOf(ops)
  {
    if ops != [] {
      var n := |ops| - 1;
      ProperPrefix(ops, n);
      QueueAgrees(ops[..n]);
      RunSafe(ops[..n]);
      QueueNext(Run(ops[..n]), ops[n]);
    }
  }

  lemma QueueNext(w: World, op: Op)
    requires Consistent(w) && Enabled(w, op)
    ensures After(w, op).queue == match op
      case Queue(m) => w.queue + [m]
      case Unqueue(i) => w.queue[..i] + w.queue[i + 1..]
      case _ => w.queue
  {
  }

  /** A bus that is not gone still has a reference or a message. */
  lemma AliveIsNotEmpty(ops: seq<Op>)
    requires Proper(ops) && Run(ops).Alive?
    ensures Run(ops).outside > 0 || Run(ops).msgs != map[]
  {
    if ops != [] {
      hide Next, Enabled;
      NextNotEmpty(Run(ops[..|ops| - 1]), ops[|ops| - 1]);
    }
  }

  lemma NextNotEmpty(w: World, op: Op)
    requires Enabled(w, op) && Next(w, op).Alive?
    ensures Next(w, op).outside > 0 || Next(w, op).msgs != map[]
  {
    var r := After(w, op);
    if Overlooked(w, op) {
      assert op.m in r.msgs;
    } else {
      assert r.outside > 0 || !NoneHeld(r.msgs);
    }
  }

  /**
   Any run of calls on the object, each by someone who holds what it passes. While
   anything is held outside, the bus and every held message are there; when nothing is
   held any more, all is released, exactly unless the last call left a message queued.
   */
  method Replay(ops: seq<Op>) returns (bus: Bus)
    requires Proper(ops)
    ensures bus.Released() <==> NothingHeld(ops) && !LeftQueued(ops)
    ensures !bus.Released() ==>
      && BusHeld(ops) >= 0 && bus.Valid(BusHeld(ops))
      && (forall m :: m in bus.msgs ==> Holders(bus.msgs[m]) == MsgHeld(ops, m))
      && (forall m: nat :: MsgHeld(ops, m) != 0 ==> m in bus.msgs)
      && bus.queue == QueueOf(ops)
  {
    hide Next, Enabled;
    bus := new Bus();
    RunNone();
    assert ops[..0] == [];
    for i := 0 to |ops|
      invariant fresh(bus) && Shows(bus, Run(ops[..i]))
    {
      assert ops[..i + 1][..i] == ops[..i];
      Perform(bus, ops[i], Run(ops[..i]));
    }
    assert ops[..|ops|] == ops;
    GoneExactly(ops);
    CountsAgree(ops);
    QueueAgrees(ops);
    if Run(ops).Alive? {
      AliveIsNotEmpty(ops);
    }
  }

  lemma RunNone()
    ensures Run([]) == Alive(1, [], map[])
  {
  }

  /** Queue a message, give up the bus, then the message: the cycle remains. */
  lemma LeakRun()
    ensures Unreachable(Run([New(0), Queue(0), BusUnref, MsgUnref(0)]))
  {
    var ops := [New(0), Queue(0), BusUnref, MsgUnref(0)];
    assert ops[..3] == [New(0), Queue(0), BusUnref] && ops[..3][..2] == [New(0), Queue(0)];
    assert ops[..3][..2][..1] == [New(0)] && [New(0)][..0] == [];
    var w1 := Alive(1, [], map[0 := Message(1, false)]);
    assert Run([New(0)]) == w1;
    var w2 := Alive(1, [0], map[0 := Message(2, true)]);
    assert Run([New(0), Queue(0)]) == w2;
    var w3 := w2.(outside := 0);
    assert Run(ops[..3]) == w3;
    assert Next(w3, MsgUnref(0)) == Alive(0, [0], map[0 := Message(1, true)]);
  }
}
