/**
 The windowed rate limiter (src/shared/shl_util.c, src/shared/shl_util.h). A window
 opens with a call and lets `burst` calls pass until `interval` is over.
 */
module RateLimit {

  const U64: nat := 0x1_0000_0000_0000_0000

  datatype Limit = Limit(interval: nat, begin: nat, burst: nat, num: nat)

  predicate Off(l: Limit) {
    l.interval == 0 || l.burst == 0
  }

  predicate Opens(l: Limit, ts: nat) {
    l.begin == 0 || (l.begin + l.interval) % U64 < ts
  }

  predicate Grants(l: Limit, ts: nat) {
    Off(l) || Opens(l, ts) || l.num < l.burst
  }

  /** `shl_ratelimit_test` at time `ts` */
  function Test(l: Limit, ts: nat): Limit {
    if Off(l) then l
    else if Opens(l, ts) then l.(begin := ts, num := 1)
    else if l.num < l.burst then l.(num := l.num + 1)
    else l
  }

  class Limiter {
    var interval: nat
    var begin: nat
    var burst: nat
    var num: nat

    ghost function View(): Limit
      reads this
    {
      Limit(interval, begin, burst, num)
    }

    /** `SHL_RATELIMIT_INIT` */
    constructor (interval: nat, burst: nat)
      ensures View() == Fresh(interval, burst)
    {
      this.interval := interval;
      this.burst := burst;
      num := 0;
      begin := 0;
    }

    /** `shl_ratelimit_test` */
    method Check(ts: nat) returns (granted: bool)
      modifies this`begin, this`num
      ensures View() == Test(old(View()), ts) && granted == Grants(old(View()), ts)
    {
      if interval <= 0 || burst <= 0 {
        return true;
      }
      if begin <= 0 || (begin + interval) % U64 < ts {
        begin := ts;
        num := 0;
      } else if !(num < burst) {
        return false;
      }
      num := num + 1;
      return true;
    }
  }

  // ---- runs ------------------------------------------------------------

  /** A clock that never goes back, and that does not reach the end of 64 bits
      within one interval. */
  predicate Clock(ts: seq<nat>, interval: nat) {
    && (forall i :: 0 <= i < |ts| ==> 0 < ts[i] && ts[i] + interval < U64)
    && (forall i, j :: 0 <= i <= j < |ts| ==> ts[i] <= ts[j])
  }

  /** The limiter before call `i`. */
  function After(l: Limit, ts: seq<nat>, i: nat): Limit
    requires i <= |ts|
  {
    if i == 0 then l else Test(After(l, ts, i - 1), ts[i - 1])
  }

  predicate Granted(l: Limit, ts: seq<nat>, i: nat)
    requires i < |ts|
  {
    Grants(After(l, ts, i), ts[i])
  }

  /** The calls granted from `i` up to `j`. */
  function Count(l: Limit, ts: seq<nat>, i: nat, j: nat): nat
    requires i <= j <= |ts|
  {
    if i == j then 0 else Count(l, ts, i, j - 1) + if Granted(l, ts, j - 1) then 1 else 0
  }

  /** The granted calls among the first `n` that belong to the window opened at `b`. */
  function InWindow(l: Limit, ts: seq<nat>, b: nat, n: nat): nat
    requires n <= |ts|
  {
    if n == 0 then 0
    else InWindow(l, ts, b, n - 1)
         + if Granted(l, ts, n - 1) && After(l, ts, n).begin == b then 1 else 0
  }

  function Fresh(interval: nat, burst: nat): Limit {
    Limit(interval, 0, burst, 0)
  }

  ghost predicate Inv(l: Limit, ts: seq<nat>, i: nat)
    requires i <= |ts|
  {
    var s := After(l, ts, i);
    && s.interval == l.interval && s.burst == l.burst
    && (i == 0 ==> s == l)
    && (i > 0 ==> 0 < s.begin <= ts[i - 1] && 1 <= s.num <= s.burst && ts[i - 1] <= s.begin + s.interval)
  }

  lemma {:induction false} InvHolds(interval: nat, burst: nat, ts: seq<nat>, i: nat)
    requires interval > 0 && burst > 0 && Clock(ts, interval) && i <= |ts|
    ensures Inv(Fresh(interval, burst), ts, i)
  {
    if i > 0 {
      InvHolds(interval, burst, ts, i - 1);
    }
  }

  /** The window of call `i` is over, or there is none. */
  predicate Over(l: Limit, ts: seq<nat>, i: nat)
    requires i < |ts|
  {
    var s := After(l, ts, i);
    s.begin == 0 || s.begin + s.interval < ts[i]
  }

  /** What call `i` does, without wrap-around. */
  lemma StepAt(interval: nat, burst: nat, ts: seq<nat>, i: nat)
    requires interval > 0 && burst > 0 && Clock(ts, interval) && i < |ts|
    ensures var l := Fresh(interval, burst);
      var s, t := After(l, ts, i), After(l, ts, i + 1);
      && Inv(l, ts, i) && Inv(l, ts, i + 1)
      && t == (if Over(l, ts, i) then Limit(interval, ts[i], burst, 1)
               else if s.num < burst then s.(num := s.num + 1) else s)
      && (Granted(l, ts, i) <==> Over(l, ts, i) || s.num < burst)
  {
    InvHolds(interval, burst, ts, i);
    InvHolds(interval, burst, ts, i + 1);
  }

  /** A call is refused exactly when its window is still open and used up. */
  lemma RefusedExactly(interval: nat, burst: nat, ts: seq<nat>, i: nat)
    requires interval > 0 && burst > 0 && Clock(ts, interval) && i < |ts|
    ensures var l := Fresh(interval, burst);
      var b := After(l, ts, i).begin;
      !Granted(l, ts, i) <==> b > 0 && ts[i] <= b + interval && InWindow(l, ts, b, i) == burst
  {
    hide After, Granted, InWindow;
    var l := Fresh(interval, burst);
    StepAt(interval, burst, ts, i);
    InWindowIs(interval, burst, ts, After(l, ts, i).begin, i);
  }

  lemma {:induction false} InWindowIs(interval: nat, burst: nat, ts: seq<nat>, b: nat, n: nat)
    requires interval > 0 && burst > 0 && Clock(ts, interval) && n <= |ts|
    ensures var l := Fresh(interval, burst);
      var s := After(l, ts, n);
      && (s.begin < b ==> InWindow(l, ts, b, n) == 0)
      && (s.begin == b && b > 0 ==> InWindow(l, ts, b, n) == s.num)
      && InWindow(l, ts, b, n) <= burst
  {
    hide After, Granted;
    AfterNone(Fresh(interval, burst), ts);
    if n > 0 {
      StepAt(interval, burst, ts, n - 1);
      InWindowIs(interval, burst, ts, b, n - 1);
    }
  }

  lemma AfterNone(l: Limit, ts: seq<nat>)
    ensures After(l, ts, 0) == l
  {
  }

  /** No window grants more than `burst` calls. */
  lemma WindowBound(interval: nat, burst: nat, ts: seq<nat>, b: nat)
    requires interval > 0 && burst > 0 && Clock(ts, interval)
    ensures InWindow(Fresh(interval, burst), ts, b, |ts|) <= burst
  {
    InWindowIs(interval, burst, ts, b, |ts|);
  }

  /** The calls that the window at `i` can still grant. */
  function Left(s: Limit): int {
    if s.begin == 0 then 0 else s.burst - s.num
  }

  lemma {:induction false} SpanInv(interval: nat, burst: nat, ts: seq<nat>, i: nat, j: nat)
    requires interval > 0 && burst > 0 && Clock(ts, interval) && i <= j <= |ts| && i < |ts|
    ensures var l := Fresh(interval, burst);
      var s, t := After(l, ts, i), After(l, ts, j);
      if t.begin == s.begin then Count(l, ts, i, j) == t.num - s.num
      else t.begin > ts[i] + interval || (ts[i] <= t.begin && Count(l, ts, i, j) <= Left(s) + t.num)
    decreases j - i
  {
    hide After, Granted;
    InvHolds(interval, burst, ts, i);
    if i < j {
      StepAt(interval, burst, ts, j - 1);
      SpanInv(interval, burst, ts, i, j - 1);
    }
  }

  /**
   In any span of time no longer than `interval`, fewer than twice `burst` calls are
   granted.
   */
  lemma SpanBound(interval: nat, burst: nat, ts: seq<nat>, i: nat, j: nat)
    requires interval > 0 && burst > 0 && Clock(ts, interval)
    requires i < j <= |ts| && ts[j - 1] - ts[i] <= interval
    ensures Count(Fresh(interval, burst), ts, i, j) < 2 * burst
  {
    InvHolds(interval, burst, ts, i);
    InvHolds(interval, burst, ts, j);
    SpanInv(interval, burst, ts, i, j);
  }

  /** The bound is reached for every size of burst above one: one call opens a
      window, the rest of it comes at its end, and a full window follows. */
  function Worst(interval: nat, burst: nat): seq<nat>
    requires burst > 0
  {
    [1] + seq(burst - 1, _ => 1 + interval) + seq(burst, _ => 2 + interval)
  }

  lemma {:induction false} WorstAfter(interval: nat, burst: nat, i: nat)
    requires interval > 0 && burst > 0 && 2 * interval + 2 < U64 && 1 <= i <= 2 * burst
    ensures After(Fresh(interval, burst), Worst(interval, burst), i)
      == if i <= burst then Limit(interval, 1, burst, i) else Limit(interval, 2 + interval, burst, i - burst)
  {
    if i > 1 {
      WorstAfter(interval, burst, i - 1);
    }
  }

  lemma {:induction false} WorstCount(interval: nat, burst: nat, j: nat)
    requires interval > 0 && burst > 0 && 2 * interval + 2 < U64 && 1 <= j <= 2 * burst
    ensures Count(Fresh(interval, burst), Worst(interval, burst), 1, j) == j - 1
  {
    if j > 1 {
      WorstCount(interval, burst, j - 1);
      WorstAfter(interval, burst, j - 1);
    }
  }

  lemma SpanBoundIsTight(interval: nat, burst: nat)
    requires interval > 0 && burst > 1 && 2 * interval + 2 < U64
    ensures var ts := Worst(interval, burst);
      && Clock(ts, interval)
      && ts[2 * burst - 1] - ts[1] <= interval
      && Count(Fresh(interval, burst), ts, 1, 2 * burst) == 2 * burst - 1
  {
    WorstCount(interval, burst, 2 * burst);
  }

  /** Without an interval or without a burst nothing is ever refused or noted. */
  lemma {:induction false} SwitchedOff(l: Limit, ts: seq<nat>, i: nat)
    requires (l.interval == 0 || l.burst == 0) && i < |ts|
    ensures Granted(l, ts, i) && After(l, ts, i) == l
  {
    if i > 0 {
      SwitchedOff(l, ts, i - 1);
    }
  }

  // ---- the static initialiser ------------------------------------------

  /** `SHL_RATELIMIT_DEFINE` lists its values in another order than the fields. */
  function Defined(interval: nat, burst: nat): Limit {
    Limit(interval, burst, 0, 0)
  }

  /** So a limiter made by it never refuses a call. */
  lemma {:induction false} DefinedNeverRefuses(interval: nat, burst: nat, ts: seq<nat>, i: nat)
    requires i < |ts|
    ensures Granted(Defined(interval, burst), ts, i)
    ensures After(Defined(interval, burst), ts, i) == Defined(interval, burst)
  {
    if i > 0 {
      DefinedNeverRefuses(interval, burst, ts, i - 1);
    }
  }
}
