/**
 What the buckets of the hash table mean: a cyclic sequence of slots searched by
 linear probing. Nothing here mentions the bits in which a slot is stored.
 */
module ProbeTable {
  import opened TaggedWords

  datatype Slot = Free | Dead | Used(p: Word)

  /** The stored pointers, with repetitions. */
  function Bag(s: seq<Slot>): multiset<Word> {
    BagTo(s, |s|)
  }

  /** Those in the first `n` slots. */
  function BagTo(s: seq<Slot>, n: nat): multiset<Word>
    requires n <= |s|
  {
    if n == 0 then multiset{} else BagTo(s, n - 1) + SlotBag(s[n - 1])
  }

  function SlotBag(x: Slot): multiset<Word> {
    if x.Used? then multiset{x.p} else multiset{}
  }

  function DeadCount(s: seq<Slot>): nat {
    DeadTo(s, |s|)
  }

  function DeadTo(s: seq<Slot>, n: nat): nat
    requires n <= |s|
  {
    if n == 0 then 0 else DeadTo(s, n - 1) + (if s[n - 1].Dead? then 1 else 0)
  }

  lemma SwapLast<T>(a: multiset<T>, b: multiset<T>, c: multiset<T>)
    ensures (a + b) + c == (a + c) + b
  {
  }

  lemma {:induction false} SameBag(s: seq<Slot>, u: seq<Slot>, n: nat)
    requires n <= |s| && n <= |u| && forall k :: 0 <= k < n ==> s[k] == u[k]
    ensures BagTo(s, n) == BagTo(u, n) && DeadTo(s, n) == DeadTo(u, n)
  {
    if n > 0 { SameBag(s, u, n - 1); }
  }

  lemma BagStep(s: seq<Slot>, n: nat)
    requires n < |s|
    ensures BagTo(s, n + 1) == BagTo(s, n) + SlotBag(s[n])
    ensures BagTo(s, 0) == multiset{}
  {
  }

  lemma {:induction false} BagClear(s: seq<Slot>, i: nat, n: nat)
    requires i < n <= |s|
    ensures BagTo(s, n) == BagTo(s[i := Free], n) + SlotBag(s[i])
  {
    hide BagTo;
    BagStep(s, n - 1);
    BagStep(s[i := Free], n - 1);
    if i == n - 1 {
      SameBag(s, s[i := Free], i);
    } else {
      BagClear(s, i, n - 1);
      SwapLast(BagTo(s[i := Free], n - 1), SlotBag(s[i]), SlotBag(s[n - 1]));
    }
  }

  lemma Exchange<T>(m: multiset<T>, e: multiset<T>, r: multiset<T>, a: multiset<T>, b: multiset<T>)
    requires m == r + a && e == r + b
    ensures a <= m && e == m - a + b
  {
  }

  lemma Overwrite<T>(s: seq<T>, i: nat, x: T, y: T)
    requires i < |s|
    ensures s[i := x][i := y] == s[i := y]
  {
  }

  /** Overwriting a slot exchanges its pointer in the multiset. */
  lemma BagUpdate(s: seq<Slot>, i: nat, x: Slot)
    requires i < |s|
    ensures SlotBag(s[i]) <= Bag(s)
    ensures Bag(s[i := x]) == Bag(s) - SlotBag(s[i]) + SlotBag(x)
  {
    hide BagTo;
    BagClear(s, i, |s|);
    BagClear(s[i := x], i, |s|);
    Overwrite(s, i, x, Free);
    Exchange(Bag(s), Bag(s[i := x]), Bag(s[i := Free]), SlotBag(s[i]), SlotBag(x));
  }

  lemma {:induction false} DeadUpdate(s: seq<Slot>, i: nat, x: Slot, n: nat)
    requires i < n <= |s|
    ensures DeadTo(s[i := x], n)
         == DeadTo(s, n) - (if s[i].Dead? then 1 else 0) + (if x.Dead? then 1 else 0)
  {
    if i == n - 1 {
      SameBag(s, s[i := x], i);
    } else {
      DeadUpdate(s, i, x, n - 1);
    }
  }

  lemma {:induction false} UsedInBag(s: seq<Slot>, i: nat, n: nat)
    requires i < n <= |s| && s[i].Used?
    ensures s[i].p in BagTo(s, n)
  {
    if i < n - 1 { UsedInBag(s, i, n - 1); }
  }

  lemma {:induction false} BagHasSlot(s: seq<Slot>, p: Word, n: nat) returns (i: nat)
    requires n <= |s| && p in BagTo(s, n)
    ensures i < n && s[i] == Used(p)
  {
    if s[n - 1] == Used(p) {
      i := n - 1;
    } else {
      i := BagHasSlot(s, p, n - 1);
    }
  }

  lemma BagMembers(s: seq<Slot>)
    ensures forall i :: 0 <= i < |s| && s[i].Used? ==> s[i].p in Bag(s)
    ensures forall p :: p in Bag(s) ==> exists i :: 0 <= i < |s| && s[i] == Used(p)
  {
    hide BagTo;
    forall i | 0 <= i < |s| && s[i].Used?
      ensures s[i].p in Bag(s)
    {
      UsedInBag(s, i, |s|);
    }
    forall p | p in Bag(s)
      ensures exists i :: 0 <= i < |s| && s[i] == Used(p)
    {
      var i := BagHasSlot(s, p, |s|);
    }
  }

  lemma {:induction false} BagGrows(s: seq<Slot>, i: nat, n: nat)
    requires i <= n <= |s|
    ensures |BagTo(s, i)| <= |BagTo(s, n)|
  {
    if i < n {
      BagGrows(s, i, n - 1);
      assert |BagTo(s, n)| == |BagTo(s, n - 1)| + |SlotBag(s[n - 1])|;
    }
  }

  ghost predicate NoneUsed(s: seq<Slot>, i: nat, j: nat)
    requires i <= j <= |s|
  {
    forall k :: i <= k < j ==> !s[k].Used?
  }

  lemma {:induction false} NoneUsedBetween(s: seq<Slot>, i: nat, j: nat)
    requires i <= j <= |s| && NoneUsed(s, i, j)
    ensures BagTo(s, j) == BagTo(s, i)
  {
    if i < j { NoneUsedBetween(s, i, j - 1); }
  }

  lemma {:induction false} FreeSlotBelow(s: seq<Slot>, n: nat) returns (f: nat)
    requires n <= |s| && |BagTo(s, n)| + DeadTo(s, n) < n
    ensures f < n && s[f].Free?
  {
    if s[n - 1].Free? {
      f := n - 1;
    } else {
      f := FreeSlotBelow(s, n - 1);
    }
  }

  /** Pigeonhole: a table not filled by entries and tombstones has a free slot. */
  lemma FreeSlotExists(s: seq<Slot>) returns (f: nat)
    requires |Bag(s)| + DeadCount(s) < |s|
    ensures f < |s| && s[f].Free?
  {
    f := FreeSlotBelow(s, |s|);
  }

  lemma {:induction false} NoneDead(s: seq<Slot>, n: nat)
    requires n <= |s| && forall i :: 0 <= i < n ==> !s[i].Dead?
    ensures DeadTo(s, n) == 0
  {
    if n > 0 { NoneDead(s, n - 1); }
  }

  lemma {:induction false} AllFree(s: seq<Slot>, n: nat)
    requires n <= |s| && forall i :: 0 <= i < n ==> s[i].Free?
    ensures BagTo(s, n) == multiset{} && DeadTo(s, n) == 0
  {
    if n > 0 { AllFree(s, n - 1); }
  }

  // ---- cyclic positions ------------------------------------------------

  /** `(i + 1) & (n - 1)` */
  function Next(i: nat, n: nat): (r: nat)
    requires i < n
    ensures r < n
  {
    if i + 1 == n then 0 else i + 1
  }

  /** Steps from `b` forward to `i`. */
  function Dist(b: nat, i: nat, n: nat): (d: nat)
    requires b < n && i < n
    ensures d < n
  {
    if b <= i then i - b else i - b + n
  }

  function Home(rehash: Word -> Word, bits: nat, p: Word): (r: nat)
    ensures r < Pow2(bits)
  {
    LowBits(rehash(p), bits)
  }

  /** Slot `j` lies on the way from `b` to `i`, before `i`. */
  predicate Before(b: nat, j: nat, i: nat, n: nat)
    requires b < n && i < n && j < n
  {
    Dist(b, j, n) < Dist(b, i, n)
  }

  /** No free slot lies between `b` and `i`. */
  ghost predicate NoGap(s: seq<Slot>, b: nat, i: nat)
    requires b < |s| && i < |s|
  {
    forall j :: 0 <= j < |s| && Before(b, j, i, |s|) ==> !s[j].Free?
  }

  /** Every entry is found by probing from its home bucket. */
  ghost predicate Reachable(rehash: Word -> Word, bits: nat, s: seq<Slot>)
    requires |s| == Pow2(bits)
  {
    forall i :: 0 <= i < |s| && s[i].Used? ==> NoGap(s, Home(rehash, bits, s[i].p), i)
  }

  ghost predicate AllUsed(s: seq<Slot>, b: nat, i: nat)
    requires b < |s| && i < |s|
  {
    forall j :: 0 <= j < |s| && Before(b, j, i, |s|) ==> s[j].Used?
  }

  /** Filling a slot, or burying an entry, opens no gap. */
  lemma FillKeepsReachable(rehash: Word -> Word, bits: nat, s: seq<Slot>, i: nat, x: Slot)
    requires |s| == Pow2(bits) && Reachable(rehash, bits, s)
    requires i < |s| && !x.Free?
    requires x.Used? ==> NoGap(s, Home(rehash, bits, x.p), i)
    ensures Reachable(rehash, bits, s[i := x])
  {
    var u := s[i := x];
    forall k | 0 <= k < |u| && u[k].Used?
      ensures NoGap(u, Home(rehash, bits, u[k].p), k)
    {
      assert NoGap(s, Home(rehash, bits, u[k].p), k);
    }
  }

  /** A probe that met a free slot has passed every entry of its home bucket. */
  lemma PassedAll(rehash: Word -> Word, bits: nat, s: seq<Slot>, b: nat, f: nat, i: nat)
    requires |s| == Pow2(bits) && Reachable(rehash, bits, s)
    requires b < |s| && f < |s| && i < |s|
    requires s[f].Free?
    requires s[i].Used? && Home(rehash, bits, s[i].p) == b
    ensures Before(b, i, f, |s|)
  {
    assert NoGap(s, b, i);
  }

  /** A probe that has met no free slot yet has not come round. */
  lemma StepOn(s: seq<Slot>, b: nat, i: nat, f: nat)
    requires b < |s| && i < |s| && f < |s|
    requires NoGap(s, b, i) && !s[i].Free? && s[f].Free?
    ensures Next(i, |s|) != b
    ensures Dist(b, Next(i, |s|), |s|) == Dist(b, i, |s|) + 1
    ensures NoGap(s, b, Next(i, |s|))
  {
    assert f != i && !Before(b, f, i, |s|);
  }

  /** A probe over entries only stops before coming round. */
  lemma StepOverUsed(s: seq<Slot>, b: nat, i: nat, f: nat)
    requires b < |s| && i < |s| && f < |s|
    requires AllUsed(s, b, i) && s[i].Used? && !s[f].Used?
    ensures Next(i, |s|) != b
    ensures Dist(b, Next(i, |s|), |s|) == Dist(b, i, |s|) + 1
    ensures AllUsed(s, b, Next(i, |s|))
  {
    assert f != i && !Before(b, f, i, |s|);
  }

  /** No entry with this hash lies from `off` on before `at`. */
  ghost predicate Passed(rehash: Word -> Word, s: seq<Slot>, hash: Word, b: nat, off: nat, at: nat)
    requires b < |s| && off < |s| && at < |s|
  {
    forall j :: 0 <= j < |s| && Dist(b, off, |s|) <= Dist(b, j, |s|) < Dist(b, at, |s|)
      ==> !(s[j].Used? && rehash(s[j].p) == hash)
  }

  lemma PassedNone(rehash: Word -> Word, s: seq<Slot>, hash: Word, b: nat, off: nat)
    requires b < |s| && off < |s|
    ensures Passed(rehash, s, hash, b, off, off)
  {
  }

  lemma PassOne(rehash: Word -> Word, s: seq<Slot>, hash: Word, b: nat, off: nat, at: nat)
    requires b < |s| && off < |s| && at < |s|
    requires Passed(rehash, s, hash, b, off, at)
    requires !(s[at].Used? && rehash(s[at].p) == hash)
    requires Dist(b, Next(at, |s|), |s|) == Dist(b, at, |s|) + 1
    ensures Passed(rehash, s, hash, b, off, Next(at, |s|))
  {
  }

  /** No entry before `at` matches. */
  ghost predicate Missed(compare: (Word, Word) -> bool, obj: Word, s: seq<Slot>, b: nat, at: nat)
    requires b < |s| && at < |s|
  {
    forall j :: 0 <= j < |s| && Before(b, j, at, |s|) && s[j].Used? ==> !compare(obj, s[j].p)
  }

  /** The hash handed to a search is the hash of everything it may match. */
  ghost predicate Agrees(rehash: Word -> Word, compare: (Word, Word) -> bool, obj: Word, hash: Word,
                         m: multiset<Word>) {
    forall p :: p in m && compare(obj, p) ==> rehash(p) == hash
  }

  lemma MissMore(rehash: Word -> Word, compare: (Word, Word) -> bool, obj: Word, hash: Word,
                 s: seq<Slot>, b: nat, off: nat, at: nat)
    requires b < |s| && off < |s| && at < |s|
    requires Agrees(rehash, compare, obj, hash, Bag(s))
    requires Missed(compare, obj, s, b, off) && Passed(rehash, s, hash, b, off, at)
    ensures Missed(compare, obj, s, b, at)
  {
    BagMembers(s);
  }

  lemma MissOne(compare: (Word, Word) -> bool, obj: Word, s: seq<Slot>, b: nat, at: nat)
    requires b < |s| && at < |s|
    requires Missed(compare, obj, s, b, at) && (s[at].Used? ==> !compare(obj, s[at].p))
    requires Dist(b, Next(at, |s|), |s|) == Dist(b, at, |s|) + 1
    ensures Missed(compare, obj, s, b, Next(at, |s|))
  {
  }

  lemma MissedAll(rehash: Word -> Word, compare: (Word, Word) -> bool, obj: Word, hash: Word,
                  bits: nat, s: seq<Slot>, at: nat)
    requires |s| == Pow2(bits) && Reachable(rehash, bits, s)
    requires Agrees(rehash, compare, obj, hash, Bag(s))
    requires at < |s| && s[at].Free? && Missed(compare, obj, s, LowBits(hash, bits), at)
    ensures forall p :: p in Bag(s) ==> !compare(obj, p)
  {
    BagMembers(s);
    forall p | p in Bag(s) && compare(obj, p)
      ensures false
    {
      var i :| 0 <= i < |s| && s[i] == Used(p);
      PassedAll(rehash, bits, s, LowBits(hash, bits), at, i);
    }
  }

  // ---- rehashing in place ----------------------------------------------

  /** Probing never crosses the starting point. */
  ghost predicate NoneCross(rehash: Word -> Word, bits: nat, s: seq<Slot>, start: nat)
    requires |s| == Pow2(bits) && start < |s|
  {
    forall i :: 0 <= i < |s| && s[i].Used? ==>
      Dist(start, Home(rehash, bits, s[i].p), |s|) <= Dist(start, i, |s|)
  }

  /** What was dealt with has no tombstones. */
  ghost predicate NoTombs(s: seq<Slot>, start: nat, done: nat)
    requires start < |s|
  {
    forall i :: 0 <= i < |s| && Dist(start, i, |s|) < done ==> !s[i].Dead?
  }

  /** What was dealt with has no gaps. */
  ghost predicate Packed(rehash: Word -> Word, bits: nat, s: seq<Slot>, start: nat, done: nat)
    requires |s| == Pow2(bits) && start < |s|
  {
    forall i :: 0 <= i < |s| && Dist(start, i, |s|) < done && s[i].Used? ==>
      AllUsed(s, Home(rehash, bits, s[i].p), i)
  }

  /** The state of an in-place rehash that began at the free slot `start` and has
      dealt with the first `done` slots from there. */
  ghost predicate Rehashing(rehash: Word -> Word, bits: nat, s: seq<Slot>, start: nat, done: nat)
    requires |s| == Pow2(bits) && start < |s|
  {
    NoneCross(rehash, bits, s, start) && NoTombs(s, start, done) && Packed(rehash, bits, s, start, done)
  }

  lemma RehashBegins(rehash: Word -> Word, bits: nat, s: seq<Slot>, start: nat)
    requires |s| == Pow2(bits) && start < |s|
    requires Reachable(rehash, bits, s) && s[start].Free?
    ensures Rehashing(rehash, bits, s, start, 0)
  {
    forall i | 0 <= i < |s| && s[i].Used?
      ensures Dist(start, Home(rehash, bits, s[i].p), |s|) <= Dist(start, i, |s|)
    {
      var b := Home(rehash, bits, s[i].p);
      assert NoGap(s, b, i);
      assert !Before(b, start, i, |s|);
    }
  }

  lemma RehashEnds(rehash: Word -> Word, bits: nat, s: seq<Slot>, start: nat)
    requires |s| == Pow2(bits) && start < |s|
    requires Rehashing(rehash, bits, s, start, |s|)
    ensures Reachable(rehash, bits, s)
    ensures forall i :: 0 <= i < |s| ==> !s[i].Dead?
  {
    forall i | 0 <= i < |s| && s[i].Used?
      ensures NoGap(s, Home(rehash, bits, s[i].p), i)
    {
      assert AllUsed(s, Home(rehash, bits, s[i].p), i);
    }
  }

  /** Skipping a free slot, an entry that sits at home, or erasing a tombstone. */
  lemma RehashKeeps(rehash: Word -> Word, bits: nat, s: seq<Slot>, start: nat, done: nat, at: nat)
    requires |s| == Pow2(bits) && start < |s| && at < |s|
    requires Rehashing(rehash, bits, s, start, done) && Dist(start, at, |s|) == done
    requires s[at].Used? ==> Home(rehash, bits, s[at].p) == at
    ensures Rehashing(rehash, bits, if s[at].Dead? then s[at := Free] else s, start, done + 1)
  {
    if s[at].Dead? {
      ClearedStaysPacked(rehash, bits, s, start, done, at);
    }
  }

  /** A probe towards the cleared slot `at` ends there at the latest. */
  lemma MoveTarget(c: seq<Slot>, start: nat, b: nat, at: nat, to: nat)
    requires start < |c| && b < |c| && at < |c| && to < |c|
    requires Dist(start, b, |c|) <= Dist(start, at, |c|)
    requires AllUsed(c, b, to) && !c[at].Used?
    ensures Dist(start, b, |c|) <= Dist(start, to, |c|) <= Dist(start, at, |c|)
  {
    assert !Before(b, at, to, |c|);
  }

  /** Clearing the entry at `at` and putting it into the first slot `to` without
      an entry, counted from its home bucket. */
  lemma RehashMoves(rehash: Word -> Word, bits: nat, s: seq<Slot>, start: nat, done: nat, at: nat, to: nat)
    requires |s| == Pow2(bits) && start < |s| && at < |s| && to < |s|
    requires Rehashing(rehash, bits, s, start, done) && Dist(start, at, |s|) == done
    requires s[at].Used?
    requires AllUsed(s[at := Free], Home(rehash, bits, s[at].p), to) && !s[at := Free][to].Used?
    ensures Rehashing(rehash, bits, s[at := Free][to := s[at]], start, done + 1)
  {
    var c := s[at := Free];
    MoveTarget(c, start, Home(rehash, bits, s[at].p), at, to);
    ClearedStaysPacked(rehash, bits, s, start, done, at);
    FilledStaysPacked(rehash, bits, c, start, done + 1, s[at].p, to);
  }

  lemma ClearedStaysPacked(rehash: Word -> Word, bits: nat, s: seq<Slot>, start: nat, done: nat, at: nat)
    requires |s| == Pow2(bits) && start < |s| && at < |s|
    requires NoneCross(rehash, bits, s, start) && Packed(rehash, bits, s, start, done)
    requires Dist(start, at, |s|) == done
    ensures Packed(rehash, bits, s[at := Free], start, done + 1)
  {
    var c := s[at := Free];
    forall i | 0 <= i < |c| && Dist(start, i, |c|) < done + 1 && c[i].Used?
      ensures AllUsed(c, Home(rehash, bits, c[i].p), i)
    {
      assert AllUsed(s, Home(rehash, bits, s[i].p), i);
      PathStaysDone(|s|, start, Home(rehash, bits, s[i].p), i, at);
    }
  }

  lemma FilledStaysPacked(rehash: Word -> Word, bits: nat, c: seq<Slot>, start: nat, done: nat, p: Word, to: nat)
    requires |c| == Pow2(bits) && start < |c| && to < |c|
    requires Packed(rehash, bits, c, start, done)
    requires AllUsed(c, Home(rehash, bits, p), to)
    ensures Packed(rehash, bits, c[to := Used(p)], start, done)
  {
    var u := c[to := Used(p)];
    forall i | 0 <= i < |u| && Dist(start, i, |u|) < done && u[i].Used?
      ensures AllUsed(u, Home(rehash, bits, u[i].p), i)
    {
      assert AllUsed(c, Home(rehash, bits, u[i].p), i);
    }
  }

  /** The probe path of a slot already dealt with avoids the slots to come. */
  lemma PathStaysDone(n: nat, start: nat, b: nat, i: nat, at: nat)
    requires start < n && b < n && i < n && at < n
    requires Dist(start, b, n) <= Dist(start, i, n) < Dist(start, at, n)
    ensures !Before(b, at, i, n)
  {
  }
}
