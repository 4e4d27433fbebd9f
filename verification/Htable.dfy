/**
 The dynamic hash table with tombstones and tagged pointers
 (src/shared/shl_htable.c). Its buckets are machine words; the ghost field
 `slots` says what they mean, and the table refines the multiset `Contents()`.
 */
module Htable {
  import opened Optional
  import opened TaggedWords
  import opened ProbeTable

  /** calloc() cannot serve `1 << 31` in an int, so growth stops at 30 bits. */
  const MAX_BITS: nat := 30

  /** The word kept in bucket `at`. */
  function Encode(t: Tag, rehash: Word -> Word, x: Slot, at: nat): Word {
    match x
    case Free => ZERO
    case Dead => DELETED
    case Used(p) =>
      Hval(t, p, HashBits(t, rehash(p)).Or(if at == Home(rehash, t.bits, p) then t.perfect else ZERO))
  }

  ghost predicate Encoded(t: Tag, rehash: Word -> Word, table: seq<Word>, s: seq<Slot>) {
    && |table| == |s|
    && forall i :: 0 <= i < |s| ==> table[i] == Encode(t, rehash, s[i], i)
  }

  ghost predicate AllFit(t: Tag, s: seq<Slot>) {
    forall i :: 0 <= i < |s| && s[i].Used? ==> Fits(t, s[i].p)
  }

  /** What reading one bucket tells. */
  lemma ReadBucket(t: Tag, rehash: Word -> Word, x: Slot, at: nat)
    requires WellFormed(t) && (x.Used? ==> Fits(t, x.p))
    ensures var e := Encode(t, rehash, x, at);
      && (x.Free? <==> e == ZERO)
      && (x.Dead? <==> e == DELETED)
      && (x.Used? <==> IsEntry(e))
      && (x.Used? ==>
            && RawPtr(t, e) == x.p
            && ExtraBits(t, e)
               == HashBits(t, rehash(x.p)).Or(if at == Home(rehash, t.bits, x.p) then t.perfect else ZERO)
            && e.And(t.perfect) == if at == Home(rehash, t.bits, x.p) then t.perfect else ZERO)
  {
    if x.Used? {
      EntryDecodes(t, x.p, rehash(x.p), if at == Home(rehash, t.bits, x.p) then t.perfect else ZERO);
    }
  }

  /** The buckets `table` mean the slots `s`. */
  ghost predicate Means(t: Tag, rehash: Word -> Word, table: seq<Word>, s: seq<Slot>) {
    && t.bits <= MAX_BITS
    && |s| == Pow2(t.bits)
    && WellFormed(t)
    && AllFit(t, s)
    && Encoded(t, rehash, table, s)
  }

  lemma PutBucket(t: Tag, rehash: Word -> Word, table: seq<Word>, s: seq<Slot>, at: nat, x: Slot)
    requires Means(t, rehash, table, s) && at < |s|
    requires x.Used? ==> Fits(t, x.p)
    ensures Means(t, rehash, table[at := Encode(t, rehash, x, at)], s[at := x])
  {
  }

  /** The counters of a table with these slots are right and leave room. */
  ghost predicate CountsFit(bits: nat, s: seq<Slot>, elems: nat, deleted: nat, max: nat, maxWithDeleted: nat) {
    && elems == |Bag(s)|
    && DeadCount(s) <= deleted
    && elems <= max
    && elems + deleted <= maxWithDeleted < |s|
    && max == MaxFor(bits)
    && maxWithDeleted == MaxWithDeletedFor(bits)
  }

  lemma EmptyMeans(t: Tag, rehash: Word -> Word, table: seq<Word>, s: seq<Slot>)
    requires WellFormed(t) && t.bits <= MAX_BITS && |table| == |s| == Pow2(t.bits)
    requires forall i :: 0 <= i < |s| ==> s[i].Free? && table[i] == ZERO
    ensures Means(t, rehash, table, s) && Reachable(rehash, t.bits, s)
    ensures Bag(s) == multiset{} && DeadCount(s) == 0
  {
    AllFree(s, |s|);
  }

  /** What a bucket is taken for. */
  function Read(t: Tag, w: Word): Slot {
    if w == ZERO then Free else if w == DELETED then Dead else Used(RawPtr(t, w))
  }

  /** What the words of a table are taken for, whether or not they were meant so. */
  ghost function Decoded(t: Tag, table: seq<Word>): (s: seq<Slot>)
    ensures |s| == |table|
  {
    seq(|table|, i requires 0 <= i < |table| => Read(t, table[i]))
  }

  /** In a sound table the words are taken for what was meant. */
  lemma DecodedMeans(t: Tag, rehash: Word -> Word, table: seq<Word>, s: seq<Slot>)
    requires Means(t, rehash, table, s)
    ensures Decoded(t, table) == s
  {
    forall i | 0 <= i < |s|
      ensures Read(t, table[i]) == s[i]
    {
      ReadBucket(t, rehash, s[i], i);
    }
  }

  /** Writing the word for `p` adds it to what the table is taken for exactly if the word
      is taken for an entry. */
  lemma DecodedAdds(t: Tag, rehash: Word -> Word, table: seq<Word>, s: seq<Slot>, p: Word, at: nat)
    requires Means(t, rehash, table, s) && at < |s| && !s[at].Used? && p.And(t.mask) == t.common
    ensures |table| == |s|
    ensures var w := Encode(t, rehash, Used(p), at);
      Bag(Decoded(t, table[at := w])) == Bag(s) + if IsEntry(w) then multiset{p} else multiset{}
  {
    hide Bag;
    var w := Encode(t, rehash, Used(p), at);
    DecodedMeans(t, rehash, table, s);
    DecodesAnyway(t, p, rehash(p), if at == Home(rehash, t.bits, p) then t.perfect else ZERO);
    assert Decoded(t, table[at := w]) == s[at := Read(t, w)];
    BagUpdate(s, at, Read(t, w));
    assert Bag(s) - multiset{} == Bag(s);
  }

  /** Burying an entry keeps a table's invariant. */
  lemma Bury(t: Tag, rehash: Word -> Word, table: seq<Word>, s: seq<Slot>, at: nat,
             elems: nat, deleted: nat, max: nat, maxWithDeleted: nat)
    requires Means(t, rehash, table, s) && Reachable(rehash, t.bits, s)
    requires CountsFit(t.bits, s, elems, deleted, max, maxWithDeleted)
    requires at < |s| && s[at].Used?
    ensures elems > 0
    ensures Means(t, rehash, table[at := DELETED], s[at := Dead]) && Reachable(rehash, t.bits, s[at := Dead])
    ensures CountsFit(t.bits, s[at := Dead], elems - 1, deleted + 1, max, maxWithDeleted)
    ensures Bag(s[at := Dead]) == Bag(s) - multiset{s[at].p}
  {
    BagUpdate(s, at, Dead);
    DeadUpdate(s, at, Dead, |s|);
    PutBucket(t, rehash, table, s, at, Dead);
    FillKeepsReachable(rehash, t.bits, s, at, Dead);
  }

  /** Putting a pointer into the first bucket without an entry keeps everything findable. */
  lemma Place(t: Tag, rehash: Word -> Word, table: seq<Word>, s: seq<Slot>, p: Word, at: nat)
    requires Means(t, rehash, table, s) && Reachable(rehash, t.bits, s)
    requires Fits(t, p)
    requires at < |s| && !s[at].Used? && AllUsed(s, Home(rehash, t.bits, p), at)
    ensures Means(t, rehash, table[at := Encode(t, rehash, Used(p), at)], s[at := Used(p)])
    ensures Reachable(rehash, t.bits, s[at := Used(p)])
    ensures Bag(s[at := Used(p)]) == Bag(s) + multiset{p}
    ensures DeadCount(s[at := Used(p)]) <= DeadCount(s)
  {
    BagUpdate(s, at, Used(p));
    DeadUpdate(s, at, Used(p), |s|);
    PutBucket(t, rehash, table, s, at, Used(p));
    FillKeepsReachable(rehash, t.bits, s, at, Used(p));
  }

  lemma EraseTomb(t: Tag, rehash: Word -> Word, table: seq<Word>, s: seq<Slot>, start: nat, done: nat, h: nat)
    requires Means(t, rehash, table, s) && start < |s| && h < |s|
    requires Rehashing(rehash, t.bits, s, start, done) && Dist(start, h, |s|) == done
    requires s[h].Dead?
    ensures Means(t, rehash, table[h := ZERO], s[h := Free])
    ensures Rehashing(rehash, t.bits, s[h := Free], start, done + 1)
    ensures Bag(s[h := Free]) == Bag(s)
  {
    RehashKeeps(rehash, t.bits, s, start, done, h);
    PutBucket(t, rehash, table, s, h, Free);
    BagUpdate(s, h, Free);
  }

  lemma MoveEntry(t: Tag, rehash: Word -> Word, table: seq<Word>, s: seq<Slot>, start: nat, done: nat, h: nat, at: nat)
    requires Means(t, rehash, table, s) && start < |s| && h < |s| && at < |s|
    requires Rehashing(rehash, t.bits, s, start, done) && Dist(start, h, |s|) == done
    requires s[h].Used?
    requires AllUsed(s[h := Free], Home(rehash, t.bits, s[h].p), at) && !s[h := Free][at].Used?
    ensures Means(t, rehash, table[h := ZERO][at := Encode(t, rehash, s[h], at)], s[h := Free][at := s[h]])
    ensures Rehashing(rehash, t.bits, s[h := Free][at := s[h]], start, done + 1)
    ensures Bag(s[h := Free][at := s[h]]) == Bag(s)
  {
    RehashMoves(rehash, t.bits, s, start, done, h, at);
    PutBucket(t, rehash, table, s, h, Free);
    PutBucket(t, rehash, table[h := ZERO], s[h := Free], at, s[h]);
    BagUpdate(s, h, Free);
    BagUpdate(s[h := Free], at, s[h]);
  }

  /** Rewriting every bucket for the smaller mask keeps what the table means. */
  lemma ShrinkMeans(t: Tag, rehash: Word -> Word, table: seq<Word>, s: seq<Slot>, p: Word, after: seq<Word>)
    requires Means(t, rehash, table, s) && |after| == |table|
    requires forall i :: 0 <= i < |table| ==> after[i] == Rewritten(t, p, table[i])
    ensures Means(Shrink(t, p), rehash, after, s)
  {
    ShrinkAgrees(t, p);
    forall i | 0 <= i < |s|
      ensures after[i] == Encode(Shrink(t, p), rehash, s[i], i)
      ensures s[i].Used? ==> Fits(Shrink(t, p), s[i].p)
    {
      ReadBucket(t, rehash, s[i], i);
      if s[i].Used? {
        ShrinkKeepsEntry(t, p, s[i].p, rehash(s[i].p),
                         if i == Home(rehash, t.bits, s[i].p) then t.perfect else ZERO);
      }
    }
  }

  /** What the shrinking loop makes of one bucket. */
  function Rewritten(t: Tag, p: Word, e: Word): Word {
    if IsEntry(e) then e.AndNot(MaskDiff(t, p)).Or(t.common.And(MaskDiff(t, p))) else e
  }

  lemma MaxOrder(bits: nat)
    ensures MaxFor(bits) <= MaxWithDeletedFor(bits) < Pow2(bits)
  {
    if bits > 0 { assert Pow2(bits) == 2 * Pow2(bits - 1); }
  }

  lemma RoomAfterDoubling(bits: nat, s: seq<Slot>, elems: nat, deleted: nat, max: nat, maxWithDeleted: nat)
    requires CountsFit(bits, s, elems, deleted, max, maxWithDeleted)
    ensures elems == |Bag(s)| && elems < MaxFor(bits + 1) && elems < Pow2(bits + 1)
  {
    MaxOrder(bits + 1);
    if bits > 0 { assert Pow2(bits) == 2 * Pow2(bits - 1); }
  }

  lemma CountsAfterDoubling(bits: nat, s: seq<Slot>, elems: nat)
    requires bits > 0 && |s| == Pow2(bits)
    requires elems == |Bag(s)| && elems < MaxFor(bits) && DeadCount(s) == 0
    ensures CountsFit(bits, s, elems, 0, MaxFor(bits), MaxWithDeletedFor(bits))
  {
    MaxOrder(bits);
  }

  function MaxFor(bits: nat): nat {
    if bits == 0 then 0 else 3 * Pow2(bits) / 4
  }

  function MaxWithDeletedFor(bits: nat): nat {
    if bits == 0 then 0 else 9 * Pow2(bits) / 10
  }

  class Htable {
    const rehash: Word -> Word
    const compare: (Word, Word) -> bool

    var bits: nat
    var elems: nat
    var deleted: nat
    var max: nat
    var maxWithDeleted: nat
    var mask: Word
    var common: Word
    var perfect: Word
    var table: array<Word>

    ghost var slots: seq<Slot>

    function GetTag(): Tag
      reads this
    {
      Tag(bits, mask, common, perfect)
    }

    ghost function Contents(): multiset<Word>
      reads this
    {
      Bag(slots)
    }

    /** What the words of the table are taken for. */
    ghost function Words(): multiset<Word>
      reads this, table
    {
      Bag(Decoded(GetTag(), table[..]))
    }

    ghost predicate Sound()
      reads this, table
    {
      Means(GetTag(), rehash, table[..], slots)
    }

    ghost predicate Valid()
      reads this, table
    {
      && Sound()
      && CountsFit(bits, slots, elems, deleted, max, maxWithDeleted)
      && Reachable(rehash, bits, slots)
    }

    /** The fresh table: one bucket, which the source overlays on `perfect_bit`. */
    constructor (rehash: Word -> Word, compare: (Word, Word) -> bool)
      ensures Valid() && fresh(table)
      ensures Contents() == multiset{} && elems == 0
      ensures GetTag() == Tag(0, Ones(WORD_BITS), ZERO, ZERO)
      ensures this.rehash == rehash && this.compare == compare
    {
      this.rehash := rehash;
      this.compare := compare;
      bits, elems, deleted, max, maxWithDeleted := 0, 0, 0, 0, 0;
      mask, common, perfect := Ones(WORD_BITS), ZERO, ZERO;
      table := new Word[1](_ => ZERO);
      slots := [Free];
    }

    /** Every table has exact counters that leave an empty bucket for probes to end at. */
    lemma Counters()
      requires Valid()
      ensures elems == |Contents()| && DeadCount(slots) <= deleted
      ensures elems + deleted <= maxWithDeleted < Pow2(bits) == table.Length
      ensures exists i :: 0 <= i < table.Length && table[i] == ZERO
    {
      var f := FreeSlotExists(slots);
      ReadBucket(GetTag(), rehash, slots[f], f);
      assert table[..][f] == ZERO;
    }

    /** In a valid table these are its contents. */
    lemma WordsAreContents()
      requires Valid()
      ensures Words() == Contents()
    {
      hide Bag;
      DecodedMeans(GetTag(), rehash, table[..], slots);
    }

    /** A table without room that cannot grow is as full as a table can get. */
    lemma Full()
      requires Valid()
      ensures elems >= max && bits >= MAX_BITS ==> |Contents()| >= MaxFor(MAX_BITS)
    {
      hide Reachable;
    }

    /** `htable_val`: probe on from `off` for an entry with matching extra bits. `f` is
        some free bucket. */
    method Val(off: nat, hash: Word, first: Word, ghost f: nat) returns (at: nat, c: Option<Word>)
      requires Sound() && f < |slots| && slots[f].Free?
      requires off < |slots| && NoGap(slots, LowBits(hash, bits), off)
      requires first == if off == LowBits(hash, bits) then perfect else ZERO
      ensures at < |slots|
      ensures NoGap(slots, LowBits(hash, bits), at)
      ensures Dist(LowBits(hash, bits), off, |slots|) <= Dist(LowBits(hash, bits), at, |slots|)
      ensures c.None? ==> slots[at].Free?
      ensures c.Some? ==> slots[at] == Used(c.value)
      ensures Passed(rehash, slots, hash, LowBits(hash, bits), off, at)
    {
      hide Means, Encode, NoGap, Passed, HashBits;
      ghost var home := LowBits(hash, bits);
      var h2 := HashBits(GetTag(), hash).Or(first);
      at := off;
      ReadAt(at);
      PassedNone(rehash, slots, hash, home, off);
      while table[at] != ZERO
        invariant at < |slots| && NoGap(slots, home, at)
        invariant Dist(home, off, |slots|) <= Dist(home, at, |slots|)
        invariant h2 == HashBits(GetTag(), hash).Or(if at == home then perfect else ZERO)
        invariant Passed(rehash, slots, hash, home, off, at)
        decreases |slots| - Dist(home, at, |slots|)
      {
        ReadAt(at);
        if table[at] != DELETED {
          if ExtraBits(GetTag(), table[at]) == h2 {
            return at, Some(RawPtr(GetTag(), table[at]));
          }
        }
        StepOn(slots, home, at, f);
        PassOne(rehash, slots, hash, home, off, at);
        DropFirst(GetTag(), hash, if at == home then perfect else ZERO, first);
        at := Next(at, table.Length);
        h2 := h2.AndNot(first);
      }
      ReadAt(at);
      c := None;
    }

    /** What the bucket at `at` tells. */
    lemma ReadAt(at: nat)
      requires Sound() && at < |slots|
      ensures at < table.Length == |slots| == Pow2(bits)
      ensures slots[at].Free? <==> table[at] == ZERO
      ensures slots[at].Dead? <==> table[at] == DELETED
      ensures slots[at].Used? ==>
        && RawPtr(GetTag(), table[at]) == slots[at].p
        && ExtraBits(GetTag(), table[at])
           == HashBits(GetTag(), rehash(slots[at].p))
                .Or(if at == Home(rehash, bits, slots[at].p) then perfect else ZERO)
    {
      ReadBucket(GetTag(), rehash, slots[at], at);
    }

    /** The loop shared by `shl_htable_lookup` and `shl_htable_remove`. */
    method Find(obj: Word, hash: Word) returns (found: bool, at: nat, c: Word)
      requires Valid() && Agrees(rehash, compare, obj, hash, Contents())
      ensures found ==> at < |slots| && slots[at] == Used(c) && compare(obj, c)
      ensures !found ==> forall p :: p in Contents() ==> !compare(obj, p)
    {
      ghost var home := LowBits(hash, bits);
      ghost var f := FreeSlotExists(slots);
      var off, next := LowBits(hash, bits), None;
      at, next := Val(off, hash, perfect, f);
      MissMore(rehash, compare, obj, hash, slots, home, off, at);
      while next.Some?
        invariant at < |slots| && NoGap(slots, home, at)
        invariant slots[at] == if next.Some? then Used(next.value) else Free
        invariant Missed(compare, obj, slots, home, at)
        decreases |slots| - Dist(home, at, |slots|)
      {
        if compare(obj, next.value) {
          return true, at, next.value;
        }
        StepOn(slots, home, at, f);
        MissOne(compare, obj, slots, home, at);
        off := Next(at, table.Length);
        at, next := Val(off, hash, ZERO, f);
        MissMore(rehash, compare, obj, hash, slots, home, off, at);
      }
      MissedAll(rehash, compare, obj, hash, bits, slots, at);
      return false, at, ZERO;
    }

    /** `shl_htable_lookup`: finds a matching element exactly when one is stored. */
    method Lookup(obj: Word, hash: Word) returns (found: bool, out: Word)
      requires Valid() && Agrees(rehash, compare, obj, hash, Contents())
      ensures found <==> exists p :: p in Contents() && compare(obj, p)
      ensures found ==> out in Contents() && compare(obj, out)
    {
      var at;
      found, at, out := Find(obj, hash);
      BagMembers(slots);
    }

    /** `htable_delval`: buries the entry at `at`. */
    method DelVal(at: nat)
      requires Valid() && at < |slots| && slots[at].Used?
      modifies this`elems, this`deleted, this`slots, table
      ensures Valid()
      ensures slots == old(slots)[at := Dead]
    {
      Bury(GetTag(), rehash, table[..], slots, at, elems, deleted, max, maxWithDeleted);
      elems := elems - 1;
      table[at] := DELETED;
      deleted := deleted + 1;
      slots := slots[at := Dead];
      assert table[..] == old(table[..])[at := DELETED];
    }

    /** `shl_htable_remove`: takes out exactly one matching occurrence. */
    method Remove(obj: Word, hash: Word) returns (found: bool, out: Word)
      requires Valid() && Agrees(rehash, compare, obj, hash, Contents())
      modifies this`elems, this`deleted, this`slots, table
      ensures Valid()
      ensures found <==> exists p :: p in old(Contents()) && compare(obj, p)
      ensures found ==> out in old(Contents()) && compare(obj, out)
      ensures Contents() == if found then old(Contents()) - multiset{out} else old(Contents())
    {
      var at;
      found, at, out := Find(obj, hash);
      if found {
        BagUpdate(slots, at, Dead);
        DelVal(at);
      }
    }

    /** `ht_add`: puts the pointer into the first bucket without an entry, counted
        from its home bucket. `f` is some bucket without an entry. */
    method AddEntry(p: Word, hash: Word, ghost f: nat) returns (at: nat)
      requires Sound()
      requires hash == rehash(p)
      requires f < |slots| && !slots[f].Used?
      modifies table
      ensures at < |slots| && !slots[at].Used?
      ensures AllUsed(slots, Home(rehash, bits, p), at)
      ensures table[..] == old(table[..])[at := Encode(GetTag(), rehash, Used(p), at)]
    {
      ghost var home := Home(rehash, bits, p);
      var mark := perfect;
      at := LowBits(hash, bits);
      ReadBucket(GetTag(), rehash, slots[at], at);
      while IsEntry(table[at])
        invariant at < |slots| && AllUsed(slots, home, at)
        invariant mark == if at == home then perfect else ZERO
        invariant table[..] == old(table[..])
        invariant slots[at].Used? <==> IsEntry(table[at])
        decreases |slots| - Dist(home, at, |slots|)
      {
        StepOverUsed(slots, home, at, f);
        mark := ZERO;
        at := Next(at, table.Length);
        ReadBucket(GetTag(), rehash, slots[at], at);
      }
      table[at] := Hval(GetTag(), p, HashBits(GetTag(), hash).Or(mark));
    }

    /** `update_common` on a table without entries: the pointer sets the encoding. */
    method FirstCommon(p: Word)
      requires Sound() && Bag(slots) == multiset{} && IsPointer(p)
      modifies this`mask, this`common, this`perfect
      ensures GetTag() == FirstTag(bits, p) && Sound()
    {
      BagMembers(slots);
      FirstTagFits(bits, p);
      var i: nat := WORD_BITS - 1;
      while i > 0 && i !in p.ones
        invariant i < WORD_BITS && TopBit(p, i) == TopBit(p, WORD_BITS - 1)
      {
        i := i - 1;
      }
      mask := Ones(WORD_BITS).AndNot(Bit(i));
      common := p.And(mask);
      perfect := Bit(0);
    }

    /** `update_common` on a table with entries: they get back the bits in which the
        pointer differs from the common ones. */
    method ShrinkCommon(p: Word)
      requires Sound()
      modifies this`mask, this`common, this`perfect, table
      ensures GetTag() == Shrink(old(GetTag()), p) && Sound()
    {
      hide Means;
      ghost var t, was := GetTag(), table[..];
      var maskDiff := common.Xor(p.And(mask));
      var bitsDiff := common.And(maskDiff);
      var i := 0;
      while i < table.Length
        invariant 0 <= i <= table.Length && GetTag() == t
        invariant forall j :: 0 <= j < i ==> table[j] == Rewritten(t, p, was[j])
        invariant forall j :: i <= j < table.Length ==> table[j] == was[j]
      {
        if IsEntry(table[i]) {
          table[i] := table[i].AndNot(maskDiff).Or(bitsDiff);
        }
        i := i + 1;
      }
      ShrinkMeans(t, rehash, was, slots, p, table[..]);
      mask := mask.AndNot(maskDiff);
      common := common.AndNot(maskDiff);
      perfect := perfect.AndNot(maskDiff);
    }

    /** `rehash_table`: walks once round from the first empty bucket, erases the
        tombstones and puts every entry that is not at home in again. */
    method RehashTable()
      requires Valid()
      modifies this`deleted, this`slots, table
      ensures Sound() && Reachable(rehash, bits, slots)
      ensures Contents() == old(Contents()) && |slots| == old(|slots|)
      ensures deleted == 0 && DeadCount(slots) == 0
    {
      ghost var f := FreeSlotExists(slots);
      var start := FirstEmpty(f);
      RehashBegins(rehash, bits, slots, start);
      var i := 0;
      while i < table.Length
        invariant 0 <= i <= table.Length
        invariant Sound() && |slots| == old(|slots|)
        invariant Rehashing(rehash, bits, slots, start, i)
        invariant Contents() == old(Contents())
      {
        var h := if start + i < table.Length then start + i else start + i - table.Length;
        RehashBucket(start, i, h);
        i := i + 1;
      }
      RehashEnds(rehash, bits, slots, start);
      NoneDead(slots, |slots|);
      deleted := 0;
    }

    method FirstEmpty(ghost f: nat) returns (start: nat)
      requires Sound() && f < |slots| && slots[f].Free?
      ensures start < |slots| && slots[start].Free?
    {
      start := 0;
      ReadBucket(GetTag(), rehash, slots[start], start);
      while table[start] != ZERO
        invariant start <= f
        invariant table[start] == ZERO <==> slots[start].Free?
        decreases f - start
      {
        assert start != f;
        start := start + 1;
        ReadBucket(GetTag(), rehash, slots[start], start);
      }
    }

    /** The body of the loop in `rehash_table` for bucket `h`. */
    method RehashBucket(ghost start: nat, ghost done: nat, h: nat)
      requires Sound() && start < |slots| && h < |slots|
      requires Rehashing(rehash, bits, slots, start, done) && Dist(start, h, |slots|) == done
      modifies this`slots, table
      ensures Sound() && |slots| == old(|slots|)
      ensures Rehashing(rehash, bits, slots, start, done + 1)
      ensures Contents() == old(Contents())
    {
      ghost var t, was, s := GetTag(), table[..], slots;
      var e := table[h];
      ReadBucket(t, rehash, s[h], h);
      if e == ZERO {
        RehashKeeps(rehash, bits, s, start, done, h);
      } else if e == DELETED {
        EraseTomb(t, rehash, was, s, start, done, h);
        table[h] := ZERO;
        slots := s[h := Free];
        assert table[..] == was[h := ZERO];
      } else if e.And(perfect) == ZERO {
        var p := RawPtr(GetTag(), e);
        table[h] := ZERO;
        slots := s[h := Free];
        assert table[..] == was[h := ZERO];
        PutBucket(t, rehash, was, s, h, Free);
        var at := AddEntry(p, rehash(p), h);
        MoveEntry(t, rehash, was, s, start, done, h, at);
        slots := slots[at := Used(p)];
      } else {
        RehashKeeps(rehash, bits, s, start, done, h);
      }
    }

    /** The lowest common bit becomes the perfect bit again if it was lost. */
    method RegainPerfect()
      requires WellFormed(GetTag())
      modifies this`perfect
      ensures WellFormed(GetTag())
      ensures old(perfect) != ZERO ==> perfect == old(perfect)
    {
      if perfect == ZERO && mask != ZERO {
        for i: nat := 0 to WORD_BITS
          invariant perfect == ZERO
        {
          if i in mask.ones {
            perfect := Bit(i);
            break;
          }
        }
      }
    }

    /** `ht_add`, seen from outside. */
    method Store(p: Word, hash: Word, ghost f: nat) returns (ghost at: nat)
      requires Sound() && Reachable(rehash, bits, slots)
      requires hash == rehash(p)
      requires f < |slots| && !slots[f].Used?
      modifies this`slots, table
      ensures at < |old(slots)| && !old(slots)[at].Used?
      ensures table[..] == old(table[..])[at := Encode(GetTag(), rehash, Used(p), at)]
      ensures Fits(GetTag(), p) ==>
                && Sound() && Reachable(rehash, bits, slots) && |slots| == old(|slots|)
                && Bag(slots) == old(Bag(slots)) + multiset{p}
                && DeadCount(slots) <= old(DeadCount(slots))
    {
      at := AddEntry(p, hash, f);
      if Fits(GetTag(), p) {
        Place(GetTag(), rehash, old(table[..]), slots, p, at);
        slots := slots[at := Used(p)];
      }
    }

    /** The copying loop of `double_table` into the empty table. */
    method CopyEntries(from: array<Word>, ghost t: Tag, ghost s: seq<Slot>)
      requires Means(t, rehash, from[..], s) && |Bag(s)| < |slots|
      requires mask == t.mask && common == t.common
      requires Sound() && Reachable(rehash, bits, slots) && from != table
      requires Bag(slots) == multiset{} && DeadCount(slots) == 0
      modifies this`slots, table
      ensures Sound() && Reachable(rehash, bits, slots)
      ensures Bag(slots) == Bag(s) && DeadCount(slots) == 0
    {
      hide BagTo, DeadCount;
      BagStep(s, 0);
      var i := 0;
      while i < from.Length
        invariant 0 <= i <= from.Length
        invariant Sound() && Reachable(rehash, bits, slots) && |slots| == old(|slots|)
        invariant Bag(slots) == BagTo(s, i) && DeadCount(slots) == 0
      {
        ReadBucket(t, rehash, s[i], i);
        BagGrows(s, i, |s|);
        BagStep(s, i);
        if IsEntry(from[i]) {
          var p := RawPtr(GetTag(), from[i]);
          ghost var f := FreeSlotExists(slots);
          ghost var at := Store(p, rehash(p), f);
        }
        i := i + 1;
      }
    }

    /** `double_table`: all entries move to a table twice as large. */
    method DoubleTable(alloc: bool) returns (ok: bool)
      requires Valid()
      modifies this`bits, this`deleted, this`max, this`maxWithDeleted, this`perfect, this`table, this`slots
      ensures ok == (alloc && old(bits) < MAX_BITS)
      ensures old(perfect) != ZERO ==> perfect == old(perfect)
      ensures !ok ==> unchanged(this)
      ensures ok ==> Valid() && fresh(table) && bits == old(bits) + 1 && elems < max && deleted == 0
      ensures Contents() == old(Contents())
    {
      if !alloc || bits >= MAX_BITS {
        return false;
      }
      RoomAfterDoubling(bits, slots, elems, deleted, max, maxWithDeleted);
      Enlarge();
      CountsAfterDoubling(bits, slots, elems);
      return true;
    }

    method Enlarge()
      requires Sound() && bits < MAX_BITS && |Bag(slots)| < Pow2(bits + 1)
      modifies this`bits, this`deleted, this`max, this`maxWithDeleted, this`perfect, this`table, this`slots
      ensures Sound() && Reachable(rehash, bits, slots) && fresh(table)
      ensures old(perfect) != ZERO ==> perfect == old(perfect)
      ensures Bag(slots) == old(Bag(slots)) && DeadCount(slots) == 0 && deleted == 0
      ensures bits == old(bits) + 1 && max == MaxFor(bits) && maxWithDeleted == MaxWithDeletedFor(bits)
    {
      var oldTable := table;
      ghost var t, s := GetTag(), slots;
      EmptyTable(bits + 1);
      CopyEntries(oldTable, t, s);
    }

    /** The larger table before anything is copied into it. */
    method EmptyTable(newBits: nat)
      requires WellFormed(GetTag()) && 0 < newBits <= MAX_BITS
      modifies this`bits, this`deleted, this`max, this`maxWithDeleted, this`perfect, this`table, this`slots
      ensures Sound() && Reachable(rehash, bits, slots) && fresh(table)
      ensures old(perfect) != ZERO ==> perfect == old(perfect)
      ensures Bag(slots) == multiset{} && DeadCount(slots) == 0 && deleted == 0
      ensures bits == newBits && max == MaxFor(bits) && maxWithDeleted == MaxWithDeletedFor(bits)
    {
      hide Means, Reachable, Bag, DeadCount;
      var size := Pow2(newBits);
      table := new Word[size](_ => ZERO);
      bits := newBits;
      max := 3 * size / 4;
      maxWithDeleted := 9 * size / 10;
      RegainPerfect();
      slots := seq(size, _ => Free);
      EmptyMeans(GetTag(), rehash, table[..], slots);
      deleted := 0;
    }

    /** The part of `htable_add` that makes room for one more entry. */
    method MakeRoom(alloc: bool) returns (ok: bool)
      requires Valid()
      modifies this, table
      ensures ok == (old(elems) < old(max) || (alloc && old(bits) < MAX_BITS))
      ensures Valid() && Contents() == old(Contents())
      ensures table == old(table) || fresh(table)
      ensures old(perfect) != ZERO ==> perfect == old(perfect)
      ensures elems == old(elems) && mask == old(mask) && common == old(common)
      ensures old(bits) <= bits <= old(bits) + 1
      ensures ok ==> elems < max && elems + deleted < maxWithDeleted
      ensures !ok ==> table == old(table)
    {
      ok := true;
      if elems + 1 > max {
        ok := DoubleTable(alloc);
        if !ok {
          return;
        }
      }
      MaxOrder(bits);
      if elems + 1 + deleted > maxWithDeleted {
        RehashTable();
      }
    }

    /** The part of `htable_add` that adapts the encoding to the pointer. */
    method Adapt(p: Word)
      requires Valid() && IsPointer(p)
      modifies this`mask, this`common, this`perfect, table
      ensures Valid()
      ensures GetTag() == NextTag(old(GetTag()), elems, p)
      ensures p.And(mask) == common
    {
      if p.And(mask) != common {
        if elems == 0 {
          FirstTagFits(bits, p);
          FirstCommon(p);
        } else {
          ShrinkAgrees(GetTag(), p);
          ShrinkCommon(p);
        }
      }
    }

    /** The part of `htable_add` that stores and counts the pointer. */
    method Append(p: Word, hash: Word) returns (ghost at: nat)
      requires Valid() && hash == rehash(p) && p.And(mask) == common
      requires elems < max && elems + deleted < maxWithDeleted
      modifies this`elems, this`slots, table
      ensures Fits(GetTag(), p) ==> Valid() && Contents() == old(Contents()) + multiset{p}
      ensures at < table.Length && table[at] == Encode(GetTag(), rehash, Used(p), at)
      ensures Words() == old(Contents()) + if IsEntry(table[at]) then multiset{p} else multiset{}
      ensures elems == old(elems) + 1
    {
      hide Bag, DeadCount;
      ghost var f := FreeSlotExists(slots);
      ghost var was := table[..];
      at := Store(p, hash, f);
      DecodedAdds(GetTag(), rehash, was, old(slots), p, at);
      elems := elems + 1;
    }

    /** `shl_htable_insert`: fails only when it has to grow and cannot; otherwise the
        pointer is added, exactly if it shows a bit above bit zero. */
    method Insert(p: Word, hash: Word, alloc: bool) returns (ok: bool)
      requires Valid() && IsPointer(p) && hash == rehash(p)
      modifies this, table
      ensures ok == (old(elems) < old(max) || (alloc && old(bits) < MAX_BITS))
      ensures !ok ==> Valid() && Contents() == old(Contents()) && table == old(table)
      ensures !ok ==> elems == old(elems) && mask == old(mask) && common == old(common)
      ensures ok ==>
        var t := NextTag(old(GetTag()), old(elems), p);
        && mask == t.mask && common == t.common && old(bits) <= bits <= old(bits) + 1
        && (old(perfect) != ZERO || (old(elems) == 0 && p.And(old(mask)) != old(common)) ==> perfect == t.perfect)
      ensures table == old(table) || fresh(table)
      ensures ok ==>
        (Shows(NextTag(old(GetTag()), old(elems), p).mask, p)
         <==> Valid() && Contents() == old(Contents()) + multiset{p})
      ensures ok ==> elems == old(elems) + 1 && WroteWord(p, old(Contents()))
    {
      hide Means, CountsFit, Reachable, Bag, IsPointer, Encode, Decoded;
      ok := MakeRoom(alloc);
      if !ok {
        return;
      }
      Adapt(p);
      ghost var at := Append(p, hash);
      assert WroteAt(p, old(Contents()), at);
      if Valid() && p in Contents() {
        StoredShows(p);
      }
    }

    /** The word for `p` is in some bucket, and what the table is taken for has `p` more
        than `before` exactly if that word is taken for an entry. */
    ghost predicate WroteWord(p: Word, before: multiset<Word>)
      reads this, table
    {
      exists at :: 0 <= at < table.Length && WroteAt(p, before, at)
    }

    ghost predicate WroteAt(p: Word, before: multiset<Word>, at: nat)
      reads this, table
      requires at < table.Length
    {
      && table[at] == Encode(GetTag(), rehash, Used(p), at)
      && Words() == before + if IsEntry(table[at]) then multiset{p} else multiset{}
    }

    /** Whatever is stored can be told apart from the markers. */
    lemma StoredShows(p: Word)
      requires Valid() && p in Contents()
      ensures Shows(mask, p)
    {
      BagMembers(slots);
    }

    /** `shl_htable_this_or_next`: the first entry from `i` on. */
    method ThisOrNext(i: nat) returns (r: Option<nat>)
      requires Sound()
      ensures r.Some? ==> i <= r.value < |slots| && slots[r.value].Used?
      ensures r.None? && i <= |slots| ==> NoneUsed(slots, i, |slots|)
      ensures r.Some? ==> NoneUsed(slots, i, r.value)
    {
      var k := i;
      while k < table.Length
        invariant i <= k && (k <= |slots| ==> NoneUsed(slots, i, k))
        invariant i <= |slots| ==> k <= |slots|
      {
        ReadBucket(GetTag(), rehash, slots[k], k);
        if IsEntry(table[k]) {
          return Some(k);
        }
        k := k + 1;
      }
      return None;
    }

    /** `shl_htable_get_entry` */
    method GetEntry(i: nat) returns (r: Option<Word>)
      requires Sound()
      ensures r == if i < |slots| && slots[i].Used? then Some(slots[i].p) else None
    {
      if i < table.Length {
        ReadBucket(GetTag(), rehash, slots[i], i);
        if IsEntry(table[i]) {
          return Some(RawPtr(GetTag(), table[i]));
        }
      }
      return None;
    }

    /** `SHL_HTABLE_FOREACH`: visits every stored occurrence exactly once. */
    method Visit() returns (out: seq<Word>)
      requires Sound()
      ensures multiset(out) == Contents()
    {
      hide BagTo;
      BagStep(slots, 0);
      out := [];
      var i: nat := 0;
      var at := ThisOrNext(i);
      while at.Some?
        invariant i <= |slots|
        invariant at.Some? ==> i <= at.value < |slots| && slots[at.value].Used?
        invariant NoneUsed(slots, i, if at.Some? then at.value else |slots|)
        invariant multiset(out) == BagTo(slots, i)
        decreases |slots| - i
      {
        NoneUsedBetween(slots, i, at.value);
        BagStep(slots, at.value);
        var e := GetEntry(at.value);
        out := out + [e.value];
        i := at.value + 1;
        at := ThisOrNext(i);
      }
      NoneUsedBetween(slots, i, |slots|);
    }
  }

  // ---- whole runs ------------------------------------------------------

  datatype Op = OpInsert(p: Word, alloc: bool) | OpRemove(obj: Word) | OpLookup(obj: Word)
  datatype Res = ResInsert(ok: bool) | ResFound(found: bool, out: Word)

  /** What one operation does to a plain multiset of pointers. */
  ghost predicate Follows(compare: (Word, Word) -> bool, op: Op, res: Res, m: multiset<Word>, m': multiset<Word>) {
    match op
    case OpInsert(p, alloc) =>
      res.ResInsert? && (alloc ==> res.ok || |m| >= MaxFor(MAX_BITS))
      && m' == if res.ok then m + multiset{p} else m
    case OpRemove(obj) =>
      res.ResFound? && Matches(compare, obj, res, m)
      && m' == if res.found then m - multiset{res.out} else m
    case OpLookup(obj) =>
      res.ResFound? && Matches(compare, obj, res, m) && m' == m
  }

  ghost predicate Matches(compare: (Word, Word) -> bool, obj: Word, res: Res, m: multiset<Word>)
    requires res.ResFound?
  {
    && (res.found <==> exists p :: p in m && compare(obj, p))
    && (res.found ==> res.out in m && compare(obj, res.out))
  }

  /** A run: the multisets between the operations, and what they answered. */
  ghost predicate IsRun(compare: (Word, Word) -> bool, ops: seq<Op>, res: seq<Res>, bags: seq<multiset<Word>>) {
    && |res| == |ops| && |bags| == |ops| + 1 && bags[0] == multiset{}
    && forall k :: 0 <= k < |ops| ==> Follows(compare, ops[k], res[k], bags[k], bags[k + 1])
  }

  lemma ExtendRun(compare: (Word, Word) -> bool, ops: seq<Op>, res: seq<Res>, bags: seq<multiset<Word>>,
                  op: Op, r: Res, m: multiset<Word>)
    requires IsRun(compare, ops, res, bags) && Follows(compare, op, r, bags[|ops|], m)
    ensures IsRun(compare, ops + [op], res + [r], bags + [m])
  {
  }

  ghost predicate Insertable(ops: seq<Op>, top: nat) {
    forall k :: 0 <= k < |ops| && ops[k].OpInsert? ==>
      IsPointer(ops[k].p) && TopBit(ops[k].p, WORD_BITS - 1) == top
  }

  ghost predicate HashesAgree(rehash: Word -> Word, compare: (Word, Word) -> bool) {
    forall a, b :: compare(a, b) ==> rehash(a) == rehash(b)
  }

  /** The table is usable for pointers with highest bit `top`. */
  ghost predicate Ready(t: Htable, top: nat)
    reads t, t.table
  {
    && t.Valid()
    && HashesAgree(t.rehash, t.compare)
    && Discloses(t.GetTag(), top)
    && (t.elems > 0 ==> top !in t.mask.ones)
  }

  /** Every run from a fresh table behaves like a run over a multiset, when equal
      objects have equal hashes and all pointers share their highest bit. */
  method Replay(rehash: Word -> Word, compare: (Word, Word) -> bool, ops: seq<Op>, ghost top: nat)
    returns (res: seq<Res>)
    requires HashesAgree(rehash, compare) && Insertable(ops, top)
    ensures exists bags :: IsRun(compare, ops, res, bags)
  {
    hide Bag, Means, CountsFit, Reachable, Follows, IsPointer, TopBit;
    var t := new Htable(rehash, compare);
    res := [];
    ghost var bags := [t.Contents()];
    for i := 0 to |ops|
      invariant Ready(t, top) && t.compare == compare && fresh(t) && fresh(t.table)
      invariant IsRun(compare, ops[..i], res, bags) && bags[i] == t.Contents()
    {
      var r := Perform(t, ops[i], top);
      ExtendRun(compare, ops[..i], res, bags, ops[i], r, t.Contents());
      assert ops[..i + 1] == ops[..i] + [ops[i]];
      res, bags := res + [r], bags + [t.Contents()];
    }
    assert ops[..|ops|] == ops;
  }

  method Perform(t: Htable, op: Op, ghost top: nat) returns (r: Res)
    requires Ready(t, top)
    requires op.OpInsert? ==> IsPointer(op.p) && TopBit(op.p, WORD_BITS - 1) == top
    modifies t, t.table
    ensures Ready(t, top) && (t.table == old(t.table) || fresh(t.table))
    ensures Follows(t.compare, op, r, old(t.Contents()), t.Contents())
  {
    hide Bag, DeadCount, Means, Reachable, IsPointer, TopBit;
    match op
    case OpInsert(p, alloc) =>
      r := PerformInsert(t, p, alloc, top);
    case OpRemove(obj) =>
      var found, out := t.Remove(obj, t.rehash(obj));
      r := ResFound(found, out);
    case OpLookup(obj) =>
      var found, out := t.Lookup(obj, t.rehash(obj));
      r := ResFound(found, out);
  }

  method PerformInsert(t: Htable, p: Word, alloc: bool, ghost top: nat) returns (r: Res)
    requires Ready(t, top)
    requires IsPointer(p) && TopBit(p, WORD_BITS - 1) == top
    modifies t, t.table
    ensures Ready(t, top) && (t.table == old(t.table) || fresh(t.table))
    ensures Follows(t.compare, OpInsert(p, alloc), r, old(t.Contents()), t.Contents())
  {
    hide Bag, DeadCount, Means, CountsFit, Reachable, NextTag, Shows, IsPointer, TopBit;
    t.Full();
    SharedTopShows(t.GetTag(), t.elems, p, top);
    var ok := t.Insert(p, t.rehash(p), alloc);
    r := ResInsert(ok);
  }

  // ---- a lost pointer --------------------------------------------------

  /** Two inserts, of pointers with equal hashes, after which the table counts two
      elements and holds one: the second pointer has no bit that is not common. */
  method LosePointer() returns (t: Htable, first: Word, second: Word)
    ensures first != second && IsPointer(first) && IsPointer(second)
    ensures t.elems == 2 && t.Words() == multiset{first}
  {
    hide Bag, Means, CountsFit, Reachable, Decoded, Shows, Hval, HashBits, IsPointer, FirstTag, Ones;
    first, second := Word({4, 12}), Word({4});
    assert 12 in first.ones && 12 !in second.ones;
    LostPointer(0);
    t := new Htable(_ => ZERO, (a, b) => a == b);
    WholeMask(first);
    FirstTagFits(0, first);
    FirstTagBits(0, t.bits, first);
    var ok := t.Insert(first, ZERO, true);
    FirstTagBits(0, t.bits, first);
    assert t.GetTag() == FirstTag(t.bits, first);
    LostPointer(t.bits);
    assert multiset{} + multiset{first} == multiset{first};
    ok := t.Insert(second, ZERO, true);
    FirstTagBits(0, t.bits, first);
    LostPointer(t.bits);
  }

  /** With a whole mask every pointer differs from the common bits. */
  lemma WholeMask(p: Word)
    requires IsPointer(p)
    ensures p.And(Ones(WORD_BITS)) != ZERO
  {
    EntryHasHighBit(p);
    var b :| b in p.ones && b > 0;
    assert b in p.And(Ones(WORD_BITS)).ones;
  }

  lemma FirstTagBits(a: nat, b: nat, p: Word)
    ensures FirstTag(b, p) == FirstTag(a, p).(bits := b)
    ensures FirstTag(b, p).perfect == Bit(0) != ZERO
  {
    assert 0 in Bit(0).ones;
  }
}
