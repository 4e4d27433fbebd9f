/**
 Machine words and the bucket encoding of the tombstone hash table.

 A word is given by the set of its one bits. A bucket holds a pointer whose
 common bits are replaced by hash bits and, in the home bucket, by the perfect
 bit.
 */
module TaggedWords {

  datatype Word = Word(ones: set<nat>) {
    /** `this & w` */
    function And(w: Word): Word { Word(ones * w.ones) }

    /** `this | w` */
    function Or(w: Word): Word { Word(ones + w.ones) }

    /** `this & ~w` */
    function AndNot(w: Word): Word { Word(ones - w.ones) }

    /** `this ^ w` */
    function Xor(w: Word): Word { Word((ones - w.ones) + (w.ones - ones)) }

    /** `this >> n` */
    function ShiftRight(n: nat): Word { Word(set b | b in ones && b >= n :: b - n) }

    predicate Within(w: Word) { ones <= w.ones }
  }

  const WORD_BITS: nat := 64
  const ZERO: Word := Word({})
  const DELETED: Word := Word({0})

  /** The marks a table keeps about its encoding. */
  datatype Tag = Tag(bits: nat, mask: Word, common: Word, perfect: Word)

  function Bit(b: nat): Word {
    Word({b})
  }

  /** The word with exactly the low `n` bits set. */
  function Ones(n: nat): (r: Word)
    ensures forall b: nat :: b in r.ones <==> b < n
  {
    if n == 0 then ZERO else Ones(n - 1).Or(Bit(n - 1))
  }

  /** Neither null nor `(void *)1`, which the source takes for no valid pointer. */
  predicate IsPointer(p: Word) {
    IsEntry(p) && forall b :: b in p.ones ==> b < WORD_BITS
  }

  function Pow2(n: nat): (r: nat)
    ensures r >= 1
  {
    if n == 0 then 1 else 2 * Pow2(n - 1)
  }

  /** The number made of the low `n` bits of `w`: `w & ((1 << n) - 1)`. */
  function LowBits(w: Word, n: nat): (r: nat)
    ensures r < Pow2(n)
  {
    if n == 0 then 0
    else LowBits(w, n - 1) + (if n - 1 in w.ones then Pow2(n - 1) else 0)
  }

  /** `entry_is_valid`: the word is a number above one. */
  predicate IsEntry(e: Word) {
    e != ZERO && e != DELETED
  }

  function ExtraBits(t: Tag, e: Word): Word {
    e.And(t.mask)
  }

  function RawPtr(t: Tag, e: Word): Word {
    e.AndNot(t.mask).Or(t.common)
  }

  function Hval(t: Tag, p: Word, extra: Word): Word {
    p.AndNot(t.mask).Or(extra)
  }

  function HashBits(t: Tag, hash: Word): Word {
    hash.Xor(hash.ShiftRight(t.bits)).And(t.mask).AndNot(t.perfect)
  }

  /** Away from the home bucket the perfect bit is no longer looked for. */
  lemma DropFirst(t: Tag, hash: Word, x: Word, first: Word)
    requires (x == ZERO || x == first) && (first == t.perfect || first == ZERO)
    ensures HashBits(t, hash).Or(x).AndNot(first) == HashBits(t, hash).Or(ZERO)
  {
  }

  predicate WellFormed(t: Tag) {
    t.common.Within(t.mask) && t.perfect.Within(t.mask)
  }

  /** The pointer agrees with the common bits and shows a bit above bit zero. */
  predicate Fits(t: Tag, p: Word) {
    p.And(t.mask) == t.common && Shows(t.mask, p)
  }

  predicate Shows(mask: Word, p: Word) {
    IsEntry(p.AndNot(mask))
  }

  lemma EntryHasHighBit(e: Word)
    ensures IsEntry(e) <==> exists b :: b in e.ones && b > 0
  {
    if forall b :: b in e.ones ==> b == 0 {
      if 0 in e.ones { assert e.ones == {0}; } else { assert e.ones == {}; }
    }
  }

  /** Whatever hash bits and perfect bit a bucket adds, the entry is told apart
      from both markers and decodes to the pointer and to what was added. */
  lemma EntryDecodes(t: Tag, p: Word, hash: Word, perfect: Word)
    requires WellFormed(t) && Fits(t, p)
    requires perfect == ZERO || perfect == t.perfect
    ensures var e := Hval(t, p, HashBits(t, hash).Or(perfect));
      && IsEntry(e)
      && RawPtr(t, e) == p
      && ExtraBits(t, e) == HashBits(t, hash).Or(perfect)
      && e.And(t.perfect) == perfect
  {
    var e := Hval(t, p, HashBits(t, hash).Or(perfect));
    EntryHasHighBit(p.AndNot(t.mask));
    EntryHasHighBit(e);
    assert p.AndNot(t.mask).ones <= e.ones;
    assert p.ones == (p.ones - t.mask.ones) + p.ones * t.mask.ones;
    assert RawPtr(t, e).ones == p.ones;
    assert ExtraBits(t, e).ones == HashBits(t, hash).ones + perfect.ones;
    assert e.And(t.perfect).ones == perfect.ones;
  }

  /** Without a shown bit there are a hash and a bucket for which the entry is
      taken for a marker, so `Shows` is the exact condition for storing. */
  lemma ShowsIsExact(t: Tag, p: Word)
    requires WellFormed(t) && p.And(t.mask) == t.common
    ensures Shows(t.mask, p)
       <==> forall hash, perfect ::
              perfect in {ZERO, t.perfect} ==> IsEntry(Hval(t, p, HashBits(t, hash).Or(perfect)))
  {
    if Shows(t.mask, p) {
      forall hash, perfect | perfect in {ZERO, t.perfect}
        ensures IsEntry(Hval(t, p, HashBits(t, hash).Or(perfect)))
      {
        EntryDecodes(t, p, hash, perfect);
      }
    } else {
      assert HashBits(t, ZERO).ones == {};
      assert Hval(t, p, HashBits(t, ZERO).Or(ZERO)).ones == p.AndNot(t.mask).ones;
      assert ZERO in {ZERO, t.perfect};
    }
  }

  /** The bits of `p` that contradict the common bits. */
  function MaskDiff(t: Tag, p: Word): Word {
    t.common.Xor(p.And(t.mask))
  }

  /** The encoding after giving those bits back. */
  function Shrink(t: Tag, p: Word): Tag {
    var diff := MaskDiff(t, p);
    Tag(t.bits, t.mask.AndNot(diff), t.common.AndNot(diff), t.perfect.AndNot(diff))
  }

  /** Rewriting a bucket for the smaller mask keeps its pointer, its remaining
      hash bits and what is left of its perfect bit. */
  lemma ShrinkKeepsEntry(t: Tag, p: Word, q: Word, hash: Word, perfect: Word)
    requires WellFormed(t) && Fits(t, q)
    requires perfect == ZERO || perfect == t.perfect
    ensures WellFormed(Shrink(t, p)) && Fits(Shrink(t, p), q)
    ensures var d, e := MaskDiff(t, p), Hval(t, q, HashBits(t, hash).Or(perfect));
      e.AndNot(d).Or(t.common.And(d))
      == Hval(Shrink(t, p), q, HashBits(Shrink(t, p), hash).Or(perfect.AndNot(d)))
  {
    var d, u := MaskDiff(t, p), Shrink(t, p);
    assert d.ones <= t.mask.ones;
    assert q.ones * d.ones == t.common.ones * d.ones by {
      assert q.ones * d.ones == q.And(t.mask).ones * d.ones;
    }
    assert q.ones - u.mask.ones == (q.ones - t.mask.ones) + t.common.ones * d.ones;
    assert q.And(u.mask).ones == q.And(t.mask).ones - d.ones;
    MoreShows(t.mask, u.mask, q);
    assert HashBits(t, hash).ones - d.ones == HashBits(u, hash).ones;
    var e := Hval(t, q, HashBits(t, hash).Or(perfect));
    assert e.AndNot(d).Or(t.common.And(d)).ones
        == Hval(u, q, HashBits(u, hash).Or(perfect.AndNot(d))).ones;
  }

  lemma MoreShows(mask: Word, smaller: Word, q: Word)
    requires smaller.Within(mask) && Shows(mask, q)
    ensures Shows(smaller, q)
  {
    EntryHasHighBit(q.AndNot(mask));
    EntryHasHighBit(q.AndNot(smaller));
    assert q.AndNot(mask).ones <= q.AndNot(smaller).ones;
  }

  /** The pointer that caused the shrinking agrees with what is left. */
  lemma ShrinkAgrees(t: Tag, p: Word)
    requires WellFormed(t)
    ensures WellFormed(Shrink(t, p)) && p.And(Shrink(t, p).mask) == Shrink(t, p).common
  {
    assert p.And(Shrink(t, p).mask).ones == Shrink(t, p).common.ones;
  }

  /** The highest bit of `p` up to `i`, or zero. */
  function TopBit(p: Word, i: nat): nat {
    if i == 0 || i in p.ones then i else TopBit(p, i - 1)
  }

  lemma {:induction false} TopBitIsHighest(p: Word, i: nat)
    requires forall b :: b in p.ones ==> b <= i
    ensures IsEntry(p) ==> TopBit(p, i) in p.ones && TopBit(p, i) > 0
  {
    if i == 0 {
      EntryHasHighBit(p);
    } else if i !in p.ones {
      TopBitIsHighest(p, i - 1);
    }
  }

  /** The encoding for a table whose only pointer is `p`: all of it is common but
      the highest bit. */
  function FirstTag(bits: nat, p: Word): Tag {
    var mask := Ones(WORD_BITS).AndNot(Bit(TopBit(p, WORD_BITS - 1)));
    Tag(bits, mask, p.And(mask), Bit(0))
  }

  /** A word decodes to the pointer that agrees with the common bits, shown or not. */
  lemma DecodesAnyway(t: Tag, p: Word, hash: Word, perfect: Word)
    requires WellFormed(t) && p.And(t.mask) == t.common
    requires perfect == ZERO || perfect == t.perfect
    ensures RawPtr(t, Hval(t, p, HashBits(t, hash).Or(perfect))) == p
  {
    var e := Hval(t, p, HashBits(t, hash).Or(perfect));
    assert e.AndNot(t.mask).ones == p.AndNot(t.mask).ones;
    assert RawPtr(t, e).ones == p.ones;
  }

  lemma FirstTagFits(bits: nat, p: Word)
    requires IsPointer(p)
    ensures WellFormed(FirstTag(bits, p)) && Fits(FirstTag(bits, p), p)
  {
    TopBitIsHighest(p, WORD_BITS - 1);
    assert p.AndNot(FirstTag(bits, p).mask).ones == {TopBit(p, WORD_BITS - 1)};
  }

  /** The encoding under which `p` is stored. */
  function NextTag(t: Tag, elems: nat, p: Word): Tag {
    if p.And(t.mask) == t.common then t
    else if elems == 0 then FirstTag(t.bits, p)
    else Shrink(t, p)
  }

  /** A pointer that differs from the first one only in that one's highest bit is
      stored as a deletion marker in its home bucket and as an empty bucket elsewhere
      when its hash is zero, whatever the size of the table. */
  lemma LostPointer(bits: nat)
    ensures var first, second := Word({4, 12}), Word({4});
      var t := FirstTag(bits, first);
      && IsPointer(first) && IsPointer(second)
      && NextTag(t, 1, second) == t
      && Hval(t, second, HashBits(t, ZERO).Or(t.perfect)) == DELETED
      && Hval(t, second, HashBits(t, ZERO).Or(ZERO)) == ZERO
  {
    var first, second := Word({4, 12}), Word({4});
    var t := FirstTag(bits, first);
    TopBitFrom(first, 12, WORD_BITS - 1);
    assert 12 in first.ones && 4 in second.ones;
    EntryHasHighBit(first);
    EntryHasHighBit(second);
    assert 4 in t.mask.ones && 12 !in t.mask.ones;
    assert second.And(t.mask).ones == {4} == t.common.ones;
    assert HashBits(t, ZERO).ones == {};
    assert Hval(t, second, HashBits(t, ZERO).Or(t.perfect)).ones == {0};
    assert Hval(t, second, HashBits(t, ZERO).Or(ZERO)).ones == {};
  }

  lemma {:induction false} TopBitFrom(p: Word, top: nat, i: nat)
    requires top in p.ones && top <= i && forall b :: b in p.ones ==> b <= top
    ensures TopBit(p, i) == top
  {
    if i != top { TopBitFrom(p, top, i - 1); }
  }

  /** Either nothing was ever stored, or bit `top` is shown. */
  predicate Discloses(t: Tag, top: nat) {
    top !in t.mask.ones || (t.mask == Ones(WORD_BITS) && t.common == ZERO)
  }

  /** Pointers that share their highest bit always show it. */
  lemma SharedTopShows(t: Tag, elems: nat, p: Word, top: nat)
    requires IsPointer(p) && TopBit(p, WORD_BITS - 1) == top
    requires Discloses(t, top) && (elems > 0 ==> top !in t.mask.ones)
    ensures Shows(NextTag(t, elems, p).mask, p)
    ensures top !in NextTag(t, elems, p).mask.ones
  {
    TopBitIsHighest(p, WORD_BITS - 1);
    assert top in t.mask.ones ==> top in p.And(t.mask).ones;
    assert top in p.AndNot(NextTag(t, elems, p).mask).ones;
    EntryHasHighBit(p.AndNot(NextTag(t, elems, p).mask));
  }
}
