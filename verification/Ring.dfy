/**
 The byte ring buffer (src/shared/shl_ring.c) with its power-of-two sizing
 (src/shared/shl_macro.h). It refines a byte queue.
 */
module Ring {
  import opened TaggedWords

  const SIZE_LIMIT: nat := 0x1_0000_0000_0000_0000

  // ---- powers of two ---------------------------------------------------

  /** `64 - clzll(v)` */
  function BitLength(v: nat): nat {
    if v == 0 then 0 else 1 + BitLength(v / 2)
  }

  /** `SHL_ALIGN_POWER2`. The zero for overflow is what its comment promises; the
      shift by the full width that it does there is undefined. */
  function AlignPower2(u: nat): nat {
    if u == 0 then 0
    else if u == 1 then 1
    else if BitLength(u - 1) >= WORD_BITS then 0
    else Pow2(BitLength(u - 1))
  }

  ghost predicate IsPow2(n: nat) {
    exists k: nat :: n == Pow2(k)
  }

  lemma {:induction false} BitLengthBounds(v: nat)
    ensures v < Pow2(BitLength(v))
    ensures v > 0 ==> Pow2(BitLength(v)) <= 2 * v
  {
    if v > 0 { BitLengthBounds(v / 2); }
  }

  lemma {:induction false} Pow2Monotone(a: nat, b: nat)
    requires a <= b
    ensures Pow2(a) <= Pow2(b)
  {
    if a < b { Pow2Monotone(a, b - 1); }
  }

  /** No smaller power of two is large enough. */
  lemma NoSmallerPower(u: nat, k: nat, j: nat)
    requires k > 0 && Pow2(k - 1) < u <= Pow2(j)
    ensures Pow2(k) <= Pow2(j)
  {
    if j < k {
      Pow2Monotone(j, k - 1);
      assert false;
    } else {
      Pow2Monotone(k, j);
    }
  }

  lemma BitLengthIsLeast(u: nat)
    requires u > 1
    ensures var k := BitLength(u - 1); k > 0 && Pow2(k - 1) < u <= Pow2(k) < 2 * u
  {
    hide Pow2;
    BitLengthBounds(u - 1);
    PowZero();
    PowDouble(BitLength(u - 1) - 1);
  }

  /** The result is the least power of two that is large enough; zero means that
      there is none below the word size. */
  lemma AlignPower2IsLeast(u: nat)
    requires u > 0
    ensures var r := AlignPower2(u);
      && (r != 0 ==> IsPow2(r) && u <= r < 2 * u && forall k: nat :: u <= Pow2(k) ==> r <= Pow2(k))
      && (r == 0 <==> u > Pow2(WORD_BITS - 1))
  {
    hide BitLength, Pow2;
    PowZero();
    if u == 1 {
      assert IsPow2(1) && forall k: nat :: 1 <= Pow2(k);
      Pow2Monotone(0, WORD_BITS - 1);
    } else {
      var k := BitLength(u - 1);
      BitLengthIsLeast(u);
      if k >= WORD_BITS {
        Pow2Monotone(WORD_BITS - 1, k - 1);
      } else {
        Pow2Monotone(k, WORD_BITS - 1);
        forall j: nat | u <= Pow2(j)
          ensures Pow2(k) <= Pow2(j)
        {
          NoSmallerPower(u, k, j);
        }
      }
    }
  }

  lemma PowDouble(k: nat)
    ensures Pow2(k + 1) == 2 * Pow2(k)
  {
  }

  lemma PowZero()
    ensures Pow2(0) == 1
  {
  }

  // ---- masking ---------------------------------------------------------

  /** Bitwise and. */
  function BitAnd(a: nat, b: nat): nat {
    if a == 0 || b == 0 then 0 else 2 * BitAnd(a / 2, b / 2) + if a % 2 == 1 && b % 2 == 1 then 1 else 0
  }

  /** `RING_MASK`; for a size of zero the mask has all bits. */
  function Mask(v: nat, size: nat): nat {
    if size == 0 then v else BitAnd(v, size - 1)
  }

  /** Below twice the size, masking is wrapping once. */
  function Wrap(v: nat, size: nat): nat
    requires size > 0 ==> v < 2 * size
  {
    if size == 0 || v < size then v else v - size
  }

  lemma {:induction false} MaskPower(v: nat, k: nat)
    requires v < 2 * Pow2(k)
    ensures BitAnd(v, Pow2(k) - 1) == if v < Pow2(k) then v else v - Pow2(k)
  {
    if k > 0 {
      MaskPower(v / 2, k - 1);
    }
  }

  /** Masking with the size less one wraps positions, as the size is a power of two. */
  lemma MaskWraps(v: nat, size: nat)
    requires size > 0 ==> IsPow2(size) && v < 2 * size
    ensures Mask(v, size) == Wrap(v, size)
  {
    hide Pow2, BitAnd;
    if size > 0 {
      var k: nat :| size == Pow2(k);
      MaskPower(v, k);
    }
  }

  // ---- the ring --------------------------------------------------------

  class Ring {
    var buf: array<char>
    var start: nat
    var used: nat

    ghost predicate Valid()
      reads this
    {
      && used <= buf.Length
      && (if buf.Length == 0 then start == 0 else start < buf.Length && IsPow2(buf.Length))
    }

    ghost function Contents(): (s: seq<char>)
      reads this, buf
      requires Valid()
      ensures |s| == used
    {
      Window(buf[..], start, used)
    }

    constructor ()
      ensures Valid() && Contents() == [] && fresh(buf)
    {
      buf := new char[0];
      start, used := 0, 0;
    }

    /** `shl_ring_copy`: the first bytes, without taking them out. */
    method Copy(size: nat) returns (out: seq<char>)
      requires Valid()
      ensures out == Contents()[..if size < used then size else used]
    {
      var n := if size > used then used else size;
      out := [];
      if n > 0 {
        var l := buf.Length - start;
        if n <= l {
          out := buf[start..start + n];
        } else {
          out := buf[start..] + buf[..n - l];
        }
      }
    }

    /** `shl_ring_pull`: takes out the first bytes, at most all. */
    method Pull(size: nat)
      requires Valid()
      modifies this`start, this`used
      ensures Valid()
      ensures Contents() == old(Contents())[if size < old(used) then size else old(used)..]
    {
      hide Mask, IsPow2, Window;
      var n := if size > used then used else size;
      if buf.Length > 0 {
        WindowDrop(buf[..], start, used, n);
      } else {
        EmptyWindow();
        assert buf[..] == [];
      }
      MaskWraps(start + n, buf.Length);
      start := Mask(start + n, buf.Length);
      used := used - n;
    }

    /** `ring_resize`: moves the bytes to the front of a buffer of the new size. */
    method Resize(nsize: nat, alloc: bool) returns (ok: bool)
      requires Valid() && IsPow2(nsize) && used < nsize
      modifies this`buf, this`start
      ensures ok == alloc && Valid() && Contents() == old(Contents())
      ensures if ok then fresh(buf) && buf.Length == nsize && start == 0 else unchanged(this)
    {
      if !alloc {
        return false;
      }
      var data := Copy(used);
      assert data == Contents();
      buf := new char[nsize](i => if 0 <= i < |data| then data[i] else '\0');
      start := 0;
      assert buf[..used] == data;
      return true;
    }

    /** `ring_grow`: makes room, unless the size overflows or memory is short. */
    method Grow(add: nat, alloc: bool) returns (ok: bool)
      requires Valid() && 0 < add < SIZE_LIMIT
      modifies this`buf, this`start
      ensures ok <==> buf.Length - used >= add
      ensures Valid() && Contents() == old(Contents())
      ensures buf == old(buf) || fresh(buf)
      ensures ok <==> old(buf.Length - used) >= add || (alloc && Needed(old(used), add) <= Pow2(WORD_BITS - 1))
      ensures !ok ==> unchanged(this)
    {
      if buf.Length - used >= add {
        return true;
      }
      var need := used + add;
      if need >= SIZE_LIMIT {
        Pow2Of63();
        return false;
      } else if need < 4096 {
        need := 4096;
      }
      AlignPower2IsLeast(need);
      need := AlignPower2(need);
      if need == 0 {
        return false;
      }
      ok := Resize(need, alloc);
    }

    /** `shl_ring_push`: appends the bytes, all or none. */
    method Push(data: seq<char>, alloc: bool) returns (ok: bool)
      requires Valid() && |data| < SIZE_LIMIT
      modifies this, buf
      ensures Valid() && (buf == old(buf) || fresh(buf))
      ensures Contents() == if ok then old(Contents()) + data else old(Contents())
      ensures ok <==> data == [] || old(buf.Length - used) >= |data|
                      || (alloc && Needed(old(used), |data|) <= Pow2(WORD_BITS - 1))
    {
      if data == [] {
        return true;
      }
      ok := Grow(|data|, alloc);
      if ok {
        Append(data);
      }
    }

    method Append(data: seq<char>)
      requires Valid() && buf.Length - used >= |data| > 0
      modifies this`used, buf
      ensures Valid() && Contents() == old(Contents()) + data
    {
      hide Mask, IsPow2, Window, Written;
      MaskWraps(start + used, buf.Length);
      var pos := Mask(start + used, buf.Length);
      AppendWindow(buf[..], start, used, data);
      CopyRound(pos, data);
      used := used + |data|;
    }

    /** The one or two copies of `shl_ring_push` */
    method CopyRound(pos: nat, data: seq<char>)
      requires pos < buf.Length && |data| <= buf.Length
      modifies buf
      ensures buf[..] == Written(old(buf[..]), pos, data)
    {
      var l := buf.Length - pos;
      if l >= |data| {
        CopyIn(pos, data);
      } else {
        CopyIn(pos, data[..l]);
        CopyIn(0, data[l..]);
      }
    }

    /** `memcpy` into the buffer */
    method CopyIn(pos: nat, data: seq<char>)
      requires pos + |data| <= buf.Length
      modifies buf
      ensures forall k :: 0 <= k < buf.Length ==>
        buf[k] == if pos <= k < pos + |data| then data[k - pos] else old(buf[k])
    {
      forall k | 0 <= k < |data| { buf[pos + k] := data[k]; }
    }
  }

  /** The `used` bytes from `start` on, wrapping at the end. */
  function Window(b: seq<char>, start: nat, used: nat): (s: seq<char>)
    requires used <= |b| && (start < |b| || start == 0)
    ensures |s| == used
  {
    if start + used <= |b| then b[start..start + used]
    else b[start..] + b[..start + used - |b|]
  }

  /** The buffer after writing from `pos` on, wrapping at the end. */
  function Written(b: seq<char>, pos: nat, data: seq<char>): (s: seq<char>)
    requires pos < |b|
    ensures |s| == |b|
  {
    seq(|b|, j requires 0 <= j < |b| =>
      var k := if j >= pos then j - pos else j - pos + |b|;
      if k < |data| then data[k] else b[j])
  }

  lemma WindowAt(b: seq<char>, start: nat, used: nat, i: nat)
    requires start < |b| && i < used <= |b|
    ensures Window(b, start, used)[i] == b[Wrap(start + i, |b|)]
  {
  }

  lemma EmptyWindow()
    ensures Window([], 0, 0) == []
  {
  }

  lemma WindowDrop(b: seq<char>, start: nat, used: nat, n: nat)
    requires start < |b| && n <= used <= |b|
    ensures Wrap(start + n, |b|) < |b|
    ensures Window(b, Wrap(start + n, |b|), used - n) == Window(b, start, used)[n..]
  {
  }

  /** The bytes written behind the window extend it by the data. */
  lemma AppendWindow(b: seq<char>, start: nat, used: nat, data: seq<char>)
    requires start < |b| && used + |data| <= |b|
    ensures Window(Written(b, Wrap(start + used, |b|), data), start, used + |data|)
         == Window(b, start, used) + data
  {
    var c := Written(b, Wrap(start + used, |b|), data);
    var w, u := Window(c, start, used + |data|), Window(b, start, used) + data;
    forall i | 0 <= i < |w|
      ensures w[i] == u[i]
    {
      WindowAt(c, start, used + |data|, i);
      if i < used { WindowAt(b, start, used, i); }
    }
  }

  /** The room a push asks for. */
  function Needed(used: nat, add: nat): nat {
    if used + add < 4096 then 4096 else used + add
  }

  lemma Pow2Of63()
    ensures Pow2(WORD_BITS - 1) < SIZE_LIMIT
  {
    Pow2Split(32, 31);
    Pow2Small();
  }

  lemma {:induction false} Pow2Split(a: nat, b: nat)
    ensures Pow2(a + b) == Pow2(a) * Pow2(b)
  {
    if b > 0 { Pow2Split(a, b - 1); }
  }

  lemma FewBits()
    ensures Pow2(3) == 8 && Pow2(4) == 16
  {
    assert Pow2(2) == 4;
  }

  lemma Pow2Small()
    ensures Pow2(31) == 0x8000_0000 && Pow2(32) == 0x1_0000_0000
  {
    hide Pow2;
    FewBits();
    Pow2Split(4, 4); Pow2Split(4, 3);
    Pow2Split(8, 8); Pow2Split(16, 8); Pow2Split(24, 7); Pow2Split(24, 8);
  }
}
