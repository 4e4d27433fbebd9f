/**
 The strict integer parser (src/shared/shl_util.c) with the overflow-checked
 multiplications it rests on (src/shared/shl_macro.h): a fast 32-bit phase, then a
 64-bit phase. It is compared with plain positional notation.
 */
module Atoi {

  const U32_MAX: nat := 0xffff_ffff
  const U64_MAX: nat := 0xffff_ffff_ffff_ffff

  datatype Status = Ok | Range | Invalid

  // ---- digits ----------------------------------------------------------

  /** `shl_ctoi`; -1 for characters that are no digit of the base. */
  function Digit(ch: char, base: nat): (d: int)
    ensures -1 <= d < 36
    ensures d >= 0 ==> d < base
  {
    var v :=
      if '0' <= ch <= '9' then ch as int - '0' as int
      else if 'a' <= ch <= 'z' then ch as int - 'a' as int + 10
      else if 'A' <= ch <= 'Z' then ch as int - 'A' as int + 10
      else -1;
    if v >= base then -1 else v
  }

  predicate AllDigits(s: seq<char>, base: nat) {
    forall i :: 0 <= i < |s| ==> Digit(s[i], base) >= 0
  }

  function Power(base: nat, n: nat): nat {
    if n == 0 then 1 else base * Power(base, n - 1)
  }

  function Place(d: nat, base: nat, n: nat): nat {
    d * Power(base, n)
  }

  /** Positional notation: each digit times its place. */
  function Value(s: seq<char>, base: nat): nat
    requires AllDigits(s, base)
  {
    if s == [] then 0 else Place(Digit(s[0], base), base, |s| - 1) + Value(s[1..], base)
  }

  /** The value without its last digit. */
  function Shifted(s: seq<char>, base: nat): int
    requires AllDigits(s, base)
  {
    Value(s, base) - if s == [] then 0 else Digit(s[|s| - 1], base)
  }

  lemma {:induction false} ValueMore(s: seq<char>, c: char, base: nat)
    requires AllDigits(s + [c], base)
    ensures AllDigits(s, base)
    ensures Value(s + [c], base) == Value(s, base) * base + Digit(c, base)
  {
    hide Power, Place, Digit;
    assert (s + [c])[|s|] == c;
    assert forall i :: 0 <= i < |s| ==> (s + [c])[i] == s[i];
    if s == [] {
      assert (s + [c])[1..] == [] && s + [c] == [c];
      PlaceZero(Digit(c, base), base);
    } else {
      var t := s[1..];
      assert (s + [c])[1..] == t + [c];
      ValueMore(t, c, base);
      PlaceUp(Digit(s[0], base), base, |s| - 1, Value(t, base));
    }
  }

  lemma PlaceZero(d: nat, base: nat)
    ensures Place(d, base, 0) == d
  {
  }

  lemma PlaceUp(d: nat, base: nat, n: nat, rest: nat)
    ensures Place(d, base, n + 1) + rest * base == (Place(d, base, n) + rest) * base
  {
    var p := Power(base, n);
    assert d * (base * p) == d * p * base;
  }

  // ---- the prefix ------------------------------------------------------

  /** `shl__skip_base`: how many characters to skip, and the base. */
  function SkipBase(s: seq<char>): (r: (nat, nat))
    ensures r.0 <= |s| && 8 <= r.1 <= 16
  {
    if |s| > 1 && s[0] == '0' && Digit(s[1], 8) >= 0 then (1, 8)
    else if |s| > 2 && s[0] == '0' && s[1] == 'x' && Digit(s[2], 16) >= 0 then (2, 16)
    else (0, 10)
  }

  function Resolve(s: seq<char>, base: nat): (r: (nat, nat))
    requires base <= 36
    ensures r.0 <= |s| && 1 <= r.1 <= 36
  {
    if base == 0 then SkipBase(s) else (0, base)
  }

  /** The length of the longest run of digits. */
  function Run(s: seq<char>, base: nat): (n: nat)
    ensures n <= |s| && forall i :: 0 <= i < n ==> Digit(s[i], base) >= 0
    ensures n < |s| ==> Digit(s[n], base) < 0
  {
    if s == [] || Digit(s[0], base) < 0 then 0
    else
      var n := Run(s[1..], base);
      assert forall i :: 1 <= i <= n ==> s[i] == s[1..][i - 1];
      n + 1
  }

  // ---- the accumulators ------------------------------------------------

  lemma FitsExactly(x: nat, base: nat, max: nat)
    requires base > 0
    ensures x <= max / base <==> x * base <= max
  {
    var q := max / base;
    assert q * base <= max < (q + 1) * base;
    if x <= q {
      assert x * base <= q * base;
    } else {
      assert x * base >= (q + 1) * base;
    }
  }

  /** `shl_mult_u32`, which multiplies in 64 bits */
  method MultU32(val: nat, factor: nat) returns (ok: bool, r: nat)
    ensures ok <==> val * factor <= U32_MAX
    ensures r == if ok then val * factor else val
  {
    var v := val * factor;
    ok := v <= U32_MAX;
    r := if ok then v else val;
  }

  /** `shl_mult_ull`, which divides */
  method MultU64(val: nat, factor: nat) returns (ok: bool, r: nat)
    ensures ok <==> val * factor <= U64_MAX
    ensures r == if ok then val * factor else val
  {
    ok := factor == 0 || val <= U64_MAX / factor;
    if factor > 0 {
      FitsExactly(val, factor, U64_MAX);
    }
    r := if ok then val * factor else val;
  }

  /**
   What the accumulators hold after digits worth `v`, of which `w` without the last
   digit. The one place where they are wrong is a carry out of the last addition.
   */
  ghost predicate Holding(bad: bool, huge: bool, val1: nat, val2: nat, v: int, w: int) {
    if bad then U64_MAX < w <= v
    else if !huge then val1 == v && v <= U32_MAX
    else if v <= U64_MAX then val2 == v && v > U32_MAX
    else w <= U64_MAX && val2 == w
  }

  /** The 64-bit addition of a digit: the sum unless it wraps. */
  function AddDigit(val: nat, c: nat, max: nat): nat {
    if (val + c) % (max + 1) >= val then (val + c) % (max + 1) else val
  }

  lemma WrapsExactly(val: nat, c: nat, max: nat)
    requires val <= max && c <= max
    ensures (val + c) % (max + 1) >= val <==> val + c <= max
    ensures val + c <= max ==> (val + c) % (max + 1) == val + c
  {
    if val + c > max {
      assert (val + c) % (max + 1) == val + c - (max + 1);
    }
  }

  /** After a lost carry any further digit reports the overflow. */
  lemma LostThenRange(w: nat, v: nat, base: nat, last: nat)
    requires v == w + last && last < base <= 36 && w <= U64_MAX < v
    ensures base > 1 && w * base > U64_MAX
  {
    assert base > 1;
    ProductGrows2(w, base);
  }

  lemma ProductGrows2(w: nat, base: nat)
    requires base >= 2
    ensures w * base >= w * 2
  {
    assert w * base == w * 2 + w * (base - 2);
  }

  lemma ProductGrows(x: nat, y: nat, base: nat)
    requires x >= y && base > 0
    ensures x * base >= y * base >= y
  {
    assert x * base == y * base + (x - y) * base;
    assert y * base == y + y * (base - 1);
  }

  /** The step of the 64-bit phase. */
  method HugeStep(val: nat, base: nat, c: nat, ghost p: int) returns (bad: bool, r: nat)
    requires val <= U64_MAX && 0 < base <= 36 && c < base && p == val * base
    ensures bad <==> p > U64_MAX
    ensures r == if bad then val else if p + c <= U64_MAX then p + c else p
  {
    var ok;
    ok, r := MultU64(val, base);
    if ok {
      WrapsExactly(r, c, U64_MAX);
      r := AddDigit(r, c, U64_MAX);
    }
    bad := !ok;
  }

  /** The step of the 32-bit phase; a failed addition leaves the product. */
  method SmallStep(val: nat, base: nat, c: nat, ghost p: int) returns (huge: bool, r: nat)
    requires val <= U32_MAX && 0 < base <= 36 && c < base && p == val * base
    ensures huge <==> p + c > U32_MAX
    ensures r <= U32_MAX && (!huge ==> r == p + c)
  {
    var ok;
    ok, r := MultU32(val, base);
    WrapsExactly(r, c, U32_MAX);
    if ok && (r + c) % (U32_MAX + 1) >= r {
      r := r + c;
      huge := false;
    } else {
      huge := true;
    }
  }

  /** One digit. */
  method DigitStep(huge0: bool, val10: nat, val20: nat, base: nat, c: nat, ghost v: nat, ghost w: int, ghost vb: int)
      returns (bad: bool, huge: bool, val1: nat, val2: nat)
    requires val10 <= U32_MAX && val20 <= U64_MAX && 0 < base <= 36 && c < base
    requires v - base < w <= v && vb == v * base
    requires Holding(false, huge0, val10, val20, v, w)
    ensures val1 <= U32_MAX && val2 <= U64_MAX
    ensures Holding(bad, huge, val1, val2, vb + c, vb)
  {
    bad, huge, val1, val2 := false, huge0, val10, val20;
    if !huge {
      val2 := val1;
      huge, val1 := SmallStep(val1, base, c, vb);
    }
    if huge {
      ghost var p := vb;
      if v > U64_MAX {
        LostThenRange(w, v, base, v - w);
        ProductGrows(v, w, base);
        p := w * base;
      } else {
        ProductGrows(v, v, base);
      }
      bad, val2 := HugeStep(val2, base, c, p);
    }
  }

  lemma ShiftedIsNat(digits: seq<char>, base: nat)
    requires AllDigits(digits, base)
    ensures Shifted(digits, base) >= 0
  {
    hide Value;
    if digits != [] {
      var n := |digits| - 1;
      assert digits[..n] + [digits[n]] == digits;
      ValueMore(digits[..n], digits[n], base);
      Product(Value(digits[..n], base), base);
    }
  }

  lemma Product(a: nat, b: nat)
    ensures a * b >= 0
  {
  }

  /** What the parser makes of a run of digits. */
  function Parsed(digits: seq<char>, base: nat): (r: (Status, nat))
    requires AllDigits(digits, base)
  {
    ShiftedIsNat(digits, base);
    if Value(digits, base) <= U64_MAX then (Ok, Value(digits, base))
    else if Shifted(digits, base) <= U64_MAX then (Ok, Shifted(digits, base))
    else (Range, U64_MAX)
  }

  /** One digit more. */
  lemma DigitMore(s: seq<char>, pos: nat, base: nat)
    requires pos < |s| && AllDigits(s[..pos], base) && Digit(s[pos], base) >= 0
    ensures AllDigits(s[..pos + 1], base)
    ensures Value(s[..pos + 1], base) == Value(s[..pos], base) * base + Digit(s[pos], base)
    ensures Shifted(s[..pos + 1], base) == Value(s[..pos], base) * base
    ensures Value(s[..pos], base) - base < Shifted(s[..pos], base) <= Value(s[..pos], base)
  {
    hide Value;
    assert s[..pos] + [s[pos]] == s[..pos + 1];
    ValueMore(s[..pos], s[pos], base);
  }

  lemma DigitsNone(base: nat)
    ensures Value([], base) == Shifted([], base) == 0
  {
  }

  lemma RunEnds(s: seq<char>, pos: nat, base: nat)
    requires pos <= |s| && AllDigits(s[..pos], base) && (pos < |s| ==> Digit(s[pos], base) < 0)
    ensures Run(s, base) == pos
  {
    assert forall i :: 0 <= i < pos ==> s[i] == s[..pos][i];
  }

  /** The accumulating loop of `shl_atoi_ulln` */
  method Accumulate(s: seq<char>, base: nat) returns (pos: nat, st: Status, out: nat)
    requires 0 < base <= 36
    ensures pos == Run(s, base) && (st, out) == Parsed(s[..pos], base)
  {
    hide Value, Shifted, AllDigits, Digit, Run;
    var huge, bad := false, false;
    var val1: nat, val2: nat := 0, 0;
    pos := 0;
    DigitsNone(base);
    NoDigits(s, base);
    while pos < |s|
      invariant pos <= |s| && val1 <= U32_MAX && val2 <= U64_MAX
      invariant AllDigits(s[..pos], base)
      invariant Holding(bad, huge, val1, val2, Value(s[..pos], base), Shifted(s[..pos], base))
    {
      var c := Digit(s[pos], base);
      if c < 0 {
        break;
      }
      ghost var v, w := Value(s[..pos], base), Shifted(s[..pos], base);
      DigitMore(s, pos, base);
      if bad {
        ProductGrows(v, v, base);
      } else {
        bad, huge, val1, val2 := DigitStep(huge, val1, val2, base, c, v, w, v * base);
      }
      pos := pos + 1;
    }
    RunEnds(s, pos, base);
    ShiftedBelow(s[..pos], base);
    st := if bad then Range else Ok;
    out := if bad then U64_MAX else if huge then val2 else val1;
  }

  lemma NoDigits(s: seq<char>, base: nat)
    ensures s[..0] == [] && AllDigits(s[..0], base)
  {
  }

  lemma ShiftedBelow(digits: seq<char>, base: nat)
    requires AllDigits(digits, base)
    ensures Shifted(digits, base) <= Value(digits, base)
  {
    hide Value;
  }

  /**
   `shl_atoi_ulln`. It reads the longest run of digits. The result is the value, or
   `Range` with the largest number, except that the carry of the last addition is
   not reported.
   */
  method Ulln(str: seq<char>, base0: nat) returns (st: Status, next: nat, out: nat)
    ensures base0 > 36 ==> st == Invalid && next == 0 && out == 0
    ensures base0 <= 36 ==>
      var (skip, base) := Resolve(str, base0);
      && next == skip + Run(str[skip..], base)
      && (st, out) == Parsed(str[skip..][..next - skip], base)
    ensures base0 <= 36 ==>
      var (skip, base) := Resolve(str, base0);
      var digits := str[skip..][..Run(str[skip..], base)];
      (st, out) == Ideal(Value(digits, base)) <==> !(Shifted(digits, base) <= U64_MAX < Value(digits, base))
  {
    hide Run, Parsed, Value, Shifted;
    if base0 > 36 {
      return Invalid, 0, 0;
    }
    var (skip, base) := Resolve(str, base0);
    var pos;
    pos, st, out := Accumulate(str[skip..], base);
    ParsedExact(str[skip..][..pos], base);
    next := skip + pos;
  }

  /** `shl_atoi_un`: always exact. */
  method Un(str: seq<char>, base0: nat) returns (st: Status, next: nat, out: nat)
    ensures base0 > 36 ==> st == Invalid && next == 0 && out == 0
    ensures base0 <= 36 ==>
      var (skip, base) := Resolve(str, base0);
      && next == skip + Run(str[skip..], base)
      && var v := Value(str[skip..][..next - skip], base);
         (st, out) == if v <= U32_MAX then (Ok, v) else (Range, U32_MAX)
  {
    var val;
    st, next, val := Ulln(str, base0);
    if st == Ok && val > U32_MAX {
      st := Range;
    }
    out := if val < U32_MAX then val else U32_MAX;
  }

  // ---- when the 64-bit parser is right ---------------------------------

  /** What the comment at the head of the parser promises. */
  function Ideal(v: nat): (Status, nat) {
    if v <= U64_MAX then (Ok, v) else (Range, U64_MAX)
  }

  /** The 64-bit parser keeps the promise exactly when the last digit does not
      carry out of 64 bits. */
  lemma ParsedExact(digits: seq<char>, base: nat)
    requires AllDigits(digits, base)
    ensures Parsed(digits, base) == Ideal(Value(digits, base))
      <==> !(Shifted(digits, base) <= U64_MAX < Value(digits, base))
  {
  }

  /** The value without its last digit is a multiple of the base. */
  lemma ShiftedIsMultiple(digits: seq<char>, base: nat) returns (k: nat)
    requires AllDigits(digits, base)
    ensures Shifted(digits, base) == k * base <= Value(digits, base)
    ensures base > 0 ==> Value(digits, base) < k * base + base
  {
    k := 0;
    if digits != [] {
      var n := |digits| - 1;
      assert digits[..n] + [digits[n]] == digits;
      ValueMore(digits[..n], digits[n], base);
      k := Value(digits[..n], base);
    }
  }

  /** So it always keeps it in the bases whose multiples include 2^64. */
  lemma PowerOfTwoBases(digits: seq<char>, base: nat)
    requires base in {2, 4, 8, 16, 32} && AllDigits(digits, base)
    ensures Parsed(digits, base) == Ideal(Value(digits, base))
  {
    var k := ShiftedIsMultiple(digits, base);
    var q := match base
      case 2 => 0x8000_0000_0000_0000
      case 4 => 0x4000_0000_0000_0000
      case 8 => 0x2000_0000_0000_0000
      case 16 => 0x1000_0000_0000_0000
      case _ => 0x0800_0000_0000_0000;
    NoCarry(k, q, base);
  }

  lemma {:induction false} MulMonotone(a: nat, b: nat, c: nat)
    requires a <= b
    ensures a * c <= b * c
  {
    if a < b {
      MulMonotone(a, b - 1, c);
      OneMore(b - 1, c);
    }
  }

  lemma OneMore(a: nat, c: nat)
    ensures (a + 1) * c == a * c + c
  {
  }

  lemma NoCarry(k: nat, q: nat, base: nat)
    requires base > 0 && q * base == U64_MAX + 1
    ensures k * base <= U64_MAX ==> k * base + base <= U64_MAX + 1
  {
    OneMore(k, base);
    if k < q {
      MulMonotone(k + 1, q, base);
    } else {
      MulMonotone(q, k, base);
    }
  }

  /** 2^64 in base 36 parses without an error, sixteen too small. */
  lemma LostCarry()
    ensures AllDigits("3w5e11264sgsg", 36)
    ensures Parsed("3w5e11264sgsg", 36) == (Ok, U64_MAX - 15)
    ensures Value("3w5e11264sgsg", 36) == U64_MAX + 1
  {
    hide Value, Shifted, AllDigits;
    Nothing();
    Append("", '3', "3", 0);
    Append("3", 'w', "3w", 3);
    Append("3w", '5', "3w5", 140);
    Append("3w5", 'e', "3w5e", 5045);
    Append("3w5e", '1', "3w5e1", 181634);
    Append("3w5e1", '1', "3w5e11", 6538825);
    Append("3w5e11", '2', "3w5e112", 235397701);
    Append("3w5e112", '6', "3w5e1126", 8474317238);
    Append("3w5e1126", '4', "3w5e11264", 305075420574);
    Append("3w5e11264", 's', "3w5e11264s", 10982715140668);
    Append("3w5e11264s", 'g', "3w5e11264sg", 395377745064076);
    Append("3w5e11264sg", 's', "3w5e11264sgs", 14233598822306752);
    Append("3w5e11264sgs", 'g', "3w5e11264sgsg", 512409557603043100);
  }

  lemma Nothing()
    ensures AllDigits("", 36) && Value("", 36) == 0
  {
  }

  lemma Append(s: seq<char>, c: char, t: seq<char>, v: nat)
    requires t == s + [c]
    requires AllDigits(s, 36) && Value(s, 36) == v && Digit(c, 36) >= 0
    ensures AllDigits(t, 36) && Value(t, 36) == 36 * v + Digit(c, 36)
    ensures Shifted(t, 36) == 36 * v
  {
    ValueMore(s, c, 36);
  }

  // ---- printing --------------------------------------------------------

  /** `%zu` and `%u` */
  function Decimal(n: nat): seq<char> {
    if n < 10 then [DigitChar(n)] else Decimal(n / 10) + [DigitChar(n % 10)]
  }

  function DigitChar(d: nat): (c: char)
    requires d < 10
    ensures '0' <= c <= '9' && Digit(c, 10) == d
  {
    ('0' as int + d) as char
  }

  lemma {:induction false} DecimalValue(n: nat)
    ensures Decimal(n) != [] && forall i :: 0 <= i < |Decimal(n)| ==> '0' <= Decimal(n)[i] <= '9'
    ensures AllDigits(Decimal(n), 10) && Value(Decimal(n), 10) == n
  {
    hide Value;
    if n < 10 {
      ValueMore([], DigitChar(n), 10);
      assert [] + [DigitChar(n)] == [DigitChar(n)];
      DigitsNone(10);
    } else {
      DecimalValue(n / 10);
      assert AllDigits(Decimal(n), 10);
      ValueMore(Decimal(n / 10), DigitChar(n % 10), 10);
    }
  }

  // ---- numerals in every base ------------------------------------------

  const LOWER: seq<char> := "0123456789abcdefghijklmnopqrstuvwxyz"
  const UPPER: seq<char> := "0123456789ABCDEFGHIJKLMNOPQRSTUVWXYZ"

  lemma LettersAre(d: nat)
    requires d < 36
    ensures LOWER[d] as int == if d < 10 then '0' as int + d else 'a' as int + d - 10
    ensures UPPER[d] as int == if d < 10 then '0' as int + d else 'A' as int + d - 10
  {
  }

  lemma DigitIs(c: char, base: nat, d: nat, l: char, u: char)
    requires d < 36
    requires l as int == if d < 10 then '0' as int + d else 'a' as int + d - 10
    requires u as int == if d < 10 then '0' as int + d else 'A' as int + d - 10
    ensures Digit(c, base) == d <==> d < base && (c == l || c == u)
  {
  }

  /** The digits of a base are the first characters of either alphabet, and no others. */
  lemma DigitsExactly(c: char, base: nat, d: nat)
    requires d < 36
    ensures Digit(c, base) == d <==> d < base && (c == LOWER[d] || c == UPPER[d])
  {
    hide Digit;
    LettersAre(d);
    DigitIs(c, base, d, LOWER[d], UPPER[d]);
  }

  function InBase(n: nat, base: nat, alphabet: seq<char>): seq<char>
    requires 2 <= base <= 36 && |alphabet| == 36
  {
    Halved(n, base);
    if n < base then [alphabet[n]] else InBase(n / base, base, alphabet) + [alphabet[n % base]]
  }

  predicate Alphabet(a: seq<char>) {
    a == LOWER || a == UPPER
  }

  lemma DigitOf(alphabet: seq<char>, base: nat, d: nat)
    requires Alphabet(alphabet) && base <= 36 && d < base
    ensures |alphabet| == 36 && Digit(alphabet[d], base) == d
  {
    DigitsExactly(alphabet[d], base, d);
  }

  lemma Halved(n: nat, base: nat)
    requires base >= 2
    ensures n / base * base + n % base == n && n % base < base
    ensures n >= base ==> 0 < n / base < n
  {
    OneMore(n / base, base);
  }

  /** A numeral of any base, in small or capital letters, is worth its number. */
  lemma {:induction false} InBaseValue(n: nat, base: nat, alphabet: seq<char>)
    requires 2 <= base <= 36 && |alphabet| == 36 && Alphabet(alphabet)
    ensures var s := InBase(n, base, alphabet);
      && s != [] && AllDigits(s, base) && Value(s, base) == n
      && (Digit(s[0], base) == 0 ==> n == 0 && |s| == 1)
    decreases n
  {
    hide Value, Digit, Alphabet;
    var s := InBase(n, base, alphabet);
    if n < base {
      DigitOf(alphabet, base, n);
      assert [] + [alphabet[n]] == s;
      ValueMore([], alphabet[n], base);
      DigitsNone(base);
    } else {
      var q, d := n / base, n % base;
      Halved(n, base);
      DigitOf(alphabet, base, d);
      InBaseValue(q, base, alphabet);
      NumeralMore(InBase(q, base, alphabet), alphabet[d], base, q, d);
    }
  }

  lemma NumeralMore(s: seq<char>, c: char, base: nat, q: nat, d: nat)
    requires s != [] && AllDigits(s, base) && Value(s, base) == q && Digit(c, base) == d
    ensures AllDigits(s + [c], base) && Value(s + [c], base) == q * base + d && (s + [c])[0] == s[0]
  {
    hide Value, Digit;
    ValueMore(s, c, base);
  }

  /** The whole of `digits` is read. */
  predicate Reads(s: seq<char>, base0: nat, n: nat)
    requires base0 <= 36
  {
    var (skip, base) := Resolve(s, base0);
    Run(s[skip..], base) == |s| - skip && Parsed(s[skip..], base) == (Ok, n)
  }

  lemma DigitsRead(s: seq<char>, base: nat, n: nat)
    requires AllDigits(s, base) && Value(s, base) == n <= U64_MAX
    ensures Run(s, base) == |s| && Parsed(s, base) == (Ok, n)
  {
    hide Value, Shifted;
    assert s[..|s|] == s;
    RunEnds(s, |s|, base);
  }

  /** What is printed in a base is read in that base. */
  lemma BaseReads(n: nat, base: nat, alphabet: seq<char>)
    requires 2 <= base <= 36 && |alphabet| == 36 && Alphabet(alphabet) && n <= U64_MAX
    ensures Reads(InBase(n, base, alphabet), base, n)
  {
    hide Value, Digit, InBase, Run, Parsed, Alphabet;
    var s := InBase(n, base, alphabet);
    InBaseValue(n, base, alphabet);
    DigitsRead(s, base, n);
    assert s[0..] == s;
  }

  /** Where no base is asked for, a leading zero means octal, a leading "0x" means
      hexadecimal, and everything else is decimal. */
  lemma PrefixReads(n: nat, alphabet: seq<char>)
    requires |alphabet| == 36 && Alphabet(alphabet) && n <= U64_MAX
    ensures Reads("0" + InBase(n, 8, alphabet), 0, n)
    ensures Reads("0x" + InBase(n, 16, alphabet), 0, n)
    ensures Reads(InBase(n, 10, alphabet), 0, n)
  {
    hide Value, InBase, Run, Parsed, Alphabet;
    var o, h, d := InBase(n, 8, alphabet), InBase(n, 16, alphabet), InBase(n, 10, alphabet);
    InBaseValue(n, 8, alphabet);
    InBaseValue(n, 16, alphabet);
    InBaseValue(n, 10, alphabet);
    DigitsRead(o, 8, n);
    DigitsRead(h, 16, n);
    DigitsRead(d, 10, n);
    assert ("0" + o)[1] == o[0] && ("0" + o)[1..] == o;
    assert ("0x" + h)[2] == h[0] && ("0x" + h)[2..] == h;
    assert d[0..] == d;
  }
}
