/**
 The loops of the quoted string functions (src/shared/shl_util.c) over buffers: the
 decoder works in place, the tokenizer on positions, and the printer in a buffer
 that it enlarges before it writes.
 */
module QuotedStringBuffers {
  import opened QuotedString
  import R = Ring
  import T = TaggedWords

  const INT_LIMIT: nat := 0x8000_0000
  const SIZE_LIMIT: nat := R.SIZE_LIMIT

  /** `shl_qstr_decode_n` */
  method DecodeInPlace(str: array<char>, length: nat) returns (n: nat)
    requires length < str.Length
    modifies str
    ensures n <= length && str[..n] == Decode(old(str[..length])) && str[n] == NUL
  {
    hide DecRun, Unescape;
    ghost var was := str[..length];
    DecMore([], 'x');
    var quoted, escaped, pos := NUL, false, 0;
    var i := 0;
    while i < length
      invariant 0 <= pos <= pos + (if escaped then 1 else 0) <= i <= length
      invariant forall k :: i <= k < length ==> str[k] == was[k]
      invariant DecRun(was[..i]) == Dec(quoted, escaped, str[..pos])
    {
      assert was[..i] + [was[i]] == was[..i + 1];
      DecMore(was[..i], was[i]);
      ghost var out := str[..pos];
      var c := str[i];
      i := i + 1;
      if escaped {
        escaped := false;
        if Unescape(c) != NUL {
          str[pos] := Unescape(c);
          pos := pos + 1;
          assert str[..pos] == out + [Unescape(c)];
        } else if c != NUL {
          str[pos] := '\\';
          str[pos + 1] := c;
          pos := pos + 2;
          assert str[..pos] == out + ['\\', c];
        } else {
          assert out + [] == out;
        }
      } else if c == '\\' {
        escaped := true;
      } else if quoted != NUL && (c == '"' || c == '\'') && c == quoted {
        quoted := NUL;
      } else if quoted == NUL && (c == '"' || c == '\'') {
        quoted := c;
      } else if c != NUL {
        str[pos] := c;
        pos := pos + 1;
        assert str[..pos] == out + [c];
      }
    }
    assert was[..length] == was;
    ghost var out := str[..pos];
    assert out + [] == out;
    if escaped {
      str[pos] := '\\';
      pos := pos + 1;
      assert str[..pos] == out + ['\\'];
    }
    str[pos] := NUL;
    n := pos;
  }

  /** `shl__qstr_push`: a decoded copy. */
  method DecodedCopy(str: seq<char>) returns (r: seq<char>)
    ensures r == Decode(str)
  {
    var ns := new char[|str| + 1](i => if 0 <= i < |str| then str[i] else NUL);
    assert ns[..|str|] == str;
    var n := DecodeInPlace(ns, |str|);
    r := ns[..n];
  }

  /** `shl_qstr_tokenize_n` */
  method TokenizeLine(str: seq<char>) returns (strv: seq<seq<char>>)
    ensures strv == Tokenize(str)
  {
    hide TokRun, Decode;
    TokMore(TOK_START, [], 'x');
    strv := [];
    var quoted, escaped, pos := NUL, false, 0;
    for i := 0 to |str|
      invariant 0 <= pos <= i
      invariant TokRun(TOK_START, str[..i]) == Tok(quoted, escaped, str[pos..i], strv)
    {
      assert str[..i] + [str[i]] == str[..i + 1];
      TokMore(TOK_START, str[..i], str[i]);
      assert str[pos..i] + [str[i]] == str[pos..i + 1];
      if escaped {
        escaped := false;
      } else if str[i] == '\\' {
        escaped := true;
      } else if quoted != NUL {
        if (str[i] == '"' || str[i] == '\'') && str[i] == quoted {
          quoted := NUL;
        }
      } else if str[i] == '"' || str[i] == '\'' {
        quoted := str[i];
      } else if str[i] == ' ' {
        if pos != i {
          var t := DecodedCopy(str[pos..i]);
          strv := strv + [t];
        } else {
          assert strv + [] == strv;
        }
        pos := i + 1;
        assert str[pos..i + 1] == [];
      }
    }
    assert str[..|str|] == str;
    if pos != |str| {
      var t := DecodedCopy(str[pos..]);
      assert str[pos..] == str[pos..|str|];
      strv := strv + [t];
    } else {
      assert strv + [] == strv;
    }
  }

  /** `shl__qstr_length` */
  method QuoteLength(str: seq<char>) returns (l: nat, needQuote: bool)
    ensures l == |str| && needQuote == NeedQuote(str)
  {
    needQuote := false;
    for i := 0 to |str|
      invariant needQuote <==> exists k :: 0 <= k < i && IsSpace(str[k])
    {
      if str[i] == ' ' || str[i] == '\t' || str[i] == '\n' || str[i] == '\U{0B}' {
        needQuote := true;
      }
    }
    l := |str|;
  }

  /** Writes one character behind the first `len`. */
  method Put(line: array<char>, len: nat, c: char)
    requires len < line.Length
    modifies line
    ensures line[..len + 1] == old(line[..len]) + [c]
  {
    line[len] := c;
  }

  /** One round of the loop in `shl__qstr_encode`. */
  method PutEscaped(line: array<char>, len: nat, c: char) returns (end: nat)
    requires len + 2 <= line.Length
    modifies line
    ensures len < end <= len + 2 && line[..end] == old(line[..len]) + EscapeOne(c)
  {
    end := len;
    if c == '\\' || c == '"' {
      Put(line, end, '\\');
      end := end + 1;
    }
    Put(line, end, c);
    end := end + 1;
  }

  method PutAllEscaped(line: array<char>, len: nat, src: seq<char>) returns (end: nat)
    requires len + 2 * |src| <= line.Length
    modifies line
    ensures len <= end <= len + 2 * |src| && line[..end] == old(line[..len]) + Escaped(src)
  {
    hide Escaped, EscapeOne;
    ghost var front := line[..len];
    EscapedMore([], 'x');
    end := len;
    for i := 0 to |src|
      invariant len <= end <= len + 2 * i
      invariant line[..end] == front + Escaped(src[..i])
    {
      assert src[..i] + [src[i]] == src[..i + 1];
      EscapedMore(src[..i], src[i]);
      end := PutEscaped(line, end, src[i]);
    }
    assert src[..|src|] == src;
  }

  /** `shl__qstr_encode`: never more than two bytes per character and two quotes. */
  method EncodeInto(line: array<char>, len: nat, src: seq<char>, needQuote: bool) returns (end: nat)
    requires needQuote == NeedQuote(src)
    requires len + 2 * |src| + 2 <= line.Length
    modifies line
    ensures len <= end <= len + 2 * |src| + 2
    ensures line[..end] == old(line[..len]) + Encode(src)
  {
    hide Escaped, NeedQuote;
    end := len;
    if needQuote {
      Put(line, end, '"');
      end := PutAllEscaped(line, end + 1, src);
      Put(line, end, '"');
      end := end + 1;
      assert line[..end] == old(line[..len]) + (['"'] + Escaped(src) + ['"']);
    } else {
      end := PutAllEscaped(line, end, src);
    }
  }

  lemma LimitFits()
    ensures 4 * INT_LIMIT <= T.Pow2(63)
  {
    hide T.Pow2;
    R.Pow2Small();
    R.PowDouble(32);
    R.Pow2Monotone(33, 63);
  }

  /** `shl_greedy_realloc_t`: at least the room asked for, with the same contents. */
  method Reserve(line: array<char>, len: nat, need: nat, alloc: bool) returns (ok: bool, r: array<char>)
    requires len <= line.Length
    ensures r == line || fresh(r)
    ensures line.Length <= r.Length && r[..len] == line[..len]
    ensures ok ==> need <= r.Length
    ensures ok <== line.Length >= need || (alloc && need <= 4 * INT_LIMIT)
    ensures ok ==> line.Length >= need || alloc
  {
    r := line;
    if line.Length >= need {
      return true, r;
    }
    var want := if need > 64 then need else 64;
    R.AlignPower2IsLeast(want);
    LimitFits();
    var size := R.AlignPower2(want);
    if size == 0 || !alloc {
      return false, r;
    }
    r := new char[size](i reads line => if 0 <= i < line.Length then line[i] else NUL);
    assert r[..len] == line[..len];
    ok := true;
  }

  lemma JoinNone()
    ensures Join([]) == []
  {
  }

  lemma {:induction false} EncodedLonger(s: seq<char>)
    ensures |Encode(s)| >= |s|
  {
    EncodedNotEmpty(s);
  }

  lemma JoinMore(ts: seq<seq<char>>, i: nat)
    requires i < |ts|
    ensures Join(ts[..i + 1]) == Join(ts[..i]) + (if Join(ts[..i]) != [] then [' '] else []) + Encode(ts[i])
    ensures |Join(ts[..i + 1])| >= |Join(ts[..i])| + |ts[i]|
  {
    hide Encode;
    EncodedLonger(ts[i]);
    assert ts[..i + 1][..i] == ts[..i];
  }

  lemma {:induction false} JoinGrows(ts: seq<seq<char>>, i: nat, j: nat)
    requires i <= j <= |ts|
    ensures |Join(ts[..i])| <= |Join(ts[..j])|
  {
    hide Join;
    if i < j {
      JoinGrows(ts, i, j - 1);
      JoinMore(ts, j - 1);
    }
  }

  /** The room asked for one more token, unless a test finds that a size overflows;
      the sums wrap like the source's. */
  function Needed(l: nat, len: nat): Maybe
    requires l < SIZE_LIMIT && len < SIZE_LIMIT
  {
    var n0 := l * 2 % SIZE_LIMIT;
    var n1 := (n0 + len) % SIZE_LIMIT;
    var n2 := (n1 + 4) % SIZE_LIMIT;
    if n0 < l || n1 < n0 || n2 < len then Overflow else Room(n2)
  }

  datatype Maybe = Overflow | Room(need: nat)

  /** The two lengths below half the address space at which the last test can fail. */
  predicate Blind(l: nat) {
    SIZE_LIMIT - 4 <= 2 * l < SIZE_LIMIT
  }

  function Exactly(l: nat, len: nat): Maybe {
    if 2 * l + len + 4 < SIZE_LIMIT then Room(2 * l + len + 4) else Overflow
  }

  lemma Reduced(x: nat)
    requires x < 2 * SIZE_LIMIT
    ensures x % SIZE_LIMIT == if x < SIZE_LIMIT then x else x - SIZE_LIMIT
  {
  }

  /** The tests catch every overflow, exactly but for a string of one of these two
      lengths at the beginning of the line. */
  lemma NeededExact(l: nat, len: nat)
    requires l < SIZE_LIMIT && len < SIZE_LIMIT
    ensures Needed(l, len) == Exactly(l, len) <==> !(Blind(l) && 2 * l + len < SIZE_LIMIT)
  {
    Reduced(l * 2);
    var n0 := l * 2 % SIZE_LIMIT;
    Reduced(n0 + len);
    Reduced((n0 + len) % SIZE_LIMIT + 4);
  }

  /** One round of the loop in `shl_qstr_join`. */
  method AppendToken(line: array<char>, len: nat, s: seq<char>, alloc: bool)
      returns (ok: bool, r: array<char>, end: nat)
    requires |s| < SIZE_LIMIT && !Blind(|s|)
    requires len < line.Length && len < SIZE_LIMIT
    modifies line
    ensures r == line || fresh(r)
    ensures ok ==> end < r.Length && end < SIZE_LIMIT
    ensures ok ==> r[..end] == old(line[..len]) + (if len > 0 then [' '] else []) + Encode(s)
    ensures alloc && len < INT_LIMIT && |s| < INT_LIMIT ==> ok
  {
    hide Encode;
    var l, needQuote := QuoteLength(s);
    NeededExact(l, len);
    var need := Needed(l, len);
    if need.Overflow? {
      return false, line, len;
    }
    ok, r := Reserve(line, len, need.need, alloc);
    end := len;
    if !ok {
      return;
    }
    if len > 0 {
      Put(r, end, ' ');
      end := end + 1;
    }
    assert r[..end] == old(line[..len]) + (if len > 0 then [' '] else []);
    end := EncodeInto(r, end, s, needQuote);
  }

  /**
   `shl_qstr_join`: every write is inside the buffer, the line is the joined one
   with its terminator, and it fails exactly without memory or for lines whose length
   is no `int`.
   */
  method JoinLine(strv: seq<seq<char>>, alloc: bool) returns (ok: bool, line: array<char>, len: nat)
    requires forall s <- strv :: |s| < SIZE_LIMIT && !Blind(|s|)
    ensures ok <==> alloc && |Join(strv)| < INT_LIMIT
    ensures ok ==> len < line.Length && line[..len] == Join(strv) && line[len] == NUL
  {
    hide Encode, Join;
    len := 0;
    line := new char[0];
    ok, line := Reserve(line, 0, 1, alloc);
    if !ok {
      return;
    }
    line[0] := NUL;
    JoinNone();
    assert line[..0] == Join(strv[..0]) by { assert strv[..0] == []; }
    assert strv[..|strv|] == strv;
    for i := 0 to |strv|
      invariant len < line.Length && len < SIZE_LIMIT && alloc
      invariant line[..len] == Join(strv[..i])
      invariant fresh(line)
    {
      JoinMore(strv, i);
      JoinGrows(strv, i + 1, |strv|);
      ok, line, len := AppendToken(line, len, strv[i], alloc);
      if !ok {
        return;
      }
    }
    if len >= INT_LIMIT {
      ok := false;
      return;
    }
    ok := true;
    line[len] := NUL;
  }
}
