/**
 Quoted strings (src/shared/shl_util.c): a printer that joins tokens to a line, and
 the two scanners that undo it, one cutting the line at separators and one
 removing quotes and escapes from a token.
 */
module QuotedString {

  const NUL: char := '\0'

  // ---- the decoder -----------------------------------------------------

  /** `shl_qstr_unescape_char`; zero for characters without a meaning. */
  function Unescape(c: char): char {
    match c
    case 'a' => '\U{07}'
    case 'b' => '\U{08}'
    case 'f' => '\U{0C}'
    case 'n' => '\n'
    case 'r' => '\r'
    case 't' => '\t'
    case 'v' => '\U{0B}'
    case '"' => '"'
    case '\'' => '\''
    case '\\' => '\\'
    case _ => NUL
  }

  /** `quoted` is the open quote or zero. */
  datatype Dec = Dec(quoted: char, escaped: bool, out: seq<char>)

  function DecStep(d: Dec, c: char): Dec {
    if d.escaped then
      d.(escaped := false,
         out := d.out + (if Unescape(c) != NUL then [Unescape(c)] else if c == NUL then [] else ['\\', c]))
    else if c == '\\' then d.(escaped := true)
    else if d.quoted != NUL then
      if (c == '"' || c == '\'') && c == d.quoted then d.(quoted := NUL)
      else if c == NUL then d
      else d.(out := d.out + [c])
    else if c == '"' || c == '\'' then d.(quoted := c)
    else if c == NUL then d
    else d.(out := d.out + [c])
  }

  const DEC_START := Dec(NUL, false, [])

  function DecRun(s: seq<char>): Dec {
    if s == [] then DEC_START else DecStep(DecRun(s[..|s| - 1]), s[|s| - 1])
  }

  /** `shl_qstr_decode_n` */
  function Decode(s: seq<char>): seq<char> {
    DecRun(s).out + (if DecRun(s).escaped then ['\\'] else [])
  }

  // ---- the tokenizer ---------------------------------------------------

  /** `cur` is the token since `pos`, still encoded. */
  datatype Tok = Tok(quoted: char, escaped: bool, cur: seq<char>, toks: seq<seq<char>>)

  function TokStep(t: Tok, c: char): Tok {
    if t.escaped then t.(escaped := false, cur := t.cur + [c])
    else if c == '\\' then t.(escaped := true, cur := t.cur + [c])
    else if t.quoted != NUL then
      t.(quoted := if (c == '"' || c == '\'') && c == t.quoted then NUL else t.quoted, cur := t.cur + [c])
    else if c == '"' || c == '\'' then t.(quoted := c, cur := t.cur + [c])
    else if c == ' ' then t.(cur := [], toks := t.toks + Pushed(t.cur))
    else t.(cur := t.cur + [c])
  }

  /** The token pushed for `cur`; multiple separators are ignored. */
  function Pushed(cur: seq<char>): seq<seq<char>> {
    if cur == [] then [] else [Decode(cur)]
  }

  const TOK_START := Tok(NUL, false, [], [])

  function TokRun(t: Tok, s: seq<char>): Tok {
    if s == [] then t else TokStep(TokRun(t, s[..|s| - 1]), s[|s| - 1])
  }

  /** `shl_qstr_tokenize_n` */
  function Tokenize(s: seq<char>): seq<seq<char>> {
    var t := TokRun(TOK_START, s);
    t.toks + Pushed(t.cur)
  }

  // ---- the printer -----------------------------------------------------

  function Escaped(s: seq<char>): seq<char> {
    if s == [] then []
    else Escaped(s[..|s| - 1]) + EscapeOne(s[|s| - 1])
  }

  predicate IsSpace(c: char) {
    c == ' ' || c == '\t' || c == '\n' || c == '\U{0B}'
  }

  /** The flag that `shl__qstr_length` sets. */
  predicate NeedQuote(s: seq<char>) {
    exists i :: 0 <= i < |s| && IsSpace(s[i])
  }

  /** `shl__qstr_encode` */
  function Encode(s: seq<char>): seq<char> {
    if NeedQuote(s) then ['"'] + Escaped(s) + ['"'] else Escaped(s)
  }

  /** `shl_qstr_join` */
  function Join(ts: seq<seq<char>>): seq<char> {
    if ts == [] then []
    else
      var line := Join(ts[..|ts| - 1]);
      line + (if line != [] then [' '] else []) + Encode(ts[|ts| - 1])
  }

  // ---- one token -------------------------------------------------------

  lemma {:induction false} TokRunConcat(t: Tok, a: seq<char>, b: seq<char>)
    ensures TokRun(t, a + b) == TokRun(TokRun(t, a), b)
  {
    if b == [] {
      assert a + b == a;
    } else {
      TokRunConcat(t, a, b[..|b| - 1]);
      assert (a + b)[..|a + b| - 1] == a + b[..|b| - 1];
    }
  }

  lemma TokMore(t: Tok, s: seq<char>, c: char)
    ensures TokRun(t, s + [c]) == TokStep(TokRun(t, s), c)
    ensures TokRun(t, []) == t && TokRun(t, [c]) == TokStep(t, c)
  {
    assert (s + [c])[..|s|] == s;
    assert [c][..0] == [];
  }

  lemma DecMore(s: seq<char>, c: char)
    ensures DecRun(s + [c]) == DecStep(DecRun(s), c)
    ensures DecRun([]) == DEC_START && DecRun([c]) == DecStep(DEC_START, c)
  {
    assert (s + [c])[..|s|] == s;
    assert [c][..0] == [];
  }

  /** No character here is special outside double quotes. */
  predicate Harmless(s: seq<char>) {
    forall i :: 0 <= i < |s| ==> s[i] != ' ' && s[i] != '\''
  }

  predicate NoNul(s: seq<char>) {
    forall i :: 0 <= i < |s| ==> s[i] != NUL
  }

  function EscapeOne(c: char): seq<char> {
    if c == '\\' || c == '"' then ['\\', c] else [c]
  }

  lemma TokOne(t: Tok, s: seq<char>, c: char)
    requires var u := TokRun(t, s);
      !u.escaped && (u.quoted == '"' || (u.quoted == NUL && c != ' ' && c != '\''))
    ensures TokRun(t, s + EscapeOne(c)) == TokRun(t, s).(cur := TokRun(t, s).cur + EscapeOne(c))
  {
    var u := TokRun(t, s);
    hide TokRun;
    if c == '\\' || c == '"' {
      TokMore(t, s, '\\');
      TokMore(t, s + ['\\'], c);
      assert s + ['\\'] + [c] == s + EscapeOne(c);
      assert u.cur + ['\\'] + [c] == u.cur + EscapeOne(c);
    } else {
      TokMore(t, s, c);
    }
  }

  lemma DecOne(s: seq<char>, c: char)
    requires var d := DecRun(s);
      !d.escaped && c != NUL && (d.quoted == '"' || (d.quoted == NUL && c != '\''))
    ensures DecRun(s + EscapeOne(c)) == DecRun(s).(out := DecRun(s).out + [c])
  {
    hide DecRun;
    if c == '\\' || c == '"' {
      DecMore(s, '\\');
      DecMore(s + ['\\'], c);
      assert s + ['\\'] + [c] == s + EscapeOne(c);
    } else {
      DecMore(s, c);
    }
  }

  /** Escaped characters stay inside the token, between double quotes whatever they
      are and outside them if they are harmless. */
  lemma {:induction false} EscapedStays(t: Tok, s: seq<char>)
    requires !t.escaped && (t.quoted == '"' || (t.quoted == NUL && Harmless(s)))
    ensures TokRun(t, Escaped(s)) == t.(cur := t.cur + Escaped(s))
  {
    hide TokRun, EscapeOne;
    if s == [] {
      TokMore(t, [], 'x');
      assert t.cur + [] == t.cur;
    } else {
      var n := |s| - 1;
      EscapedStays(t, s[..n]);
      TokOne(t, Escaped(s[..n]), s[n]);
      assert t.cur + Escaped(s) == t.cur + Escaped(s[..n]) + EscapeOne(s[n]);
    }
  }

  /** Decoding gives the escaped characters back. */
  lemma {:induction false} EscapedDecodes(quoted: char, pre: seq<char>, s: seq<char>)
    requires NoNul(s) && (quoted == '"' || (quoted == NUL && Harmless(s)))
    requires DecRun(pre) == Dec(quoted, false, [])
    ensures DecRun(pre + Escaped(s)) == Dec(quoted, false, s)
  {
    hide DecRun, EscapeOne;
    if s == [] {
      assert pre + [] == pre;
    } else {
      var n := |s| - 1;
      EscapedDecodes(quoted, pre, s[..n]);
      DecOne(pre + Escaped(s[..n]), s[n]);
      assert s[..n] + [s[n]] == s;
      assert pre + Escaped(s) == pre + Escaped(s[..n]) + EscapeOne(s[n]);
    }
  }

  /** A token that the scanners recover: apostrophes only where quotes are put. */
  predicate Plain(s: seq<char>) {
    NoNul(s) && ('\'' in s ==> NeedQuote(s))
  }

  lemma EncodedStays(toks: seq<seq<char>>, s: seq<char>)
    requires Plain(s)
    ensures TokRun(Tok(NUL, false, [], toks), Encode(s)) == Tok(NUL, false, Encode(s), toks)
  {
    hide TokRun;
    var t := Tok(NUL, false, [], toks);
    if NeedQuote(s) {
      var t1 := Tok('"', false, ['"'], toks);
      TokMore(t, [], '"');
      assert [] + ['"'] == ['"'];
      EscapedStays(t1, s);
      TokRunConcat(t, ['"'], Escaped(s));
      TokMore(t, ['"'] + Escaped(s), '"');
    } else {
      EscapedStays(t, s);
      assert [] + Escaped(s) == Escaped(s);
    }
  }

  lemma EncodedDecodes(s: seq<char>)
    requires Plain(s)
    ensures Decode(Encode(s)) == s
  {
    hide DecRun;
    DecMore([], '"');
    if NeedQuote(s) {
      EscapedDecodes('"', ['"'], s);
      DecMore(['"'] + Escaped(s), '"');
    } else {
      EscapedDecodes(NUL, [], s);
      assert [] + Escaped(s) == Escaped(s);
    }
    assert s + [] == s;
  }

  lemma {:induction false} EncodedNotEmpty(s: seq<char>)
    ensures Encode(s) == [] <==> s == []
    ensures |Escaped(s)| >= |s|
  {
    if s != [] { EncodedNotEmpty(s[..|s| - 1]); }
  }

  // ---- whole lines -----------------------------------------------------

  function NonEmpty(ts: seq<seq<char>>): (r: seq<seq<char>>)
    ensures |r| <= |ts|
  {
    if ts == [] then []
    else NonEmpty(ts[..|ts| - 1]) + (if ts[|ts| - 1] == [] then [] else [ts[|ts| - 1]])
  }

  /** The tokenizer between two tokens of a joined line. */
  lemma {:induction false} JoinedRun(ts: seq<seq<char>>)
    requires forall t :: t in ts ==> Plain(t)
    ensures var r := TokRun(TOK_START, Join(ts));
      r.quoted == NUL && !r.escaped && r.toks + Pushed(r.cur) == NonEmpty(ts)
  {
    if ts != [] {
      hide TokRun, Decode, Encode;
      var n := |ts| - 1;
      var line, t := Join(ts[..n]), ts[n];
      JoinedRun(ts[..n]);
      var r := TokRun(TOK_START, line);
      var before := line + (if line != [] then [' '] else []);
      assert TokRun(TOK_START, before) == Tok(NUL, false, [], NonEmpty(ts[..n])) by {
        if line == [] {
          TokMore(TOK_START, [], 'x');
          assert before == [];
        } else {
          TokMore(TOK_START, line, ' ');
        }
      }
      TokRunConcat(TOK_START, before, Encode(t));
      EncodedStays(NonEmpty(ts[..n]), t);
      EncodedDecodes(t);
      EncodedNotEmpty(t);
    }
  }

  lemma {:induction false} NonEmptyKeepsAll(ts: seq<seq<char>>)
    ensures if [] in ts then |NonEmpty(ts)| < |ts| else NonEmpty(ts) == ts
  {
    if ts != [] {
      var n := |ts| - 1;
      var init, last := ts[..n], ts[n];
      assert ts == init + [last];
      NonEmptyKeepsAll(init);
      if last == [] {
        assert NonEmpty(ts) == NonEmpty(init) + [];
      } else {
        assert NonEmpty(ts) == NonEmpty(init) + [last];
        assert [] in ts <==> [] in init;
      }
    }
  }

  /** Joining drops empty tokens and nothing else. */
  lemma JoinTokenizes(ts: seq<seq<char>>)
    requires forall t :: t in ts ==> Plain(t)
    ensures Tokenize(Join(ts)) == NonEmpty(ts)
  {
    JoinedRun(ts);
  }

  // ---- counting apostrophes --------------------------------------------

  function Apos(s: seq<char>): nat {
    if s == [] then 0 else Apos(s[..|s| - 1]) + (if s[|s| - 1] == '\'' then 1 else 0)
  }

  function AposAll(ts: seq<seq<char>>): nat {
    if ts == [] then 0 else AposAll(ts[..|ts| - 1]) + Apos(ts[|ts| - 1])
  }

  /** The apostrophes of a line that open or close quotes. */
  function Lost(s: seq<char>): nat {
    if s == [] then 0
    else
      var n := |s| - 1;
      var t := TokRun(TOK_START, s[..n]);
      Lost(s[..n]) + (if s[n] == '\'' && !t.escaped && t.quoted != '"' then 1 else 0)
  }

  lemma AposMore(s: seq<char>, c: char)
    ensures Apos(s + [c]) == Apos(s) + (if c == '\'' then 1 else 0)
  {
    assert (s + [c])[..|s|] == s;
  }

  lemma {:induction false} AposConcat(a: seq<char>, b: seq<char>)
    ensures Apos(a + b) == Apos(a) + Apos(b)
  {
    if b == [] {
      assert a + b == a;
    } else {
      AposConcat(a, b[..|b| - 1]);
      assert (a + b)[..|a + b| - 1] == a + b[..|b| - 1];
    }
  }

  lemma AposAllMore(ts: seq<seq<char>>, t: seq<char>)
    ensures AposAll(ts + [t]) == AposAll(ts) + Apos(t)
  {
    assert (ts + [t])[..|ts|] == ts;
  }

  predicate IsQuote(c: char) {
    c == NUL || c == '"' || c == '\''
  }

  /** One decoding step delivers an apostrophe exactly for one that is escaped or
      between double quotes. */
  lemma DecStepApos(d: Dec, c: char)
    requires IsQuote(d.quoted)
    ensures IsQuote(DecStep(d, c).quoted)
    ensures Apos(DecStep(d, c).out) == Apos(d.out) + (if c == '\'' && (d.escaped || d.quoted == '"') then 1 else 0)
  {
    hide Apos;
    if d.escaped {
      EscapeApos(d.out, c);
    } else {
      AposMore(d.out, c);
    }
  }

  lemma EscapeApos(out: seq<char>, c: char)
    ensures Apos(DecStep(Dec(NUL, true, out), c).out) == Apos(out) + (if c == '\'' then 1 else 0)
  {
    hide Apos;
    AposMore(out, Unescape(c));
    AposMore(out, '\\');
    AposMore(out + ['\\'], c);
    assert out + ['\\', c] == out + ['\\'] + [c];
    assert out + [] == out;
  }

  lemma LostMore(s: seq<char>, c: char)
    ensures var t := TokRun(TOK_START, s);
      Lost(s + [c]) == Lost(s) + (if c == '\'' && !t.escaped && t.quoted != '"' then 1 else 0)
  {
    assert (s + [c])[..|s|] == s;
  }

  /** The two scanners agree on the state, and of the apostrophes read those not
      lost are in the tokens. */
  predicate Agreeing(s: seq<char>) {
    var t := TokRun(TOK_START, s);
    var d := DecRun(t.cur);
    && t.quoted == d.quoted && t.escaped == d.escaped && IsQuote(d.quoted)
    && AposAll(t.toks) + Apos(d.out) + Lost(s) == Apos(s)
  }

  lemma AgreeingMore(s: seq<char>, c: char)
    requires Agreeing(s)
    ensures Agreeing(s + [c])
  {
    hide TokRun, DecRun, Apos, AposAll, Lost, TokStep, IsQuote;
    AgreeStep(TokRun(TOK_START, s), c);
    TokMore(TOK_START, s, c);
    AposMore(s, c);
    LostMore(s, c);
  }

  lemma {:induction false} ScannersAgree(s: seq<char>)
    ensures Agreeing(s)
  {
    if s != [] {
      hide Agreeing;
      var n := |s| - 1;
      ScannersAgree(s[..n]);
      AgreeingMore(s[..n], s[n]);
      assert s[..n] + [s[n]] == s;
    }
  }

  lemma AgreeStep(t: Tok, c: char)
    requires var d := DecRun(t.cur); t.quoted == d.quoted && t.escaped == d.escaped && IsQuote(d.quoted)
    ensures var d, u := DecRun(t.cur), TokStep(t, c);
      var e := DecRun(u.cur);
      && u.quoted == e.quoted && u.escaped == e.escaped && IsQuote(e.quoted)
      && AposAll(u.toks) + Apos(e.out)
         == AposAll(t.toks) + Apos(d.out) + (if c == '\'' && (t.escaped || t.quoted == '"') then 1 else 0)
  {
    hide DecRun, Apos, AposAll;
    var d, u := DecRun(t.cur), TokStep(t, c);
    DecMore(t.cur, c);
    if c == ' ' && !t.escaped && t.quoted == NUL {
      AgreePush(t, d);
    } else {
      assert u.cur == t.cur + [c] && u.toks == t.toks;
      DecStepApos(d, c);
    }
  }

  lemma AgreePush(t: Tok, d: Dec)
    requires d == DecRun(t.cur) && !d.escaped
    ensures AposAll(t.toks + Pushed(t.cur)) == AposAll(t.toks) + Apos(d.out) && Apos([]) == 0
  {
    assert d.out + [] == d.out && t.toks + [] == t.toks;
    AposAllMore(t.toks, d.out);
  }

  /** Escaping adds no apostrophe. */
  lemma {:induction false} EscapedApos(s: seq<char>)
    ensures Apos(Escaped(s)) == Apos(s)
  {
    if s != [] {
      hide Apos;
      var n := |s| - 1;
      EscapedApos(s[..n]);
      var e, c := Escaped(s[..n]), s[n];
      assert s[..n] + [c] == s;
      AposMore(s[..n], c);
      AposMore(e, c);
      AposMore(e, '\\');
      AposMore(e + ['\\'], c);
      assert e + ['\\', c] == e + ['\\'] + [c];
    }
  }

  lemma EncodeApos(s: seq<char>)
    ensures Apos(Encode(s)) == Apos(s)
  {
    EscapedApos(s);
    AposNone();
    hide Apos;
    AposConcat(['"'], Escaped(s));
    AposMore(['"'] + Escaped(s), '"');
    assert [] + ['"'] == ['"'];
    AposMore([], '"');
  }

  lemma {:induction false} JoinApos(ts: seq<seq<char>>)
    ensures Apos(Join(ts)) == AposAll(ts)
  {
    if ts != [] {
      var n := |ts| - 1;
      var line := Join(ts[..n]);
      JoinApos(ts[..n]);
      EncodeApos(ts[n]);
      hide Apos;
      AposMore(line, ' ');
      assert line + [] == line;
      AposConcat(line + (if line != [] then [' '] else []), Encode(ts[n]));
    }
  }

  /** The tokenizer's tokens have the apostrophes of the line that are not lost. */
  lemma TokenizeApos(s: seq<char>)
    ensures AposAll(Tokenize(s)) + Lost(s) == Apos(s)
  {
    var t := TokRun(TOK_START, s);
    var d := DecRun(t.cur);
    ScannersAgree(s);
    hide TokRun, DecRun, Apos, Lost;
    AposAllMore(t.toks, Decode(t.cur));
    AposMore(d.out, '\\');
    assert d.out + [] == d.out && t.toks + [] == t.toks;
    if t.cur == [] {
      DecMore([], 'x');
      AposNone();
    }
  }

  lemma AposNone()
    ensures Apos([]) == 0
  {
  }

  lemma {:induction false} LostGrows(a: seq<char>, b: seq<char>)
    ensures Lost(a) <= Lost(a + b)
  {
    if b == [] {
      assert a + b == a;
    } else {
      LostGrows(a, b[..|b| - 1]);
      assert (a + b)[..|a + b| - 1] == a + b[..|b| - 1];
    }
  }

  lemma EscapedMore(s: seq<char>, c: char)
    ensures Escaped(s + [c]) == Escaped(s) + EscapeOne(c)
    ensures Escaped([]) == []
  {
    hide EscapeOne;
    assert (s + [c])[..|s|] == s;
  }

  lemma {:induction false} EscapedConcat(a: seq<char>, b: seq<char>)
    ensures Escaped(a + b) == Escaped(a) + Escaped(b)
  {
    hide Escaped, EscapeOne;
    EscapedMore([], 'x');
    if b == [] {
      assert a + b == a && Escaped(a) + [] == Escaped(a);
    } else {
      var n := |b| - 1;
      EscapedConcat(a, b[..n]);
      EscapedMore(a + b[..n], b[n]);
      EscapedMore(b[..n], b[n]);
      assert a + b == a + b[..n] + [b[n]] && b == b[..n] + [b[n]];
    }
  }

  lemma {:induction false} FirstApos(s: seq<char>) returns (j: nat)
    requires '\'' in s
    ensures j < |s| && s[j] == '\'' && forall i :: 0 <= i < j ==> s[i] != '\''
  {
    if s[0] == '\'' {
      j := 0;
    } else {
      j := FirstApos(s[1..]);
      j := j + 1;
    }
  }

  lemma LostHere(s: seq<char>)
    requires var t := TokRun(TOK_START, s); t.quoted == NUL && !t.escaped
    ensures Lost(s + ['\'']) >= 1
  {
    assert (s + ['\''])[..|s|] == s;
  }

  lemma EscapedAround(a: seq<char>, b: seq<char>)
    ensures Escaped(a + ['\''] + b) == Escaped(a) + ['\''] + Escaped(b)
  {
    hide Escaped;
    EscapedConcat(a + ['\''], b);
    EscapedMore(a, '\'');
  }

  /** An apostrophe that is not put between quotes opens some. */
  lemma UnquotedLost(before: seq<char>, s: seq<char>)
    requires '\'' in s && !NeedQuote(s)
    requires var t := TokRun(TOK_START, before); t.quoted == NUL && !t.escaped
    ensures Lost(before + Encode(s)) >= 1
  {
    hide TokRun, Lost, Escaped;
    var j := FirstApos(s);
    var a, b := s[..j], s[j + 1..];
    assert Harmless(a);
    assert s == a + ['\''] + b;
    EscapedAround(a, b);
    EscapedStays(TokRun(TOK_START, before), a);
    TokRunConcat(TOK_START, before, Escaped(a));
    var upTo := before + Escaped(a);
    LostHere(upTo);
    LostGrows(upTo + ['\''], Escaped(b));
    assert before + (Escaped(a) + ['\''] + Escaped(b)) == (upTo + ['\'']) + Escaped(b);
  }

  function Separated(line: seq<char>): seq<char> {
    line + (if line != [] then [' '] else [])
  }

  lemma SeparatedRun(line: seq<char>)
    requires var t := TokRun(TOK_START, line); t.quoted == NUL && !t.escaped
    ensures var t := TokRun(TOK_START, Separated(line)); t.quoted == NUL && !t.escaped
  {
    hide TokRun;
    TokMore(TOK_START, line, ' ');
    assert line + [] == line;
  }

  lemma {:induction false} JoinLoses(ts: seq<seq<char>>)
    requires forall t :: t in ts ==> NoNul(t)
    requires exists t :: t in ts && !Plain(t)
    ensures Lost(Join(ts)) >= 1
  {
    var n := |ts| - 1;
    var init, last := ts[..n], ts[n];
    assert ts == init + [last];
    var line := Join(init);
    assert Join(ts) == Separated(line) + Encode(last);
    hide Join, TokRun, Lost, Encode, NeedQuote, NoNul;
    if exists t :: t in init && !Plain(t) {
      JoinLoses(init);
      LostGrows(line, if line != [] then [' '] else []);
      LostGrows(Separated(line), Encode(last));
    } else {
      JoinedRun(init);
      SeparatedRun(line);
      UnquotedLost(Separated(line), last);
    }
  }

  /** Tokenizing a joined list gives it back exactly when no token is empty and
      every token with an apostrophe also has a blank, tab, newline or vertical tab. */
  lemma JoinRoundTrip(ts: seq<seq<char>>)
    requires forall t :: t in ts ==> NoNul(t)
    ensures Tokenize(Join(ts)) == ts
       <==> forall t :: t in ts ==> t != [] && ('\'' in t ==> NeedQuote(t))
  {
    hide Tokenize, Join, AposAll, Lost, NonEmpty, NeedQuote;
    if forall t :: t in ts ==> Plain(t) {
      JoinTokenizes(ts);
      NonEmptyKeepsAll(ts);
    } else {
      JoinLoses(ts);
      TokenizeApos(Join(ts));
      JoinApos(ts);
    }
  }
}
