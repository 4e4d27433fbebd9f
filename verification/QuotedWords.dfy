/**
 What the scanners of quoted strings (src/shared/shl_util.c) make of lines that were not
 printed by the joining function: bare and quoted words with any number of blanks around
 them, and every kind of escape.
 */
module QuotedWords {
  import opened QuotedString
  import W = CleanWords

  // ---- pieces ----------------------------------------------------------

  /** A word as it is written: bare, or between single or double quotes. */
  datatype Piece = Bare(text: seq<char>) | Single(text: seq<char>) | Double(text: seq<char>)

  predicate Free(s: seq<char>, c: char) {
    forall i :: 0 <= i < |s| ==> s[i] != c && s[i] != '\\' && s[i] != NUL
  }

  predicate Proper(p: Piece) {
    match p
    case Bare(s) => s != [] && Free(s, ' ') && Free(s, '"') && Free(s, '\'')
    case Single(s) => Free(s, '\'')
    case Double(s) => Free(s, '"')
  }

  function Shown(p: Piece): seq<char> {
    match p
    case Bare(s) => s
    case Single(s) => ['\''] + s + ['\'']
    case Double(s) => ['"'] + s + ['"']
  }

  // ---- decoding --------------------------------------------------------

  /** Characters without a meaning at this place are kept. */
  lemma {:induction false} KeptDecoded(pre: seq<char>, s: seq<char>, open: char)
    requires DecRun(pre).quoted == open && !DecRun(pre).escaped
    requires if open == NUL then Free(s, '"') && Free(s, '\'')
             else (open == '"' || open == '\'') && Free(s, open)
    ensures DecRun(pre + s) == DecRun(pre).(out := DecRun(pre).out + s)
  {
    hide DecRun;
    if s == [] {
      assert pre + s == pre && DecRun(pre).out + s == DecRun(pre).out;
    } else {
      var n := |s| - 1;
      KeptDecoded(pre, s[..n], open);
      assert pre + s == pre + s[..n] + [s[n]];
      DecMore(pre + s[..n], s[n]);
      assert DecRun(pre).out + s[..n] + [s[n]] == DecRun(pre).out + s;
    }
  }

  lemma DecodeShown(p: Piece)
    requires Proper(p)
    ensures Decode(Shown(p)) == p.text
  {
    hide DecRun;
    DecMore([], 'x');
    assert [] + p.text == p.text && p.text + [] == p.text;
    match p
    case Bare(s) => KeptDecoded([], s, NUL);
    case Single(s) => QuotedDecoded(s, '\'');
    case Double(s) => QuotedDecoded(s, '"');
  }

  lemma QuotedDecoded(s: seq<char>, q: char)
    requires (q == '"' || q == '\'') && Free(s, q)
    ensures DecRun([q] + s + [q]) == Dec(NUL, false, s)
  {
    hide DecRun;
    DecMore([], q);
    assert [] + [q] == [q] && [] + s == s;
    KeptDecoded([q], s, q);
    DecMore([q] + s, q);
  }

  /** Every escape that has a meaning, written by its letter. */
  function Escape(c: char): seq<char> {
    match c
    case '\U{07}' => ['\\', 'a']
    case '\U{08}' => ['\\', 'b']
    case '\U{0C}' => ['\\', 'f']
    case '\n' => ['\\', 'n']
    case '\r' => ['\\', 'r']
    case '\t' => ['\\', 't']
    case '\U{0B}' => ['\\', 'v']
    case '"' => ['\\', '"']
    case '\'' => ['\\', '\'']
    case '\\' => ['\\', '\\']
    case _ => [c]
  }

  function EscapeAll(s: seq<char>): seq<char> {
    if s == [] then [] else EscapeAll(s[..|s| - 1]) + Escape(s[|s| - 1])
  }

  /** Decoding undoes it, inside and outside quotes. */
  lemma {:induction false} EscapesDecode(pre: seq<char>, s: seq<char>)
    requires !DecRun(pre).escaped && NUL !in s
    ensures DecRun(pre + EscapeAll(s)) == DecRun(pre).(out := DecRun(pre).out + s)
  {
    hide DecRun;
    if s == [] {
      assert pre + [] == pre && DecRun(pre).out + s == DecRun(pre).out;
    } else {
      var n := |s| - 1;
      EscapesDecode(pre, s[..n]);
      EscapeDecodes(pre + EscapeAll(s[..n]), s[n]);
      assert pre + EscapeAll(s) == pre + EscapeAll(s[..n]) + Escape(s[n]);
      assert DecRun(pre).out + s[..n] + [s[n]] == DecRun(pre).out + s;
    }
  }

  lemma EscapeDecodes(pre: seq<char>, c: char)
    requires !DecRun(pre).escaped && c != NUL
    ensures DecRun(pre + Escape(c)) == DecRun(pre).(out := DecRun(pre).out + [c])
  {
    hide DecRun;
    var e := Escape(c);
    if |e| == 2 {
      DecMore(pre, '\\');
      DecMore(pre + ['\\'], e[1]);
      assert pre + e == pre + ['\\'] + [e[1]];
    } else {
      DecMore(pre, c);
    }
  }

  /** No escape has a meaning with this character. */
  predicate Meaningless(c: char) {
    && c != 'a' && c != 'b' && c != 'f' && c != 'n' && c != 'r' && c != 't' && c != 'v'
    && c != '"' && c != '\'' && c != '\\'
  }

  /** Other escapes stay as they are, and so does a backslash at the end. */
  lemma OtherEscapes(pre: seq<char>, c: char)
    requires !DecRun(pre).escaped && c != NUL && Meaningless(c)
    ensures DecRun(pre + ['\\', c]) == DecRun(pre).(out := DecRun(pre).out + ['\\', c])
    ensures Decode(pre + ['\\']) == DecRun(pre).out + ['\\']
  {
    hide DecRun;
    DecMore(pre, '\\');
    DecMore(pre + ['\\'], c);
    assert pre + ['\\', c] == pre + ['\\'] + [c];
  }

  // ---- cutting ---------------------------------------------------------

  predicate Whole(t: Tok) {
    t.quoted == NUL && !t.escaped
  }

  lemma {:induction false} KeptInside(t: Tok, s: seq<char>, open: char)
    requires t.quoted == open && !t.escaped
    requires if open == NUL then Free(s, '"') && Free(s, '\'') && Free(s, ' ')
             else (open == '"' || open == '\'') && Free(s, open)
    ensures TokRun(t, s) == t.(cur := t.cur + s)
  {
    hide TokRun;
    TokMore(t, [], 'x');
    if s == [] {
      assert t.cur + s == t.cur;
    } else {
      var n := |s| - 1;
      KeptInside(t, s[..n], open);
      assert s == s[..n] + [s[n]];
      TokMore(t, s[..n], s[n]);
      assert t.cur + s[..n] + [s[n]] == t.cur + s;
    }
  }

  lemma QuotesStay(t: Tok, s: seq<char>, q: char)
    requires Whole(t) && (q == '"' || q == '\'') && Free(s, q)
    ensures TokRun(t, [q] + s + [q]) == t.(cur := t.cur + ([q] + s + [q]))
  {
    hide TokRun;
    TokMore(t, [], q);
    assert [] + [q] == [q];
    var u := TokRun(t, [q]);
    KeptInside(u, s, q);
    TokRunConcat(t, [q], s);
    TokMore(t, [q] + s, q);
    assert t.cur + [q] + s + [q] == t.cur + ([q] + s + [q]);
  }

  lemma PieceStays(t: Tok, p: Piece)
    requires Whole(t) && Proper(p)
    ensures TokRun(t, Shown(p)) == t.(cur := t.cur + Shown(p))
  {
    hide TokRun;
    match p
    case Bare(s) => KeptInside(t, s, NUL);
    case Single(s) => QuotesStay(t, s, '\'');
    case Double(s) => QuotesStay(t, s, '"');
  }

  predicate Blanks(g: seq<char>) {
    forall i :: 0 <= i < |g| ==> g[i] == ' '
  }

  lemma {:induction false} BlanksCut(t: Tok, g: seq<char>)
    requires Whole(t) && Blanks(g)
    ensures TokRun(t, g) == if g == [] then t else t.(cur := [], toks := t.toks + Pushed(t.cur))
  {
    hide TokRun, Decode;
    TokMore(t, [], 'x');
    if g != [] {
      var n := |g| - 1;
      BlanksCut(t, g[..n]);
      assert g == g[..n] + [g[n]];
      TokMore(t, g[..n], g[n]);
      assert t.toks + Pushed(t.cur) + [] == t.toks + Pushed(t.cur);
    }
  }

  function ShownAll(ps: seq<Piece>): (r: seq<seq<char>>)
    ensures |r| == |ps| && forall i :: 0 <= i < |ps| ==> r[i] == Shown(ps[i])
  {
    seq(|ps|, i requires 0 <= i < |ps| => Shown(ps[i]))
  }

  function Meant(ps: seq<Piece>): (r: seq<seq<char>>)
    ensures |r| == |ps| && forall i :: 0 <= i < |ps| ==> r[i] == ps[i].text
  {
    seq(|ps|, i requires 0 <= i < |ps| => ps[i].text)
  }

  predicate Apart(ps: seq<Piece>, gaps: seq<seq<char>>) {
    && |gaps| == |ps| + 1
    && (forall i :: 0 <= i < |ps| ==> Proper(ps[i]))
    && (forall i :: 0 <= i < |gaps| ==> Blanks(gaps[i]))
    && (forall i :: 1 <= i < |ps| ==> gaps[i] != [])
  }

  lemma Sizes(ps: seq<Piece>, gaps: seq<seq<char>>)
    requires Apart(ps, gaps)
    ensures |gaps| == |ShownAll(ps)| + 1
  {
  }

  /** One more word with the blanks behind it. */
  lemma PieceMore(line: seq<char>, p: Piece, g: seq<char>)
    requires Whole(TokRun(TOK_START, line)) && TokRun(TOK_START, line).cur == []
    requires Proper(p) && Blanks(g)
    ensures var t := TokRun(TOK_START, line);
      var u := TokRun(TOK_START, line + Shown(p) + g);
      && Whole(u) && u.toks + Pushed(u.cur) == t.toks + [p.text]
      && (u.cur == [] <==> g != [])
  {
    hide TokRun, Decode, Shown, Proper;
    var t := TokRun(TOK_START, line);
    PieceStays(t, p);
    TokRunConcat(TOK_START, line, Shown(p));
    assert [] + Shown(p) == Shown(p);
    BlanksCut(TokRun(TOK_START, line + Shown(p)), g);
    TokRunConcat(TOK_START, line + Shown(p), g);
    DecodeShown(p);
    ShownLong(p);
    assert t.toks + [p.text] + [] == t.toks + [p.text];
  }

  lemma {:induction false} SpreadRun(ps: seq<Piece>, gaps: seq<seq<char>>)
    requires Apart(ps, gaps)
    ensures var t := TokRun(TOK_START, W.Spread(ShownAll(ps), gaps));
      && Whole(t) && t.toks + Pushed(t.cur) == Meant(ps)
      && (t.cur == [] <==> ps == [] || gaps[|ps|] != [])
  {
    hide TokRun, Decode, Shown, Proper, Pushed;
    if ps == [] {
      NothingYet(gaps[0]);
    } else {
      var n := |ps| - 1;
      var front, p := ps[..n], ps[n];
      SpreadRun(front, gaps[..n + 1]);
      assert ShownAll(ps)[..n] == ShownAll(front);
      var line := W.Spread(ShownAll(front), gaps[..n + 1]);
      NoToken(TokRun(TOK_START, line));
      PieceMore(line, p, gaps[n + 1]);
      assert Meant(front) + [p.text] == Meant(ps);
    }
  }

  lemma NothingYet(g: seq<char>)
    requires Blanks(g)
    ensures var t := TokRun(TOK_START, g); Whole(t) && t.cur == [] && t.toks + Pushed(t.cur) == []
  {
    hide TokRun, Decode;
    BlanksCut(TOK_START, g);
  }

  lemma NoToken(t: Tok)
    ensures t.cur == [] ==> t.toks + Pushed(t.cur) == t.toks
  {
    assert t.toks + [] == t.toks;
  }

  lemma ShownLong(p: Piece)
    requires Proper(p)
    ensures Shown(p) != []
  {
  }

  /** Bare and quoted words with any number of blanks around them: the tokenizer gives
      what is written between the blanks, without the quotes. */
  lemma SpreadTokenized(ps: seq<Piece>, gaps: seq<seq<char>>)
    requires Apart(ps, gaps)
    ensures Tokenize(W.Spread(ShownAll(ps), gaps)) == Meant(ps)
  {
    hide TokRun, Decode;
    SpreadRun(ps, gaps);
  }

  /** An escaped character never ends a token, inside or outside quotes. */
  lemma EscapeNotCut(t: Tok, c: char)
    requires !t.escaped
    ensures TokRun(t, ['\\', c]) == t.(cur := t.cur + ['\\', c])
  {
    hide TokRun;
    TokMore(t, [], '\\');
    TokMore(t, ['\\'], c);
    assert [] + ['\\'] == ['\\'] && ['\\'] + [c] == ['\\', c];
    assert t.cur + ['\\'] + [c] == t.cur + ['\\', c];
  }

  /** A quote that is not closed takes the rest of the line into one token. */
  lemma OpenQuote(line: seq<char>, s: seq<char>, q: char)
    requires Whole(TokRun(TOK_START, line)) && TokRun(TOK_START, line).cur == []
    requires (q == '"' || q == '\'') && Free(s, q)
    ensures Tokenize(line + [q] + s) == Tokenize(line) + [s]
  {
    hide TokRun, DecRun;
    var t := TokRun(TOK_START, line);
    TokMore(TOK_START, line, q);
    var u := TokRun(TOK_START, line + [q]);
    KeptInside(u, s, q);
    TokRunConcat(TOK_START, line + [q], s);
    assert [] + [q] == [q] && t.toks + [] == t.toks;
    DecMore([], q);
    KeptDecoded([q], s, q);
    assert [] + s == s && s + [] == s;
  }

  // ---- printing --------------------------------------------------------

  lemma {:induction false} NothingEscaped(s: seq<char>)
    requires Free(s, '"')
    ensures Escaped(s) == s
  {
    if s != [] {
      NothingEscaped(s[..|s| - 1]);
      assert s == s[..|s| - 1] + [s[|s| - 1]];
    }
  }

  function InQuotes(s: seq<char>): seq<char> {
    if exists i :: 0 <= i < |s| && s[i] in [' ', '\t', '\n', '\U{0B}'] then ['"'] + s + ['"'] else s
  }

  lemma EncodePlain(s: seq<char>)
    requires Free(s, '"')
    ensures Encode(s) == InQuotes(s)
  {
    hide Escaped;
    NothingEscaped(s);
  }

  function AllInQuotes(ts: seq<seq<char>>): (r: seq<seq<char>>)
    ensures |r| == |ts| && forall i :: 0 <= i < |ts| ==> r[i] == InQuotes(ts[i])
  {
    seq(|ts|, i requires 0 <= i < |ts| => InQuotes(ts[i]))
  }

  /** Words without quotes and backslashes are printed as they are, those with white space
      between double quotes, with one blank between them. */
  lemma {:induction false} JoinPlain(ts: seq<seq<char>>)
    requires forall i :: 0 <= i < |ts| ==> ts[i] != [] && Free(ts[i], '"')
    ensures Join(ts) == W.Spaced(AllInQuotes(ts)) && (ts != [] ==> Join(ts) != [])
  {
    hide Encode, Free;
    if ts != [] {
      var n := |ts| - 1;
      JoinPlain(ts[..n]);
      EncodePlain(ts[n]);
      assert ts[n] != [];
      hide InQuotes;
      assert AllInQuotes(ts)[..n] == AllInQuotes(ts[..n]);
      assert [] + Encode(ts[n]) == Encode(ts[n]);
    }
  }
}
