/**
 Header lines of RTSP messages as the receiver reads them (src/shared/rtsp.c): a key,
 a colon and a value of quoted tokens. Only the content length and the sequence number
 matter for the framing.
 */
module RtspHeaders {
  import opened RtspHeads
  import S = SanitizeLine
  import Q = QuotedString
  import B = QuotedStringBuffers
  import A = Atoi
  import P = QuotedWords
  import W = CleanWords

  /** What a header line means for the framing: nothing, the length of the body,
      or an error that ends the connection. */
  datatype HeaderKind = Plain | Length(n: nat) | Bad

  const CONTENT_LENGTH: seq<char> := "Content-Length"
  const CONTENT_TYPE: seq<char> := "Content-Type"
  const CSEQ: seq<char> := "CSeq"

  /** The content type of a body of parameter lines. */
  const PARAMETERS: seq<char> := "text/parameters"

  // ---- keys and values -------------------------------------------------

  function TrimLeft(s: seq<char>): (r: seq<char>)
    ensures r != [] ==> r[0] != ' '
  {
    if s != [] && s[0] == ' ' then TrimLeft(s[1..]) else s
  }

  function KeyOf(line: seq<char>): seq<char> {
    S.TrimRight(line[..First(line, ':')])
  }

  /** The tokens of the value; a line without a colon or with blanks only has none. */
  function TokensOf(line: seq<char>): seq<seq<char>> {
    if First(line, ':') == |line| then [] else Q.Tokenize(TrimLeft(line[First(line, ':') + 1..]))
  }

  // ---- numbers ---------------------------------------------------------

  /** `shl_atoi_z` on a token: a length only if the token is a number that fits. */
  function LengthOf(t: seq<char>): HeaderKind {
    var n := A.Run(t, 10);
    var (st, v) := A.Parsed(t[..n], 10);
    if st == A.Ok && n == |t| then Length(v) else Bad
  }

  /** The sequence number is not used for the framing, but one out of range is an
      error. */
  function SequenceOf(t: seq<char>): HeaderKind {
    if A.Parsed(t[..A.Run(t, 10)], 10).0 == A.Ok then Plain else Bad
  }

  /** `parser_append_header` */
  function ReadHeader(line: Line): HeaderKind {
    var ts := TokensOf(line);
    if SameName(KeyOf(line), CONTENT_LENGTH) then
      if ts == [] then Bad else LengthOf(ts[0])
    else if SameName(KeyOf(line), CSEQ) && ts != [] then SequenceOf(ts[0])
    else Plain
  }

  // ---- the reader ------------------------------------------------------

  /** The first half of `rtsp_message_append_header_line` */
  method SplitLine(line: seq<char>) returns (key: seq<char>, tokens: seq<seq<char>>)
    ensures key == KeyOf(line) && tokens == TokensOf(line)
  {
    hide Q.Tokenize;
    var at := 0;
    while at < |line| && line[at] != ':'
      invariant at <= |line| && forall j :: 0 <= j < at ==> line[j] != ':'
    {
      at := at + 1;
    }
    assert First(line, ':') == at;
    var keylen := at;
    while keylen > 0 && line[keylen - 1] == ' '
      invariant keylen <= at && S.TrimRight(line[..at]) == S.TrimRight(line[..keylen])
    {
      assert line[..keylen][..keylen - 1] == line[..keylen - 1];
      keylen := keylen - 1;
    }
    key := line[..keylen];
    tokens := [];
    if at < |line| {
      var value := line[at + 1..];
      while value != [] && value[0] == ' '
        invariant TrimLeft(value) == TrimLeft(line[at + 1..])
      {
        value := value[1..];
      }
      tokens := B.TokenizeLine(value);
    }
  }

  /** `parser_append_header` */
  method AppendHeader(line: seq<char>) returns (kind: HeaderKind)
    ensures kind == ReadHeader(line)
  {
    hide KeyOf, TokensOf, A.Parsed;
    var key, tokens := SplitLine(line);
    if SameName(key, CONTENT_LENGTH) {
      if |tokens| < 1 {
        return Bad;
      }
      var st, next, n := A.Ulln(tokens[0], 10);
      WholeSuffix(tokens[0]);
      if st != A.Ok || next < |tokens[0]| {
        return Bad;
      }
      return Length(n);
    }
    if SameName(key, CSEQ) && |tokens| >= 1 {
      var st, next, n := A.Ulln(tokens[0], 10);
      WholeSuffix(tokens[0]);
      return if st == A.Ok then Plain else Bad;
    }
    return Plain;
  }

  lemma WholeSuffix(s: seq<char>)
    ensures s[0..] == s
  {
  }

  // ---- printed numbers -------------------------------------------------

  /** A printed number that fits in 64 bits reads as itself. */
  lemma DecimalReads(n: nat)
    ensures n <= A.U64_MAX ==> LengthOf(A.Decimal(n)) == Length(n) && SequenceOf(A.Decimal(n)) == Plain
  {
    hide A.Value;
    A.DecimalValue(n);
    var s := A.Decimal(n);
    assert A.Run(s, 10) == |s|;
    assert s[..|s|] == s;
  }

  // ---- printed lines ---------------------------------------------------

  /** Characters that neither the cleaner nor a scanner treats specially. */
  predicate Ordinary(c: char) {
    c !in {'\0', '\r', '\n', '\t', '\U{0B}', ' ', '"', '\'', '\\', ':', '$'}
  }

  predicate Word(s: seq<char>) {
    s != [] && forall i :: 0 <= i < |s| ==> Ordinary(s[i])
  }

  lemma NamesAreWords()
    ensures Word(CONTENT_LENGTH) && Word(CONTENT_TYPE) && Word(CSEQ) && Word(PARAMETERS)
  {
  }

  lemma DigitsAreWords(n: nat)
    ensures Word(A.Decimal(n))
  {
    A.DecimalValue(n);
  }

  lemma SameNameIsWord(a: seq<char>, b: seq<char>)
    requires SameName(a, b) && Word(b)
    ensures Word(a)
  {
    forall i | 0 <= i < |a|
      ensures Ordinary(a[i])
    {
      LowerOrdinary(a[i], b[i]);
    }
  }

  lemma LowerOrdinary(c: char, d: char)
    requires Lower(c) == Lower(d) && Ordinary(d)
    ensures Ordinary(c)
  {
  }

  /** Characters that the cleaner keeps as they are. */
  predicate Visible(c: char) {
    c !in {'\0', '\r', '\n', '\t', ' ', '"'}
  }

  predicate AllVisible(s: seq<char>) {
    forall i :: 0 <= i < |s| ==> Visible(s[i])
  }

  lemma WordIsVisible(s: seq<char>)
    requires Word(s)
    ensures AllVisible(s)
  {
    forall i | 0 <= i < |s| ensures Visible(s[i]) { assert Ordinary(s[i]); }
  }

  lemma {:induction false} WordKept(line: seq<char>, s: seq<char>)
    requires AllVisible(s)
    requires var t := S.Run(S.START, line); !t.quoted && !t.escaped
    ensures var t, u := S.Run(S.START, line), S.Run(S.START, line + s);
      && !u.quoted && !u.escaped && u.out == t.out + s
      && (s != [] ==> u.last != ' ')
  {
    hide S.Run;
    if s == [] {
      assert line + s == line && S.Run(S.START, line).out + [] == S.Run(S.START, line).out;
    } else {
      var n := |s| - 1;
      WordKept(line, s[..n]);
      assert line + s == line + s[..n] + [s[n]];
      S.RunMore(S.START, line + s[..n], s[n]);
      assert Visible(s[n]);
    }
  }

  /** Cleaning leaves a plain header line as it is. */
  lemma PlainLineClean(key: seq<char>, value: seq<char>)
    requires Word(key) && Word(value)
    ensures S.Sanitize(key + ": " + value) == key + ": " + value
  {
    hide S.Run;
    WordIsVisible(key);
    WordIsVisible(value);
    S.RunNone(S.START);
    WordKept([], key);
    assert [] + key == key;
    S.RunMore(S.START, key, ':');
    S.RunMore(S.START, key + [':'], ' ');
    assert key + [':'] + [' '] == key + ": ";
    WordKept(key + ": ", value);
    S.TrimNone(key + ": " + value);
  }

  lemma {:induction false} WordNotEscaped(s: seq<char>)
    requires s == [] || Word(s)
    ensures Q.Escaped(s) == s
  {
    if s != [] {
      WordNotEscaped(s[..|s| - 1]);
      assert Ordinary(s[|s| - 1]);
    }
  }

  lemma WordIsToken(s: seq<char>)
    requires Word(s)
    ensures Q.Tokenize(s) == [s]
  {
    hide Q.Tokenize;
    WordNotEscaped(s);
    assert !Q.NeedQuote(s);
    assert [s][..0] == [];
    assert Q.Join([s]) == s;
    assert '\'' !in s && Q.NUL !in s;
    Q.JoinTokenizes([s]);
  }

  /** What the receiver finds in a plain header line. */
  lemma PlainLineParts(key: seq<char>, value: seq<char>)
    requires Word(key) && Word(value)
    ensures KeyOf(key + ": " + value) == key && TokensOf(key + ": " + value) == [value]
  {
    hide Q.Tokenize;
    var line := key + ": " + value;
    assert line[..|key|] == key && line[|key|] == ':';
    assert forall j :: 0 <= j < |key| ==> Ordinary(key[j]) && line[j] == key[j];
    assert First(line, ':') == |key|;
    assert Ordinary(key[|key| - 1]) && Ordinary(value[0]);
    S.TrimNone(key);
    var rest := line[|key| + 1..];
    assert rest == [' '] + value && rest[1..] == value;
    assert TrimLeft(rest) == TrimLeft(value) == value;
    WordIsToken(value);
  }

  // ---- lines with any blanks -------------------------------------------

  lemma {:induction false} TrimBehind(key: seq<char>, a: seq<char>)
    requires P.Blanks(a)
    ensures S.TrimRight(key + a) == S.TrimRight(key)
  {
    if a == [] {
      assert key + a == key;
    } else {
      var n := |a| - 1;
      assert (key + a)[..|key| + n] == key + a[..n];
      TrimBehind(key, a[..n]);
    }
  }

  /** Blanks before the value are no part of it. */
  lemma {:induction false} TrimTokens(s: seq<char>)
    ensures Q.Tokenize(TrimLeft(s)) == Q.Tokenize(s)
  {
    hide Q.TokRun;
    if s != [] && s[0] == ' ' {
      TrimTokens(s[1..]);
      assert s == [' '] + s[1..];
      Q.TokRunConcat(Q.TOK_START, [' '], s[1..]);
      P.BlanksCut(Q.TOK_START, [' ']);
      assert Q.TOK_START.toks + [] == [];
    }
  }

  /** The key and the tokens of a line, with any number of blanks before the colon, behind
      it, between the tokens and at the end, and with none. */
  lemma LooseLineParts(key: seq<char>, a: seq<char>, ps: seq<P.Piece>, gaps: seq<seq<char>>)
    requires ':' !in key && (key == [] || key[|key| - 1] != ' ')
    requires P.Blanks(a) && P.Apart(ps, gaps)
    ensures var line := key + a + [':'] + W.Spread(P.ShownAll(ps), gaps);
      KeyOf(line) == key && TokensOf(line) == P.Meant(ps)
  {
    hide Q.Tokenize, W.Spread, P.Apart;
    P.Sizes(ps, gaps);
    var value := W.Spread(P.ShownAll(ps), gaps);
    var at := |key + a|;
    var line := key + a + [':'] + value;
    assert forall j :: 0 <= j < at ==> line[j] == (key + a)[j];
    assert forall j :: 0 <= j < |key| ==> key[j] in key;
    assert line[at] == ':' && First(line, ':') == at;
    assert line[..at] == key + a && line[at + 1..] == value;
    TrimBehind(key, a);
    if key != [] {
      S.TrimNone(key);
    }
    TrimTokens(value);
    P.SpreadTokenized(ps, gaps);
  }

  /** A line without a colon is all key. */
  lemma NoColonParts(line: seq<char>)
    requires ':' !in line
    ensures KeyOf(line) == S.TrimRight(line) && TokensOf(line) == []
  {
    assert forall j :: 0 <= j < |line| ==> line[j] in line;
    assert First(line, ':') == |line|;
    assert line[..|line|] == line;
  }

  // ---- what a line means -----------------------------------------------

  /** A token is a length exactly if it is all decimal digits and, without the last of
      them, fits in 64 bits. */
  lemma LengthExactly(t: seq<char>)
    ensures LengthOf(t).Bad? || LengthOf(t).Length?
    ensures LengthOf(t).Length? <==> A.AllDigits(t, 10) && A.Shifted(t, 10) <= A.U64_MAX
    ensures A.AllDigits(t, 10) && A.Value(t, 10) <= A.U64_MAX ==> LengthOf(t) == Length(A.Value(t, 10))
  {
    hide A.Value, A.Digit;
    assert t[..|t|] == t;
    if A.AllDigits(t, 10) {
      A.RunEnds(t, |t|, 10);
      A.ShiftedBelow(t, 10);
    }
  }

  /** A sequence number is an error exactly if its leading digits, without the last of
      them, do not fit in 64 bits; what is behind them does not matter. */
  lemma SequenceExactly(d: seq<char>, rest: seq<char>)
    requires A.AllDigits(d, 10) && (rest == [] || A.Digit(rest[0], 10) < 0)
    ensures SequenceOf(d + rest) == if A.Shifted(d, 10) <= A.U64_MAX then Plain else Bad
  {
    hide A.Value, A.Digit;
    var t := d + rest;
    assert t[..|d|] == d;
    A.RunEnds(t, |d|, 10);
    A.ShiftedBelow(d, 10);
  }

  /** For the framing a line counts only if its key is, in any case, the one for the
      length or the one for the sequence number, and then its first token counts. */
  lemma LineMeaning(key: seq<char>, a: seq<char>, ps: seq<P.Piece>, gaps: seq<seq<char>>)
    requires ':' !in key && (key == [] || key[|key| - 1] != ' ')
    requires P.Blanks(a) && P.Apart(ps, gaps)
    ensures var kind := ReadHeader(key + a + [':'] + W.Spread(P.ShownAll(ps), gaps));
      && (SameName(key, CONTENT_LENGTH) ==> kind == if ps == [] then Bad else LengthOf(ps[0].text))
      && (SameName(key, CSEQ) && ps != [] ==> kind == SequenceOf(ps[0].text))
      && (SameName(key, CSEQ) && ps == [] ==> kind == Plain)
      && (!SameName(key, CONTENT_LENGTH) && !SameName(key, CSEQ) ==> kind == Plain)
  {
    hide KeyOf, TokensOf, W.Spread, P.Apart, SameName, LengthOf, SequenceOf;
    P.Sizes(ps, gaps);
    LooseLineParts(key, a, ps, gaps);
    TwoNames(key);
  }

  lemma TwoNames(key: seq<char>)
    ensures !(SameName(key, CONTENT_LENGTH) && SameName(key, CSEQ))
  {
  }
}
