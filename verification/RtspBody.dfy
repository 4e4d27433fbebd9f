/**
 Bodies of RTSP messages (src/shared/rtsp.c). If the content type says that a body
 consists of parameters, the receiver splits it into lines and hands these on instead.
 */
module RtspBody {
  import opened RtspAutomaton
  import opened RtspFraming
  import opened RtspHeaders
  import opened RtspHeads
  import opened RtspSealing
  import S = SanitizeLine
  import W = CleanWords
  import P = QuotedWords
  import A = Atoi

  // ---- lines, character by character -----------------------------------

  /** The lines so far and the one being read. */
  datatype Split = Split(done: seq<Line>, cur: Line)

  function SplitStep(s: Split, c: char): Split {
    if IsBreak(c) then Split(s.done + Ended(s.cur), []) else s.(cur := s.cur + [c])
  }

  /** Empty lines are ignored. */
  function Ended(cur: Line): seq<Line> {
    if cur == [] then [] else [cur]
  }

  function SplitRun(body: seq<char>): Split {
    if body == [] then Split([], []) else SplitStep(SplitRun(body[..|body| - 1]), body[|body| - 1])
  }

  /** The non-empty lines of a body. */
  function Parts(body: seq<char>): seq<Line> {
    SplitRun(body).done + Ended(SplitRun(body).cur)
  }

  lemma SplitMore(s: seq<char>, c: char)
    ensures SplitRun(s + [c]) == SplitStep(SplitRun(s), c)
    ensures SplitRun([]) == Split([], [])
  {
    assert (s + [c])[..|s|] == s;
  }

  /** A piece without breaks is added to the line. */
  lemma {:induction false} SplitPiece(s: seq<char>, v: seq<char>)
    requires NoBreaks(v)
    ensures SplitRun(s + v) == SplitRun(s).(cur := SplitRun(s).cur + v)
  {
    hide SplitRun;
    if v == [] {
      assert s + v == s && SplitRun(s).cur + v == SplitRun(s).cur;
    } else {
      var n := |v| - 1;
      SplitPiece(s, v[..n]);
      assert s + v == s + v[..n] + [v[n]];
      SplitMore(s + v[..n], v[n]);
    }
  }

  // ---- the loop --------------------------------------------------------

  /** `rtsp__strncspn` for line breaks */
  method UntilBreak(d: seq<char>) returns (i: nat)
    ensures i <= |d| && NoBreaks(d[..i]) && (i < |d| ==> IsBreak(d[i]))
  {
    i := 0;
    while i < |d| && d[i] != '\r' && d[i] != '\n'
      invariant i <= |d| && NoBreaks(d[..i])
    {
      i := i + 1;
    }
  }

  lemma CleanedMore(ls: seq<Line>, l: Line)
    ensures Cleaned(ls + [l]) == Cleaned(ls) + [S.Sanitize(l)]
    ensures Cleaned([]) == []
  {
    hide S.Sanitize;
    assert (ls + [l])[..|ls|] == ls;
  }

  /** The loop of `rtsp_message_append_body`. It looks for a second break only behind a
      carriage return that follows the first one, so it never finds one; the empty line
      that is left is ignored. */
  method SplitBody(body: seq<char>) returns (lines: seq<Line>)
    ensures lines == Cleaned(Parts(body))
  {
    hide SplitRun, Parts, Cleaned, S.Sanitize, NoBreaks;
    lines := [];
    var at := 0;
    NoParts();
    assert body[..0] == [];
    while at < |body|
      invariant at <= |body| && (at < |body| ==> SplitRun(body[..at]).cur == [])
      invariant lines == Cleaned(Parts(body[..at]))
    {
      var d := body[at..];
      var vl := UntilBreak(d);
      var dl := if vl < |d| then vl + 1 else vl;
      LineSplits(body, at, vl, dl);
      if vl > 0 {
        CleanedMore(Parts(body[..at]), d[..vl]);
        lines := lines + [S.Sanitize(d[..vl])];
      } else {
        assert Parts(body[..at]) + [] == Parts(body[..at]);
      }
      at := at + dl;
    }
    assert body[..at] == body;
  }

  lemma NoParts()
    ensures Parts([]) == [] && SplitRun([]) == Split([], []) && Cleaned([]) == []
  {
  }

  /** One round: a piece without breaks, and the break behind it if there is one. */
  lemma LineSplits(body: seq<char>, at: nat, vl: nat, dl: nat)
    requires at + vl <= at + dl <= |body| && NoBreaks(body[at..][..vl]) && SplitRun(body[..at]).cur == []
    requires dl == vl == |body| - at || (dl == vl + 1 && IsBreak(body[at + vl]))
    ensures var v := body[at..][..vl];
      && Parts(body[..at + dl]) == Parts(body[..at]) + Ended(v)
      && (dl > vl ==> SplitRun(body[..at + dl]).cur == [])
  {
    hide SplitRun, NoBreaks;
    var s, v := SplitRun(body[..at]), body[at..][..vl];
    assert s.done + [] == s.done && s.cur + v == v;
    assert body[..at + vl] == body[..at] + v;
    SplitPiece(body[..at], v);
    if dl > vl {
      assert body[..at + dl] == body[..at + vl] + [body[at + vl]];
      SplitMore(body[..at + vl], body[at + vl]);
      assert s.done + Ended(v) + [] == s.done + Ended(v);
    }
  }

  // ---- parameters that were sent ---------------------------------------

  predicate Proper(l: Line) {
    l != [] && NoBreaks(l)
  }

  predicate AllProperLines(ls: seq<Line>) {
    forall i :: 0 <= i < |ls| ==> Proper(ls[i])
  }

  lemma {:induction false} SplitProper(body: seq<char>)
    ensures AllProperLines(SplitRun(body).done) && NoBreaks(SplitRun(body).cur)
  {
    if body != [] { SplitProper(body[..|body| - 1]); }
  }

  lemma PartsProper(body: seq<char>)
    ensures AllProperLines(Parts(body))
  {
    SplitProper(body);
  }

  lemma {:induction false} WireSplits(ls: seq<Line>)
    requires AllProperLines(ls)
    ensures SplitRun(Wire(ls)) == Split(ls, [])
  {
    hide SplitRun;
    SplitMore([], 'x');
    if ls != [] {
      var n := |ls| - 1;
      WireSplits(ls[..n]);
      assert Proper(ls[n]);
      SplitPiece(Wire(ls[..n]), ls[n]);
      SplitMore(Wire(ls[..n]) + ls[n], '\r');
      SplitMore(Wire(ls[..n]) + ls[n] + ['\r'], '\n');
      assert Wire(ls) == Wire(ls[..n]) + ls[n] + ['\r'] + ['\n'];
      assert [] + ls[n] == ls[n] && ls[..n] + [ls[n]] == ls && ls + [] == ls;
    }
  }

  /** Lines put behind each other split into these lines exactly if none is empty or
      holds a break. */
  lemma PartsExact(ls: seq<Line>)
    ensures Parts(Wire(ls)) == ls <==> AllProperLines(ls)
  {
    hide SplitRun, Wire;
    if AllProperLines(ls) {
      WireSplits(ls);
      assert ls + [] == ls;
    } else {
      PartsProper(Wire(ls));
    }
  }

  /** Breaks finish the line before them. */
  lemma {:induction false} BreaksSplit(s: seq<char>, g: seq<char>)
    requires forall i :: 0 <= i < |g| ==> IsBreak(g[i])
    ensures SplitRun(s + g) == if g == [] then SplitRun(s) else Split(SplitRun(s).done + Ended(SplitRun(s).cur), [])
  {
    hide SplitRun;
    if g == [] {
      assert s + g == s;
    } else {
      var n := |g| - 1;
      BreaksSplit(s, g[..n]);
      assert s + g == s + g[..n] + [g[n]];
      SplitMore(s + g[..n], g[n]);
      var d := SplitRun(s).done + Ended(SplitRun(s).cur);
      assert d + [] == d;
    }
  }

  ghost predicate BreaksBetween(ls: seq<Line>, gaps: seq<seq<char>>) {
    && |gaps| == |ls| + 1 && AllProperLines(ls)
    && (forall i, j :: 0 <= i < |gaps| && 0 <= j < |gaps[i]| ==> IsBreak(gaps[i][j]))
    && (forall i :: 1 <= i < |ls| ==> gaps[i] != [])
  }

  lemma {:induction false} SpreadSplit(ls: seq<Line>, gaps: seq<seq<char>>)
    requires BreaksBetween(ls, gaps)
    ensures var s := SplitRun(W.Spread(ls, gaps));
      s.done + Ended(s.cur) == ls && (s.cur == [] <==> ls == [] || gaps[|ls|] != [])
  {
    hide SplitRun;
    SplitMore([], 'x');
    if ls == [] {
      BreaksSplit([], gaps[0]);
      assert [] + gaps[0] == gaps[0];
    } else {
      var n := |ls| - 1;
      SpreadSplit(ls[..n], gaps[..n + 1]);
      var front := W.Spread(ls[..n], gaps[..n + 1]);
      var f := SplitRun(front);
      assert Proper(ls[n]);
      SplitPiece(front, ls[n]);
      assert f.cur == [] && f.done + [] == f.done && [] + ls[n] == ls[n];
      BreaksSplit(front + ls[n], gaps[n + 1]);
      assert ls == ls[..n] + [ls[n]] && ls + [] == ls;
    }
  }

  /** Whatever breaks separate them, and however many, the lines of a body are found. */
  lemma PartsSpread(ls: seq<Line>, gaps: seq<seq<char>>)
    requires BreaksBetween(ls, gaps)
    ensures Parts(W.Spread(ls, gaps)) == ls
  {
    hide SplitRun;
    SpreadSplit(ls, gaps);
  }

  // ---- the content type ------------------------------------------------

  /** The value of a header; nothing if there is none. */
  function ValueOf(line: Line): seq<char> {
    if First(line, ':') == |line| then [] else S.TrimRight(TrimLeft(line[First(line, ':') + 1..]))
  }

  /** The content type that the receiver remembers is that of parameters. */
  predicate Parameters(lines: seq<Line>) {
    if |lines| <= 1 then false
    else if SameName(KeyOf(lines[|lines| - 1]), CONTENT_TYPE) then ValueOf(lines[|lines| - 1]) == PARAMETERS
    else Parameters(lines[..|lines| - 1])
  }

  /** A value is what is behind the colon without the blanks around it. */
  lemma ValueAmongBlanks(key: seq<char>, a: seq<char>, value: seq<char>, b: seq<char>)
    requires ':' !in key && P.Blanks(a) && P.Blanks(b)
    requires value != [] && value[0] != ' ' && value[|value| - 1] != ' '
    ensures ValueOf(key + [':'] + a + value + b) == value
  {
    var line := key + [':'] + a + value + b;
    assert forall j :: 0 <= j < |key| ==> line[j] == key[j] && key[j] in key;
    assert line[|key|] == ':' && First(line, ':') == |key|;
    assert line[|key| + 1..] == a + (value + b);
    TrimBefore(a, value + b);
    TrimBehind(value, b);
    S.TrimNone(value);
  }

  lemma {:induction false} TrimBefore(a: seq<char>, s: seq<char>)
    requires P.Blanks(a) && (s == [] || s[0] != ' ')
    ensures TrimLeft(a + s) == s
  {
    if a == [] {
      assert a + s == s;
    } else {
      assert (a + s)[1..] == a[1..] + s;
      TrimBefore(a[1..], s);
    }
  }

  /** The header that says so is the last one of that name, in any case of letters. */
  lemma {:induction false} ParametersExactly(lines: seq<Line>)
    ensures Parameters(lines) <==> exists j :: 1 <= j < |lines| && TypeAt(lines, j) && ValueOf(lines[j]) == PARAMETERS
                                     && forall i :: j < i < |lines| ==> !TypeAt(lines, i)
  {
    hide KeyOf, ValueOf, SameName;
    if |lines| > 1 {
      var n := |lines| - 1;
      var front := lines[..n];
      ParametersExactly(front);
      assert forall i :: 0 <= i < n ==> (TypeAt(front, i) <==> TypeAt(lines, i));
      if !TypeAt(lines, n) && Parameters(lines) {
        var j :| 1 <= j < |front| && TypeAt(front, j) && ValueOf(front[j]) == PARAMETERS
                 && forall i :: j < i < |front| ==> !TypeAt(front, i);
        assert TypeAt(lines, j) && ValueOf(lines[j]) == PARAMETERS;
      }
      if j :| 1 <= j < |lines| && TypeAt(lines, j) && ValueOf(lines[j]) == PARAMETERS
              && forall i :: j < i < |lines| ==> !TypeAt(lines, i) {
        if j < n {
          assert TypeAt(front, j) && ValueOf(front[j]) == PARAMETERS;
        }
      }
    }
  }

  predicate TypeAt(lines: seq<Line>, i: int) {
    0 <= i < |lines| && SameName(KeyOf(lines[i]), CONTENT_TYPE)
  }

  /** What the handler sees of a body. */
  datatype Seen = Lines(lines: seq<Line>) | Bytes(bytes: seq<char>)

  function SeenBody(lines: seq<Line>, body: seq<char>): Seen {
    if body != [] && Parameters(lines) then Lines(Cleaned(Parts(body))) else Bytes(body)
  }

  /** `rtsp_message_append_body` for a message with these header lines */
  method AppendBody(lines: seq<Line>, body: seq<char>) returns (seen: Seen)
    ensures seen == SeenBody(lines, body)
  {
    hide Parts, Parameters;
    if body == [] || !Parameters(lines) {
      return Bytes(body);
    }
    var ls := SplitBody(body);
    seen := Lines(ls);
  }

  lemma PrintedColon(key: seq<char>, value: seq<char>)
    requires Word(key)
    ensures First(key + ": " + value, ':') == |key|
  {
    var line := key + ": " + value;
    assert line[|key|] == ':';
    assert forall j :: 0 <= j < |key| ==> Ordinary(key[j]) && line[j] == key[j];
  }

  lemma TrimOne(value: seq<char>)
    requires value != [] && value[0] != ' '
    ensures TrimLeft([' '] + value) == value
  {
    assert ([' '] + value)[1..] == value;
  }

  lemma ValueWritten(key: seq<char>, value: seq<char>)
    requires Word(key) && Word(value)
    ensures ValueOf(LineOf(Printed(key, value))) == value
  {
    hide S.TrimRight;
    var line := key + ": " + value;
    PrintedColon(key, value);
    assert line[|key| + 1..] == [' '] + value;
    assert Ordinary(value[0]) && Ordinary(value[|value| - 1]);
    TrimOne(value);
    S.TrimNone(value);
  }

  /** The receiver takes a header for a content type only if the sender does. */
  ghost predicate Frank(fs: seq<Field>) {
    forall i :: 0 <= i < |fs| && SameName(KeyOf(S.Sanitize(LineOf(fs[i]))), CONTENT_TYPE)
      ==> SameName(fs[i].key, CONTENT_TYPE)
  }

  /** The remembered content type header of these was printed for parameters. */
  ghost predicate TypedAt(fs: seq<Field>, j: int) {
    && 0 <= j < |fs| && SameName(fs[j].key, CONTENT_TYPE) && fs[j] == Printed(fs[j].key, PARAMETERS)
    && forall i :: j < i < |fs| ==> !SameName(KeyOf(S.Sanitize(LineOf(fs[i]))), CONTENT_TYPE)
  }

  lemma TypeRead(key: seq<char>)
    requires SameName(key, CONTENT_TYPE)
    ensures var l := S.Sanitize(LineOf(Printed(key, PARAMETERS)));
      KeyOf(l) == key && ValueOf(l) == PARAMETERS
  {
    hide S.Sanitize, KeyOf, ValueOf, SameName, Word;
    NamesAreWords();
    SameNameIsWord(key, CONTENT_TYPE);
    WordLine(key, PARAMETERS);
    ValueWritten(key, PARAMETERS);
  }

  lemma {:induction false} TypedReads(head: Line, fs: seq<Field>, j: int)
    requires TypedAt(fs, j)
    ensures Parameters(Cleaned([head] + LinesOf(fs)))
    decreases |fs|
  {
    hide S.Sanitize, KeyOf, ValueOf, SameName;
    var m := |fs| - 1;
    var front, last := [head] + LinesOf(fs[..m]), LineOf(fs[m]);
    assert [head] + LinesOf(fs) == front + [last];
    CleanedMore(front, last);
    var all := Cleaned(front) + [S.Sanitize(last)];
    assert all[..|all| - 1] == Cleaned(front);
    if j == m {
      TypeRead(fs[j].key);
    } else {
      TypedReads(head, fs[..m], j);
    }
  }

  /** Keys that the serializer prints are read as they are. */
  lemma PrintedKey(key: seq<char>, name: seq<char>, value: seq<char>)
    requires SameName(key, name) && Word(name) && Word(value)
    ensures KeyOf(S.Sanitize(LineOf(Printed(key, value)))) == key
  {
    hide S.Sanitize, KeyOf, SameName, Word;
    SameNameIsWord(key, name);
    WordLine(key, value);
  }

  lemma SetFieldFrank(fs: seq<Field>, name: seq<char>, value: seq<char>)
    requires Frank(fs) && Word(name) && Word(value) && SameName(name, name)
    ensures Frank(SetField(fs, name, value))
  {
    hide S.Sanitize, KeyOf, SameName, Word, LastNamed;
    var r, j := SetField(fs, name, value), LastNamed(fs, name);
    forall i | 0 <= i < |r| && SameName(KeyOf(S.Sanitize(LineOf(r[i]))), CONTENT_TYPE)
      ensures SameName(r[i].key, CONTENT_TYPE)
    {
      if i == j || i == |fs| {
        PrintedKey(r[i].key, name, value);
      } else {
        assert r[i] == fs[i];
      }
    }
  }

  lemma SetLengthFrank(fs: seq<Field>, size: nat)
    requires Frank(fs)
    ensures Frank(SetLength(fs, size))
  {
    hide S.Sanitize, KeyOf, SameName, Word, LastNamed, Frank;
    NamesDiffer(CONTENT_LENGTH);
    NamesAreWords();
    DigitsAreWords(size);
    DigitsAreWords(size % U32);
    if LastNamed(fs, CONTENT_LENGTH) >= 0 {
      SetFieldFrank(fs, CONTENT_LENGTH, A.Decimal(size));
    } else {
      SetFieldFrank(fs, CONTENT_LENGTH, A.Decimal(size % U32));
    }
  }

  /** After sealing a message with parameters the receiver finds their content type. */
  lemma SealedTyped(fs: seq<Field>, size: nat, cookie: nat)
    requires Frank(fs)
    ensures var r := Sealed(fs, size, true, cookie); exists j :: TypedAt(r, j)
  {
    hide S.Sanitize, KeyOf, SameName, Word, LastNamed, SetLength, A.Decimal;
    NamesDiffer(CSEQ);
    NamesAreWords();
    DigitsAreWords(cookie);
    var a := SetLength(fs, size);
    SetLengthFrank(fs, size);
    var b := SetField(a, CONTENT_TYPE, PARAMETERS);
    SetFieldFrank(a, CONTENT_TYPE, PARAMETERS);
    var r := SetField(b, CSEQ, A.Decimal(cookie));
    SetFieldFrank(b, CSEQ, A.Decimal(cookie));
    var j := if LastNamed(a, CONTENT_TYPE) >= 0 then LastNamed(a, CONTENT_TYPE) else |a|;
    var k := LastNamed(b, CSEQ);
    if k == j {
      NamesDiffer(b[k].key);
    }
    assert r[j] == b[j];
    forall i | j < i < |r|
      ensures !SameName(r[i].key, CONTENT_TYPE)
    {
      if i == k || i == |b| {
        NamesDiffer(r[i].key);
      } else {
        assert r[i] == b[i] == a[i];
      }
    }
    assert r == Sealed(fs, size, true, cookie);
    assert TypedAt(r, j);
  }

  /**
   A request with parameter lines arrives, and the handler sees exactly these lines in
   cleaned form.
   */
  lemma ParametersArrive(p: Parser, head: Line, fs: seq<Field>, ls: seq<Line>, cookie: nat)
    requires Idle(p) && GoodHead(head) && !ReadHead(S.Sanitize(head)).Rejected?
    requires AllProper(fs, true) && Frank(fs) && ls != [] && AllProperLines(ls)
    requires |Wire(ls)| < U32 && cookie <= A.U64_MAX
    ensures var body := Wire(ls);
      var lines := SealedLines(head, fs, |body|, true, cookie);
      && Delivers(p, SerializeText(lines, body), Text(Cleaned(lines), body))
      && SeenBody(Cleaned(lines), body) == Lines(Cleaned(ls))
  {
    hide Delivers, SerializeText, Sealed, ReadHead, S.Sanitize, GoodHead, Frank, AllProper, Parameters,
         SplitRun, LastNamed;
    var body := Wire(ls);
    SealedRoundTrip(p, head, fs, body, true, cookie);
    SealedTyped(fs, |body|, cookie);
    var r := Sealed(fs, |body|, true, cookie);
    var j :| TypedAt(r, j);
    TypedReads(head, r, j);
    PartsExact(ls);
    assert body != [];
  }

  // ---- the message handed on -------------------------------------------

  lemma {:induction false} CleanNoBreaks(l: Line)
    requires NoBreaks(l)
    ensures NoBreaks(S.Run(S.START, l).out)
  {
    if l != [] { CleanNoBreaks(l[..|l| - 1]); }
  }

  /** Cleaning a line makes no breaks. */
  lemma SanitizeNoBreaks(l: Line)
    requires NoBreaks(l)
    ensures NoBreaks(S.Sanitize(l))
  {
    hide S.Run;
    CleanNoBreaks(l);
  }

  /** The body that the receiver puts together again when it seals the message. */
  function Rebuilt(body: seq<char>): seq<char> {
    Wire(Cleaned(Parts(body)))
  }

  lemma {:induction false} CleanedAt(ls: seq<Line>, i: nat)
    requires i < |ls|
    ensures Cleaned(ls)[i] == S.Sanitize(ls[i])
  {
    hide S.Sanitize;
    if i < |ls| - 1 { CleanedAt(ls[..|ls| - 1], i); }
  }

  /**
   Splitting the rebuilt body gives the lines that the handler saw, exactly if no line
   was cleaned away altogether.
   */
  lemma RebuiltSplits(body: seq<char>)
    ensures Parts(Rebuilt(body)) == Cleaned(Parts(body))
       <==> forall l :: l in Parts(body) ==> S.Sanitize(l) != []
  {
    hide S.Sanitize, SplitRun, Wire, Cleaned;
    var ls := Parts(body);
    PartsProper(body);
    PartsExact(Cleaned(ls));
    forall i | 0 <= i < |ls|
      ensures Cleaned(ls)[i] == S.Sanitize(ls[i]) && NoBreaks(S.Sanitize(ls[i]))
    {
      CleanedAt(ls, i);
      assert Proper(ls[i]);
      SanitizeNoBreaks(ls[i]);
    }
    assert AllProperLines(Cleaned(ls)) <==> forall i :: 0 <= i < |ls| ==> S.Sanitize(ls[i]) != [];
  }
}
