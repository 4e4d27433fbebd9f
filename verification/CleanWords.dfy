/**
 What cleaning a line means: a line consists of words, which are runs of characters
 other than blanks, tabs and line breaks, where a quoted text belongs to a word with all
 it holds. Cleaning puts single blanks between the words (src/shared/rtsp.c).
 */
module CleanWords {
  import opened SanitizeLine

  // ---- words -----------------------------------------------------------

  predicate Gap(c: char) {
    c == ' ' || c == '\t' || c == '\r' || c == '\n'
  }

  /** The words so far and the one being read, with its quotes and escapes. */
  datatype Reading = Reading(done: seq<seq<char>>, cur: seq<char>, inside: bool, esc: bool)

  const NOTHING := Reading([], [], false, false)

  /** Zero bytes are dropped, and written as a digit behind a backslash. */
  function ReadOne(r: Reading, c: char): Reading {
    if r.inside then
      if r.esc then r.(cur := r.cur + [if c == '\0' then '0' else c], esc := false)
      else if c == '\0' then r
      else r.(cur := r.cur + [c], inside := c != '"', esc := c == '\\')
    else if c == '\0' then r
    else if Gap(c) then r.(done := r.done + Finished(r.cur), cur := [])
    else r.(cur := r.cur + [c], inside := c == '"')
  }

  function Finished(cur: seq<char>): seq<seq<char>> {
    if cur == [] then [] else [cur]
  }

  function ReadAll(line: seq<char>): Reading {
    if line == [] then NOTHING else ReadOne(ReadAll(line[..|line| - 1]), line[|line| - 1])
  }

  function Words(line: seq<char>): seq<seq<char>> {
    ReadAll(line).done + Finished(ReadAll(line).cur)
  }

  /** Words with single blanks between them. */
  function Spaced(ws: seq<seq<char>>): seq<char> {
    if ws == [] then []
    else if |ws| == 1 then ws[0]
    else Spaced(ws[..|ws| - 1]) + [' '] + ws[|ws| - 1]
  }

  lemma ReadMore(line: seq<char>, c: char)
    ensures ReadAll(line + [c]) == ReadOne(ReadAll(line), c)
    ensures ReadAll([]) == NOTHING
  {
    assert (line + [c])[..|line|] == line;
  }

  lemma SpacedMore(ws: seq<seq<char>>, w: seq<char>)
    ensures Spaced(ws + [w]) == if ws == [] then w else Spaced(ws) + [' '] + w
    ensures Spaced([]) == []
  {
    assert (ws + [w])[..|ws|] == ws;
  }

  // ---- cleaning --------------------------------------------------------

  /** A finished word ends in something that is not a blank. */
  predicate Ended(w: seq<char>) {
    w != [] && w[|w| - 1] != ' '
  }

  /** The cleaner's variables, against the words read. */
  ghost predicate Matches(s: Scan, r: Reading) {
    && s.quoted == r.inside && s.escaped == r.esc && (r.esc ==> r.inside) && (r.inside ==> r.cur != [])
    && (forall i :: 0 <= i < |r.done| ==> Ended(r.done[i]))
    && (r.cur != [] ==> s.out == Spaced(r.done + [r.cur]))
    && (r.cur != [] && !r.inside ==> s.last != ' ' && Ended(r.cur))
    && (r.cur == [] ==> s.out == if r.done == [] then [] else Spaced(r.done) + [' '])
    && (r.cur == [] && r.done != [] ==> s.last == ' ')
  }

  lemma SpacedEnds(ws: seq<seq<char>>)
    requires ws != [] && Ended(ws[|ws| - 1])
    ensures Ended(Spaced(ws))
  {
  }

  lemma SpacedGrows(done: seq<seq<char>>, cur: seq<char>, c: char)
    ensures Spaced(done + [cur + [c]]) == Spaced(done + [cur]) + [c]
  {
    hide Spaced;
    SpacedMore(done, cur);
    SpacedMore(done, cur + [c]);
  }

  lemma StepMatches(s: Scan, r: Reading, c: char)
    requires Matches(s, r)
    ensures Matches(Step(s, c), ReadOne(r, c))
  {
    hide Spaced;
    SpacedMore(r.done, [c]);
    SpacedMore(r.done, r.cur);
    SpacedMore([], r.cur);
    var d := if r.esc && c == '\0' then '0' else c;
    SpacedGrows(r.done, r.cur, d);
    if r.cur == [] {
      assert r.cur + [d] == [d] && r.done + [] == r.done;
      if r.done != [] { SpacedIsLong(r.done); }
    } else {
      SpacedIsLong(r.done + [r.cur]);
    }
  }

  lemma SpacedIsLong(ws: seq<seq<char>>)
    requires ws != [] && ws[|ws| - 1] != []
    ensures Spaced(ws) != []
  {
  }

  lemma {:induction false} RunMatches(line: seq<char>)
    ensures Matches(Run(START, line), ReadAll(line))
  {
    hide Run, ReadAll, Matches;
    if line == [] {
      RunNone(START);
      ReadMore([], 'x');
      StartMatches();
    } else {
      var n := |line| - 1;
      RunMatches(line[..n]);
      assert line == line[..n] + [line[n]];
      RunMore(START, line[..n], line[n]);
      ReadMore(line[..n], line[n]);
      StepMatches(Run(START, line[..n]), ReadAll(line[..n]), line[n]);
    }
  }

  lemma StartMatches()
    ensures Matches(START, NOTHING)
  {
  }

  /** Cleaning any line puts single blanks between its words. */
  lemma SanitizeIsWords(line: seq<char>)
    ensures Sanitize(line) == Spaced(Words(line))
  {
    hide Run, ReadAll, Spaced, TrimRight;
    RunMatches(line);
    var s, r := Run(START, line), ReadAll(line);
    if r.cur != [] {
      if !r.inside {
        SpacedEnds(r.done + [r.cur]);
        TrimNone(s.out);
      }
    } else {
      assert r.done + [] == r.done;
      SpacedMore([], []);
      if r.done != [] {
        SpacedEnds(r.done);
        TrimBlank(Spaced(r.done));
        TrimNone(Spaced(r.done));
      } else {
        TrimEmpty();
      }
    }
  }

  lemma TrimEmpty()
    ensures TrimRight([]) == []
  {
  }

  // ---- lines made of words ---------------------------------------------

  /** A word without quotes. */
  predicate Bare(w: seq<char>) {
    w != [] && forall i :: 0 <= i < |w| ==> !Gap(w[i]) && w[i] != '"' && w[i] != '\0'
  }

  /** A quoted text, whatever blanks and line breaks it holds. */
  predicate Quoted(w: seq<char>) {
    && |w| >= 2 && w[0] == '"' && w[|w| - 1] == '"'
    && forall i :: 1 <= i < |w| - 1 ==> w[i] != '"' && w[i] != '\\' && w[i] != '\0'
  }

  predicate IsWord(w: seq<char>) {
    Bare(w) || Quoted(w)
  }

  predicate AllGaps(g: seq<char>) {
    forall i :: 0 <= i < |g| ==> Gap(g[i])
  }

  /** Words with gaps around them. */
  predicate Apart(ws: seq<seq<char>>, gaps: seq<seq<char>>) {
    && |gaps| == |ws| + 1
    && (forall i :: 0 <= i < |ws| ==> IsWord(ws[i]))
    && (forall i :: 0 <= i < |gaps| ==> AllGaps(gaps[i]))
    && (forall i :: 1 <= i < |ws| ==> gaps[i] != [])
  }

  function Spread(ws: seq<seq<char>>, gaps: seq<seq<char>>): seq<char>
    requires |gaps| == |ws| + 1
  {
    if ws == [] then gaps[0]
    else Spread(ws[..|ws| - 1], gaps[..|ws|]) + ws[|ws| - 1] + gaps[|ws|]
  }

  /** A gap finishes the word before it. */
  lemma {:induction false} GapRead(line: seq<char>, g: seq<char>)
    requires AllGaps(g) && !ReadAll(line).inside
    ensures var r := ReadAll(line);
      ReadAll(line + g) == if g == [] then r else r.(done := r.done + Finished(r.cur), cur := [])
  {
    hide ReadAll;
    if g == [] {
      assert line + g == line;
    } else {
      var n := |g| - 1;
      GapRead(line, g[..n]);
      assert line + g == line + g[..n] + [g[n]];
      ReadMore(line + g[..n], g[n]);
      var r := ReadAll(line);
      assert r.done + [] == r.done && r.done + Finished(r.cur) + [] == r.done + Finished(r.cur);
    }
  }

  lemma {:induction false} BareRead(line: seq<char>, w: seq<char>)
    requires Bare(w) && !ReadAll(line).inside
    ensures ReadAll(line + w) == ReadAll(line).(cur := ReadAll(line).cur + w)
  {
    hide ReadAll;
    var n := |w| - 1;
    assert line + w == line + w[..n] + [w[n]];
    ReadMore(line + w[..n], w[n]);
    if n == 0 {
      assert line + w[..n] == line && w == [w[0]];
    } else {
      BareRead(line, w[..n]);
      assert ReadAll(line).cur + w[..n] + [w[n]] == ReadAll(line).cur + w;
    }
  }

  /** Inside quotes everything is kept. */
  lemma {:induction false} InsideRead(line: seq<char>, b: seq<char>)
    requires ReadAll(line).inside && !ReadAll(line).esc
    requires forall i :: 0 <= i < |b| ==> b[i] != '"' && b[i] != '\\' && b[i] != '\0'
    ensures ReadAll(line + b) == ReadAll(line).(cur := ReadAll(line).cur + b)
  {
    hide ReadAll;
    if b == [] {
      assert line + b == line && ReadAll(line).cur + b == ReadAll(line).cur;
    } else {
      var n := |b| - 1;
      InsideRead(line, b[..n]);
      assert line + b == line + b[..n] + [b[n]];
      ReadMore(line + b[..n], b[n]);
      assert ReadAll(line).cur + b[..n] + [b[n]] == ReadAll(line).cur + b;
    }
  }

  lemma QuotedRead(line: seq<char>, w: seq<char>)
    requires Quoted(w) && !ReadAll(line).inside && !ReadAll(line).esc
    ensures ReadAll(line + w) == ReadAll(line).(cur := ReadAll(line).cur + w)
  {
    hide ReadAll;
    var b := w[1..|w| - 1];
    assert w == ['"'] + b + ['"'];
    ReadMore(line, '"');
    InsideRead(line + ['"'], b);
    ReadMore(line + ['"'] + b, '"');
    assert line + w == line + ['"'] + b + ['"'];
    assert ReadAll(line).cur + ['"'] + b + ['"'] == ReadAll(line).cur + w;
  }

  lemma WordRead(line: seq<char>, w: seq<char>)
    requires IsWord(w) && !ReadAll(line).inside && !ReadAll(line).esc
    ensures ReadAll(line + w) == ReadAll(line).(cur := ReadAll(line).cur + w)
  {
    hide ReadAll;
    if Bare(w) {
      BareRead(line, w);
    } else {
      QuotedRead(line, w);
    }
  }

  /** The words of such a line are these. */
  lemma {:induction false} SpreadRead(ws: seq<seq<char>>, gaps: seq<seq<char>>)
    requires Apart(ws, gaps)
    ensures var r, last := ReadAll(Spread(ws, gaps)), gaps[|ws|];
      && !r.inside && !r.esc && Words(Spread(ws, gaps)) == ws
      && (r.cur == [] <==> ws == [] || last != [])
  {
    hide ReadAll;
    ReadMore([], 'x');
    if ws == [] {
      GapRead([], gaps[0]);
      assert [] + gaps[0] == gaps[0];
    } else {
      var n := |ws| - 1;
      var front, w, g := Spread(ws[..n], gaps[..n + 1]), ws[n], gaps[n + 1];
      SpreadRead(ws[..n], gaps[..n + 1]);
      assert n > 0 ==> gaps[..n + 1][n] != [];
      var r := ReadAll(front);
      assert r.done + [] == r.done;
      WordRead(front, w);
      assert [] + w == w;
      GapRead(front + w, g);
      assert ws[..n] + [w] == ws && ws + [] == ws;
    }
  }

  /** So words with any gaps are cleaned to the same words with single blanks. */
  lemma SpreadSanitized(ws: seq<seq<char>>, gaps: seq<seq<char>>)
    requires Apart(ws, gaps)
    ensures Sanitize(Spread(ws, gaps)) == Spaced(ws)
  {
    hide Sanitize, Spread;
    SanitizeIsWords(Spread(ws, gaps));
    SpreadRead(ws, gaps);
  }

  // ---- breaks and folded lines -----------------------------------------

  /** Gaps around a line leave no trace unless quotes are open. */
  lemma GapLeavesNoTrace(line: seq<char>, g: seq<char>)
    requires AllGaps(g) && !ReadAll(line).inside
    ensures Sanitize(line + g) == Sanitize(line)
  {
    hide Sanitize, ReadAll;
    SanitizeIsWords(line);
    SanitizeIsWords(line + g);
    GapRead(line, g);
    var r := ReadAll(line);
    assert r.done + Finished(r.cur) + [] == r.done + Finished(r.cur);
  }

  /** Any gap outside quotes may be replaced by another one. */
  lemma {:induction false} GapsAlike(a: seq<char>, g: seq<char>, h: seq<char>, b: seq<char>)
    requires AllGaps(g) && AllGaps(h) && g != [] && h != [] && !ReadAll(a).inside
    ensures ReadAll(a + g + b) == ReadAll(a + h + b)
  {
    hide ReadAll;
    if b == [] {
      assert a + g + b == a + g && a + h + b == a + h;
      GapRead(a, g);
      GapRead(a, h);
    } else {
      var n := |b| - 1;
      GapsAlike(a, g, h, b[..n]);
      assert a + g + b == a + g + b[..n] + [b[n]] && a + h + b == a + h + b[..n] + [b[n]];
      ReadMore(a + g + b[..n], b[n]);
      ReadMore(a + h + b[..n], b[n]);
    }
  }

  /** A line that goes on behind a break and blanks is cleaned like one with a blank. */
  lemma FoldedLine(a: seq<char>, g: seq<char>, b: seq<char>)
    requires AllGaps(g) && g != [] && !ReadAll(a).inside
    ensures Sanitize(a + g + b) == Sanitize(a + [' '] + b)
  {
    hide Sanitize, ReadAll;
    GapsAlike(a, g, [' '], b);
    SanitizeIsWords(a + g + b);
    SanitizeIsWords(a + [' '] + b);
  }
}
