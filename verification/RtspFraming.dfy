/**
 Sender to receiver: the parser takes apart exactly what the serializers of
 src/shared/rtsp.c put together.
 */
module RtspFraming {
  import opened RtspAutomaton
  import opened RtspHeaders
  import opened RtspHeads
  import S = SanitizeLine
  import W = CleanWords

  const CRLF: seq<char> := ['\r', '\n']

  // ---- interleaved data ------------------------------------------------

  /** `rtsp_message_serialize_data` */
  function SerializeData(channel: nat, payload: seq<char>): seq<char> {
    DataPrefix(channel, |payload|) + payload
  }

  /** Between messages. */
  predicate Idle(p: Parser) {
    p.Parser? && p.state == New && p.lines == []
  }

  lemma TwoBytes(size: nat)
    ensures size / 256 % 256 * 256 + size % 256 == size % 65536
  {
    var q := size / 65536;
    assert size == 65536 * q + size % 65536;
    assert size / 256 == 256 * q + size % 65536 / 256;
  }

  function DataPrefix(channel: nat, size: nat): seq<char> {
    ['$', (channel % 256) as char, (size / 256 % 256) as char, (size % 256) as char]
  }

  lemma DollarStep(p: Parser)
    requires Idle(p)
    ensures Step(p, '$') == p.(state := DataHead, channel := 0, size := 0, pend := [], last := '$')
  {
  }

  lemma DataHeadStep(p: Parser, b: char)
    requires p.Parser? && p.state == DataHead && |p.pend| < 3
    ensures Step(p, b) ==
      if |p.pend| < 2 then p.(pend := p.pend + [b], last := b)
      else p.(pend := [], channel := p.pend[0] as int, size := p.pend[1] as int * 256 + b as int,
              state := DataBody, last := b)
  {
  }

  /** Four bytes read in the state between messages. */
  lemma DataHeaderBytes(p: Parser, b1: char, b2: char, b3: char)
    requires Idle(p)
    ensures Feed(p, ['$', b1, b2, b3])
         == p.(state := DataBody, channel := b1 as int, size := b2 as int * 256 + b3 as int, pend := [], last := b3)
  {
    hide Feed, Step;
    assert ['$'] + [b1] == ['$', b1] && ['$', b1] + [b2] == ['$', b1, b2];
    assert ['$', b1, b2] + [b3] == ['$', b1, b2, b3];
    var p1 := p.(state := DataHead, channel := 0, size := 0, pend := [], last := '$');
    FeedOne(p, '$');
    DollarStep(p);
    FeedMore(p, ['$'], b1);
    DataHeadStep(p1, b1);
    assert [] + [b1] == [b1];
    var p2 := p1.(pend := [b1], last := b1);
    FeedMore(p, ['$', b1], b2);
    DataHeadStep(p2, b2);
    assert [b1] + [b2] == [b1, b2];
    var p3 := p1.(pend := [b1, b2], last := b2);
    FeedMore(p, ['$', b1, b2], b3);
    DataHeadStep(p3, b3);
  }

  /** After the four bytes in front of the payload. */
  lemma DataHeader(p: Parser, channel: nat, size: nat)
    requires Idle(p)
    ensures Feed(p, DataPrefix(channel, size))
         == p.(state := DataBody, channel := channel % 256, size := size % 65536, pend := [],
               last := (size % 256) as char)
  {
    DataHeaderBytes(p, (channel % 256) as char, (size / 256 % 256) as char, (size % 256) as char);
    TwoBytes(size);
  }

  /** Payload bytes pile up until the announced size is reached. */
  lemma {:induction false} DataPayload(p: Parser, s: seq<char>)
    requires p.Parser? && p.state == DataBody && p.pend == []
    requires 0 < |s| <= p.size || (p.size == 0 && |s| == 1)
    ensures Feed(p, s) ==
      if |s| < p.size then p.(pend := s, last := s[|s| - 1])
      else p.(state := New, pend := [], last := s[|s| - 1], out := p.out + [Data(p.channel, s[..p.size])])
  {
    hide Feed;
    var n := |s| - 1;
    if n == 0 {
      assert s == [s[0]];
      FeedOne(p, s[0]);
      assert p.pend + [s[0]] == s;
    } else {
      DataPayload(p, s[..n]);
      assert s[..n] + [s[n]] == s;
      FeedMore(p, s[..n], s[n]);
    }
  }

  ghost predicate Delivers(p: Parser, s: seq<char>, m: Message)
    requires p.Parser?
  {
    var q := Feed(p, s);
    Idle(q) && q.pend == [] && q.out == p.out + [m]
  }

  lemma DataDelivered(p: Parser, channel: nat, payload: seq<char>)
    requires Idle(p) && channel < 256 && 0 < |payload| < 65536
    ensures Delivers(p, SerializeData(channel, payload), Data(channel, payload))
  {
    hide Feed, DataPrefix;
    var h := DataPrefix(channel, |payload|);
    FeedConcat(p, h, payload);
    DataHeader(p, channel, |payload|);
    DataPayload(Feed(p, h), payload);
    assert payload[..|payload|] == payload;
  }

  /** A data message comes through exactly when its channel fits in a byte and
      its payload is not empty and fits in two bytes. */
  lemma DataRoundTrip(p: Parser, channel: nat, payload: seq<char>)
    requires Idle(p)
    ensures Delivers(p, SerializeData(channel, payload), Data(channel, payload))
       <==> channel < 256 && 0 < |payload| < 65536
  {
    hide Feed, DataPrefix;
    if channel < 256 && 0 < |payload| < 65536 {
      DataDelivered(p, channel, payload);
    } else {
      var h := DataPrefix(channel, |payload|);
      FeedConcat(p, h, payload);
      DataHeader(p, channel, |payload|);
      if payload == [] {
        FeedMore(Feed(p, h), [], 'x');
      } else {
        var k := if |payload| % 65536 == 0 then 1 else |payload| % 65536;
        var a, b := payload[..k], payload[k..];
        assert payload == a + b;
        var p1 := Feed(p, h);
        FeedConcat(p1, a, b);
        DataPayload(p1, a);
        var p2 := Feed(p1, a);
        OutGrows(p2, b);
        var m := p2.out[|p.out|];
        assert m == Data(channel % 256, a[..|payload| % 65536]);
        assert m != Data(channel, payload);
      }
    }
  }

  // ---- lines -----------------------------------------------------------

  /** Whether a line is inside quotes, and behind a backslash there. */
  datatype Quote = Quote(inside: bool, esc: bool)

  const OUTSIDE := Quote(false, false)

  function QuoteStep(q: Quote, c: char): Quote {
    if !q.inside then Quote(c == '"', false)
    else if q.esc then Quote(true, false)
    else Quote(c != '"', c == '\\')
  }

  /** Where in a line: in the middle of it, or behind a break that ends it unless a blank
      follows. */
  datatype Pos = In(q: Quote) | AfterCr | AfterLf | Over

  const START := In(OUTSIDE)

  function PosStep(pos: Pos, c: char): Pos {
    match pos
    case In(q) =>
      if !q.inside && c == '\r' then AfterCr
      else if !q.inside && c == '\n' then AfterLf
      else In(QuoteStep(q, c))
    case AfterCr => if c == '\n' then AfterLf else if IsBlank(c) then START else Over
    case AfterLf => if IsBlank(c) then START else Over
    case Over => Over
  }

  function PosRun(pos: Pos, s: seq<char>): Pos {
    if s == [] then pos else PosStep(PosRun(pos, s[..|s| - 1]), s[|s| - 1])
  }

  lemma PosMore(pos: Pos, s: seq<char>, c: char)
    ensures PosRun(pos, s + [c]) == PosStep(PosRun(pos, s), c)
    ensures PosRun(pos, []) == pos
  {
    assert (s + [c])[..|s|] == s;
  }

  lemma {:induction false} PosConcat(pos: Pos, a: seq<char>, b: seq<char>)
    ensures PosRun(pos, a + b) == PosRun(PosRun(pos, a), b)
  {
    hide PosRun, PosStep;
    if b == [] {
      assert a + b == a;
      PosMore(PosRun(pos, a), [], 'x');
    } else {
      var n := |b| - 1;
      PosConcat(pos, a, b[..n]);
      assert a + b == a + b[..n] + [b[n]] && b == b[..n] + [b[n]];
      PosMore(pos, a + b[..n], b[n]);
      PosMore(PosRun(pos, a), b[..n], b[n]);
    }
  }

  predicate NoBreaks(s: seq<char>) {
    forall i :: 0 <= i < |s| ==> !IsBreak(s[i])
  }

  /** A line that arrives as one: it begins with neither blank nor break, its quotes are
      closed, and every break outside quotes is followed by a blank, which folds it. */
  predicate GoodLine(l: Line) {
    l != [] && !IsBlank(l[0]) && !IsBreak(l[0]) && PosRun(START, l) == START
  }

  /** The first line may not look like interleaved data, nor begin with a quote,
      which the parser does not track there. */
  predicate GoodHead(l: Line) {
    GoodLine(l) && l[0] != '$' && l[0] != '"'
  }

  /** For example, texts without breaks and quotes are. */
  lemma {:induction false} PlainIsGood(s: seq<char>)
    requires NoBreaks(s) && '"' !in s
    ensures PosRun(START, s) == START
  {
    if s != [] {
      PlainIsGood(s[..|s| - 1]);
    }
  }

  /** And lines that go on behind a break and a blank. */
  lemma FoldedIsGood(a: Line, e: seq<char>, c: char, b: seq<char>)
    requires GoodLine(a) && Eol(e) && IsBlank(c) && PosRun(START, b) == START
    ensures GoodLine(a + e + [c] + b)
  {
    hide PosRun;
    PosConcat(START, a, e);
    EolRun(e);
    PosMore(START, a + e, c);
    PosConcat(START, a + e + [c], b);
  }

  predicate Eol(e: seq<char>) {
    e == CRLF || e == ['\n'] || e == ['\r']
  }

  function Behind(e: seq<char>): Pos {
    if e == ['\r'] then AfterCr else AfterLf
  }

  lemma EolRun(e: seq<char>)
    requires Eol(e)
    ensures PosRun(START, e) == Behind(e)
  {
    assert e == ['\r', '\n'] ==> e[..1] == ['\r'];
    assert |e| == 1 ==> e[..0] == [];
    assert ['\r'][..0] == [];
  }

  /** The cleaner agrees on the quotes. */
  lemma {:induction false} PosReads(s: seq<char>)
    ensures var pos, r := PosRun(START, s), W.ReadAll(s);
      && (pos.In? ==> r.inside == pos.q.inside && (r.inside ==> r.esc == pos.q.esc))
      && (pos.AfterCr? || pos.AfterLf? ==> !r.inside) && (r.esc ==> r.inside)
  {
    if s != [] { PosReads(s[..|s| - 1]); }
  }

  // ---- reading lines ---------------------------------------------------

  /** The parser is at that place of a line. */
  predicate Tracks(p: Parser, pos: Pos) {
    p.Parser? &&
    match pos
    case In(q) =>
      if q.inside then p.state == HeaderQuote && (q.esc <==> p.last == '\\' && !p.quoted)
      else p.state == Header && !IsBreak(p.last)
    case AfterCr => p.state == Header && p.last == '\r'
    case AfterLf => p.state == Header && p.last == '\n'
    case Over => false
  }

  lemma InLineStep(p: Parser, pos: Pos, c: char)
    requires Tracks(p, pos) && PosStep(pos, c) != Over
    ensures var r := Step(p, c);
      && Tracks(r, PosStep(pos, c))
      && r == p.(state := r.state, quoted := r.quoted, pend := p.pend + [c], last := c)
  {
    hide FinishLine;
  }

  /** Bytes inside a line only pile up. */
  lemma {:induction false} InLine(p: Parser, pos: Pos, s: seq<char>)
    requires Tracks(p, pos) && PosRun(pos, s) != Over
    ensures var r := Feed(p, s);
      && Tracks(r, PosRun(pos, s))
      && r == p.(state := r.state, quoted := r.quoted, pend := p.pend + s, last := r.last)
      && (s != [] ==> r.last == s[|s| - 1])
  {
    hide Feed, PosRun, Step;
    if s == [] {
      FeedMore(p, [], 'x');
      PosMore(pos, [], 'x');
      assert p.pend + s == p.pend;
    } else {
      var n := |s| - 1;
      assert s[..n] + [s[n]] == s;
      PosMore(pos, s[..n], s[n]);
      InLine(p, pos, s[..n]);
      FeedMore(p, s[..n], s[n]);
      InLineStep(Feed(p, s[..n]), PosRun(pos, s[..n]), s[n]);
      assert p.pend + s[..n] + [s[n]] == p.pend + s;
    }
  }

  /** At the end of a line that is still pending. */
  predicate AtLineEnd(p: Parser, l: Line, e: seq<char>) {
    && Eol(e) && p.Parser? && p.state == Header && p.pend == l + e
    && p.last == if e == ['\r'] then '\r' else '\n'
  }

  /** From the first byte of a line, already read, to its end. */
  lemma RestOfLine(p: Parser, l: Line, e: seq<char>, p1: Parser)
    requires GoodLine(l) && Eol(e)
    requires Feed(p, [l[0]]) == p1
    requires Tracks(p1, PosStep(START, l[0])) && p1.pend == [l[0]]
    ensures var r := Feed(p, l + e);
      AtLineEnd(r, l, e) && r == p1.(state := Header, quoted := r.quoted, pend := l + e, last := r.last)
  {
    hide Feed, PosRun, PosStep;
    var a, b := [l[0]], l[1..];
    assert l == a + b && l + e == a + (b + e);
    PosConcat(START, l, e);
    EolRun(e);
    PosMore(START, [], l[0]);
    assert [] + a == a;
    PosConcat(START, a, b + e);
    InLine(p1, PosStep(START, l[0]), b + e);
    FeedConcat(p, a, b + e);
    assert [l[0]] + (b + e) == l + e;
  }

  lemma HeadLine(p: Parser, l: Line, e: seq<char>)
    requires Idle(p) && GoodHead(l) && Eol(e)
    ensures var r := Feed(p, l + e);
      AtLineEnd(r, l, e)
      && r == p.(state := Header, quoted := r.quoted, pend := l + e, last := r.last, remaining := 0)
  {
    hide PosRun, Feed;
    FeedOne(p, l[0]);
    RestOfLine(p, l, e, p.(state := Header, pend := [l[0]], remaining := 0, last := l[0]));
  }

  /** The receiver does not end the connection at this line. */
  predicate Accepted(first: bool, l: Line) {
    if first then !ReadHead(S.Sanitize(l)).Rejected? else !ReadHeader(S.Sanitize(l)).Bad?
  }

  /** The line `l` was taken up into the message. */
  predicate TookLine(p: Parser, l: Line, q: Parser) {
    && p.Parser? && q.Parser?
    && q == p.(lines := p.lines + [S.Sanitize(l)], remaining := q.remaining)
    && if p.lines == [] then q.remaining == p.remaining
       else match ReadHeader(S.Sanitize(l))
         case Bad => false
         case Length(n) => q.remaining == n
         case Plain => q.remaining == p.remaining
  }

  /** A complete line is taken up, or ends the connection. */
  lemma FinishTakes(p: Parser, l: Line, e: seq<char>)
    requires GoodLine(l) && Eol(e) && p.Parser? && p.pend == l + e
    ensures if Accepted(p.lines == [], l) then TookLine(p, l, FinishLine(p)) else FinishLine(p).Failed?
  {
    hide S.Sanitize, ReadHead, ReadHeader, PosRun, W.ReadAll;
    PosReads(l);
    W.GapLeavesNoTrace(l, e);
    assert [] + [S.Sanitize(l)] == [S.Sanitize(l)];
  }

  /** The first byte of the next line completes the pending one. */
  lemma NextLine(p: Parser, l: Line, e: seq<char>, next: Line, f: seq<char>)
    requires GoodLine(l) && AtLineEnd(p, l, e) && GoodLine(next) && Eol(f)
    ensures var q, r := FinishLine(p), Feed(p, next + f);
      if Accepted(p.lines == [], l) then
        TookLine(p, l, q) && AtLineEnd(r, next, f) && r == q.(quoted := r.quoted, pend := next + f, last := r.last)
      else r.Failed?
  {
    hide Feed, FinishLine, ReadHead, ReadHeader, S.Sanitize, PosRun;
    FinishTakes(p, l, e);
    FeedOne(p, next[0]);
    if Accepted(p.lines == [], l) {
      RestOfLine(p, next, f, Step(p, next[0]));
    } else {
      assert next + f == [next[0]] + (next[1..] + f);
      FailedRest(p, [next[0]], next[1..] + f);
    }
  }

  lemma FailedRest(p: Parser, a: seq<char>, b: seq<char>)
    requires Feed(p, a).Failed?
    ensures Feed(p, a + b).Failed?
  {
    hide Feed;
    FeedConcat(p, a, b);
    OutGrows(Feed(p, a), b);
  }

  /** The header is complete, and with it the message if it has no body. */
  function Completed(q: Parser, nl: bool): (r: Parser)
    requires q.Parser?
    ensures r.Parser?
  {
    if q.remaining == 0 then Submit(q.(state := if nl then HeaderNl else New, pend := []), [])
    else q.(state := if nl then HeaderNl else Body, pend := [])
  }

  /** An empty line; a line feed alone is none behind a carriage return alone. */
  predicate EmptyLine(e: seq<char>, end: seq<char>) {
    Eol(end) && (end == ['\n'] ==> e != ['\r'])
  }

  /** The empty line completes the pending one and the header. */
  lemma EndOfHeader(p: Parser, l: Line, e: seq<char>, end: seq<char>)
    requires GoodLine(l) && AtLineEnd(p, l, e) && EmptyLine(e, end)
    ensures var q, r := FinishLine(p), Feed(p, end);
      if Accepted(p.lines == [], l) then
        TookLine(p, l, q) && r == Completed(q, end == ['\r']).(last := end[|end| - 1])
      else r.Failed?
  {
    hide Feed, FinishLine, ReadHead, ReadHeader, S.Sanitize;
    FinishTakes(p, l, e);
    FinishState(p);
    FeedOne(p, end[0]);
    if end == CRLF {
      FeedMore(p, ['\r'], '\n');
      assert ['\r'] + ['\n'] == CRLF;
    } else {
      assert end == [end[0]];
    }
  }

  /** Completing a line does not look at the state. */
  lemma FinishState(p: Parser)
    requires p.Parser?
    ensures var q, r := FinishLine(p.(state := HeaderNl)), FinishLine(p);
      if r.Failed? then q.Failed? else q == r.(state := HeaderNl)
  {
    hide ReadHead, ReadHeader, S.Sanitize;
  }

  lemma {:induction false} BodyBytes(p: Parser, s: seq<char>)
    requires p.Parser? && p.state == Body && p.pend == [] && p.lines != []
    requires 0 < |s| <= p.remaining
    ensures Feed(p, s) ==
      if |s| < p.remaining then p.(pend := s, remaining := p.remaining - |s|, last := s[|s| - 1])
      else p.(state := New, remaining := 0, lines := [], last := s[|s| - 1], out := p.out + [Text(p.lines, s)])
  {
    hide Feed;
    var n := |s| - 1;
    if n == 0 {
      assert s == [s[0]] && p.pend + [s[0]] == s;
      FeedOne(p, s[0]);
    } else {
      BodyBytes(p, s[..n]);
      assert s[..n] + [s[n]] == s;
      FeedMore(p, s[..n], s[n]);
    }
  }

  // ---- whole messages --------------------------------------------------

  /** Lines, each with the break that ends it. */
  datatype Sent = Sent(text: Line, eol: seq<char>)

  function WireAny(ls: seq<Sent>): seq<char> {
    if ls == [] then [] else WireAny(ls[..|ls| - 1]) + (ls[|ls| - 1].text + ls[|ls| - 1].eol)
  }

  function Texts(ls: seq<Sent>): (r: seq<Line>)
    ensures |r| == |ls| && forall i :: 0 <= i < |ls| ==> r[i] == ls[i].text
  {
    seq(|ls|, i requires 0 <= i < |ls| => ls[i].text)
  }

  /** Lines as `rtsp_message_serialize_common` ends them. */
  function Crlf(lines: seq<Line>): (r: seq<Sent>)
    ensures |r| == |lines| && forall i :: 0 <= i < |lines| ==> r[i] == Sent(lines[i], CRLF)
  {
    seq(|lines|, i requires 0 <= i < |lines| => Sent(lines[i], CRLF))
  }

  /** And as it concatenates them. */
  function Wire(lines: seq<Line>): seq<char> {
    if lines == [] then [] else Wire(lines[..|lines| - 1]) + (lines[|lines| - 1] + CRLF)
  }

  lemma {:induction false} WireIsAny(lines: seq<Line>)
    ensures WireAny(Crlf(lines)) == Wire(lines) && Texts(Crlf(lines)) == lines
  {
    if lines != [] {
      var n := |lines| - 1;
      WireIsAny(lines[..n]);
      assert Crlf(lines)[..n] == Crlf(lines[..n]);
    }
  }

  function SerializeText(lines: seq<Line>, body: seq<char>): seq<char> {
    Wire(lines) + (CRLF + body)
  }

  function Cleaned(lines: seq<Line>): (r: seq<Line>)
    ensures |r| == |lines|
  {
    if lines == [] then [] else Cleaned(lines[..|lines| - 1]) + [S.Sanitize(lines[|lines| - 1])]
  }

  /** The body length that the headers behind the first line announce. */
  function Announced(lines: seq<Line>): nat {
    if |lines| <= 1 then 0
    else match ReadHeader(S.Sanitize(lines[|lines| - 1]))
      case Length(n) => n
      case _ => Announced(lines[..|lines| - 1])
  }

  /** Lines that arrive as lines. */
  predicate GoodLines(lines: seq<Line>) {
    lines != [] && GoodHead(lines[0]) && forall i :: 1 <= i < |lines| ==> GoodLine(lines[i])
  }

  predicate GoodSent(ls: seq<Sent>) {
    GoodLines(Texts(ls)) && forall i :: 0 <= i < |ls| ==> Eol(ls[i].eol)
  }

  predicate AllAccepted(lines: seq<Line>) {
    forall i :: 0 <= i < |lines| ==> Accepted(i == 0, lines[i])
  }

  /** All lines read, the last one pending. */
  lemma {:induction false} HeaderLines(p: Parser, ls: seq<Sent>)
    requires Idle(p) && GoodSent(ls)
    ensures var r, n, lines := Feed(p, WireAny(ls)), |ls| - 1, Texts(ls);
      if AllAccepted(lines[..n]) then
        && AtLineEnd(r, ls[n].text, ls[n].eol) && r.lines == Cleaned(lines[..n])
        && r.remaining == Announced(lines[..n]) && r.out == p.out
      else r.Failed?
  {
    hide Feed, FinishLine, S.Sanitize, ReadHead, ReadHeader, Accepted, GoodLine;
    var n, lines := |ls| - 1, Texts(ls);
    var last := ls[n].text + ls[n].eol;
    if n == 0 {
      assert lines[..0] == [] && ls[..0] == [] && [] + last == last;
      HeadLine(p, lines[0], ls[0].eol);
    } else {
      var init := ls[..n];
      assert Texts(init) == lines[..n];
      var front := lines[..n];
      assert front[..n - 1] == lines[..n - 1] && front[n - 1] == lines[n - 1];
      HeadIsGood(lines[0]);
      HeaderLines(p, init);
      var r := Feed(p, WireAny(init));
      if AllAccepted(front[..n - 1]) {
        NextLine(r, ls[n - 1].text, ls[n - 1].eol, ls[n].text, ls[n].eol);
        FeedConcat(p, WireAny(init), last);
        AcceptedLast(front);
        TookMore(r, front);
      } else {
        FailedRest(p, WireAny(init), last);
        assert !AllAccepted(front);
      }
    }
  }

  lemma HeadIsGood(l: Line)
    requires GoodHead(l)
    ensures GoodLine(l)
  {
  }

  lemma AcceptedLast(lines: seq<Line>)
    requires lines != []
    ensures var n := |lines| - 1;
      AllAccepted(lines) <==> AllAccepted(lines[..n]) && Accepted(n == 0, lines[n])
  {
    hide Accepted;
    var n := |lines| - 1;
    assert forall i :: 0 <= i < n ==> lines[..n][i] == lines[i];
  }

  /** One line more in the collected lines and the announced length. */
  lemma TookMore(r: Parser, lines: seq<Line>)
    requires lines != [] && r.Parser?
    requires var n := |lines| - 1;
      && r.lines == Cleaned(lines[..n]) && r.remaining == Announced(lines[..n])
    ensures forall q :: TookLine(r, lines[|lines| - 1], q) ==>
      q.lines == Cleaned(lines) && q.remaining == Announced(lines)
  {
    hide S.Sanitize, ReadHeader;
  }

  /** The header of a message, with its empty line. */
  lemma HeaderEnds(p: Parser, ls: seq<Sent>, end: seq<char>)
    requires Idle(p) && GoodSent(ls) && EmptyLine(ls[|ls| - 1].eol, end)
    ensures var e, lines, nl := Feed(p, WireAny(ls) + end), Texts(ls), end == ['\r'];
      if !AllAccepted(lines) then e.Failed?
      else
        && e.Parser? && e.pend == [] && e.remaining == Announced(lines)
        && if e.remaining == 0 then
             && e.state == (if nl then HeaderNl else New) && e.lines == []
             && e.out == p.out + [Text(Cleaned(lines), [])]
           else
             && e.state == (if nl then HeaderNl else Body) && e.lines == Cleaned(lines) != []
             && e.out == p.out
  {
    hide Feed, FinishLine, S.Sanitize, ReadHead, ReadHeader, Accepted, GoodLine, Announced, WireAny;
    var n, lines := |ls| - 1, Texts(ls);
    HeadIsGood(lines[0]);
    HeaderLines(p, ls);
    AcceptedLast(lines);
    var r := Feed(p, WireAny(ls));
    if AllAccepted(lines[..n]) {
      EndOfHeader(r, ls[n].text, ls[n].eol, end);
      FeedConcat(p, WireAny(ls), end);
      TookMore(r, lines);
    } else {
      FailedRest(p, WireAny(ls), end);
    }
  }

  // ---- bodies and deliveries -------------------------------------------

  /** Between messages; behind a carriage return a line feed may still come. */
  predicate Between(q: Parser) {
    && q.Parser? && q.lines == [] && q.pend == []
    && (q.state == New || (q.state == HeaderNl && q.remaining == 0))
  }

  ghost predicate Arrives(p: Parser, s: seq<char>, m: Message)
    requires p.Parser?
  {
    var q := Feed(p, s);
    Between(q) && q.out == p.out + [m]
  }

  /** What follows a carriage return that ended a header is read as in the next state. */
  lemma NlFeeds(e: Parser, s: seq<char>)
    requires e.Parser? && e.state == HeaderNl && e.pend == [] && s != []
    ensures Feed(e, s) ==
      if s[0] == '\n' then Feed(e.(state := if e.remaining == 0 then New else Body, last := '\n'), s[1..])
      else Feed(e.(state := if e.remaining == 0 then New else Body), s)
  {
    hide Feed;
    assert s == [s[0]] + s[1..];
    var f := e.(state := if e.remaining == 0 then New else Body);
    FeedConcat(e, [s[0]], s[1..]);
    FeedConcat(f, [s[0]], s[1..]);
    FeedOne(e, s[0]);
    FeedOne(f, s[0]);
  }

  /** So the next message arrives as if the parser were idle. */
  lemma BetweenFeeds(q: Parser, s: seq<char>)
    requires Between(q) && s != [] && s[0] != '\n'
    ensures Idle(q.(state := New)) && Feed(q, s) == Feed(q.(state := New), s)
  {
    if q.state == HeaderNl { NlFeeds(q, s); }
  }

  /** Blanks and breaks in front of a message are ignored. */
  lemma {:induction false} LeadingIgnored(p: Parser, g: seq<char>)
    requires Idle(p) && forall i :: 0 <= i < |g| ==> IsBreak(g[i]) || IsBlank(g[i])
    ensures Idle(Feed(p, g)) && Feed(p, g).out == p.out
  {
    hide Feed;
    if g == [] {
      FeedMore(p, [], 'x');
    } else {
      var n := |g| - 1;
      LeadingIgnored(p, g[..n]);
      assert g == g[..n] + [g[n]];
      FeedMore(p, g[..n], g[n]);
    }
  }

  /** A body behind a header that announced one. */
  lemma BodyFeeds(e: Parser, b: seq<char>)
    requires e.Parser? && e.state == Body && e.pend == [] && e.lines != [] && e.remaining > 0
    ensures var q, n := Feed(e, b), e.remaining;
      && (|b| < n ==> q.Parser? && q.out == e.out && q.lines != [])
      && (|b| == n ==> Idle(q) && q.pend == [] && q.out == e.out + [Text(e.lines, b)])
      && (|b| > n ==> q.Parser? ==> e.out + [Text(e.lines, b[..n])] <= q.out)
  {
    hide Feed;
    var n := e.remaining;
    FeedMore(e, [], 'x');
    if 0 < |b| <= n {
      BodyBytes(e, b);
    } else if |b| > n {
      assert b == b[..n] + b[n..];
      FeedConcat(e, b[..n], b[n..]);
      BodyBytes(e, b[..n]);
      OutGrows(Feed(e, b[..n]), b[n..]);
    }
  }

  /** A body that begins with a line feed behind an empty line that is a carriage return
      alone: the line feed is taken for the end of that line. */
  predicate Swallowed(end: seq<char>, body: seq<char>) {
    end == ['\r'] && body != [] && body[0] == '\n'
  }

  /** From the completed header to the end of the body. */
  lemma BodyBehind(base: seq<Message>, e: Parser, end: seq<char>, body: seq<char>)
    requires e.Parser? && e.pend == [] && e.remaining > 0 && e.lines != [] && e.out == base
    requires e.state == if end == ['\r'] then HeaderNl else Body
    ensures var q := Feed(e, body);
      Between(q) && q.out == base + [Text(e.lines, body)] <==> e.remaining == |body| && !Swallowed(end, body)
  {
    hide Feed;
    FeedMore(e, [], 'x');
    var f, b := e, body;
    if end == ['\r'] && body != [] {
      NlFeeds(e, body);
      f := e.(state := Body);
      if body[0] == '\n' {
        f, b := f.(last := '\n'), body[1..];
      }
    }
    if f.state == Body {
      BodyFeeds(f, b);
      var q := Feed(f, b);
      if |b| > e.remaining && q.Parser? {
        assert q.out[|base|] == Text(e.lines, b[..e.remaining]);
      }
      assert (base + [Text(e.lines, b)])[|base|] == Text(e.lines, b);
      assert (base + [Text(e.lines, body)])[|base|] == Text(e.lines, body);
    }
  }

  /**
   A text message of good lines, each ended in its own way, behind any leading blanks
   that were read, with any empty line: it arrives, line by line in cleaned form,
   exactly if the receiver accepts its first line and its headers, they announce its
   body, and no line feed of the body is swallowed.
   */
  lemma TextArrives(p: Parser, ls: seq<Sent>, end: seq<char>, body: seq<char>)
    requires Idle(p) && GoodSent(ls) && EmptyLine(ls[|ls| - 1].eol, end)
    ensures var lines := Texts(ls);
      Arrives(p, WireAny(ls) + end + body, Text(Cleaned(lines), body))
      <==> AllAccepted(lines) && Announced(lines) == |body| && !Swallowed(end, body)
  {
    hide Feed, AllAccepted, Announced, WireAny, GoodSent, Cleaned;
    var h, lines := WireAny(ls) + end, Texts(ls);
    HeaderEnds(p, ls, end);
    FeedConcat(p, h, body);
    var e := Feed(p, h);
    FeedMore(e, [], 'x');
    if !AllAccepted(lines) {
      OutGrows(e, body);
    } else if e.remaining == 0 {
      OutGrows(e, body);
      if body != [] {
        OtherBody(p, e, lines, body, []);
      }
    } else {
      BodyBehind(p.out, e, end, body);
    }
  }

  /** Once another body was delivered, this one is not. */
  lemma OtherBody(p: Parser, e: Parser, lines: seq<Line>, body: seq<char>, other: seq<char>)
    requires p.Parser? && e.Parser? && e.out == p.out + [Text(Cleaned(lines), other)] && body != other
    ensures !(e.out <= p.out + [Text(Cleaned(lines), body)])
  {
    hide Cleaned;
    assert e.out[|p.out|] == Text(Cleaned(lines), other);
  }

  /** Behind an empty line that is not a carriage return alone the parser is idle. */
  lemma CrlfDelivers(p: Parser, lines: seq<Line>, body: seq<char>)
    requires Idle(p) && GoodLines(lines)
    ensures var m := Text(Cleaned(lines), body);
      Arrives(p, SerializeText(lines, body), m) <==> Delivers(p, SerializeText(lines, body), m)
  {
    hide Feed, AllAccepted, Announced, WireAny, Wire, GoodLines, Cleaned;
    WireIsAny(lines);
    var ls, h := Crlf(lines), Wire(lines) + CRLF;
    HeaderEnds(p, ls, CRLF);
    FeedConcat(p, h, body);
    assert SerializeText(lines, body) == h + body;
    var e := Feed(p, h);
    FeedMore(e, [], 'x');
    if AllAccepted(lines) && e.remaining > 0 {
      BodyBehind(p.out, e, CRLF, body);
      BodyFeeds(e, body);
    } else if AllAccepted(lines) && body != [] {
      OutGrows(e, body);
      OtherBody(p, e, lines, body, []);
    } else if !AllAccepted(lines) {
      OutGrows(e, body);
    }
  }

  /**
   A serialized text message of good lines comes through, line by line in cleaned form,
   exactly if the receiver accepts its first line and its headers and they announce its
   body.
   */
  lemma TextRoundTrip(p: Parser, lines: seq<Line>, body: seq<char>)
    requires Idle(p) && GoodLines(lines)
    ensures Delivers(p, SerializeText(lines, body), Text(Cleaned(lines), body))
       <==> AllAccepted(lines) && Announced(lines) == |body|
  {
    hide Arrives, Delivers, AllAccepted, Announced, WireAny, Wire, GoodLines, Cleaned;
    WireIsAny(lines);
    CrlfDelivers(p, lines, body);
    TextArrives(p, Crlf(lines), CRLF, body);
    assert SerializeText(lines, body) == WireAny(Crlf(lines)) + CRLF + body;
  }

  /** A message of a first line only comes through exactly if that line is not of the
      form of a reply with the wildcard code. */
  lemma HeadRoundTrip(p: Parser, head: Line)
    requires Idle(p) && GoodHead(head)
    ensures Delivers(p, SerializeText([head], []), Text([S.Sanitize(head)], []))
       <==> !exists x, y, z, tail :: Wildcard(S.Sanitize(head), x, y, z, tail)
  {
    hide Delivers, SerializeText, S.Sanitize, ReadHead, ReadHeader, Wildcard, GoodHead;
    RejectedExactly(S.Sanitize(head));
    TextRoundTrip(p, [head], []);
    assert [head][..0] == [] && [] + [S.Sanitize(head)] == [S.Sanitize(head)];
    assert Cleaned([head]) == [S.Sanitize(head)];
    assert AllAccepted([head]) <==> Accepted(true, head);
  }

  // ---- streams of messages ---------------------------------------------

  datatype Outgoing = OutText(head: seq<Line>, content: seq<char>) | OutData(chan: nat, bytes: seq<char>)

  /** The bytes of a sealed message. */
  function Raw(m: Outgoing): seq<char> {
    match m
    case OutText(lines, body) => SerializeText(lines, body)
    case OutData(channel, payload) => SerializeData(channel, payload)
  }

  predicate Sendable(m: Outgoing) {
    match m
    case OutText(lines, body) => GoodLines(lines) && AllAccepted(lines) && Announced(lines) == |body|
    case OutData(channel, payload) => channel < 256 && 0 < |payload| < 65536
  }

  function Received(m: Outgoing): Message {
    match m
    case OutText(lines, body) => Text(Cleaned(lines), body)
    case OutData(channel, payload) => Data(channel, payload)
  }

  function RawAll(ms: seq<Outgoing>): seq<char> {
    if ms == [] then [] else RawAll(ms[..|ms| - 1]) + Raw(ms[|ms| - 1])
  }

  function ReceivedAll(ms: seq<Outgoing>): seq<Message> {
    if ms == [] then [] else ReceivedAll(ms[..|ms| - 1]) + [Received(ms[|ms| - 1])]
  }

  /** A stream of whole messages delivers exactly these, in order, and leaves the
      parser between messages. */
  lemma {:induction false} StreamDelivered(p: Parser, ms: seq<Outgoing>)
    requires Idle(p) && forall m :: m in ms ==> Sendable(m)
    ensures var q := Feed(p, RawAll(ms));
      Idle(q) && q.out == p.out + ReceivedAll(ms) && (ms != [] ==> q.pend == [])
  {
    if ms == [] {
      assert p.out + [] == p.out;
    } else {
      hide Feed, Raw, Received, Sendable;
      var n := |ms| - 1;
      StreamDelivered(p, ms[..n]);
      var q := Feed(p, RawAll(ms[..n]));
      FeedConcat(p, RawAll(ms[..n]), Raw(ms[n]));
      OneDelivered(q, ms[n]);
      assert (p.out + ReceivedAll(ms[..n])) + [Received(ms[n])] == p.out + ReceivedAll(ms);
    }
  }

  lemma OneDelivered(p: Parser, m: Outgoing)
    requires Idle(p) && Sendable(m)
    ensures Delivers(p, Raw(m), Received(m))
  {
    hide Delivers, AllAccepted, Announced, GoodLines, SerializeText, SerializeData, Cleaned;
    match m
    case OutText(lines, body) => TextRoundTrip(p, lines, body);
    case OutData(channel, payload) => DataDelivered(p, channel, payload);
  }

  // ---- parts of messages -----------------------------------------------

  /**
   How many bytes of a message make the parser deliver it: all of them, but for a
   text message without a body all but the last, since such a message is complete
   at the carriage return of the empty line.
   */
  function DeliveredAt(m: Outgoing): int {
    |Raw(m)| - if m.OutText? && m.content == [] then 1 else 0
  }

  /** Up to `at` bytes nothing is delivered; the next one delivers the message. */
  ghost predicate TurnsAt(p: Parser, m: Outgoing, at: nat) {
    && p.Parser? && at < |Raw(m)|
    && var before, after := Feed(p, Raw(m)[..at]), Feed(p, Raw(m)[..at + 1]);
    && before.Parser? && before.out == p.out
    && after.Parser? && after.out == p.out + [Received(m)]
  }

  lemma SliceConcat(a: seq<char>, b: seq<char>, i: nat)
    requires i <= |b|
    ensures (a + b)[..|a| + i] == a + b[..i]
  {
  }

  lemma DataTurns(p: Parser, m: Outgoing)
    requires Idle(p) && m.OutData? && Sendable(m)
    ensures TurnsAt(p, m, |Raw(m)| - 1)
  {
    hide Feed, DataPrefix;
    var h, s := DataPrefix(m.chan, |m.bytes|), m.bytes;
    var n := |s| - 1;
    OneDelivered(p, m);
    assert Raw(m)[..|Raw(m)|] == Raw(m);
    SliceConcat(h, s, n);
    FeedConcat(p, h, s[..n]);
    DataHeader(p, m.chan, |s|);
    if n == 0 {
      FeedMore(Feed(p, h), [], 'x');
    } else {
      DataPayload(Feed(p, h), s[..n]);
    }
  }

  lemma TextSplit(m: Outgoing, n: nat)
    requires m.OutText? && n <= |m.content|
    ensures var h := Wire(m.head) + CRLF;
      |Raw(m)| == |h| + |m.content| && Raw(m)[..|h| + n] == h + m.content[..n]
  {
    var h := Wire(m.head) + CRLF;
    assert Raw(m) == h + m.content;
    SliceConcat(h, m.content, n);
  }

  /** All but the last byte of a message with a body deliver nothing. */
  lemma TextPending(p: Parser, m: Outgoing)
    requires Idle(p) && m.OutText? && m.content != [] && Sendable(m)
    ensures var q := Feed(p, Wire(m.head) + CRLF + m.content[..|m.content| - 1]); q.Parser? && q.out == p.out
  {
    hide Feed, Wire, Announced, GoodLines, Cleaned;
    var h, s := Wire(m.head) + CRLF, m.content[..|m.content| - 1];
    FeedConcat(p, h, s);
    WireIsAny(m.head);
    HeaderEnds(p, Crlf(m.head), CRLF);
    if s == [] {
      FeedMore(Feed(p, h), [], 'x');
    } else {
      BodyBytes(Feed(p, h), s);
    }
  }

  lemma TextTurns(p: Parser, m: Outgoing)
    requires Idle(p) && m.OutText? && m.content != [] && Sendable(m)
    ensures TurnsAt(p, m, |Raw(m)| - 1)
  {
    hide Feed, Wire, Raw, Sendable, Received;
    OneDelivered(p, m);
    TextSplit(m, |m.content| - 1);
    TextPending(p, m);
    assert Raw(m)[..|Raw(m)|] == Raw(m);
  }

  /** Without a body the carriage return of the empty line completes the message. */
  lemma BareTextTurns(p: Parser, m: Outgoing)
    requires Idle(p) && m.OutText? && m.content == [] && Sendable(m)
    ensures TurnsAt(p, m, |Raw(m)| - 2)
  {
    hide Feed, FinishLine, S.Sanitize, ReadHead, ReadHeader, Accepted, GoodLine, Announced, Wire;
    var lines, n := m.head, |m.head| - 1;
    HeadIsGood(lines[0]);
    WireIsAny(lines);
    HeaderLines(p, Crlf(lines));
    AcceptedLast(lines);
    var w := Wire(lines);
    var r := Feed(p, w);
    SliceConcat(w, CRLF + [], 0);
    SliceConcat(w, CRLF + [], 1);
    assert w + (CRLF + [])[..0] == w && w + (CRLF + [])[..1] == w + ['\r'];
    FinishTakes(r, lines[n], CRLF);
    FinishState(r);
    TookMore(r, lines);
    FeedMore(p, w, '\r');
  }

  lemma RawLong(m: Outgoing)
    ensures |Raw(m)| >= 2
  {
    hide Wire;
  }

  lemma Turns(p: Parser, m: Outgoing)
    requires Idle(p) && Sendable(m)
    ensures DeliveredAt(m) > 0 && TurnsAt(p, m, DeliveredAt(m) - 1)
  {
    hide TurnsAt, Sendable, Raw;
    RawLong(m);
    if m.OutData? {
      DataTurns(p, m);
    } else if m.content == [] {
      BareTextTurns(p, m);
    } else {
      TextTurns(p, m);
    }
  }

  /** What a longer prefix has delivered begins with what a shorter one has. */
  lemma PrefixDelivers(p: Parser, s: seq<char>, i: nat, j: nat)
    requires i <= j <= |s| && p.Parser? && Feed(p, s[..j]).Parser?
    ensures Feed(p, s[..i]).Parser? && Feed(p, s[..i]).out <= Feed(p, s[..j]).out
  {
    hide Feed;
    assert s[..j] == s[..i] + s[i..j];
    FeedConcat(p, s[..i], s[i..j]);
    OutGrows(Feed(p, s[..i]), s[i..j]);
  }

  /** A part of a message delivers the message if it is long enough, and otherwise
      nothing. */
  lemma PartDelivered(p: Parser, m: Outgoing, k: nat)
    requires Idle(p) && Sendable(m) && k <= |Raw(m)|
    ensures var q := Feed(p, Raw(m)[..k]);
      q.Parser? && q.out == p.out + if k >= DeliveredAt(m) then [Received(m)] else []
  {
    hide Feed, Sendable, Raw, Received;
    Turns(p, m);
    var s, d := Raw(m), DeliveredAt(m);
    if k < d {
      PrefixDelivers(p, s, k, d - 1);
      PrefixDelivers(p, s, 0, k);
      FeedMore(p, [], 'x');
      assert s[..0] == [];
    } else {
      OneDelivered(p, m);
      assert s[..|s|] == s;
      PrefixDelivers(p, s, k, |s|);
      PrefixDelivers(p, s, d, k);
    }
  }
}
