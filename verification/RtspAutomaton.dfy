/**
 The RTSP stream parser of src/shared/rtsp.c as an automaton that reads byte by
 byte over a plain sequence of pending bytes, and what it does to the bytes that
 the serializers produce (section 10.12 of RFC 2326 for interleaved data).
 */
module RtspAutomaton {
  import opened RtspHeads
  import opened RtspHeaders
  import opened SanitizeLine

  datatype State = New | Header | HeaderQuote | HeaderNl | Body | DataHead | DataBody

  datatype Message =
    | Text(lines: seq<Line>, body: seq<char>)
    | Data(channel: nat, payload: seq<char>)

  /** `pend` are the bytes counted by `buflen`, `lines` the message under assembly
      (none if empty), `out` the messages handed on. */
  datatype Parser =
    | Parser(state: State, pend: seq<char>, last: char, remaining: nat,
             channel: nat, size: nat, quoted: bool, lines: seq<Line>, out: seq<Message>)
    | Failed

  const INITIAL := Parser(New, [], '\0', 0, 0, 0, false, [], [])

  function WithPend(p: Parser, pend: seq<char>): Parser
    requires p.Parser?
  {
    p.(pend := pend)
  }

  predicate IsBreak(c: char) {
    c == '\r' || c == '\n'
  }

  predicate IsBlank(c: char) {
    c == ' ' || c == '\t'
  }

  // ---- the seven states ------------------------------------------------

  /** `parser_finish_header_line` */
  function FinishLine(p: Parser): (r: Parser)
    requires p.Parser?
  {
    var line := Sanitize(p.pend);
    if p.lines == [] then
      if ReadHead(line).Rejected? then Failed else p.(lines := [line])
    else match ReadHeader(line)
      case Bad => Failed
      case Length(n) => p.(lines := p.lines + [line], remaining := n)
      case Plain => p.(lines := p.lines + [line])
  }

  /** `parser_submit` */
  function Submit(p: Parser, body: seq<char>): (r: Parser)
    requires p.Parser?
    ensures r.Parser?
  {
    if p.lines == [] then p
    else p.(lines := [], out := p.out + [Text(p.lines, body)])
  }

  function FeedNew(p: Parser, ch: char): (r: Parser)
    requires p.Parser?
    ensures r.Parser?
  {
    if IsBreak(ch) || IsBlank(ch) then p.(pend := p.pend + [ch])
    else if ch == '$' then p.(state := DataHead, channel := 0, size := 0, pend := [])
    else p.(state := Header, remaining := 0, pend := [ch])
  }

  function FeedHeader(p: Parser, ch: char): Parser
    requires p.Parser?
  {
    if ch == '\r' && IsBreak(p.last) then
      var q := FinishLine(p.(state := HeaderNl));
      if q.Failed? then q
      else if q.remaining == 0 then Submit(q.(pend := []), [])
      else q.(pend := [])
    else if ch == '\n' && p.last == '\n' then
      var q := FinishLine(p);
      if q.Failed? then q
      else if q.remaining == 0 then Submit(q.(pend := [], state := New), [])
      else q.(pend := [], state := Body)
    else if IsBreak(ch) || IsBlank(ch) then
      p.(pend := p.pend + [ch])
    else
      var q := if IsBreak(p.last) then FinishLine(p) else p;
      if q.Failed? then q
      else
        var q' := q.(pend := if IsBreak(p.last) then [ch] else p.pend + [ch]);
        if ch == '"' then q'.(state := HeaderQuote, quoted := false) else q'
  }

  function FeedHeaderQuote(p: Parser, ch: char): (r: Parser)
    requires p.Parser?
    ensures r.Parser?
  {
    if p.last == '\\' && !p.quoted then p.(pend := p.pend + [ch], quoted := true)
    else p.(pend := p.pend + [ch], quoted := false, state := if ch == '"' then Header else p.state)
  }

  function FeedBody(p: Parser, ch: char): (r: Parser)
    requires p.Parser?
    ensures r.Parser?
  {
    if p.remaining == 0 then FeedNew(p.(state := New), ch)
    else if p.remaining == 1 then
      Submit(p.(remaining := 0, state := New, pend := []), p.pend + [ch])
    else p.(pend := p.pend + [ch], remaining := p.remaining - 1)
  }

  function FeedHeaderNl(p: Parser, ch: char): (r: Parser)
    requires p.Parser?
    ensures r.Parser?
  {
    if ch == '\n' then p.(pend := [], state := if p.remaining == 0 then New else Body)
    else FeedBody(p.(pend := [], state := Body), ch)
  }

  function FeedDataHead(p: Parser, ch: char): (r: Parser)
    requires p.Parser?
    ensures r.Parser?
  {
    var pend := p.pend + [ch];
    if |pend| >= 3 then
      p.(pend := [], channel := pend[0] as int, size := pend[1] as int * 256 + pend[2] as int, state := DataBody)
    else p.(pend := pend)
  }

  function FeedDataBody(p: Parser, ch: char): (r: Parser)
    requires p.Parser?
    ensures r.Parser?
  {
    var pend := p.pend + [ch];
    if |pend| >= p.size then
      p.(pend := [], state := New, out := p.out + [Data(p.channel, pend[..p.size])])
    else p.(pend := pend)
  }

  /** `parser_feed_char` and the update of `last_chr` behind it. */
  function Step(p: Parser, ch: char): Parser {
    if p.Failed? then p
    else
      var q := match p.state
        case New => FeedNew(p, ch)
        case Header => FeedHeader(p, ch)
        case HeaderQuote => FeedHeaderQuote(p, ch)
        case HeaderNl => FeedHeaderNl(p, ch)
        case Body => FeedBody(p, ch)
        case DataHead => FeedDataHead(p, ch)
        case DataBody => FeedDataBody(p, ch);
      if q.Failed? then q else q.(last := ch)
  }

  function Feed(p: Parser, s: seq<char>): Parser {
    if s == [] then p else Step(Feed(p, s[..|s| - 1]), s[|s| - 1])
  }

  /** Reading in two parts is reading at once. */
  lemma {:induction false} FeedConcat(p: Parser, a: seq<char>, b: seq<char>)
    ensures Feed(p, a + b) == Feed(Feed(p, a), b)
  {
    if b == [] {
      assert a + b == a;
    } else {
      var n := |b| - 1;
      FeedConcat(p, a, b[..n]);
      assert (a + b)[..|a + b| - 1] == a + b[..n];
    }
  }

  lemma FeedMore(p: Parser, s: seq<char>, c: char)
    ensures Feed(p, s + [c]) == Step(Feed(p, s), c)
    ensures Feed(p, []) == p
  {
    assert (s + [c])[..|s|] == s;
  }

  lemma FeedOne(p: Parser, c: char)
    ensures Feed(p, [c]) == Step(p, c)
  {
    assert [c][..0] == [];
  }

  function Flatten<T>(parts: seq<seq<T>>): seq<T> {
    if parts == [] then [] else Flatten(parts[..|parts| - 1]) + parts[|parts| - 1]
  }

  /** Reading chunk by chunk. */
  function FeedChunks(p: Parser, chunks: seq<seq<char>>): Parser {
    if chunks == [] then p
    else Feed(FeedChunks(p, chunks[..|chunks| - 1]), chunks[|chunks| - 1])
  }

  /** However a stream is cut into chunks, the parser ends in the same state and
      has delivered the same messages. */
  lemma {:induction false} ChunksDoNotMatter(p: Parser, chunks: seq<seq<char>>)
    ensures FeedChunks(p, chunks) == Feed(p, Flatten(chunks))
  {
    if chunks != [] {
      var n := |chunks| - 1;
      ChunksDoNotMatter(p, chunks[..n]);
      FeedConcat(p, Flatten(chunks[..n]), chunks[n]);
    }
  }

  /** What was delivered stays delivered. */
  lemma {:induction false} OutGrows(p: Parser, s: seq<char>)
    ensures p.Parser? && Feed(p, s).Parser? ==> p.out <= Feed(p, s).out
    ensures p.Failed? ==> Feed(p, s).Failed?
  {
    if s != [] {
      var n := |s| - 1;
      OutGrows(p, s[..n]);
      StepGrows(Feed(p, s[..n]), s[n]);
    }
  }

  lemma HeaderGrows(p: Parser, c: char)
    requires p.Parser?
    ensures FeedHeader(p, c).Parser? ==> p.out <= FeedHeader(p, c).out
  {
    hide ReadHead, ReadHeader, Sanitize;
  }

  lemma BodyGrows(p: Parser, c: char)
    requires p.Parser?
    ensures p.out <= FeedBody(p, c).out && p.out <= FeedHeaderNl(p, c).out
  {
  }

  lemma StepGrows(p: Parser, c: char)
    ensures p.Parser? && Step(p, c).Parser? ==> p.out <= Step(p, c).out
  {
    hide FeedHeader, FeedBody, FeedHeaderNl, ReadHead, ReadHeader, Sanitize;
    if p.Parser? {
      HeaderGrows(p, c);
      BodyGrows(p, c);
    }
  }
}
