/**
 The parser object of src/shared/rtsp.c: the bytes wait in a ring buffer, of which
 the first `buflen` are read. It computes what the automaton computes.
 */
module RtspParser {
  import opened RtspAutomaton
  import opened RtspHeaders
  import opened RtspHeads
  import R = Ring
  import S = SanitizeLine
  import T = TaggedWords

  datatype Result = Ok | Again | NoMemory | Invalid | Fault

  class Decoder {
    const ring: R.Ring

    var buflen: nat
    var state: State
    var last: char
    var remaining: nat
    var channel: nat
    var size: nat
    var quoted: bool
    var lines: seq<Line>
    var out: seq<Message>

    /** The ring holds the bytes read and pending, then `rest`. */
    ghost predicate Holds(rest: seq<char>)
      reads this, ring, ring.buf
    {
      ring.Valid() && buflen <= ring.used && ring.Contents()[buflen..] == rest
    }

    ghost function View(): (p: Parser)
      reads this, ring, ring.buf
      requires ring.Valid() && buflen <= ring.used
      ensures p.Parser?
    {
      Parser(state, ring.Contents()[..buflen], last, remaining, channel, size, quoted, lines, out)
    }

    constructor ()
      ensures Holds([]) && View() == INITIAL
      ensures fresh(ring) && fresh(ring.buf)
    {
      ring := new R.Ring();
      buflen, state, last, remaining := 0, New, '\0', 0;
      channel, size, quoted, lines, out := 0, 0, false, [], [];
    }

    /** The next byte becomes pending. */
    method Take(ch: char, ghost rest: seq<char>)
      requires Holds([ch] + rest)
      modifies this`buflen
      ensures Holds(rest) && View() == WithPend(old(View()), old(View()).pend + [ch])
      ensures buflen == old(buflen) + 1
    {
      assert ring.Contents() == View().pend + ([ch] + rest);
      buflen := buflen + 1;
    }

    /** The pending bytes and the next one are dropped. */
    method DropWith(ch: char, ghost rest: seq<char>)
      requires Holds([ch] + rest)
      modifies this`buflen, ring
      ensures ring.buf == old(ring.buf)
      ensures Holds(rest) && View() == WithPend(old(View()), [])
    {
      assert ring.Contents() == View().pend + ([ch] + rest);
      ring.Pull(buflen + 1);
      buflen := 0;
    }

    /** The pending bytes are dropped. */
    method DropPending(ghost rest: seq<char>)
      requires Holds(rest)
      modifies this`buflen, ring
      ensures ring.buf == old(ring.buf)
      ensures Holds(rest) && View() == WithPend(old(View()), [])
    {
      ring.Pull(buflen);
      buflen := 0;
    }

    method FinishHeaderLine() returns (ok: bool)
      requires ring.Valid() && buflen <= ring.used
      modifies this`lines, this`remaining
      ensures ok <==> FinishLine(old(View())).Parser?
      ensures ok ==> View() == FinishLine(old(View()))
    {
      hide ReadHead, ReadHeader, S.Sanitize, R.Window;
      var copy := ring.Copy(buflen);
      var line := S.Sanitize(copy);
      if lines == [] {
        var head := FromHead(line);
        if head.Rejected? {
          return false;
        }
        lines := [line];
        return true;
      }
      var kind := AppendHeader(line);
      match kind
      case Bad =>
        return false;
      case Length(n) =>
        lines := lines + [line];
        remaining := n;
        return true;
      case Plain =>
        lines := lines + [line];
        return true;
    }

    method SubmitMessage(body: seq<char>)
      requires ring.Valid() && buflen <= ring.used
      modifies this`lines, this`out
      ensures View() == Submit(old(View()), body)
    {
      if lines != [] {
        out := out + [Text(lines, body)];
        lines := [];
      }
    }

    method FeedCharNew(ch: char, ghost rest: seq<char>)
      requires Holds([ch] + rest)
      modifies this, ring
      ensures ring.buf == old(ring.buf)
      ensures Holds(rest) && View() == FeedNew(old(View()), ch)
    {
      if ch == '\r' || ch == '\n' || ch == '\t' || ch == ' ' {
        Take(ch, rest);
      } else if ch == '$' {
        state, channel, size := DataHead, 0, 0;
        DropWith(ch, rest);
      } else {
        state, remaining := Header, 0;
        DropPending([ch] + rest);
        Take(ch, rest);
        assert [] + [ch] == [ch];
      }
    }

    /** Second line break: the header is complete. */
    method EndHeader(ch: char, ghost rest: seq<char>) returns (ok: bool)
      requires Holds([ch] + rest)
      modifies this, ring
      ensures ring.buf == old(ring.buf)
      ensures var q := FinishLine(old(View()));
        && (ok <==> q.Parser?)
        && (ok ==> Holds(rest) && View() == if q.remaining == 0 then Submit(WithPend(q, []), []) else WithPend(q, []))
    {
      hide ReadHead, ReadHeader, S.Sanitize, R.Window;
      ok := FinishHeaderLine();
      if ok {
        DropWith(ch, rest);
        if remaining == 0 {
          SubmitMessage([]);
        }
      }
    }

    method FeedCharHeader(ch: char, ghost rest: seq<char>) returns (ok: bool)
      requires Holds([ch] + rest)
      modifies this, ring
      ensures ring.buf == old(ring.buf)
      ensures ok <==> FeedHeader(old(View()), ch).Parser?
      ensures ok ==> Holds(rest) && View() == FeedHeader(old(View()), ch)
    {
      hide ReadHead, ReadHeader, S.Sanitize, R.Window;
      if ch == '\r' && (last == '\r' || last == '\n') {
        state := HeaderNl;
        ok := EndHeader(ch, rest);
      } else if ch == '\n' && last == '\n' {
        ok := EndHeader(ch, rest);
        if ok {
          state := if remaining > 0 then Body else New;
        }
      } else if ch == '\r' || ch == '\n' || ch == '\t' || ch == ' ' {
        Take(ch, rest);
        ok := true;
      } else {
        ok := FeedCharText(ch, rest);
      }
    }

    /** The default branch of the header state. */
    method FeedCharText(ch: char, ghost rest: seq<char>) returns (ok: bool)
      requires Holds([ch] + rest) && !IsBreak(ch) && !IsBlank(ch)
      modifies this, ring
      ensures ring.buf == old(ring.buf)
      ensures ok <==> FeedHeader(old(View()), ch).Parser?
      ensures ok ==> Holds(rest) && View() == FeedHeader(old(View()), ch)
    {
      hide ReadHead, ReadHeader, S.Sanitize, R.Window;
      ok := true;
      if last == '\r' || last == '\n' {
        ok := FinishHeaderLine();
        if !ok {
          return;
        }
        DropPending([ch] + rest);
      }
      Take(ch, rest);
      assert [] + [ch] == [ch];
      if ch == '"' {
        state := HeaderQuote;
        quoted := false;
      }
    }

    method FeedCharHeaderQuote(ch: char, ghost rest: seq<char>)
      requires Holds([ch] + rest)
      modifies this`buflen, this`quoted, this`state
      ensures Holds(rest) && View() == FeedHeaderQuote(old(View()), ch)
    {
      if last == '\\' && !quoted {
        Take(ch, rest);
        quoted := true;
      } else {
        quoted := false;
        Take(ch, rest);
        if ch == '"' {
          state := Header;
        }
      }
    }

    method FeedCharBody(ch: char, ghost rest: seq<char>)
      requires Holds([ch] + rest)
      modifies this, ring
      ensures ring.buf == old(ring.buf)
      ensures Holds(rest) && View() == FeedBody(old(View()), ch)
    {
      if remaining == 0 {
        state := New;
        FeedCharNew(ch, rest);
        return;
      }
      Take(ch, rest);
      remaining := remaining - 1;
      if remaining == 0 {
        if lines != [] {
          var body := ring.Copy(buflen);
          SubmitMessage(body);
        }
        state := New;
        DropPending(rest);
      }
    }

    method FeedCharHeaderNl(ch: char, ghost rest: seq<char>)
      requires Holds([ch] + rest)
      modifies this, ring
      ensures ring.buf == old(ring.buf)
      ensures Holds(rest) && View() == FeedHeaderNl(old(View()), ch)
    {
      if ch == '\n' {
        DropWith(ch, rest);
        state := if remaining == 0 then New else Body;
      } else {
        DropPending([ch] + rest);
        state := Body;
        FeedCharBody(ch, rest);
      }
    }

    method FeedCharDataHead(ch: char, ghost rest: seq<char>)
      requires Holds([ch] + rest)
      modifies this, ring
      ensures ring.buf == old(ring.buf)
      ensures Holds(rest) && View() == FeedDataHead(old(View()), ch)
    {
      hide R.Window;
      Take(ch, rest);
      ghost var pend := View().pend;
      if buflen >= 3 {
        var head := ring.Copy(3);
        assert head == pend[..3] && head[0] == pend[0] && head[1] == pend[1] && head[2] == pend[2];
        DropPending(rest);
        channel := head[0] as int;
        size := head[1] as int * 256 + head[2] as int;
        state := DataBody;
      }
    }

    method FeedCharDataBody(ch: char, ghost rest: seq<char>)
      requires Holds([ch] + rest)
      modifies this, ring
      ensures ring.buf == old(ring.buf)
      ensures Holds(rest) && View() == FeedDataBody(old(View()), ch)
    {
      Take(ch, rest);
      ghost var pend := View().pend;
      if buflen >= size {
        var payload := ring.Copy(size);
        assert payload == pend[..size];
        out := out + [Data(channel, payload)];
        state := New;
        DropPending(rest);
      }
    }

    method FeedChar(ch: char, ghost rest: seq<char>) returns (ok: bool)
      requires Holds([ch] + rest)
      modifies this, ring
      ensures ring.buf == old(ring.buf)
      ensures ok <==> Step(old(View()), ch).Parser?
      ensures ok ==> Holds(rest) && View() == Step(old(View()), ch)
    {
      ok := true;
      match state {
        case New => FeedCharNew(ch, rest);
        case Header => ok := FeedCharHeader(ch, rest);
        case HeaderQuote => FeedCharHeaderQuote(ch, rest);
        case HeaderNl => FeedCharHeaderNl(ch, rest);
        case Body => FeedCharBody(ch, rest);
        case DataHead => FeedCharDataHead(ch, rest);
        case DataBody => FeedCharDataBody(ch, rest);
      }
      if ok {
        last := ch;
      }
    }

    /** The ring has room for `n` more bytes, or can get it. */
    ghost predicate Room(n: nat, alloc: bool)
      reads this, ring
    {
      ring.buf.Length - ring.used >= n || (alloc && R.Needed(ring.used, n) <= T.Pow2(T.WORD_BITS - 1))
    }

    /** `rtsp_parse_data`: reads one chunk. It is short of memory only if the ring has
        no room, and the check for inconsistencies never fails. */
    method ParseData(buf: seq<char>, alloc: bool) returns (r: Result)
      requires Holds([]) && |buf| < R.SIZE_LIMIT
      modifies this, ring, ring.buf
      ensures ring.buf == old(ring.buf) || fresh(ring.buf)
      ensures r == Again <==> buf == []
      ensures r == NoMemory <==> buf != [] && !old(Room(|buf|, alloc))
      ensures r == Ok <==> buf != [] && old(Room(|buf|, alloc)) && Feed(old(View()), buf).Parser?
      ensures r == Invalid <==> buf != [] && old(Room(|buf|, alloc)) && Feed(old(View()), buf).Failed?
      ensures r == Ok ==> Holds([]) && View() == Feed(old(View()), buf)
      ensures r == Again || r == NoMemory ==> Holds([]) && View() == old(View())
    {
      hide R.Window, R.Needed, T.Pow2, Feed, Step;
      FeedMore(View(), [], 'x');
      if buf == [] {
        return Again;
      }
      buflen := ring.used;
      var ok := ring.Push(buf, alloc);
      if !ok {
        return NoMemory;
      }
      for i := 0 to |buf|
        invariant ring.buf == old(ring.buf) || fresh(ring.buf)
        invariant Holds(buf[i..]) && View() == Feed(old(View()), buf[..i])
      {
        assert buf[i..] == [buf[i]] + buf[i + 1..];
        FeedMore(old(View()), buf[..i], buf[i]);
        assert buf[..i] + [buf[i]] == buf[..i + 1];
        ok := FeedChar(buf[i], buf[i + 1..]);
        if !ok {
          FailedStays(old(View()), buf, i + 1);
          return Invalid;
        }
      }
      assert buf[..|buf|] == buf;
      if buflen != ring.used {
        return Fault;
      }
      return Ok;
    }
  }

  lemma FailedStays(p: Parser, s: seq<char>, i: nat)
    requires i <= |s| && Feed(p, s[..i]).Failed?
    ensures Feed(p, s).Failed?
  {
    assert s == s[..i] + s[i..];
    FeedConcat(p, s[..i], s[i..]);
    OutGrows(Feed(p, s[..i]), s[i..]);
  }

  // ---- whole streams ---------------------------------------------------

  lemma FlattenMore<X>(parts: seq<seq<X>>, i: nat)
    requires i < |parts|
    ensures Flatten(parts[..i + 1]) == Flatten(parts[..i]) + parts[i]
  {
    assert parts[..i + 1][..i] == parts[..i];
  }

  lemma RoomUpTo(used: nat, n: nat)
    requires used + n <= T.Pow2(T.WORD_BITS - 1)
    ensures R.Needed(used, n) <= T.Pow2(T.WORD_BITS - 1)
  {
    R.Pow2Small();
    R.Pow2Monotone(31, T.WORD_BITS - 1);
  }

  /** What the decoder has read before chunk `i`. */
  ghost function Before(chunks: seq<seq<char>>, i: nat): Parser
    requires i <= |chunks|
  {
    Feed(INITIAL, Flatten(chunks[..i]))
  }

  /** Some chunk, with the bytes still pending before it, is longer than any buffer. */
  ghost predicate TooLong(chunks: seq<seq<char>>) {
    exists i :: 0 <= i < |chunks| && Before(chunks, i).Parser?
      && |Before(chunks, i).pend| + |chunks[i]| > T.Pow2(T.WORD_BITS - 1)
  }

  lemma TooLongHere(chunks: seq<seq<char>>, i: nat)
    requires i < |chunks| && Before(chunks, i).Parser?
    requires |Before(chunks, i).pend| + |chunks[i]| > T.Pow2(T.WORD_BITS - 1)
    ensures TooLong(chunks)
  {
  }

  /**
   The reading loop over a fresh parser: while no allocation fails, however the
   stream is cut, the parser ends in the state of the automaton that read the whole
   stream, with the same messages delivered, and fails exactly if the automaton does.
   */
  method Receive(chunks: seq<seq<char>>) returns (d: Decoder, r: Result)
    requires forall c :: c in chunks ==> |c| < R.SIZE_LIMIT
    ensures r == Ok || r == Invalid || r == NoMemory
    ensures r == Ok ==> d.Holds([]) && d.View() == Feed(INITIAL, Flatten(chunks))
    ensures r == Invalid ==> Feed(INITIAL, Flatten(chunks)).Failed?
    ensures r == NoMemory ==> TooLong(chunks)
  {
    hide Feed, Flatten, TooLong, R.Window, R.Needed, T.Pow2;
    d := new Decoder();
    r := Ok;
    FeedMore(INITIAL, [], 'x');
    FlattenNone<char>();
    assert chunks[..0] == [];
    for i := 0 to |chunks|
      invariant fresh(d) && fresh(d.ring) && fresh(d.ring.buf)
      invariant d.Holds([]) && d.View() == Before(chunks, i)
    {
      FlattenMore(chunks, i);
      FeedConcat(INITIAL, Flatten(chunks[..i]), chunks[i]);
      FeedMore(d.View(), [], 'x');
      if d.ring.used + |chunks[i]| <= T.Pow2(T.WORD_BITS - 1) {
        RoomUpTo(d.ring.used, |chunks[i]|);
      } else {
        TooLongHere(chunks, i);
      }
      r := d.ParseData(chunks[i], true);
      if r == Invalid {
        assert chunks[..|chunks|] == chunks;
        LaterFails(chunks, i + 1, |chunks|);
        return;
      }
      if r == NoMemory {
        return;
      }
    }
    assert chunks[..|chunks|] == chunks;
    r := Ok;
  }

  lemma FlattenNone<X>()
    ensures Flatten<X>([]) == []
  {
  }

  lemma {:induction false} LaterFails(chunks: seq<seq<char>>, i: nat, j: nat)
    requires i <= j <= |chunks| && Before(chunks, i).Failed?
    ensures Before(chunks, j).Failed?
  {
    hide Feed, Flatten;
    if i < j {
      LaterFails(chunks, i, j - 1);
      FlattenMore(chunks, j - 1);
      FeedConcat(INITIAL, Flatten(chunks[..j - 1]), chunks[j - 1]);
      OutGrows(Before(chunks, j - 1), chunks[j - 1]);
    }
  }
}
