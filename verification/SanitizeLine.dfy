/**
 `sanitize_line` (src/shared/rtsp.c): cleans a header line in place. Outside
 quotes it turns line breaks and tabs into blanks and keeps single blanks only,
 and it drops zero bytes everywhere.
 */
module SanitizeLine {

  /** The loop's variables; `out` is what lies before `dst`. */
  datatype Scan = Scan(quoted: bool, escaped: bool, last: char, out: seq<char>)

  const START := Scan(false, false, '\0', [])

  function Step(s: Scan, c: char): Scan {
    if s.escaped then
      var d := if c == '\0' then '0' else c;
      Scan(s.quoted, false, d, s.out + [d])
    else if s.quoted then
      if c == '"' then Scan(false, false, c, s.out + [c])
      else if c == '\0' then s
      else Scan(true, c == '\\', c, s.out + [c])
    else if c == '\0' then s
    else
      var d := if c == '\r' || c == '\n' || c == '\t' then ' ' else c;
      if d == ' ' && (s.last == ' ' || s.out == []) then s.(last := d)
      else Scan(d == '"', false, d, s.out + [d])
  }

  function Run(s: Scan, line: seq<char>): Scan {
    if line == [] then s else Step(Run(s, line[..|line| - 1]), line[|line| - 1])
  }

  function TrimRight(s: seq<char>): (r: seq<char>)
    ensures r <= s
    ensures r != [] ==> r[|r| - 1] != ' '
    ensures forall i :: |r| <= i < |s| ==> s[i] == ' '
  {
    if s != [] && s[|s| - 1] == ' ' then TrimRight(s[..|s| - 1]) else s
  }

  /** The cleaned line. */
  function Sanitize(line: seq<char>): seq<char> {
    var s := Run(START, line);
    if s.quoted then s.out else TrimRight(s.out)
  }

  /** The scanning loop; what it keeps is left at the front of the buffer. */
  method ScanInPlace(line: array<char>, len: nat) returns (dst: nat, quoted: bool)
    requires len < line.Length
    modifies line
    ensures dst <= len && line[..dst] == Run(START, old(line[..len])).out
    ensures quoted == Run(START, old(line[..len])).quoted
  {
    ghost var was := line[..len];
    var escaped, last := false, '\0';
    dst, quoted := 0, false;
    var i := 0;
    while i < len
      invariant 0 <= dst <= i <= len
      invariant forall k :: i <= k < len ==> line[k] == was[k]
      invariant Run(START, was[..i]) == Scan(quoted, escaped, last, line[..dst])
    {
      assert was[..i + 1][..i] == was[..i];
      ghost var out := line[..dst];
      var c := line[i];
      var prev := last;
      last := c;
      i := i + 1;
      if escaped {
        escaped := false;
        if c == '\0' {
          c := '0';
          last := c;
        }
      } else if quoted {
        if c == '"' {
          quoted := false;
        } else if c == '\0' {
          last := prev;
          continue;
        } else if c == '\\' {
          escaped := true;
        }
      } else {
        if c == '\0' {
          last := prev;
          continue;
        }
        if c == '\r' || c == '\n' || c == '\t' {
          c := ' ';
          last := c;
        }
        if c == ' ' && prev == ' ' {
          continue;
        }
        if c == ' ' && dst == 0 {
          continue;
        }
        if c == '"' {
          quoted := true;
        }
      }
      line[dst] := c;
      dst := dst + 1;
      assert line[..dst] == out + [c];
    }
    assert was[..len] == was;
  }

  /** The loop that cuts trailing blanks. */
  method TrimInPlace(line: array<char>, len: nat) returns (n: nat)
    requires len < line.Length && line[len] == '\0'
    modifies line
    ensures n <= len && line[..n] == TrimRight(old(line[..len])) && line[n] == '\0'
  {
    ghost var out := line[..len];
    n := len;
    assert out[..n] == out;
    while n > 0 && line[n - 1] == ' '
      invariant n <= len && line[..n] == out[..n] && line[n] == '\0'
      invariant TrimRight(out) == TrimRight(out[..n])
    {
      assert out[..n][..n - 1] == out[..n - 1];
      n := n - 1;
      line[n] := '\0';
    }
  }

  /** `sanitize_line`: the cleaned line is left at the front of the buffer. */
  method SanitizeInPlace(line: array<char>, len: nat) returns (n: nat)
    requires len < line.Length
    modifies line
    ensures n <= len && line[..n] == Sanitize(old(line[..len]))
    ensures line[n] == '\0'
  {
    hide Run, TrimRight;
    var quoted;
    n, quoted := ScanInPlace(line, len);
    ghost var out := line[..n];
    line[n] := '\0';
    assert line[..n] == out;
    if !quoted {
      n := TrimInPlace(line, n);
    }
  }

  lemma {:induction false} RunConcat(s: Scan, a: seq<char>, b: seq<char>)
    ensures Run(s, a + b) == Run(Run(s, a), b)
  {
    if b == [] {
      assert a + b == a;
    } else {
      var n := |b| - 1;
      RunConcat(s, a, b[..n]);
      assert (a + b)[..|a + b| - 1] == a + b[..n];
    }
  }

  /** Both scans treat what follows alike. */
  predicate Alike(s: Scan, t: Scan) {
    && s.quoted == t.quoted && s.escaped == t.escaped && s.out == t.out
    && ((s.last == ' ' || s.out == []) <==> (t.last == ' ' || t.out == []))
  }

  /** What one step keeps, a scan alike would keep too. */
  lemma StepClean(s: Scan, t: Scan, c: char)
    requires Alike(s, t)
    ensures Step(s, c).out == s.out ==> Alike(Step(s, c), t)
    ensures Step(s, c).out != s.out ==>
              var d := Step(s, c).last;
              Step(s, c).out == s.out + [d] && Alike(Step(s, c), Step(t, d))
  {
  }

  /** Scanning the output of a scan reproduces it. */
  lemma {:induction false} OutputIsClean(line: seq<char>)
    ensures Alike(Run(START, line), Run(START, Run(START, line).out))
  {
    if line != [] {
      var n := |line| - 1;
      var s := Run(START, line[..n]);
      OutputIsClean(line[..n]);
      StepClean(s, Run(START, s.out), line[n]);
      var u := Step(s, line[n]);
      if u.out != s.out {
        assert u.out[..|u.out| - 1] == s.out;
      }
    }
  }

  lemma {:induction false} CleanPrefix(out: seq<char>, k: nat)
    requires k <= |out| && Run(START, out).out == out
    ensures Run(START, out[..k]).out == out[..k]
    decreases |out|
  {
    if k < |out| {
      var n := |out| - 1;
      var s := Run(START, out[..n]);
      OutputGrows(out[..n]);
      assert s.out == out[..n];
      CleanPrefix(out[..n], k);
      assert out[..n][..k] == out[..k];
    } else {
      assert out[..k] == out;
    }
  }

  lemma {:induction false} OutputGrows(line: seq<char>)
    ensures |Run(START, line).out| <= |line|
  {
    if line != [] { OutputGrows(line[..|line| - 1]); }
  }

  /** Blanks behind a line do not change whether it ends inside quotes. */
  lemma {:induction false} BlanksKeepQuote(line: seq<char>, k: nat)
    requires k <= |line| && forall i :: k <= i < |line| ==> line[i] == ' '
    ensures Run(START, line[..k]).quoted == Run(START, line).quoted
    decreases |line|
  {
    if k < |line| {
      var n := |line| - 1;
      BlanksKeepQuote(line[..n], k);
      assert line[..n][..k] == line[..k];
      EscapedIsQuoted(line[..n]);
    } else {
      assert line[..k] == line;
    }
  }

  lemma {:induction false} EscapedIsQuoted(line: seq<char>)
    ensures Run(START, line).escaped ==> Run(START, line).quoted
  {
    if line != [] { EscapedIsQuoted(line[..|line| - 1]); }
  }

  lemma SanitizeIdempotent(line: seq<char>)
    ensures Sanitize(Sanitize(line)) == Sanitize(line)
  {
    var s := Run(START, line);
    OutputIsClean(line);
    if !s.quoted {
      var t := TrimRight(s.out);
      assert t == s.out[..|t|];
      CleanPrefix(s.out, |t|);
      BlanksKeepQuote(s.out, |t|);
    }
  }

  /** A cleaned line holds no zero byte. */
  lemma {:induction false} NoZeros(line: seq<char>)
    ensures '\0' !in Run(START, line).out && '\0' !in Sanitize(line)
  {
    if line != [] { NoZeros(line[..|line| - 1]); }
  }

  lemma RunMore(s: Scan, line: seq<char>, c: char)
    ensures Run(s, line + [c]) == Step(Run(s, line), c)
  {
    assert (line + [c])[..|line|] == line;
  }

  lemma RunNone(s: Scan)
    ensures Run(s, []) == s
  {
  }

  lemma TrimNone(s: seq<char>)
    requires s != [] && s[|s| - 1] != ' '
    ensures TrimRight(s) == s
  {
  }

  lemma TrimBlank(s: seq<char>)
    ensures TrimRight(s + [' ']) == TrimRight(s)
  {
    assert (s + [' '])[..|s|] == s;
  }

  /** The line break that ended a line leaves no trace, unless quotes are open. */
  lemma BreakLeavesNoTrace(line: seq<char>)
    requires !Run(START, line).quoted
    ensures Sanitize(line + ['\r', '\n']) == Sanitize(line)
  {
    hide Run, TrimRight;
    EscapedIsQuoted(line);
    RunMore(START, line, '\r');
    RunMore(START, line + ['\r'], '\n');
    assert line + ['\r'] + ['\n'] == line + ['\r', '\n'];
    TrimBlank(Run(START, line).out);
  }
}
