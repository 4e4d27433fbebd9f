/**
 The first line of an RTSP message as the receiver reads it (src/shared/rtsp.c): a
 request, a reply, or neither. A reply whose code is the wildcard is an error.
 */
module RtspHeads {
  import A = Atoi

  type Line = seq<char>

  /** `RTSP_ANY_CODE` */
  const ANY_CODE: nat := 0xffff_ffff

  /** An empty phrase stands for the usual one of its code. */
  datatype Head =
    | Unknown
    | Request(name: seq<char>, uri: seq<char>, major: nat, minor: nat)
    | Reply(major: nat, minor: nat, code: nat, phrase: seq<char>)
    | Rejected

  // ---- names and numbers -----------------------------------------------

  function Lower(c: char): char {
    if 'A' <= c <= 'Z' then (c as int + 32) as char else c
  }

  /** `strcasecmp` */
  predicate SameName(a: seq<char>, b: seq<char>) {
    |a| == |b| && forall i :: 0 <= i < |a| ==> Lower(a[i]) == Lower(b[i])
  }

  /** Names differ at most in the case of letters. */
  lemma SameNameExactly(a: seq<char>, b: seq<char>)
    ensures SameName(a, b) <==>
      && |a| == |b|
      && forall i :: 0 <= i < |a| ==>
           || a[i] == b[i]
           || ('A' <= a[i] <= 'Z' && b[i] as int == a[i] as int + 32)
           || ('A' <= b[i] <= 'Z' && a[i] as int == b[i] as int + 32)
  {
    forall i | 0 <= i < |a| && i < |b|
      ensures Lower(a[i]) == Lower(b[i]) <==>
        || a[i] == b[i]
        || ('A' <= a[i] <= 'Z' && b[i] as int == a[i] as int + 32)
        || ('A' <= b[i] <= 'Z' && a[i] as int == b[i] as int + 32)
    {
    }
  }

  /** `strncasecmp` with "RTSP/" */
  predicate StartsRtsp(s: seq<char>) {
    |s| >= 5 && SameName(s[..5], "RTSP/")
  }

  /** The digits in front of `s`. */
  function Digits(s: seq<char>): (n: nat)
    ensures n <= |s|
  {
    A.Run(s, 10)
  }

  /** Their value in 32 bits; larger ones are clipped. */
  function Number(s: seq<char>): nat {
    var v := A.Value(s[..Digits(s)], 10);
    if v <= A.U32_MAX then v else A.U32_MAX
  }

  /** The first `c`, or the length. */
  function First(s: seq<char>, c: char): (i: nat)
    ensures i <= |s| && forall j :: 0 <= j < i ==> s[j] != c
    ensures i < |s| ==> s[i] == c
  {
    if s == [] || s[0] == c then 0
    else
      var i := First(s[1..], c);
      assert forall j :: 1 <= j <= i ==> s[j] == s[1..][j - 1];
      i + 1
  }

  // ---- the three kinds of first lines ----------------------------------

  /** A number followed by `c`. */
  predicate NumberThen(s: seq<char>, c: char) {
    0 < Digits(s) < |s| && s[Digits(s)] == c
  }

  /** What is behind the number and `c`. */
  function Behind(s: seq<char>): seq<char>
    requires Digits(s) < |s|
  {
    s[Digits(s) + 1..]
  }

  /** The code and the phrase of a reply. */
  function ReadCode(major: nat, minor: nat, u: seq<char>): Head {
    if Digits(u) == 0 || (Digits(u) < |u| && u[Digits(u)] != ' ') then Unknown
    else if Number(u) == ANY_CODE then Rejected
    else Reply(major, minor, Number(u), if Digits(u) < |u| then Behind(u) else [])
  }

  /** `rtsp_message_from_reply` */
  function ReadReply(line: Line): Head
    requires StartsRtsp(line)
  {
    var s := line[5..];
    if !NumberThen(s, '.') then Unknown
    else
      var t := Behind(s);
      if !NumberThen(t, ' ') then Unknown else ReadCode(Number(s), Number(t), Behind(t))
  }

  /** The version behind method and address. */
  function ReadVersion(name: seq<char>, uri: seq<char>, v: seq<char>): Head {
    if !StartsRtsp(v) || !NumberThen(v[5..], '.') then Unknown
    else
      var t := Behind(v[5..]);
      if Digits(t) == 0 || Digits(t) < |t| then Unknown
      else Request(name, uri, Number(v[5..]), Number(t))
  }

  /** `rtsp_message_from_request` */
  function ReadRequest(line: Line): Head {
    var i := First(line, ' ');
    if i == 0 || i == |line| then Unknown
    else
      var rest := line[i + 1..];
      var j := First(rest, ' ');
      if j == 0 || j == |rest| then Unknown
      else ReadVersion(line[..i], rest[..j], rest[j + 1..])
  }

  /** `rtsp_message_from_head` */
  function ReadHead(line: Line): Head {
    if StartsRtsp(line) then ReadReply(line) else ReadRequest(line)
  }

  // ---- the readers -----------------------------------------------------

  /** `shl_atoi_u`, whose status the readers ignore */
  method ReadNumber(s: seq<char>) returns (next: nat, v: nat)
    ensures next == Digits(s) && v == Number(s)
  {
    hide A.Value, A.Run;
    var st;
    st, next, v := A.Un(s, 10);
    assert s[0..] == s;
  }

  /** `strchr` */
  method FindBlank(s: seq<char>) returns (i: nat)
    ensures i == First(s, ' ')
  {
    i := 0;
    while i < |s| && s[i] != ' '
      invariant i <= |s| && forall j :: 0 <= j < i ==> s[j] != ' '
    {
      i := i + 1;
    }
  }

  method FromReply(line: Line) returns (h: Head)
    requires StartsRtsp(line)
    ensures h == ReadReply(line)
  {
    hide Number, Digits, ReadCode;
    var s := line[5..];
    var next, major := ReadNumber(s);
    if next == 0 || next == |s| || s[next] != '.' {
      return Unknown;
    }
    var t := s[next + 1..];
    var minor;
    next, minor := ReadNumber(t);
    if next == 0 || next == |t| || t[next] != ' ' {
      return Unknown;
    }
    h := FromCode(major, minor, t[next + 1..]);
  }

  method FromCode(major: nat, minor: nat, u: seq<char>) returns (h: Head)
    ensures h == ReadCode(major, minor, u)
  {
    hide Number, Digits;
    var next, code := ReadNumber(u);
    if next == 0 || (next < |u| && u[next] != ' ') {
      return Unknown;
    }
    var phrase := if next < |u| then u[next + 1..] else [];
    h := NewRawReply(major, minor, code, phrase);
  }

  /** `rtsp_message_new_raw_reply` */
  function NewRawReply(major: nat, minor: nat, code: nat, phrase: seq<char>): Head {
    if code == ANY_CODE then Rejected else Reply(major, minor, code, phrase)
  }

  method FromRequest(line: Line) returns (h: Head)
    ensures h == ReadRequest(line)
  {
    hide ReadVersion, First;
    var i := FindBlank(line);
    if i == |line| || i == 0 {
      return Unknown;
    }
    var rest := line[i + 1..];
    var j := FindBlank(rest);
    if j == |rest| || j == 0 {
      return Unknown;
    }
    h := FromVersion(line[..i], rest[..j], rest[j + 1..]);
  }

  method FromVersion(name: seq<char>, uri: seq<char>, v: seq<char>) returns (h: Head)
    ensures h == ReadVersion(name, uri, v)
  {
    hide Number, Digits;
    if !StartsRtsp(v) {
      return Unknown;
    }
    var s := v[5..];
    var next, major := ReadNumber(s);
    if next == 0 || next == |s| || s[next] != '.' {
      return Unknown;
    }
    var t := s[next + 1..];
    var minor;
    next, minor := ReadNumber(t);
    if next == 0 || next < |t| {
      return Unknown;
    }
    h := Request(name, uri, major, minor);
  }

  method FromHead(line: Line) returns (h: Head)
    ensures h == ReadHead(line)
  {
    if StartsRtsp(line) {
      h := FromReply(line);
    } else {
      h := FromRequest(line);
    }
  }

  // ---- which first lines are errors ------------------------------------

  /** A number as a text. */
  predicate Numeral(s: seq<char>) {
    s != [] && A.AllDigits(s, 10)
  }

  /** The grammar of the first lines that end a connection: the version, a code that
      is not below the wildcard, and behind it nothing or a blank. */
  predicate Wildcard(line: Line, x: seq<char>, y: seq<char>, z: seq<char>, tail: seq<char>) {
    && StartsRtsp(line) && Numeral(x) && Numeral(y) && Numeral(z)
    && line[5..] == x + "." + (y + " " + (z + tail))
    && A.Value(z, 10) >= ANY_CODE
    && (tail == [] || tail[0] == ' ')
  }

  /** A numeral in front of something else is read as it is. */
  lemma NumeralReads(x: seq<char>, rest: seq<char>)
    requires Numeral(x) && (rest == [] || A.Digit(rest[0], 10) < 0)
    ensures Digits(x + rest) == |x| && (x + rest)[..|x|] == x
    ensures Number(x + rest) == if A.Value(x, 10) <= A.U32_MAX then A.Value(x, 10) else A.U32_MAX
  {
    hide A.Value;
    var s := x + rest;
    assert s[..|x|] == x;
    assert forall i :: 0 <= i < |x| ==> s[i] == x[i];
    assert rest != [] ==> s[|x|] == rest[0];
    assert A.Run(s, 10) == |x|;
  }

  /** What was read in front is a numeral. */
  lemma DigitsAreNumeral(s: seq<char>)
    requires Digits(s) > 0
    ensures Numeral(s[..Digits(s)]) && s == s[..Digits(s)] + s[Digits(s)..]
  {
  }

  lemma Separators()
    ensures A.Digit('.', 10) < 0 && A.Digit(' ', 10) < 0
  {
  }

  function Clipped(v: nat): nat {
    if v <= A.U32_MAX then v else A.U32_MAX
  }

  /** A numeral and a separator in front of something. */
  lemma NumeralThen(x: seq<char>, c: char, rest: seq<char>)
    requires Numeral(x) && A.Digit(c, 10) < 0
    ensures var s := x + [c] + rest;
      NumberThen(s, c) && Behind(s) == rest && Number(s) == Clipped(A.Value(x, 10))
  {
    hide A.Value, A.Digit, Number, Digits;
    assert x + [c] + rest == x + ([c] + rest);
    NumeralReads(x, [c] + rest);
  }

  /** The version of a reply leads to its code. */
  lemma ReplyReads(line: Line, x: seq<char>, y: seq<char>, u: seq<char>)
    requires StartsRtsp(line) && Numeral(x) && Numeral(y) && line[5..] == x + "." + (y + " " + u)
    ensures ReadHead(line) == ReadCode(Clipped(A.Value(x, 10)), Clipped(A.Value(y, 10)), u)
  {
    hide A.Value, A.Digit, Number, Digits, NumberThen, Behind, Numeral, ReadCode, StartsRtsp;
    Separators();
    NumeralThen(x, '.', y + " " + u);
    NumeralThen(y, ' ', u);
  }

  /** A numeral at the place of the code. */
  lemma CodeReads(major: nat, minor: nat, z: seq<char>, tail: seq<char>)
    requires Numeral(z) && (tail == [] || tail[0] == ' ')
    ensures ReadCode(major, minor, z + tail)
      == NewRawReply(major, minor, Clipped(A.Value(z, 10)), if tail == [] then [] else tail[1..])
  {
    hide A.Value, A.Digit, Number, Digits;
    Separators();
    NumeralReads(z, tail);
    assert tail != [] ==> (z + tail)[|z|] == tail[0] && (z + tail)[|z| + 1..] == tail[1..];
  }

  lemma WildcardRejected(line: Line, x: seq<char>, y: seq<char>, z: seq<char>, tail: seq<char>)
    requires Wildcard(line, x, y, z, tail)
    ensures ReadHead(line) == Rejected
  {
    hide A.Value, A.AllDigits, StartsRtsp, ReadHead, ReadCode;
    ReplyReads(line, x, y, z + tail);
    CodeReads(Clipped(A.Value(x, 10)), Clipped(A.Value(y, 10)), z, tail);
  }

  /** A text that begins with a number and `c`, taken apart. */
  lemma TakenApart(s: seq<char>, c: char)
    requires NumberThen(s, c)
    ensures Numeral(s[..Digits(s)]) && s == s[..Digits(s)] + [c] + Behind(s)
  {
    hide A.Value, A.Digit;
    DigitsAreNumeral(s);
    assert s[Digits(s)..] == [c] + Behind(s);
  }

  /** The code of a line that is an error. */
  lemma CodeApart(u: seq<char>)
    requires Digits(u) > 0 && (Digits(u) < |u| ==> u[Digits(u)] == ' ') && Number(u) == ANY_CODE
    ensures var z, tail := u[..Digits(u)], u[Digits(u)..];
      && Numeral(z) && u == z + tail && A.Value(z, 10) >= ANY_CODE && (tail == [] || tail[0] == ' ')
  {
    hide A.Value, A.Digit;
    DigitsAreNumeral(u);
  }

  lemma RejectedWildcard(line: Line)
    requires ReadHead(line) == Rejected
    ensures exists x, y, z, tail :: Wildcard(line, x, y, z, tail)
  {
    RejectedIsReply(line);
    hide Digits, Number, A.Value, A.Digit, Numeral, StartsRtsp, ReadHead, Behind, NumberThen;
    var s := line[5..];
    var t := Behind(s);
    var u := Behind(t);
    TakenApart(s, '.');
    TakenApart(t, ' ');
    CodeApart(u);
    var x, y, z, tail := s[..Digits(s)], t[..Digits(t)], u[..Digits(u)], u[Digits(u)..];
    assert Wildcard(line, x, y, z, tail);
  }

  lemma RejectedIsReply(line: Line)
    requires ReadHead(line) == Rejected
    ensures StartsRtsp(line) && NumberThen(line[5..], '.') && NumberThen(Behind(line[5..]), ' ')
    ensures var u := Behind(Behind(line[5..]));
      Digits(u) > 0 && (Digits(u) < |u| ==> u[Digits(u)] == ' ') && Number(u) == ANY_CODE
  {
    hide Digits, Number;
  }

  /** A first line is an error exactly if it is of this form. */
  lemma RejectedExactly(line: Line)
    ensures ReadHead(line) == Rejected <==> exists x, y, z, tail :: Wildcard(line, x, y, z, tail)
  {
    if ReadHead(line) == Rejected {
      RejectedWildcard(line);
    } else if exists x, y, z, tail :: Wildcard(line, x, y, z, tail) {
      var x, y, z, tail :| Wildcard(line, x, y, z, tail);
      WildcardRejected(line, x, y, z, tail);
    }
  }

  // ---- the grammar of first lines --------------------------------------

  /** A version, a code, and behind it nothing or a blank and a phrase. */
  predicate ReplyForm(line: Line, x: seq<char>, y: seq<char>, z: seq<char>, tail: seq<char>) {
    && StartsRtsp(line) && Numeral(x) && Numeral(y) && Numeral(z)
    && line[5..] == x + "." + (y + " " + (z + tail))
    && (tail == [] || tail[0] == ' ')
  }

  /** A method, an address and a version, with a blank between them. */
  predicate RequestForm(line: Line, n: seq<char>, u: seq<char>, v: seq<char>, x: seq<char>, y: seq<char>) {
    && !StartsRtsp(line) && line == n + " " + (u + " " + v)
    && n != [] && u != [] && ' ' !in n && ' ' !in u
    && StartsRtsp(v) && Numeral(x) && Numeral(y) && v[5..] == x + "." + y
  }

  /** Lines of the first form are replies, with numbers clipped to 32 bits. */
  lemma ReplyFormReads(line: Line, x: seq<char>, y: seq<char>, z: seq<char>, tail: seq<char>)
    requires ReplyForm(line, x, y, z, tail)
    ensures ReadHead(line) == NewRawReply(Clipped(A.Value(x, 10)), Clipped(A.Value(y, 10)), Clipped(A.Value(z, 10)),
                                          if tail == [] then [] else tail[1..])
  {
    hide A.Value, A.AllDigits, StartsRtsp, ReadHead, ReadCode;
    ReplyReads(line, x, y, z + tail);
    CodeReads(Clipped(A.Value(x, 10)), Clipped(A.Value(y, 10)), z, tail);
  }

  /** Lines of the second form are requests. */
  lemma RequestFormReads(line: Line, n: seq<char>, u: seq<char>, v: seq<char>, x: seq<char>, y: seq<char>)
    requires RequestForm(line, n, u, v, x, y)
    ensures ReadHead(line) == Request(n, u, Clipped(A.Value(x, 10)), Clipped(A.Value(y, 10)))
  {
    hide A.Value, A.AllDigits, A.Digit, StartsRtsp, Number, Digits, NumberThen, First;
    BlankIs(n, u + " " + v);
    BlankIs(u, v);
    Separators();
    NumeralThen(x, '.', y);
    assert x + ['.'] + y == x + "." + y;
    assert y + [] == y;
    NumeralReads(y, []);
  }

  lemma CodeForm(major: nat, minor: nat, u: seq<char>)
    requires ReadCode(major, minor, u) != Unknown
    ensures var z, tail := u[..Digits(u)], u[Digits(u)..];
      Numeral(z) && u == z + tail && (tail == [] || tail[0] == ' ')
  {
    hide A.Value, A.Digit, Number;
    DigitsAreNumeral(u);
  }

  /** Everything else is unknown. */
  lemma OnlyReplies(line: Line)
    requires StartsRtsp(line) && ReadHead(line) != Unknown
    ensures exists x, y, z, tail :: ReplyForm(line, x, y, z, tail)
  {
    hide Digits, Number, A.Value, A.Digit, Numeral, ReadCode;
    var s := line[5..];
    var t := Behind(s);
    var u := Behind(t);
    TakenApart(s, '.');
    TakenApart(t, ' ');
    CodeForm(Number(s), Number(t), u);
    assert ReplyForm(line, s[..Digits(s)], t[..Digits(t)], u[..Digits(u)], u[Digits(u)..]);
  }

  lemma VersionForm(n: seq<char>, u: seq<char>, v: seq<char>)
    requires ReadVersion(n, u, v) != Unknown
    ensures StartsRtsp(v) && Digits(v[5..]) < |v[5..]|
    ensures var x, y := v[5..][..Digits(v[5..])], Behind(v[5..]);
      Numeral(x) && Numeral(y) && v[5..] == x + "." + y
  {
    hide A.Value, A.Digit, Number;
    TakenApart(v[5..], '.');
    var y := Behind(v[5..]);
    DigitsAreNumeral(y);
    assert y[..|y|] == y;
  }

  lemma TwoBlanks(line: Line) returns (n: seq<char>, u: seq<char>, v: seq<char>)
    requires ReadRequest(line) != Unknown
    ensures n != [] && u != [] && ' ' !in n && ' ' !in u && line == n + " " + (u + " " + v)
    ensures ReadVersion(n, u, v) != Unknown
  {
    hide ReadVersion, First;
    var i := First(line, ' ');
    var rest := line[i + 1..];
    var j := First(rest, ' ');
    n, u, v := line[..i], rest[..j], rest[j + 1..];
    assert line == n + " " + rest && rest == u + " " + v;
  }

  lemma OnlyRequests(line: Line)
    requires !StartsRtsp(line) && ReadHead(line) != Unknown
    ensures exists n, u, v, x, y :: RequestForm(line, n, u, v, x, y)
  {
    hide ReadVersion, ReadRequest, Numeral, Digits, Behind, StartsRtsp;
    var n, u, v := TwoBlanks(line);
    VersionForm(n, u, v);
    LongEnough(v);
    assert RequestForm(line, n, u, v, v[5..][..Digits(v[5..])], Behind(v[5..]));
  }

  lemma LongEnough(v: seq<char>)
    requires StartsRtsp(v)
    ensures |v| >= 5
  {
  }

  /** A first line is unknown exactly if it has neither form. */
  lemma UnknownExactly(line: Line)
    ensures ReadHead(line) == Unknown
      <==> !(exists x, y, z, tail :: ReplyForm(line, x, y, z, tail))
           && !(exists n, u, v, x, y :: RequestForm(line, n, u, v, x, y))
  {
    hide ReadHead;
    if exists x, y, z, tail :: ReplyForm(line, x, y, z, tail) {
      var x, y, z, tail :| ReplyForm(line, x, y, z, tail);
      ReplyFormReads(line, x, y, z, tail);
    } else if exists n, u, v, x, y :: RequestForm(line, n, u, v, x, y) {
      var n, u, v, x, y :| RequestForm(line, n, u, v, x, y);
      RequestFormReads(line, n, u, v, x, y);
    } else if ReadHead(line) != Unknown {
      if StartsRtsp(line) {
        OnlyReplies(line);
      } else {
        OnlyRequests(line);
      }
    }
  }

  // ---- printed first lines ---------------------------------------------

  const VERSION: seq<char> := "RTSP/1.0"

  /** The first line of a reply, as it is printed. */
  function PrintReply(code: nat, phrase: seq<char>): Line {
    VERSION + " " + (A.Decimal(code) + (" " + phrase))
  }

  /** The first line of a request, as it is printed. */
  function PrintRequest(name: seq<char>, uri: seq<char>): Line {
    name + " " + (uri + " " + VERSION)
  }

  lemma VersionParts(rest: seq<char>)
    ensures StartsRtsp(VERSION + rest) && (VERSION + rest)[5..] == "1" + ("." + ("0" + rest))
    ensures Numeral("1") && Numeral("0")
    ensures A.Value("1", 10) == 1 && A.Value("0", 10) == 0
  {
    assert (VERSION + rest)[..5] == "RTSP/";
    assert VERSION[5..] == "1" + ("." + "0");
    var z, o := A.Decimal(0), A.Decimal(1);
    A.DecimalValue(0);
    A.DecimalValue(1);
    assert z == "0" && o == "1";
  }

  /** A printed reply reads as itself, exactly but for the wildcard, which the sender
      refuses to print. */
  lemma ReplyRoundTrip(code: nat, phrase: seq<char>)
    requires code <= A.U32_MAX
    ensures ReadHead(PrintReply(code, phrase)) == NewRawReply(1, 0, code, phrase)
  {
    hide A.Value, Numeral, StartsRtsp, ReadHead, ReadCode, A.Decimal;
    var z, tail := A.Decimal(code), " " + phrase;
    A.DecimalValue(code);
    NumeralDecimal(code);
    VersionParts(" " + (z + tail));
    var line := PrintReply(code, phrase);
    assert line == VERSION + (" " + (z + tail));
    assert line[5..] == "1" + "." + ("0" + " " + (z + tail));
    ReplyReads(line, "1", "0", z + tail);
    CodeReads(1, 0, z, tail);
    assert tail[1..] == phrase;
  }

  lemma NumeralDecimal(n: nat)
    ensures Numeral(A.Decimal(n))
  {
    A.DecimalValue(n);
  }

  lemma BlankIs(a: seq<char>, rest: seq<char>)
    requires ' ' !in a
    ensures First(a + " " + rest, ' ') == |a|
    ensures (a + " " + rest)[..|a|] == a && (a + " " + rest)[|a| + 1..] == rest
  {
    var s := a + " " + rest;
    assert s[|a|] == ' ' && forall j :: 0 <= j < |a| ==> s[j] == a[j];
  }

  lemma BlankBefore(a: seq<char>, rest: seq<char>)
    requires ' ' in a
    ensures First(a + " " + rest, ' ') < |a|
  {
    var k :| 0 <= k < |a| && a[k] == ' ';
    assert (a + " " + rest)[k] == ' ';
  }

  lemma VersionReads(name: seq<char>, uri: seq<char>)
    ensures ReadVersion(name, uri, VERSION) == Request(name, uri, 1, 0)
  {
    hide Number, Digits, A.Value, A.Digit;
    Separators();
    VersionParts([]);
    assert VERSION + [] == VERSION && "0" + [] == "0";
    var s := "1" + ("." + "0");
    assert VERSION[5..] == s;
    NumeralReads("1", "." + "0");
    NumeralReads("0", []);
    assert Behind(s) == "0";
  }

  /** A first line does not look like a reply unless its method does. */
  lemma StartsIfName(name: seq<char>, rest: seq<char>)
    requires name != []
    ensures StartsRtsp(name + " " + rest) <==> StartsRtsp(name)
  {
    var l := name + " " + rest;
    if |name| >= 5 {
      assert l[..5] == name[..5];
    } else if |l| >= 5 {
      assert l[..5][|name|] == ' ';
      assert Lower(' ') != Lower("RTSP/"[|name|]);
    }
  }

  /** A printed request reads as itself exactly if its method and address hold no
      blank and its method does not begin like a version. */
  lemma RequestRoundTrip(name: seq<char>, uri: seq<char>)
    requires name != [] && uri != []
    ensures ReadHead(PrintRequest(name, uri)) == Request(name, uri, 1, 0)
       <==> ' ' !in name && ' ' !in uri && !StartsRtsp(name)
  {
    hide StartsRtsp, ReadReply;
    var rest := uri + " " + VERSION;
    StartsIfName(name, rest);
    if StartsRtsp(name) {
      RepliesOnly(PrintRequest(name, uri));
    } else if ' ' in name {
      BlankBefore(name, rest);
      NameIs(PrintRequest(name, uri));
    } else {
      BlankIs(name, rest);
      if ' ' in uri {
        BlankBefore(uri, VERSION);
        NameIs(PrintRequest(name, uri));
      } else {
        BlankIs(uri, VERSION);
        VersionReads(name, uri);
      }
    }
  }

  lemma RepliesOnly(line: Line)
    requires StartsRtsp(line)
    ensures !ReadReply(line).Request?
  {
    hide Number, Digits;
  }

  /** The parts of a line that is read as a request. */
  lemma NameIs(line: Line)
    ensures var h := ReadRequest(line);
      h.Request? ==>
        && First(line, ' ') < |line| && h.name == line[..First(line, ' ')]
        && var rest := line[First(line, ' ') + 1..];
        h.uri == rest[..First(rest, ' ')]
  {
    hide Number, Digits, StartsRtsp, NumberThen, Behind;
  }

  /** A request that the sender accepts and the receiver takes for a reply with the
      wildcard: it ends the connection. */
  lemma RejectedRequest()
    ensures ReadHead(PrintRequest("RTSP/1.0", "4294967295")) == Rejected
  {
    hide A.Value;
    WildcardText();
    assert PrintRequest("RTSP/1.0", "4294967295") == PrintReply(ANY_CODE, VERSION);
    ReplyRoundTrip(ANY_CODE, VERSION);
  }

  lemma OneDigitOnly(d: nat)
    requires d < 10
    ensures A.Decimal(d) == [A.DigitChar(d)] && A.DigitChar(d) as int == '0' as int + d
  {
  }

  lemma OneMore(n: nat, d: nat, text: seq<char>, more: seq<char>)
    requires n > 0 && d < 10 && A.Decimal(n) == text && more == text + [A.DigitChar(d)]
    ensures A.Decimal(10 * n + d) == more
  {
  }

  lemma WildcardText()
    ensures A.Decimal(ANY_CODE) == "4294967295"
  {
    hide A.Decimal, A.DigitChar;
    OneDigitOnly(4);
    OneMore(4, 2, "4", "42");
    OneMore(42, 9, "42", "429");
    OneMore(429, 4, "429", "4294");
    OneMore(4294, 9, "4294", "42949");
    OneMore(42949, 6, "42949", "429496");
    OneMore(429496, 7, "429496", "4294967");
    OneMore(4294967, 2, "4294967", "42949672");
    OneMore(42949672, 9, "42949672", "429496729");
    OneMore(429496729, 5, "429496729", "4294967295");
  }
}
