/**
 Sealing of RTSP text messages (src/shared/rtsp.c): the serializer sets the content
 length, the content type and the sequence number, overwriting the last header of that
 name or adding one. The length that the receiver reads is the length of the body.
 */
module RtspSealing {
  import opened RtspAutomaton
  import opened RtspFraming
  import opened RtspHeaders
  import opened RtspHeads
  import S = SanitizeLine
  import W = CleanWords
  import A = Atoi

  const U32: nat := 0x1_0000_0000

  /** A header with its key and its line without the line break. The application may
      give any text as a line; the key is then what is in front of the first colon. */
  datatype Field = Field(key: seq<char>, line: Line)

  /** `rtsp_header_serialize` */
  function Printed(key: seq<char>, value: seq<char>): Field {
    Field(key, key + ": " + value)
  }

  function LineOf(f: Field): Line {
    f.line
  }

  function LinesOf(fs: seq<Field>): (r: seq<Line>)
    ensures |r| == |fs| && forall i :: 0 <= i < |fs| ==> r[i] == LineOf(fs[i])
  {
    seq(|fs|, i requires 0 <= i < |fs| => LineOf(fs[i]))
  }

  // ---- the serializer --------------------------------------------------

  /** The header a message remembers under a name: the last one, or -1. */
  function LastNamed(fs: seq<Field>, name: seq<char>): (i: int)
    ensures -1 <= i < |fs|
    ensures i >= 0 ==> SameName(fs[i].key, name)
    ensures forall j :: i < j < |fs| ==> !SameName(fs[j].key, name)
  {
    if fs == [] then -1
    else if SameName(fs[|fs| - 1].key, name) then |fs| - 1
    else LastNamed(fs[..|fs| - 1], name)
  }

  function Overwritten(fs: seq<Field>, i: nat, value: seq<char>): seq<Field>
    requires i < |fs|
  {
    fs[i := Printed(fs[i].key, value)]
  }

  /** `rtsp_header_set_value` on the remembered header, or a new header at the end */
  function SetField(fs: seq<Field>, name: seq<char>, value: seq<char>): seq<Field> {
    var i := LastNamed(fs, name);
    if i >= 0 then Overwritten(fs, i, value) else fs + [Printed(name, value)]
  }

  /** A new content length header is printed from 32 bits, and only for a body. */
  function SetLength(fs: seq<Field>, size: nat): seq<Field> {
    if LastNamed(fs, CONTENT_LENGTH) >= 0 then SetField(fs, CONTENT_LENGTH, A.Decimal(size))
    else if size > 0 then fs + [Printed(CONTENT_LENGTH, A.Decimal(size % U32))]
    else fs
  }

  /** The headers of a sealed message. `params` says that the body consists of
      parameter lines. */
  function Sealed(fs: seq<Field>, size: nat, params: bool, cookie: nat): seq<Field> {
    var a := SetLength(fs, size);
    var b := if params then SetField(a, CONTENT_TYPE, PARAMETERS) else a;
    SetField(b, CSEQ, A.Decimal(cookie))
  }

  /** The lines that `rtsp_message_serialize_common` writes. */
  function SealedLines(head: Line, fs: seq<Field>, size: nat, params: bool, cookie: nat): seq<Line> {
    [head] + LinesOf(Sealed(fs, size, params, cookie))
  }

  // ---- what the receiver makes of one header ---------------------------

  function Kind(f: Field): HeaderKind {
    ReadHeader(S.Sanitize(LineOf(f)))
  }

  lemma NamesDiffer(key: seq<char>)
    ensures SameName(key, CONTENT_LENGTH) ==> !SameName(key, CSEQ) && !SameName(key, CONTENT_TYPE)
    ensures SameName(key, CSEQ) ==> !SameName(key, CONTENT_TYPE)
    ensures SameName(CONTENT_LENGTH, CONTENT_LENGTH) && SameName(CSEQ, CSEQ) && SameName(CONTENT_TYPE, CONTENT_TYPE)
  {
  }

  /** The three headers that the serializer writes. */
  lemma WrittenKinds(key: seq<char>, n: nat)
    requires n <= A.U64_MAX
    ensures SameName(key, CONTENT_LENGTH) ==>
      Kind(Printed(key, A.Decimal(n))) == Length(n) && GoodLine(LineOf(Printed(key, A.Decimal(n))))
    ensures SameName(key, CSEQ) ==>
      Kind(Printed(key, A.Decimal(n))) == Plain && GoodLine(LineOf(Printed(key, A.Decimal(n))))
    ensures SameName(key, CONTENT_TYPE) ==>
      Kind(Printed(key, PARAMETERS)) == Plain && GoodLine(LineOf(Printed(key, PARAMETERS)))
  {
    hide KeyOf, TokensOf, S.Sanitize, LengthOf, SequenceOf, Word, GoodLine, SameName;
    NamesAreWords();
    DigitsAreWords(n);
    DecimalReads(n);
    NamesDiffer(key);
    if SameName(key, CONTENT_LENGTH) {
      SameNameIsWord(key, CONTENT_LENGTH);
      WordLine(key, A.Decimal(n));
    }
    if SameName(key, CSEQ) {
      SameNameIsWord(key, CSEQ);
      WordLine(key, A.Decimal(n));
    }
    if SameName(key, CONTENT_TYPE) {
      SameNameIsWord(key, CONTENT_TYPE);
      WordLine(key, PARAMETERS);
    }
  }

  lemma WordLine(key: seq<char>, value: seq<char>)
    requires Word(key) && Word(value)
    ensures var l := LineOf(Printed(key, value));
      && S.Sanitize(l) == l && GoodLine(l)
      && KeyOf(l) == key && TokensOf(l) == [value]
  {
    hide S.Sanitize, KeyOf, TokensOf;
    PlainLineClean(key, value);
    PlainLineParts(key, value);
    var l := LineOf(Printed(key, value));
    forall i | 0 <= i < |l|
      ensures !IsBreak(l[i]) && l[i] != '"'
    {
      assert i < |key| ==> l[i] == key[i] && Ordinary(key[i]);
      assert i >= |key| + 2 ==> l[i] == value[i - |key| - 2] && Ordinary(value[i - |key| - 2]);
    }
    assert l[0] == key[0] && Ordinary(key[0]);
    PlainIsGood(l);
  }

  // ---- what it makes of all headers ------------------------------------

  /** Header `i` of a message whose length is announced by header `k` as `n`. */
  predicate Fits(f: Field, i: int, k: int, n: nat) {
    && GoodLine(LineOf(f))
    && (i < k ==> !Kind(f).Bad?) && (i == k ==> Kind(f) == Length(n)) && (i > k ==> Kind(f) == Plain)
  }

  /** All headers but those in `but`. */
  ghost predicate AllFit(fs: seq<Field>, but: set<int>, k: int, n: nat) {
    forall i :: 0 <= i < |fs| && i !in but ==> Fits(fs[i], i, k, n)
  }

  /** A header that the application may set. */
  predicate Proper(f: Field) {
    && GoodLine(LineOf(f))
    && if SameName(f.key, CONTENT_LENGTH) then !Kind(f).Bad? else Kind(f) == Plain
  }

  /** The headers that sealing will overwrite. */
  function Replaced(fs: seq<Field>, params: bool): set<int> {
    {LastNamed(fs, CONTENT_LENGTH), LastNamed(fs, CSEQ)} + if params then {LastNamed(fs, CONTENT_TYPE)} else {}
  }

  /** All other headers are proper. */
  ghost predicate AllProper(fs: seq<Field>, params: bool) {
    forall i :: 0 <= i < |fs| && i !in Replaced(fs, params) ==> Proper(fs[i])
  }

  /** Which header announces the length, and which length. */
  function LengthAt(fs: seq<Field>, size: nat): int {
    if LastNamed(fs, CONTENT_LENGTH) >= 0 then LastNamed(fs, CONTENT_LENGTH)
    else if size > 0 then |fs| else -1
  }

  function LengthSent(fs: seq<Field>, size: nat): nat {
    if LastNamed(fs, CONTENT_LENGTH) >= 0 then size else size % U32
  }

  lemma SetLengthFits(fs: seq<Field>, size: nat, params: bool)
    requires AllProper(fs, params) && size <= A.U64_MAX
    ensures AllFit(SetLength(fs, size), Replaced(fs, params) - {LastNamed(fs, CONTENT_LENGTH)},
                   LengthAt(fs, size), LengthSent(fs, size))
    ensures LengthAt(fs, size) < |SetLength(fs, size)|
  {
    hide Kind, GoodLine, A.Decimal, SameName, LastNamed;
    var r, k, n := SetLength(fs, size), LengthAt(fs, size), LengthSent(fs, size);
    NamesDiffer(CONTENT_LENGTH);
    forall i | 0 <= i < |r| && i !in Replaced(fs, params) - {LastNamed(fs, CONTENT_LENGTH)}
      ensures Fits(r[i], i, k, n)
    {
      if i == k {
        WrittenKinds(r[i].key, n);
      } else {
        assert r[i] == fs[i] && Proper(fs[i]);
      }
    }
  }

  /** Setting another header leaves the length alone. */
  lemma SetFieldFits(fs: seq<Field>, name: seq<char>, value: seq<char>, but: set<int>, k: int, n: nat)
    requires AllFit(fs, but, k, n) && k < |fs|
    requires k >= 0 ==> SameName(fs[k].key, CONTENT_LENGTH)
    requires forall key :: SameName(key, name) ==>
               !SameName(key, CONTENT_LENGTH) && Kind(Printed(key, value)) == Plain
                 && GoodLine(LineOf(Printed(key, value)))
    requires SameName(name, name)
    ensures AllFit(SetField(fs, name, value), but - {LastNamed(fs, name)}, k, n)
  {
    hide Kind, GoodLine, SameName, LastNamed;
    var r, j := SetField(fs, name, value), LastNamed(fs, name);
    forall i | 0 <= i < |r| && i !in but - {j}
      ensures Fits(r[i], i, k, n)
    {
      if i == j || i == |fs| {
        assert r[i] == Printed(r[i].key, value) && SameName(r[i].key, name);
      } else {
        assert r[i] == fs[i] && i !in but;
      }
    }
  }

  /** Setting one header does not change which one is remembered under another name. */
  lemma SetFieldKeepsNames(fs: seq<Field>, name: seq<char>, value: seq<char>, other: seq<char>)
    requires forall key :: SameName(key, name) ==> !SameName(key, other)
    requires SameName(name, name)
    ensures LastNamed(SetField(fs, name, value), other) == LastNamed(fs, other)
  {
    hide SameName, LastNamed;
    var r := SetField(fs, name, value);
    SameKeys(fs, r, other);
  }

  lemma SameKeys(fs: seq<Field>, r: seq<Field>, other: seq<char>)
    requires |fs| <= |r| && forall i :: 0 <= i < |fs| ==> fs[i].key == r[i].key
    requires forall i :: |fs| <= i < |r| ==> !SameName(r[i].key, other)
    ensures LastNamed(r, other) == LastNamed(fs, other)
  {
    hide SameName;
    var a, b := LastNamed(fs, other), LastNamed(r, other);
    assert b < |fs|;
    assert a <= b && b <= a;
  }

  lemma TypeWritten()
    ensures forall key :: SameName(key, CONTENT_TYPE) ==>
      && !SameName(key, CONTENT_LENGTH) && !SameName(key, CSEQ)
      && Kind(Printed(key, PARAMETERS)) == Plain && GoodLine(LineOf(Printed(key, PARAMETERS)))
  {
    hide Kind, GoodLine, SameName;
    forall key | SameName(key, CONTENT_TYPE)
      ensures !SameName(key, CONTENT_LENGTH) && !SameName(key, CSEQ)
      ensures Kind(Printed(key, PARAMETERS)) == Plain && GoodLine(LineOf(Printed(key, PARAMETERS)))
    {
      NamesDiffer(key);
      WrittenKinds(key, 0);
    }
  }

  lemma SequenceWritten(cookie: nat)
    requires cookie <= A.U64_MAX
    ensures forall key :: SameName(key, CSEQ) ==>
      && !SameName(key, CONTENT_LENGTH)
      && Kind(Printed(key, A.Decimal(cookie))) == Plain && GoodLine(LineOf(Printed(key, A.Decimal(cookie))))
  {
    hide Kind, GoodLine, SameName, A.Decimal;
    forall key | SameName(key, CSEQ)
      ensures !SameName(key, CONTENT_LENGTH)
      ensures Kind(Printed(key, A.Decimal(cookie))) == Plain && GoodLine(LineOf(Printed(key, A.Decimal(cookie))))
    {
      NamesDiffer(key);
      WrittenKinds(key, cookie);
    }
  }

  lemma SetLengthKeepsNames(fs: seq<Field>, size: nat, other: seq<char>)
    requires other == CSEQ || other == CONTENT_TYPE
    ensures LastNamed(SetLength(fs, size), other) == LastNamed(fs, other)
    ensures var k := LengthAt(fs, size);
      k < |SetLength(fs, size)| && (k >= 0 ==> SameName(SetLength(fs, size)[k].key, CONTENT_LENGTH))
  {
    hide SameName, LastNamed, A.Decimal;
    NamesDiffer(CONTENT_LENGTH);
    SameKeys(fs, SetLength(fs, size), other);
  }

  /** After sealing every header is good and exactly the remembered one announces the
      length. */
  lemma SealedFits(fs: seq<Field>, size: nat, params: bool, cookie: nat)
    requires AllProper(fs, params) && size <= A.U64_MAX && cookie <= A.U64_MAX
    ensures AllFit(Sealed(fs, size, params, cookie), {}, LengthAt(fs, size), LengthSent(fs, size))
    ensures LengthAt(fs, size) < |Sealed(fs, size, params, cookie)|
  {
    hide Kind, GoodLine, SameName, LastNamed, A.Decimal, SetLength, LengthAt, LengthSent, AllFit;
    var k, n, a := LengthAt(fs, size), LengthSent(fs, size), SetLength(fs, size);
    var but := Replaced(fs, params) - {LastNamed(fs, CONTENT_LENGTH)};
    NamesDiffer(CSEQ);
    TypeWritten();
    SequenceWritten(cookie);
    SetLengthFits(fs, size, params);
    SetLengthKeepsNames(fs, size, CSEQ);
    SetLengthKeepsNames(fs, size, CONTENT_TYPE);
    var b := a;
    if params {
      SetFieldFits(a, CONTENT_TYPE, PARAMETERS, but, k, n);
      SetFieldKeepsNames(a, CONTENT_TYPE, PARAMETERS, CSEQ);
      b := SetField(a, CONTENT_TYPE, PARAMETERS);
      but := but - {LastNamed(a, CONTENT_TYPE)};
    }
    SetFieldFits(b, CSEQ, A.Decimal(cookie), but, k, n);
    but := but - {LastNamed(b, CSEQ)};
    assert but == {};
  }

  // ---- what sealing leaves behind --------------------------------------

  /** The header remembered under this name was printed with this value. */
  ghost predicate Says(fs: seq<Field>, name: seq<char>, value: seq<char>) {
    var i := LastNamed(fs, name);
    i >= 0 && fs[i].line == fs[i].key + ": " + value
  }

  /** Setting a header makes it say so, in its place or behind all others, and touches no
      other header. */
  lemma SetFieldSays(fs: seq<Field>, name: seq<char>, value: seq<char>)
    requires SameName(name, name)
    ensures var r, i := SetField(fs, name, value), LastNamed(fs, name);
      && Says(r, name, value)
      && |r| == (if i >= 0 then |fs| else |fs| + 1)
      && (forall j :: 0 <= j < |fs| && j != i ==> r[j] == fs[j])
      && (forall j :: 0 <= j < |fs| ==> r[j].key == fs[j].key)
      && LastNamed(r, name) == (if i >= 0 then i else |fs|)
  {
    hide SameName, LastNamed;
    var r, i := SetField(fs, name, value), LastNamed(fs, name);
    var k := LastNamed(r, name);
    if i >= 0 {
      SameKeys(fs, r, name);
    } else {
      assert r[|fs|].key == name;
      assert k == |fs|;
    }
  }

  /** What is remembered under another name still says the same. */
  lemma SaysStill(fs: seq<Field>, name: seq<char>, value: seq<char>, other: seq<char>, said: seq<char>)
    requires forall key :: SameName(key, name) ==> !SameName(key, other)
    requires SameName(name, name) && Says(fs, other, said)
    ensures Says(SetField(fs, name, value), other, said)
  {
    hide SameName, LastNamed;
    SetFieldKeepsNames(fs, name, value, other);
  }

  lemma SetLengthSays(fs: seq<Field>, size: nat)
    ensures var r, i := SetLength(fs, size), LastNamed(fs, CONTENT_LENGTH);
      && (i >= 0 || size > 0 ==> Says(r, CONTENT_LENGTH, A.Decimal(LengthSent(fs, size))))
      && (i < 0 && size == 0 ==> r == fs)
      && |fs| <= |r| <= |fs| + 1
      && (forall j :: 0 <= j < |fs| && j != i ==> r[j] == fs[j])
  {
    hide SameName, LastNamed, A.Decimal;
    NamesDiffer(CONTENT_LENGTH);
    SetFieldSays(fs, CONTENT_LENGTH, A.Decimal(LengthSent(fs, size)));
  }

  /**
   A sealed message says how long its body is, that it consists of parameters if it does,
   and its sequence number; every other header is as the application set it, and in its
   place.
   */
  lemma SealedSays(fs: seq<Field>, size: nat, params: bool, cookie: nat)
    ensures var r := Sealed(fs, size, params, cookie);
      && Says(r, CSEQ, A.Decimal(cookie))
      && (params ==> Says(r, CONTENT_TYPE, PARAMETERS))
      && (size > 0 || LastNamed(fs, CONTENT_LENGTH) >= 0 ==> Says(r, CONTENT_LENGTH, A.Decimal(LengthSent(fs, size))))
      && |fs| <= |r| <= |fs| + 3
      && (forall j :: 0 <= j < |fs| && j !in Replaced(fs, params) ==> r[j] == fs[j])
  {
    hide SameName, LastNamed, A.Decimal, SetLength, SetField, Says;
    NamesDiffer(CSEQ);
    ThreeNames();
    var a := SetLength(fs, size);
    SetLengthSays(fs, size);
    SetLengthKeepsNames(fs, size, CSEQ);
    SetLengthKeepsNames(fs, size, CONTENT_TYPE);
    var length := A.Decimal(LengthSent(fs, size));
    var b := a;
    if params {
      b := SetField(a, CONTENT_TYPE, PARAMETERS);
      SetFieldSays(a, CONTENT_TYPE, PARAMETERS);
      SetFieldKeepsNames(a, CONTENT_TYPE, PARAMETERS, CSEQ);
      if Says(a, CONTENT_LENGTH, length) { SaysStill(a, CONTENT_TYPE, PARAMETERS, CONTENT_LENGTH, length); }
    }
    SetFieldSays(b, CSEQ, A.Decimal(cookie));
    if Says(b, CONTENT_LENGTH, length) { SaysStill(b, CSEQ, A.Decimal(cookie), CONTENT_LENGTH, length); }
    if params { SaysStill(b, CSEQ, A.Decimal(cookie), CONTENT_TYPE, PARAMETERS); }
  }

  lemma ThreeNames()
    ensures forall key :: SameName(key, CSEQ) ==> !SameName(key, CONTENT_LENGTH) && !SameName(key, CONTENT_TYPE)
    ensures forall key :: SameName(key, CONTENT_TYPE) ==> !SameName(key, CONTENT_LENGTH) && !SameName(key, CSEQ)
  {
    hide SameName;
    forall key
      ensures SameName(key, CSEQ) ==> !SameName(key, CONTENT_LENGTH) && !SameName(key, CONTENT_TYPE)
      ensures SameName(key, CONTENT_TYPE) ==> !SameName(key, CONTENT_LENGTH) && !SameName(key, CSEQ)
    {
      NamesDiffer(key);
    }
  }

  // ---- what is announced -----------------------------------------------

  lemma {:induction false} AnnouncedBy(head: Line, fs: seq<Field>, k: int, n: nat)
    requires AllFit(fs, {}, k, n) && -1 <= k < |fs|
    ensures Announced([head] + LinesOf(fs)) == if k >= 0 then n else 0
    decreases |fs|
  {
    hide S.Sanitize, ReadHeader, GoodLine;
    if fs != [] {
      var m := |fs| - 1;
      var all := [head] + LinesOf(fs);
      assert all[|all| - 1] == LineOf(fs[m]);
      assert all[..|all| - 1] == [head] + LinesOf(fs[..m]);
      assert Fits(fs[m], m, k, n);
      if k < m {
        AnnouncedBy(head, fs[..m], k, n);
      }
    }
  }

  /**
   The receiver expects a body of exactly the length that was sent, if and only if the
   application set a content length header or the body is shorter than 2^32 bytes.
   */
  lemma AnnouncedExact(head: Line, fs: seq<Field>, size: nat, params: bool, cookie: nat)
    requires AllProper(fs, params) && size <= A.U64_MAX && cookie <= A.U64_MAX
    ensures Announced(SealedLines(head, fs, size, params, cookie)) == size
       <==> LastNamed(fs, CONTENT_LENGTH) >= 0 || size < U32
  {
    hide AllFit, Sealed, LastNamed, Announced;
    SealedFits(fs, size, params, cookie);
    AnnouncedBy(head, Sealed(fs, size, params, cookie), LengthAt(fs, size), LengthSent(fs, size));
    assert size % U32 == size <==> size < U32;
  }

  /** Its lines arrive as lines, and none of its headers is an error. */
  lemma SealedLinesGood(head: Line, fs: seq<Field>, size: nat, params: bool, cookie: nat)
    requires GoodHead(head) && AllProper(fs, params) && size <= A.U64_MAX && cookie <= A.U64_MAX
    ensures var lines := SealedLines(head, fs, size, params, cookie);
      GoodLines(lines) && (AllAccepted(lines) <==> !ReadHead(S.Sanitize(head)).Rejected?)
  {
    hide LastNamed, Sealed, S.Sanitize, ReadHeader, ReadHead, GoodLine;
    SealedFits(fs, size, params, cookie);
    var r, lines := Sealed(fs, size, params, cookie), SealedLines(head, fs, size, params, cookie);
    forall i | 1 <= i < |lines|
      ensures GoodLine(lines[i]) && Accepted(false, lines[i])
    {
      assert lines[i] == LineOf(r[i - 1]);
      assert Fits(r[i - 1], i - 1, LengthAt(fs, size), LengthSent(fs, size));
    }
    assert lines[0] == head;
  }

  /**
   A sealed message goes through the parser as its cleaned lines and its body, exactly
   if its first line is not taken for a reply with the wildcard code, and the length was
   printed in full.
   */
  lemma SealedRoundTrip(p: Parser, head: Line, fs: seq<Field>, body: seq<char>, params: bool, cookie: nat)
    requires Idle(p) && GoodHead(head) && AllProper(fs, params) && |body| <= A.U64_MAX && cookie <= A.U64_MAX
    ensures var lines := SealedLines(head, fs, |body|, params, cookie);
      Delivers(p, SerializeText(lines, body), Text(Cleaned(lines), body))
      <==> !ReadHead(S.Sanitize(head)).Rejected? && (LastNamed(fs, CONTENT_LENGTH) >= 0 || |body| < U32)
  {
    hide Delivers, SealedLines, SerializeText, Cleaned, AllAccepted, GoodLines, Announced, LastNamed, ReadHead,
         S.Sanitize;
    SealedLinesGood(head, fs, |body|, params, cookie);
    AnnouncedExact(head, fs, |body|, params, cookie);
    TextRoundTrip(p, SealedLines(head, fs, |body|, params, cookie), body);
  }

  // ---- requests --------------------------------------------------------

  /** The first line of a request without blanks and quotes in its parts is clean. */
  lemma RequestClean(name: seq<char>, uri: seq<char>)
    requires name != [] && uri != [] && AllVisible(name) && AllVisible(uri) && name[0] != '$'
    ensures GoodHead(PrintRequest(name, uri)) && S.Sanitize(PrintRequest(name, uri)) == PrintRequest(name, uri)
    ensures ' ' !in name && ' ' !in uri
  {
    var l := PrintRequest(name, uri);
    forall i | 0 <= i < |l|
      ensures !IsBreak(l[i]) && l[i] != '"'
    {
      assert i < |name| ==> l[i] == name[i] && Visible(name[i]);
      assert |name| < i <= |name| + |uri| ==> l[i] == uri[i - |name| - 1] && Visible(uri[i - |name| - 1]);
      assert i > |name| + |uri| + 1 ==> l[i] == VERSION[i - |name| - |uri| - 2];
    }
    assert l[0] == name[0] && Visible(name[0]);
    PlainIsGood(l);
    WordsClean(name, uri, VERSION);
    assert l == name + " " + uri + " " + VERSION;
    forall i | 0 <= i < |name| ensures name[i] != ' ' { assert Visible(name[i]); }
    forall i | 0 <= i < |uri| ensures uri[i] != ' ' { assert Visible(uri[i]); }
  }

  lemma WordsClean(a: seq<char>, b: seq<char>, c: seq<char>)
    requires a != [] && b != [] && c != [] && AllVisible(a) && AllVisible(b) && AllVisible(c)
    ensures S.Sanitize(a + " " + b + " " + c) == a + " " + b + " " + c
  {
    hide S.Run;
    S.RunNone(S.START);
    WordKept([], a);
    assert [] + a == a;
    S.RunMore(S.START, a, ' ');
    WordKept(a + [' '], b);
    S.RunMore(S.START, a + [' '] + b, ' ');
    WordKept(a + [' '] + b + [' '], c);
    assert a + " " + b + " " + c == a + [' '] + b + [' '] + c;
    assert Visible(c[|c| - 1]);
    S.TrimNone(a + [' '] + b + [' '] + c);
  }

  /**
   A request arrives, and its first line is read as that request, exactly if its method
   does not begin like a version and the length was printed in full.
   */
  lemma RequestArrives(p: Parser, name: seq<char>, uri: seq<char>, fs: seq<Field>, body: seq<char>, params: bool,
                       cookie: nat)
    requires name != [] && uri != [] && AllVisible(name) && AllVisible(uri) && name[0] != '$'
    requires Idle(p) && AllProper(fs, params) && |body| <= A.U64_MAX && cookie <= A.U64_MAX
    ensures var lines := SealedLines(PrintRequest(name, uri), fs, |body|, params, cookie);
      && Cleaned(lines) != []
      && (Delivers(p, SerializeText(lines, body), Text(Cleaned(lines), body))
          && ReadHead(Cleaned(lines)[0]) == Request(name, uri, 1, 0)
          <==> !StartsRtsp(name) && (LastNamed(fs, CONTENT_LENGTH) >= 0 || |body| < U32))
  {
    hide Delivers, SerializeText, Sealed, LastNamed, ReadHead, S.Sanitize, StartsRtsp, PrintRequest, GoodHead;
    var head := PrintRequest(name, uri);
    var lines := SealedLines(head, fs, |body|, params, cookie);
    RequestClean(name, uri);
    SealedRoundTrip(p, head, fs, body, params, cookie);
    RequestRoundTrip(name, uri);
    CleanedFirst(lines);
  }

  lemma {:induction false} CleanedFirst(lines: seq<Line>)
    requires lines != []
    ensures Cleaned(lines) != [] && Cleaned(lines)[0] == S.Sanitize(lines[0])
  {
    hide S.Sanitize;
    if |lines| > 1 {
      CleanedFirst(lines[..|lines| - 1]);
    } else {
      assert lines[..0] == [];
    }
  }

  /** A request that the sender accepts but at which the receiver ends the connection. */
  lemma RequestEndsConnection(p: Parser, body: seq<char>, cookie: nat)
    requires Idle(p) && |body| < U32 && cookie <= A.U64_MAX
    ensures var lines := SealedLines(PrintRequest("RTSP/1.0", "4294967295"), [], |body|, false, cookie);
      Feed(p, SerializeText(lines, body)).Failed?
  {
    hide Feed, ReadHead, S.Sanitize, PrintRequest, GoodHead, SealedLines, Wire, GoodLines, AllAccepted;
    var head := PrintRequest("RTSP/1.0", "4294967295");
    VisibleInput();
    RequestClean("RTSP/1.0", "4294967295");
    RejectedRequest();
    SealedLinesGood(head, [], |body|, false, cookie);
    var lines := SealedLines(head, [], |body|, false, cookie);
    WireIsAny(lines);
    HeaderEnds(p, Crlf(lines), CRLF);
    FailedRest(p, Wire(lines) + CRLF, body);
    assert SerializeText(lines, body) == Wire(lines) + CRLF + body;
  }

  lemma VisibleInput()
    ensures AllVisible("RTSP/1.0") && AllVisible("4294967295")
  {
  }

  /** For example, an option request without headers of the application, whatever its
      body: the serializer sets the length and the sequence number. */
  lemma OptionsDelivered(p: Parser, body: seq<char>, cookie: nat)
    requires Idle(p) && |body| < U32 && cookie <= A.U64_MAX
    ensures var lines := SealedLines(PrintRequest("OPTIONS", "*"), [], |body|, false, cookie);
      && Delivers(p, SerializeText(lines, body), Text(Cleaned(lines), body))
      && Cleaned(lines) != [] && ReadHead(Cleaned(lines)[0]) == Request("OPTIONS", "*", 1, 0)
  {
    hide Delivers, SealedLines, SerializeText, Cleaned, ReadHead, PrintRequest;
    assert "OPTIONS"[..5][0] == 'O';
    RequestArrives(p, "OPTIONS", "*", [], body, false, cookie);
  }

  // ---- requests of other senders ---------------------------------------

  predicate Blanks(g: seq<char>) {
    forall i :: 0 <= i < |g| ==> IsBlank(g[i])
  }

  /** A first line with more blanks than needed. */
  function Loose(name: seq<char>, g1: seq<char>, uri: seq<char>, g2: seq<char>, g3: seq<char>): Line {
    name + g1 + uri + g2 + VERSION + g3
  }

  lemma SpreadIsLoose(name: seq<char>, g1: seq<char>, uri: seq<char>, g2: seq<char>, g3: seq<char>)
    ensures W.Spread([name, uri, VERSION], [[], g1, g2, g3]) == Loose(name, g1, uri, g2, g3)
  {
    var ws, gaps := [name, uri, VERSION], [[], g1, g2, g3];
    assert ws[..2] == [name, uri] && gaps[..3] == [[], g1, g2];
    assert [name, uri][..1] == [name] && [[], g1, g2][..2] == [[], g1];
    assert [name][..0] == [] && [[], g1][..1] == [[]];
    assert W.Spread([name], [[], g1]) == name + g1;
    assert W.Spread([name, uri], [[], g1, g2]) == name + g1 + uri + g2;
  }

  lemma LooseCleaned(name: seq<char>, g1: seq<char>, uri: seq<char>, g2: seq<char>, g3: seq<char>)
    requires W.Bare(name) && W.Bare(uri) && Blanks(g1) && Blanks(g2) && Blanks(g3) && g1 != [] && g2 != []
    ensures S.Sanitize(Loose(name, g1, uri, g2, g3)) == PrintRequest(name, uri)
  {
    hide S.Sanitize, W.Spaced;
    var ws, gaps := [name, uri, VERSION], [[], g1, g2, g3];
    assert W.Bare(VERSION);
    assert W.Apart(ws, gaps);
    W.SpreadSanitized(ws, gaps);
    SpreadIsLoose(name, g1, uri, g2, g3);
    W.SpacedMore([], name);
    W.SpacedMore([name], uri);
    W.SpacedMore([name, uri], VERSION);
    assert [] + [name] == [name] && [name] + [uri] == [name, uri] && [name, uri] + [VERSION] == ws;
    assert name + [' '] + uri + [' '] + VERSION == PrintRequest(name, uri);
  }

  lemma LooseIsGood(name: seq<char>, g1: seq<char>, uri: seq<char>, g2: seq<char>, g3: seq<char>)
    requires W.Bare(name) && W.Bare(uri) && Blanks(g1) && Blanks(g2) && Blanks(g3) && name[0] != '$'
    ensures GoodHead(Loose(name, g1, uri, g2, g3))
  {
    var l := Loose(name, g1, uri, g2, g3);
    forall i | 0 <= i < |l|
      ensures !IsBreak(l[i]) && l[i] != '"'
    {
      if i < |name| {
        assert l[i] == name[i] && !W.Gap(name[i]);
      } else if i < |name| + |g1| {
        assert l[i] == g1[i - |name|];
      } else if i < |name| + |g1| + |uri| {
        assert l[i] == uri[i - |name| - |g1|] && !W.Gap(l[i]);
      }
    }
    assert l[0] == name[0] && !W.Gap(name[0]);
    PlainIsGood(l);
  }

  /**
   A request of any sender, with blanks and breaks in front of it, any number of blanks
   between its parts, and any line endings: it arrives as that request.
   */
  lemma LooseRequestArrives(p: Parser, lead: seq<char>, name: seq<char>, g1: seq<char>, uri: seq<char>,
                            g2: seq<char>, g3: seq<char>, eol: seq<char>, end: seq<char>)
    requires Idle(p) && (forall i :: 0 <= i < |lead| ==> IsBreak(lead[i]) || IsBlank(lead[i]))
    requires W.Bare(name) && W.Bare(uri) && name[0] != '$' && !StartsRtsp(name)
    requires Blanks(g1) && Blanks(g2) && Blanks(g3) && g1 != [] && g2 != []
    requires Eol(eol) && EmptyLine(eol, end)
    ensures var q := Feed(p, lead + (Loose(name, g1, uri, g2, g3) + eol + end));
      Between(q) && q.out == p.out + [Text([PrintRequest(name, uri)], [])]
    ensures ReadHead(PrintRequest(name, uri)) == Request(name, uri, 1, 0)
  {
    hide Feed, S.Sanitize, ReadHead, GoodHead, Loose, PrintRequest, W.Bare, StartsRtsp;
    var l := Loose(name, g1, uri, g2, g3);
    LooseCleaned(name, g1, uri, g2, g3);
    LooseIsGood(name, g1, uri, g2, g3);
    BareHasNoBlank(name);
    BareHasNoBlank(uri);
    RequestRoundTrip(name, uri);
    LeadingIgnored(p, lead);
    var ls := [Sent(l, eol)];
    assert Texts(ls) == [l] && ls[..0] == [] && [l][..0] == [];
    assert WireAny(ls) == l + eol && WireAny(ls) + end + [] == l + eol + end;
    assert Cleaned([l]) == [PrintRequest(name, uri)];
    TextArrives(Feed(p, lead), ls, end, []);
    FeedConcat(p, lead, l + eol + end);
  }

  lemma BareHasNoBlank(w: seq<char>)
    requires W.Bare(w)
    ensures w != [] && ' ' !in w
  {
    forall i | 0 <= i < |w| ensures w[i] != ' ' { assert !W.Gap(w[i]); }
  }
}
