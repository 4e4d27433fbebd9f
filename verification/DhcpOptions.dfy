/**
 The option area of a DHCP packet (src/dhcp/common.c, src/dhcp/common.h): a writer
 that appends code, length and data in front of an end mark, and a reader that
 walks the area, following it into the boot file and server name fields.
 Options are those of section 2 of RFC 2132.
 */
module DhcpOptions {

  type Byte = b: int | 0 <= b < 256

  const PADDING: Byte := 0x00
  const OVERLOAD: Byte := 0x34
  const MESSAGE_TYPE: Byte := 0x35
  const END: Byte := 0xff

  /** What the writer fills, and what a packet holds. */
  const BUFSIZE: nat := 308
  const AREA: nat := 388
  const FILE_SIZE: nat := 128
  const SNAME_SIZE: nat := 64

  datatype Opt = Opt(code: Byte, data: seq<Byte>)

  predicate Fits(o: Opt) {
    |o.data| < 256
  }

  /** Codes that mark no option of their own. */
  predicate Plain(c: Byte) {
    c != PADDING && c != END
  }

  function One(o: Opt): (r: seq<Byte>)
    requires Fits(o)
    ensures |r| == 2 + |o.data|
  {
    [o.code, |o.data|] + o.data
  }

  predicate AllFit(os: seq<Opt>) {
    forall i :: 0 <= i < |os| ==> Fits(os[i]) && Plain(os[i].code)
  }

  function Encoded(os: seq<Opt>): seq<Byte>
    requires AllFit(os)
  {
    if os == [] then [] else Encoded(os[..|os| - 1]) + One(os[|os| - 1])
  }

  lemma EncodedMore(os: seq<Opt>, i: nat)
    requires AllFit(os) && i < |os|
    ensures Encoded(os[..i + 1]) == Encoded(os[..i]) + One(os[i])
  {
    assert os[..i + 1][..i] == os[..i];
  }

  lemma {:induction false} EncodedPrefix(os: seq<Opt>, i: nat)
    requires AllFit(os) && i <= |os|
    ensures |Encoded(os[..i])| <= |Encoded(os)|
    ensures Encoded(os)[..|Encoded(os[..i])|] == Encoded(os[..i])
  {
    if i == |os| {
      assert os[..i] == os;
    } else {
      var front := os[..|os| - 1];
      EncodedPrefix(front, i);
      assert front[..i] == os[..i];
    }
  }

  /** The area `f` holds exactly the options `os`, with an end mark inside the
      part that the writer may fill. */
  ghost predicate Holds(f: seq<Byte>, os: seq<Opt>) {
    && AllFit(os)
    && |f| == AREA
    && |Encoded(os)| < BUFSIZE
    && f[..|Encoded(os)|] == Encoded(os)
    && f[|Encoded(os)|] == END
  }

  /** Where option `i` lies. */
  lemma HoldsAt(f: seq<Byte>, os: seq<Opt>, i: nat)
    requires Holds(f, os) && i < |os|
    ensures var p := |Encoded(os[..i])|;
      && p + 2 + |os[i].data| == |Encoded(os[..i + 1])| <= |Encoded(os)|
      && f[p] == os[i].code && f[p + 1] == |os[i].data|
      && f[p + 2..p + 2 + f[p + 1]] == os[i].data
  {
    hide Encoded;
    EncodedMore(os, i);
    EncodedPrefix(os, i + 1);
    var p, q := |Encoded(os[..i])|, |Encoded(os[..i + 1])|;
    assert f[..q] == f[..|Encoded(os)|][..q] == Encoded(os[..i]) + One(os[i]);
    assert f[p..q] == f[..q][p..] == One(os[i]);
    assert f[p] == f[p..q][0] && f[p + 1] == f[p..q][1];
    assert f[p + 2..q] == f[p..q][2..] == os[i].data;
  }

  // ---- the reader ------------------------------------------------------

  datatype Over = Over(file: bool, sname: bool)

  const NO_OVER := Over(false, false)

  /** What the scan of one field finds. */
  datatype Outcome = Hit(at: nat) | Malformed | Ended(over: Over)

  function WithBits(ov: Over, b: Byte): Over {
    Over(ov.file || b % 2 == 1, ov.sname || b / 2 % 2 == 1)
  }

  function Next(f: seq<Byte>, pos: nat): nat
    requires pos + 1 < |f|
  {
    pos + 2 + f[pos + 1]
  }

  /** The overload bits after the option at `pos`; one without data sets none that
      is looked at again. */
  function Seen(f: seq<Byte>, pos: nat, ov: Over): Over
    requires pos < |f|
  {
    if f[pos] == OVERLOAD && pos + 2 < |f| then WithBits(ov, f[pos + 2]) else ov
  }

  function Scan(f: seq<Byte>, pos: nat, ov: Over, code: int): Outcome
    requires pos <= |f|
    decreases |f| - pos
  {
    if pos == |f| then Malformed
    else if f[pos] == PADDING then Scan(f, pos + 1, ov, code)
    else if f[pos] == END then Ended(ov)
    else if pos + 1 == |f| || Next(f, pos) > |f| then Malformed
    else if f[pos] == code then Hit(pos + 2)
    else Scan(f, Next(f, pos), Seen(f, pos, ov), code)
  }

  datatype Field = Options | File | Sname

  datatype Found = Found(field: Field, at: nat) | NotFound

  function FindIn(field: Field, o: Outcome): Found {
    if o.Hit? then Found(field, o.at) else NotFound
  }

  /** The three fields of a packet that hold options. */
  datatype Fields = Fields(options: seq<Byte>, file: seq<Byte>, sname: seq<Byte>)

  function Union(a: Over, b: Over): Over {
    Over(a.file || b.file, a.sname || b.sname)
  }

  /** The bits carried into a scan change nothing but the bits that come out of it. */
  lemma {:induction false} ScanBits(f: seq<Byte>, pos: nat, a: Over, b: Over, code: int)
    requires pos <= |f|
    ensures var r, s := Scan(f, pos, Union(a, b), code), Scan(f, pos, b, code);
      r == if s.Ended? then Ended(Union(a, s.over)) else s
    decreases |f| - pos
  {
    if pos == |f| {
    } else if f[pos] == PADDING {
      ScanBits(f, pos + 1, a, b, code);
    } else if f[pos] == END || pos + 1 == |f| || Next(f, pos) > |f| || f[pos] == code {
    } else {
      ScanBits(f, Next(f, pos), a, Seen(f, pos, b), code);
    }
  }

  /** Where the loop of `dhcp_get_option` is after finishing a field. */
  datatype Place = Place(field: Field, o: Outcome)

  predicate Stopped(p: Place) {
    !p.o.Ended? || p.o.over == NO_OVER
  }

  /** One round: the file field if asked for, else the name field. */
  function Round(f: Fields, code: int, p: Place): Place {
    if Stopped(p) then p
    else if p.o.over.file then Place(File, Scan(f.file, 0, p.o.over.(file := false), code))
    else Place(Sname, Scan(f.sname, 0, p.o.over.(sname := false), code))
  }

  function Rounds(f: Fields, code: int, n: nat): Place {
    if n == 0 then Place(Options, Scan(f.options, 0, NO_OVER, code))
    else Round(f, code, Rounds(f, code, n - 1))
  }

  /** What a field asks for by itself; nothing if the search ends in it. */
  function Asks(f: seq<Byte>, code: int): Over {
    var o := Scan(f, 0, NO_OVER, code);
    if o.Ended? then o.over else NO_OVER
  }

  predicate Ends(f: seq<Byte>, code: int) {
    Scan(f, 0, NO_OVER, code).Ended?
  }

  predicate SnameReached(f: Fields, code: int) {
    Asks(f.options, code).sname || (Asks(f.options, code).file && Asks(f.file, code).sname)
  }

  /** The name field, once reached, asks for itself or for a file field that leads
      back to one of the two. */
  predicate SnameCircular(f: Fields, code: int) {
    var a, b := Asks(f.file, code), Asks(f.sname, code);
    if b.file then a.file || (Ends(f.file, code) && (b.sname || a.sname)) else b.sname
  }

  /** Likewise the file field, with the name field asked for before or not. */
  predicate FileCircular(f: Fields, code: int, sname: bool) {
    var a := Asks(f.file, code);
    a.file || (Ends(f.file, code) && (sname || a.sname) && SnameCircular(f, code))
  }

  /** The fields ask for each other in a circle that the option area leads to. */
  predicate Circular(f: Fields, code: int) {
    var o := Asks(f.options, code);
    if o.file then FileCircular(f, code, o.sname) else o.sname && SnameCircular(f, code)
  }

  /** The specification of `dhcp_get_option`: the area, then the file field if it is
      asked for, then the name field, or these two the other way round. */
  function Find(f: Fields, code: int): Found {
    var o, a, b := Scan(f.options, 0, NO_OVER, code), Scan(f.file, 0, NO_OVER, code), Scan(f.sname, 0, NO_OVER, code);
    if !o.Ended? || o.over == NO_OVER then FindIn(Options, o)
    else if o.over.file then
      if a.Ended? && SnameReached(f, code) then FindIn(Sname, b) else FindIn(File, a)
    else
      if b.Ended? && b.over.file then FindIn(File, a) else FindIn(Sname, b)
  }

  /** A round in terms of what the fields ask for by themselves. */
  lemma RoundIs(f: Fields, code: int, p: Place)
    requires !Stopped(p)
    ensures var r := Round(f, code, p);
      if p.o.over.file then
        && r.field == File
        && var a := Scan(f.file, 0, NO_OVER, code);
        r.o == if a.Ended? then Ended(Over(a.over.file, p.o.over.sname || a.over.sname)) else a
      else
        r == Place(Sname, Scan(f.sname, 0, NO_OVER, code))
  {
    ScanBits(f.file, 0, p.o.over.(file := false), NO_OVER, code);
    assert Union(p.o.over.(file := false), NO_OVER) == p.o.over.(file := false);
  }

  lemma {:induction false} StaysStopped(f: Fields, code: int, n: nat, m: nat)
    requires n <= m && Stopped(Rounds(f, code, n))
    ensures Rounds(f, code, m) == Rounds(f, code, n)
  {
    if n < m { StaysStopped(f, code, n, m - 1); }
  }

  lemma ThreeRounds(f: Fields, code: int)
    ensures !Circular(f, code) ==> Stopped(Rounds(f, code, 3))
    ensures !Circular(f, code) ==> Find(f, code) == FindIn(Rounds(f, code, 3).field, Rounds(f, code, 3).o)
  {
    hide Scan;
    var p0 := Rounds(f, code, 0);
    var p1 := Rounds(f, code, 1);
    var p2 := Rounds(f, code, 2);
    assert p1 == Round(f, code, p0) && p2 == Round(f, code, p1) && Rounds(f, code, 3) == Round(f, code, p2);
    if !Stopped(p0) { RoundIs(f, code, p0); }
    if !Stopped(p1) { RoundIs(f, code, p1); }
    if !Stopped(p2) { RoundIs(f, code, p2); }
  }

  predicate Trapped(f: Fields, code: int, p: Place) {
    p.o.Ended?
    && if p.o.over.file then FileCircular(f, code, p.o.over.sname)
       else p.o.over.sname && SnameCircular(f, code)
  }

  lemma {:induction false} StaysTrapped(f: Fields, code: int, n: nat)
    requires Circular(f, code)
    ensures Trapped(f, code, Rounds(f, code, n)) && !Stopped(Rounds(f, code, n))
  {
    hide Scan;
    if n > 0 {
      StaysTrapped(f, code, n - 1);
      RoundIs(f, code, Rounds(f, code, n - 1));
    }
  }

  /** The loop goes round for ever exactly if the fields ask for each other in a
      circle. */
  lemma ForeverExact(f: Fields, code: int)
    ensures (forall n :: !Stopped(Rounds(f, code, n))) <==> Circular(f, code)
  {
    hide Rounds;
    if Circular(f, code) {
      forall n: nat
        ensures !Stopped(Rounds(f, code, n))
      {
        StaysTrapped(f, code, n);
      }
    } else {
      ThreeRounds(f, code);
    }
  }

  /** A field that asks for the file field, whatever is behind its end mark. */
  lemma AsksForFile(more: seq<Byte>, code: int)
    requires code != OVERLOAD
    ensures Scan([OVERLOAD, 1, 1, END] + more, 0, NO_OVER, code) == Ended(Over(true, false))
  {
    var f := [OVERLOAD, 1, 1, END] + more;
    assert Scan(f, 3, Over(true, false), code) == Ended(Over(true, false));
    assert Scan(f, 0, NO_OVER, code) == Scan(f, 3, Over(true, false), code);
  }

  /** Packets, with fields of the right sizes, on which the loop goes round for ever:
      option area and file field ask for the file field. */
  lemma CircularPacket(code: int, a: seq<Byte>, b: seq<Byte>, sname: seq<Byte>)
    requires code != OVERLOAD && |a| == AREA - 4 && |b| == FILE_SIZE - 4 && |sname| == SNAME_SIZE
    ensures var f := Fields([OVERLOAD, 1, 1, END] + a, [OVERLOAD, 1, 1, END] + b, sname);
      && |f.options| == AREA && |f.file| == FILE_SIZE && |f.sname| == SNAME_SIZE
      && Circular(f, code) && forall n :: !Stopped(Rounds(f, code, n))
  {
    hide Scan, Rounds;
    AsksForFile(a, code);
    AsksForFile(b, code);
    ForeverExact(Fields([OVERLOAD, 1, 1, END] + a, [OVERLOAD, 1, 1, END] + b, sname), code);
  }

  // ---- the walk to the end mark ----------------------------------------

  datatype Walk = At(pos: nat) | Outside

  /** `dhcp_end_option`; `Outside` if it leaves the area. */
  function EndFrom(f: seq<Byte>, i: nat): (w: Walk)
    ensures w.At? ==> i <= w.pos < |f| && f[w.pos] == END
    decreases |f| - i
  {
    if i >= |f| then Outside
    else if f[i] == END then At(i)
    else if f[i] == PADDING then EndFrom(f, i + 1)
    else if i + 1 == |f| then Outside
    else EndFrom(f, Next(f, i))
  }

  // ---- the writer ------------------------------------------------------

  /** `dhcp_add_binary_option` */
  function Added(f: seq<Byte>, o: Opt): (r: seq<Byte>)
    requires Fits(o) && |f| == AREA
    ensures |r| == |f|
  {
    var end := EndFrom(f, 0);
    if end.Outside? || end.pos + |One(o)| + 1 >= BUFSIZE then f
    else f[..end.pos] + One(o) + [END] + f[end.pos + |One(o)| + 1..]
  }

  /** The options that find room, one after the other. */
  function Accept(os: seq<Opt>, o: Opt): (r: seq<Opt>)
    requires AllFit(os) && Fits(o)
    requires Plain(o.code)
    ensures AllFit(r)
  {
    if |Encoded(os)| + |One(o)| + 1 >= BUFSIZE then os else os + [o]
  }

  // ---- the walk and the scan on a written area -------------------------

  lemma {:induction false} HoldsEndFrom(f: seq<Byte>, os: seq<Opt>, i: nat)
    requires Holds(f, os) && i <= |os|
    ensures EndFrom(f, |Encoded(os[..i])|) == At(|Encoded(os)|)
    decreases |os| - i
  {
    hide Encoded;
    if i == |os| {
      assert os[..i] == os;
    } else {
      HoldsAt(f, os, i);
      HoldsEndFrom(f, os, i + 1);
    }
  }

  /** `dhcp_end_option` is the total encoded length. */
  lemma HoldsEnd(f: seq<Byte>, os: seq<Opt>)
    requires Holds(f, os)
    ensures EndFrom(f, 0) == At(|Encoded(os)|)
  {
    HoldsEndFrom(f, os, 0);
    assert os[..0] == [];
  }

  /** Adding an option keeps the others and puts it last, or changes nothing. */
  lemma AddedHolds(f: seq<Byte>, os: seq<Opt>, o: Opt)
    requires Holds(f, os) && Fits(o) && Plain(o.code)
    ensures Holds(Added(f, o), Accept(os, o))
    ensures Added(f, o)[BUFSIZE..] == f[BUFSIZE..]
  {
    HoldsEnd(f, os);
    if |Encoded(os)| + |One(o)| + 1 < BUFSIZE {
      var all := os + [o];
      assert all[..|os|] == os && all[..|all|] == all;
      EncodedMore(all, |os|);
      var e := |Encoded(os)|;
      var r := Added(f, o);
      assert r[..e] == f[..e];
      assert r[..e + |One(o)|] == Encoded(all);
    }
  }

  /** The index of the first option with that code; the length if there is none. */
  function FirstFrom(os: seq<Opt>, code: int, i: nat): (k: nat)
    requires i <= |os|
    ensures i <= k <= |os|
    ensures forall j :: i <= j < k ==> os[j].code != code
    ensures k < |os| ==> os[k].code == code
    decreases |os| - i
  {
    if i == |os| || os[i].code == code then i else FirstFrom(os, code, i + 1)
  }

  lemma {:induction false} HoldsScan(f: seq<Byte>, os: seq<Opt>, i: nat, ov: Over, code: int)
    requires Holds(f, os) && i <= |os|
    requires forall j :: i <= j < |os| ==> os[j].code != OVERLOAD
    ensures |Encoded(os[..i])| <= |f|
    ensures var k := FirstFrom(os, code, i);
      Scan(f, |Encoded(os[..i])|, ov, code)
        == if k < |os| then Hit(|Encoded(os[..k])| + 2) else Ended(ov)
    decreases |os| - i
  {
    hide Encoded;
    EncodedPrefix(os, i);
    if i == |os| {
      assert os[..i] == os;
    } else {
      HoldsAt(f, os, i);
      if os[i].code != code {
        HoldsScan(f, os, i + 1, ov, code);
      }
    }
  }

  /**
   The reader inverts the writer: on an area that holds the options `os` it finds
   the data of the first one with that code, and nothing if there is none.
   */
  lemma ReaderInvertsWriter(f: seq<Byte>, os: seq<Opt>, file: seq<Byte>, sname: seq<Byte>, code: int)
    requires Holds(f, os)
    requires forall j :: 0 <= j < |os| ==> os[j].code != OVERLOAD
    ensures var r := Find(Fields(f, file, sname), code);
      && (r.Found? <==> exists j :: 0 <= j < |os| && os[j].code == code)
      && (r.Found? ==>
            var k := FirstFrom(os, code, 0);
            && k < |os| && r.field == Options
            && 2 <= r.at <= |f| && r.at + f[r.at - 1] <= |f|
            && f[r.at - 2] == code
            && f[r.at..r.at + f[r.at - 1]] == os[k].data)
  {
    hide Encoded;
    HoldsScan(f, os, 0, NO_OVER, code);
    assert |Encoded(os[..0])| == 0 by { EncodedNone(); assert os[..0] == []; }
    var k := FirstFrom(os, code, 0);
    if k < |os| {
      HoldsAt(f, os, k);
    }
  }

  lemma EncodedNone()
    ensures Encoded([]) == []
  {
  }

  // ---- typed options ---------------------------------------------------

  /** `dhcp_get_code_type` with `dhcp_option_lengths`: zero for unknown codes. */
  function TypeLength(code: Byte): nat {
    match code
    case 0x01 => 4 case 0x03 => 4 case 0x06 => 4 case 0x2a => 4 case 0x32 => 4
    case 0x33 => 4 case 0x36 => 4
    case 0x39 => 2
    case 0x0c => 1 case 0x0f => 1 case 0x35 => 1 case 0x3c => 1 case 0x3d => 1 case 0xfc => 1
    case _ => 0
  }

  /** `put_be16` and `put_be32` */
  function BigEndian(v: nat, n: nat): (r: seq<Byte>)
    ensures |r| == n
  {
    if n == 0 then [] else BigEndian(v / 256, n - 1) + [v % 256]
  }

  function FromBigEndian(s: seq<Byte>): nat {
    if s == [] then 0 else 256 * FromBigEndian(s[..|s| - 1]) + s[|s| - 1]
  }

  function Pow256(n: nat): nat {
    if n == 0 then 1 else 256 * Pow256(n - 1)
  }

  lemma {:induction false} BigEndianRoundTrip(v: nat, n: nat)
    requires v < Pow256(n)
    ensures FromBigEndian(BigEndian(v, n)) == v
  {
    if n > 0 {
      BigEndianRoundTrip(v / 256, n - 1);
      assert BigEndian(v, n)[..n - 1] == BigEndian(v / 256, n - 1);
    }
  }

  // ---- whole packets ---------------------------------------------------

  /** One call of the writer. */
  datatype Addition = Binary(opt: Opt) | Number(code: Byte, size: nat, value: nat)

  /** What the call tries to add; numbers only for codes of that size. */
  function Attempt(a: Addition): seq<Opt> {
    match a
    case Binary(o) => [o]
    case Number(code, size, value) =>
      if TypeLength(code) == size && size > 0 then [Opt(code, BigEndian(value, size))] else []
  }

  predicate Proper(a: Addition) {
    match a
    case Binary(o) => Fits(o) && Plain(o.code) && o.code != OVERLOAD
    case Number(_, size, value) => (size == 1 || size == 2 || size == 4) && value < Pow256(size)
  }

  function Apply(f: seq<Byte>, a: Addition): (r: seq<Byte>)
    requires Proper(a) && |f| == AREA
    ensures |r| == |f|
  {
    if Attempt(a) == [] then f else Added(f, Attempt(a)[0])
  }

  function AcceptOne(os: seq<Opt>, a: Addition): (r: seq<Opt>)
    requires Proper(a) && AllFit(os)
    ensures AllFit(r)
  {
    if Attempt(a) == [] then os else Accept(os, Attempt(a)[0])
  }

  /** `dhcp_init_header` */
  function Header(kind: Byte): (r: seq<Byte>)
    ensures |r| == AREA
  {
    Added([END] + seq(AREA - 1, _ => PADDING), Opt(MESSAGE_TYPE, [kind]))
  }

  ghost predicate AllProper(adds: seq<Addition>) {
    forall i :: 0 <= i < |adds| ==> Proper(adds[i])
  }

  function Build(kind: Byte, adds: seq<Addition>): (r: seq<Byte>)
    requires forall i :: 0 <= i < |adds| ==> Proper(adds[i])
    ensures |r| == AREA
  {
    if adds == [] then Header(kind) else Apply(Build(kind, adds[..|adds| - 1]), adds[|adds| - 1])
  }

  /** The additions that find room, after the message type. */
  function Accepted(kind: Byte, adds: seq<Addition>): (r: seq<Opt>)
    requires forall i :: 0 <= i < |adds| ==> Proper(adds[i])
    ensures AllFit(r)
  {
    if adds == [] then [Opt(MESSAGE_TYPE, [kind])]
    else AcceptOne(Accepted(kind, adds[..|adds| - 1]), adds[|adds| - 1])
  }

  ghost predicate NoOverload(os: seq<Opt>) {
    forall j :: 0 <= j < |os| ==> os[j].code != OVERLOAD
  }

  lemma HeaderHolds(kind: Byte)
    ensures Holds(Header(kind), [Opt(MESSAGE_TYPE, [kind])])
    ensures Header(kind)[BUFSIZE..] == seq(AREA - BUFSIZE, _ => PADDING)
  {
    var f: seq<Byte> := [END] + seq(AREA - 1, _ => PADDING);
    assert f[..0] == [];
    assert Holds(f, []);
    AddedHolds(f, [], Opt(MESSAGE_TYPE, [kind]));
    assert [] + [Opt(MESSAGE_TYPE, [kind])] == [Opt(MESSAGE_TYPE, [kind])];
  }

  lemma {:induction false} BuildHolds(kind: Byte, adds: seq<Addition>)
    requires AllProper(adds)
    ensures Holds(Build(kind, adds), Accepted(kind, adds))
    ensures NoOverload(Accepted(kind, adds))
    ensures Build(kind, adds)[BUFSIZE..] == seq(AREA - BUFSIZE, _ => PADDING)
  {
    hide Added, Holds, Encoded;
    if adds == [] {
      HeaderHolds(kind);
    } else {
      var front, a := adds[..|adds| - 1], adds[|adds| - 1];
      BuildHolds(kind, front);
      if Attempt(a) != [] {
        AddedHolds(Build(kind, front), Accepted(kind, front), Attempt(a)[0]);
      }
    }
  }

  /**
   After `dhcp_init_header` and any additions, `dhcp_get_option` returns the data of
   the first accepted option with that code, or nothing; `dhcp_end_option` is the
   encoded length of the accepted options; and nothing behind the writer's part of
   the area has been written.
   */
  lemma BuiltPacket(kind: Byte, adds: seq<Addition>, file: seq<Byte>, sname: seq<Byte>, code: int)
    requires AllProper(adds)
    ensures var f, os := Build(kind, adds), Accepted(kind, adds);
      && EndFrom(f, 0) == At(|Encoded(os)|)
      && f[BUFSIZE..] == seq(AREA - BUFSIZE, _ => PADDING)
      && var r := Find(Fields(f, file, sname), code);
      && (r.Found? <==> exists j :: 0 <= j < |os| && os[j].code == code)
      && (r.Found? ==>
            && FirstFrom(os, code, 0) < |os|
            && 2 <= r.at <= |f| && r.at + f[r.at - 1] <= |f|
            && f[r.at..r.at + f[r.at - 1]] == os[FirstFrom(os, code, 0)].data)
  {
    hide Holds, Encoded, Build, Accepted, Find, EndFrom;
    BuildHolds(kind, adds);
    HoldsEnd(Build(kind, adds), Accepted(kind, adds));
    ReaderInvertsWriter(Build(kind, adds), Accepted(kind, adds), file, sname, code);
  }

  /** A number added under a fresh code is the number that is read. */
  lemma NumberComesBack(kind: Byte, adds: seq<Addition>, code: Byte, size: nat, value: nat,
                        file: seq<Byte>, sname: seq<Byte>)
    requires AllProper(adds) && Proper(Number(code, size, value))
    requires TypeLength(code) == size
    requires forall o <- Accepted(kind, adds) :: o.code != code
    requires |Encoded(Accepted(kind, adds))| + 2 + size + 1 < BUFSIZE
    ensures var f := Build(kind, adds + [Number(code, size, value)]);
      var r := Find(Fields(f, file, sname), code);
      && r.Found? && r.field == Options
      && 2 <= r.at && r.at + size <= |f| && f[r.at - 1] == size
      && FromBigEndian(f[r.at..r.at + size]) == value
  {
    hide Holds, Encoded, Build, Find, Accepted, FirstFrom, FromBigEndian, BigEndian;
    var more := adds + [Number(code, size, value)];
    var os, o := Accepted(kind, adds), Opt(code, BigEndian(value, size));
    AcceptedMore(kind, adds, Number(code, size, value));
    BuildHolds(kind, more);
    ReaderInvertsWriter(Build(kind, more), os + [o], file, sname, code);
    assert (os + [o])[|os|].code == code;
    FirstIsLast(os, o);
    BigEndianRoundTrip(value, size);
  }

  lemma AcceptedMore(kind: Byte, adds: seq<Addition>, a: Addition)
    requires AllProper(adds) && Proper(a)
    ensures AllProper(adds + [a])
    ensures Accepted(kind, adds + [a]) == AcceptOne(Accepted(kind, adds), a)
  {
    hide AcceptOne;
    assert (adds + [a])[..|adds|] == adds;
  }

  lemma FirstIsLast(os: seq<Opt>, o: Opt)
    requires forall p <- os :: p.code != o.code
    ensures FirstFrom(os + [o], o.code, 0) == |os|
  {
    assert (os + [o])[|os|] == o;
    assert forall k :: 0 <= k < |os| ==> (os + [o])[k] == os[k];
  }

  // ---- the packet ------------------------------------------------------

  class Packet {
    var options: array<Byte>
    var file: array<Byte>
    var sname: array<Byte>

    ghost predicate Valid()
      reads this
    {
      options.Length == AREA && file.Length == FILE_SIZE && sname.Length == SNAME_SIZE
    }

    /** One field of `dhcp_get_option`. */
    method ScanField(f: array<Byte>, start: Over, code: int) returns (o: Outcome)
      ensures o == Scan(f[..], 0, start, code)
    {
      var pos, ov := 0, start;
      while true
        invariant pos <= f.Length
        invariant Scan(f[..], pos, ov, code) == Scan(f[..], 0, start, code)
        decreases f.Length - pos
      {
        if pos == f.Length {
          return Malformed;
        }
        if f[pos] == PADDING {
          pos := pos + 1;
          continue;
        }
        if f[pos] == END {
          return Ended(ov);
        }
        if pos + 1 == f.Length || pos + 2 + f[pos + 1] > f.Length {
          return Malformed;
        }
        if f[pos] == code {
          return Hit(pos + 2);
        }
        if f[pos] == OVERLOAD && pos + 2 < f.Length {
          ov := WithBits(ov, f[pos + 2]);
        }
        pos := pos + 2 + f[pos + 1];
      }
    }

    ghost function View(): Fields
      reads this, options, file, sname
    {
      Fields(options[..], file[..], sname[..])
    }

    /** `dhcp_get_option`; on fields that ask for each other in a circle it does not
        return. */
    method GetOption(code: int) returns (r: Found)
      requires Valid()
      requires !Circular(View(), code)
      ensures r == Find(View(), code)
    {
      hide Scan, Circular;
      var field := Options;
      var o := ScanField(options, NO_OVER, code);
      ghost var n := 0;
      ThreeRounds(View(), code);
      while o.Ended? && (o.over.file || o.over.sname)
        invariant n <= 3 && Place(field, o) == Rounds(View(), code, n)
        decreases 3 - n
      {
        assert Rounds(View(), code, n + 1) == Round(View(), code, Place(field, o));
        if o.over.file {
          field := File;
          o := ScanField(file, o.over.(file := false), code);
        } else {
          field := Sname;
          o := ScanField(sname, o.over.(sname := false), code);
        }
        n := n + 1;
      }
      StaysStopped(View(), code, n, 3);
      r := FindIn(field, o);
    }

    /** `dhcp_end_option` */
    method EndOption() returns (end: nat)
      requires Valid()
      requires EndFrom(options[..], 0).At?
      ensures EndFrom(options[..], 0) == At(end)
    {
      end := 0;
      while options[end] != END
        invariant end < options.Length
        invariant EndFrom(options[..], end).At?
        invariant EndFrom(options[..], end) == EndFrom(options[..], 0)
        decreases options.Length - end
      {
        if options[end] != PADDING {
          end := end + options[end + 1] + 1;
        }
        end := end + 1;
      }
    }

    /** `memcpy` */
    method CopyIn(at: nat, bytes: seq<Byte>)
      requires at + |bytes| <= options.Length
      modifies options
      ensures options[..] == old(options[..at]) + bytes + old(options[at + |bytes|..])
    {
      for i := 0 to |bytes|
        invariant forall k :: 0 <= k < i ==> options[at + k] == bytes[k]
        invariant forall k :: 0 <= k < at || at + i <= k < options.Length ==> options[k] == old(options[k])
      {
        options[at + i] := bytes[i];
      }
    }

    /** `dhcp_add_binary_option` */
    method AddBinary(o: Opt)
      requires Valid() && Fits(o)
      requires EndFrom(options[..], 0).At?
      modifies options
      ensures options[..] == Added(old(options[..]), o)
    {
      ghost var was := options[..];
      var end := EndOption();
      var bytes := One(o);
      if end + |bytes| + 1 >= BUFSIZE {
        return;
      }
      CopyIn(end, bytes + [END]);
      assert was[..end] + (bytes + [END]) == was[..end] + bytes + [END];
    }

    /** `dhcp_add_option_uint8`, `dhcp_add_option_uint16` and `dhcp_add_option_uint32` */
    method AddNumber(code: Byte, size: nat, value: nat)
      requires Valid() && Proper(Number(code, size, value))
      requires EndFrom(options[..], 0).At?
      modifies options
      ensures options[..] == Apply(old(options[..]), Number(code, size, value))
    {
      if TypeLength(code) != size {
        return;
      }
      AddBinary(Opt(code, BigEndian(value, size)));
    }

    /** `dhcp_init_header`, for the option area */
    method InitHeader(kind: Byte)
      requires Valid()
      modifies options
      ensures options[..] == Header(kind)
    {
      for i := 0 to options.Length
        invariant forall k :: 0 <= k < i ==> options[k] == PADDING
      {
        options[i] := PADDING;
      }
      options[0] := END;
      assert options[..] == [END] + seq(AREA - 1, _ => PADDING);
      AddNumber(MESSAGE_TYPE, 1, kind);
      assert BigEndian(kind, 1) == [kind] by { assert BigEndian(kind / 256, 0) == []; }
    }
  }
}
