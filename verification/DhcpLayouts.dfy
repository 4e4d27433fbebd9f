/**
 What the option reader (src/dhcp/common.c) finds in fields as other programs lay them
 out: options with padding before, between and behind them, and options that lie in the
 boot file or the server name field.
 */
module DhcpLayouts {
  import opened DhcpOptions

  /** A byte of padding, or an option. */
  datatype Item = Pad | Has(o: Opt)

  predicate Good(items: seq<Item>) {
    forall i :: 0 <= i < |items| && items[i].Has? ==> Fits(items[i].o) && Plain(items[i].o.code)
  }

  function Bytes(item: Item): (r: seq<Byte>)
    requires item.Has? ==> Fits(item.o)
    ensures r != []
  {
    match item
    case Pad => [PADDING]
    case Has(o) => [o.code, |o.data|] + o.data
  }

  function Laid(items: seq<Item>): seq<Byte>
    requires Good(items)
  {
    if items == [] then [] else Bytes(items[0]) + Laid(items[1..])
  }

  /** A field: what is laid out, the end mark, and anything behind it. */
  function Area(items: seq<Item>, behind: seq<Byte>): (r: seq<Byte>)
    requires Good(items)
    ensures r != []
  {
    Laid(items) + [END] + behind
  }

  predicate Is(item: Item, code: int) {
    item.Has? && item.o.code == code
  }

  ghost predicate Contains(items: seq<Item>, code: int) {
    exists i :: 0 <= i < |items| && Is(items[i], code)
  }

  /** Of an overload byte, the lowest bit asks for the file field, the next one for the
      name field. */
  function Bits(b: Byte): Over {
    Over(b % 4 == 1 || b % 4 == 3, b % 4 == 2 || b % 4 == 3)
  }

  /** What the options of a field ask for. The byte that counts is the first one of the
      data, or, without data, the one that follows. */
  function Asked(items: seq<Item>, behind: seq<Byte>): Over
    requires Good(items)
  {
    if items == [] then NO_OVER
    else
      Union(if Is(items[0], OVERLOAD) then Bits((items[0].o.data + Area(items[1..], behind))[0]) else NO_OVER,
            Asked(items[1..], behind))
  }

  lemma BitsAre(ov: Over, b: Byte)
    ensures WithBits(ov, b) == Union(ov, Bits(b))
  {
  }

  // ---- one field -------------------------------------------------------

  lemma AreaFirst(items: seq<Item>, behind: seq<Byte>)
    requires Good(items) && items != []
    ensures Area(items, behind) == Bytes(items[0]) + Area(items[1..], behind)
  {
    hide Bytes;
    assert Bytes(items[0]) + Laid(items[1..]) + [END] + behind == Bytes(items[0]) + (Laid(items[1..]) + [END] + behind);
  }

  /** One item more, somewhere in a field. */
  lemma ScanItem(before: seq<Byte>, item: Item, after: seq<Byte>, ov: Over, code: int)
    requires item.Has? ==> Fits(item.o) && Plain(item.o.code)
    requires after != [] && code != PADDING as int && code != END as int
    ensures var f := before + Bytes(item) + after;
      Scan(f, |before|, ov, code) ==
        if Is(item, code) then Hit(|before| + 2)
        else Scan(f, |before + Bytes(item)|,
                  if Is(item, OVERLOAD) then Union(ov, Bits((item.o.data + after)[0])) else ov, code)
  {
    var f, p := before + Bytes(item) + after, |before|;
    if item.Has? {
      var o := item.o;
      assert f[p] == o.code && f[p + 1] == |o.data|;
      assert Next(f, p) == |before + Bytes(item)| <= |f|;
      if o.code == OVERLOAD {
        assert f[p + 2] == (o.data + after)[0];
        BitsAre(ov, f[p + 2]);
      }
    } else {
      assert f[p] == PADDING;
    }
  }

  /** The first option with that code, from the start of the field. */
  function Offset(items: seq<Item>, code: int): (n: nat)
    requires Good(items)
  {
    if items == [] || Is(items[0], code) then 0 else |Bytes(items[0])| + Offset(items[1..], code)
  }

  function FirstWith(items: seq<Item>, code: int): (i: nat)
    ensures i <= |items|
    ensures i < |items| ==> Is(items[i], code)
    ensures forall j :: 0 <= j < i ==> !Is(items[j], code)
  {
    if items == [] || Is(items[0], code) then 0 else 1 + FirstWith(items[1..], code)
  }

  lemma {:induction false} ScanFrom(before: seq<Byte>, items: seq<Item>, behind: seq<Byte>, ov: Over, code: int)
    requires Good(items) && code != PADDING as int && code != END as int
    ensures Scan(before + Area(items, behind), |before|, ov, code) ==
      if Contains(items, code) then Hit(|before| + Offset(items, code) + 2)
      else Ended(Union(ov, Asked(items, behind)))
    decreases |items|
  {
    hide Bytes, Scan;
    if items == [] {
      ScanEnd(before, behind, ov, code);
      assert Union(ov, NO_OVER) == ov;
      assert Laid(items) + [END] + behind == [END] + behind;
    } else {
      var item, rest := items[0], items[1..];
      AreaFirst(items, behind);
      assert before + Area(items, behind) == before + Bytes(item) + Area(rest, behind);
      ScanItem(before, item, Area(rest, behind), ov, code);
      if Is(item, code) {
        assert Contains(items, code);
      } else {
        var now := if Is(item, OVERLOAD) then Union(ov, Bits((item.o.data + Area(rest, behind))[0])) else ov;
        ScanFrom(before + Bytes(item), rest, behind, now, code);
        ContainsRest(items, code);
      }
    }
  }

  lemma ContainsRest(items: seq<Item>, code: int)
    requires items != [] && !Is(items[0], code)
    ensures Contains(items, code) <==> Contains(items[1..], code)
  {
    if i :| 0 <= i < |items| && Is(items[i], code) {
      assert Is(items[1..][i - 1], code);
    }
    if i :| 0 <= i < |items[1..]| && Is(items[1..][i], code) {
      assert Is(items[i + 1], code);
    }
  }

  lemma ScanEnd(before: seq<Byte>, behind: seq<Byte>, ov: Over, code: int)
    ensures Scan(before + ([END] + behind), |before|, ov, code) == Ended(ov)
  {
    assert (before + ([END] + behind))[|before|] == END;
  }

  /** A field that is laid out like this ends in its end mark, or has the option: and the
      data is that of the first option with the code, whatever padding there is. */
  lemma AreaScan(items: seq<Item>, behind: seq<Byte>, code: int)
    requires Good(items) && code != PADDING as int && code != END as int
    ensures Scan(Area(items, behind), 0, NO_OVER, code) ==
      if Contains(items, code) then Hit(Offset(items, code) + 2) else Ended(Asked(items, behind))
  {
    hide Scan;
    ScanFrom([], items, behind, NO_OVER, code);
    assert [] + Area(items, behind) == Area(items, behind);
  }

  lemma {:induction false} OffsetData(items: seq<Item>, behind: seq<Byte>, code: int)
    requires Good(items) && Contains(items, code)
    ensures var f, at, k := Area(items, behind), Offset(items, code) + 2, FirstWith(items, code);
      k < |items| && at <= |f| && at + f[at - 1] <= |f| && f[at..at + f[at - 1]] == items[k].o.data
  {
    hide Laid, Area, Bytes, Contains;
    SomeItem(items, code);
    AreaFirst(items, behind);
    if Is(items[0], code) {
      DataFirst(items[0].o, Area(items[1..], behind));
    } else {
      ContainsRest(items, code);
      OffsetData(items[1..], behind, code);
      Shift(Bytes(items[0]), Area(items[1..], behind), Offset(items[1..], code) + 2);
    }
  }

  lemma SomeItem(items: seq<Item>, code: int)
    requires Contains(items, code)
    ensures items != []
  {
  }

  lemma DataFirst(o: Opt, after: seq<Byte>)
    requires Fits(o)
    ensures var f := Bytes(Has(o)) + after;
      2 <= |f| && 2 + f[1] <= |f| && f[2..2 + f[1]] == o.data
  {
    var f := Bytes(Has(o)) + after;
    assert f[1] == |o.data| && f[2..2 + |o.data|] == o.data;
  }

  lemma Shift(a: seq<Byte>, f: seq<Byte>, at: nat)
    requires 1 <= at <= |f| && at + f[at - 1] <= |f|
    ensures var g, p := a + f, |a| + at;
      g[p - 1] == f[at - 1] && g[p..p + g[p - 1]] == f[at..at + f[at - 1]]
  {
  }

  // ---- the packet ------------------------------------------------------

  ghost predicate AsksNothing(items: seq<Item>) {
    !Contains(items, OVERLOAD)
  }

  lemma {:induction false} NothingAsked(items: seq<Item>, behind: seq<Byte>)
    requires Good(items) && AsksNothing(items)
    ensures Asked(items, behind) == NO_OVER
  {
    if items != [] {
      assert !Is(items[0], OVERLOAD);
      ContainsRest(items, OVERLOAD);
      NothingAsked(items[1..], behind);
    }
  }

  /**
   Where the reader finds an option: in the option area; or else, if the options there
   ask for it, in the file field; or else, if they ask for it, in the name field; and
   nowhere else. The data is that of the first such option there.
   */
  lemma FieldsSearched(os: seq<Item>, fs: seq<Item>, ns: seq<Item>, a: seq<Byte>, b: seq<Byte>, c: seq<Byte>, code: int)
    requires Good(os) && Good(fs) && Good(ns) && AsksNothing(fs) && AsksNothing(ns)
    requires code != PADDING as int && code != END as int
    ensures var f := Fields(Area(os, a), Area(fs, b), Area(ns, c));
      var ask := Asked(os, a);
      && !Circular(f, code)
      && Find(f, code) ==
           if Contains(os, code) then Found(Options, Offset(os, code) + 2)
           else if ask.file && Contains(fs, code) then Found(File, Offset(fs, code) + 2)
           else if ask.sname && Contains(ns, code) then Found(Sname, Offset(ns, code) + 2)
           else NotFound
  {
    hide Scan, Area, Asked;
    AreaScan(os, a, code);
    AreaScan(fs, b, code);
    AreaScan(ns, c, code);
    NothingAsked(fs, b);
    NothingAsked(ns, c);
  }

  // ---- the writer on padded areas --------------------------------------

  lemma {:induction false} EndOf(before: seq<Byte>, items: seq<Item>, behind: seq<Byte>)
    requires Good(items)
    ensures EndFrom(before + Area(items, behind), |before|) == At(|before| + |Laid(items)|)
    decreases |items|
  {
    if items == [] {
      assert (before + Area(items, behind))[|before|] == END;
    } else {
      var item, rest := items[0], items[1..];
      AreaFirst(items, behind);
      var f := before + Area(items, behind);
      assert f == before + Bytes(item) + Area(rest, behind);
      EndOf(before + Bytes(item), rest, behind);
      EndItem(before, item, Area(rest, behind));
    }
  }

  lemma EndItem(before: seq<Byte>, item: Item, after: seq<Byte>)
    requires item.Has? ==> Fits(item.o) && Plain(item.o.code)
    requires after != []
    ensures var f := before + Bytes(item) + after;
      EndFrom(f, |before|) == EndFrom(f, |before + Bytes(item)|)
  {
    var f, p := before + Bytes(item) + after, |before|;
    if item.Has? {
      assert f[p] == item.o.code && f[p + 1] == |item.o.data|;
    } else {
      assert f[p] == PADDING;
    }
  }

  lemma {:induction false} LaidMore(items: seq<Item>, item: Item)
    requires Good(items) && (item.Has? ==> Fits(item.o) && Plain(item.o.code))
    ensures Good(items + [item]) && Laid(items + [item]) == Laid(items) + Bytes(item)
  {
    hide Bytes;
    assert Good(items + [item]) by {
      assert forall i :: 0 <= i < |items| ==> (items + [item])[i] == items[i];
    }
    if items == [] {
      assert (items + [item])[1..] == [] && Bytes(item) + [] == Bytes(item);
    } else {
      LaidMore(items[1..], item);
      assert (items + [item])[1..] == items[1..] + [item];
    }
  }

  /** On an area with padding the writer puts the option in the place of the end mark, if
      there is room. */
  lemma AddedBehind(items: seq<Item>, behind: seq<Byte>, o: Opt)
    requires Good(items) && Fits(o) && Plain(o.code) && |Area(items, behind)| == AREA
    ensures var f, n := Area(items, behind), |Laid(items)| + 2 + |o.data| + 1;
      && Good(items + [Has(o)])
      && (n < BUFSIZE ==> Added(f, o) == Area(items + [Has(o)], f[n..]))
      && (n >= BUFSIZE ==> Added(f, o) == f)
  {
    hide Laid, EndFrom, Added;
    LaidMore(items, Has(o));
    EndOf([], items, behind);
    var f := Area(items, behind);
    assert [] + f == f;
    AddedAt(Laid(items), behind, o);
  }

  lemma AddedAt(laid: seq<Byte>, behind: seq<Byte>, o: Opt)
    requires Fits(o) && |laid + [END] + behind| == AREA
    requires EndFrom(laid + [END] + behind, 0) == At(|laid|)
    ensures var f, n := laid + [END] + behind, |laid| + 2 + |o.data| + 1;
      && (n < BUFSIZE ==> Added(f, o) == laid + Bytes(Has(o)) + [END] + f[n..])
      && (n >= BUFSIZE ==> Added(f, o) == f)
  {
    hide EndFrom;
    var f := laid + [END] + behind;
    assert f[..|laid|] == laid;
  }

  // ---- numbers ---------------------------------------------------------

  /** Addresses and times have four bytes, the largest message size two, the message type
      and, by the table of the source, texts one; no other code is written as a number. */
  lemma NumberSizes(code: Byte, size: nat)
    ensures size == 4 ==> (TypeLength(code) == size <==> code in {1, 3, 6, 42, 50, 51, 54})
    ensures size == 2 ==> (TypeLength(code) == size <==> code == 57)
    ensures size == 1 ==> (TypeLength(code) == size <==> code in {12, 15, 53, 60, 61, 252})
    ensures size == 3 || size > 4 ==> TypeLength(code) != size
  {
  }
}
