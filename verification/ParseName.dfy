/**
 `parse_name` of `apps.c`: reads `/type0=value0/type1=value1+type2=value2...`, where a
 backslash escapes the next character of a value, into the entries of a name.

 The object table and the checks made when an entry is added are parameters: `known` maps a
 type string to its number, `accepts` says whether the value can be stored under that number.
 */
module ParseName {
  import opened Common

  type Known = string -> Option<nat>
  type Accepts = (nat, string) -> bool

  /** One attribute of the text; `joined`: a '+' stands before it. */
  datatype Attribute = Attribute(typ: string, value: string, joined: bool)

  /** One entry of the name; `joined`: it goes into the same relative name as the entry before it. */
  datatype Entry = Entry(nid: nat, value: string, joined: bool)

  // ----- what the routine reads

  datatype ValueRead = Dangling | Value(text: string, rest: string, plus: bool)

  /** A value up to an unescaped '/' or, when `canmulti`, '+'; a backslash must not be the last character. */
  function ReadValue(s: string, canmulti: bool): (v: ValueRead)
    ensures v.Value? ==> |v.text| + |v.rest| <= |s|
  {
    if s == "" then Value("", "", false)
    else if s[0] == '/' then Value("", s[1..], false)
    else if canmulti && s[0] == '+' then Value("", s[1..], true)
    else if s[0] != '\\' then PrependText([s[0]], ReadValue(s[1..], canmulti))
    else if |s| == 1 then Dangling
    else PrependText([s[1]], ReadValue(s[2..], canmulti))
  }

  function PrependText(text: string, v: ValueRead): ValueRead {
    match v
    case Dangling => Dangling
    case Value(t, rest, plus) => Value(text + t, rest, plus)
  }

  /** Number of characters before the first '=', or the length when there is none. */
  function TypeLength(s: string): (n: nat)
    ensures n <= |s| && (n < |s| ==> s[n] == '=')
    ensures forall k :: 0 <= k < n ==> s[k] != '='
  {
    if s == "" || s[0] == '=' then 0 else 1 + TypeLength(s[1..])
  }

  datatype AttributeRead = Broken | Read(typ: string, value: string, rest: string, plus: bool)

  function ReadAttribute(s: string, canmulti: bool): (r: AttributeRead)
    ensures r.Read? ==> |r.rest| < |s|
  {
    var n := TypeLength(s);
    if n == |s| then Broken
    else
      match ReadValue(s[n + 1..], canmulti)
      case Dangling => Broken
      case Value(text, rest, plus) => Read(s[..n], text, rest, plus)
  }

  function Attributes(s: string, joined: bool, canmulti: bool): Option<seq<Attribute>>
    decreases |s|
  {
    if s == "" then Some([])
    else
      match ReadAttribute(s, canmulti)
      case Broken => None
      case Read(typ, value, rest, plus) =>
        Prepend([Attribute(typ, value, joined)], Attributes(rest, plus, canmulti))
  }

  function Prepend(first: seq<Attribute>, later: Option<seq<Attribute>>): Option<seq<Attribute>> {
    if later.None? then None else Some(first + later.value)
  }

  /** Attributes of an unknown type and attributes without a value are skipped. */
  predicate Skipped(a: Attribute, known: Known) {
    known(a.typ).None? || a.value == ""
  }

  function Entries(attrs: seq<Attribute>, known: Known): seq<Entry> {
    if attrs == [] then []
    else EntryOf(attrs[0], known) + Entries(attrs[1..], known)
  }

  function EntryOf(a: Attribute, known: Known): seq<Entry> {
    if Skipped(a, known) then [] else [Entry(known(a.typ).value, a.value, a.joined)]
  }

  predicate Storable(es: seq<Entry>, accepts: Accepts) {
    forall k :: 0 <= k < |es| ==> accepts(es[k].nid, es[k].value)
  }

  /** The name: none unless the text is well formed and every entry can be stored. */
  function Parse(s: string, canmulti: bool, known: Known, accepts: Accepts): Option<seq<Entry>> {
    if s == "" || s[0] != '/' then None
    else
      var attrs := Attributes(s[1..], false, canmulti);
      if attrs.None? || !Storable(Entries(attrs.value, known), accepts) then None
      else Some(Entries(attrs.value, known))
  }

  // ----- the written form

  /** One character of a value, written as itself or after a backslash. */
  datatype Glyph = Bare(c: char) | Escaped(c: char)

  datatype End = Slash | Plus | EndOfString

  /** One attribute as written: its type, the characters of its value, and what ends it. */
  datatype Item = Item(typ: string, value: seq<Glyph>, end: End)

  predicate ValidGlyph(g: Glyph, canmulti: bool) {
    g.Bare? ==> g.c != '/' && g.c != '\\' && !(canmulti && g.c == '+')
  }

  predicate ValidGlyphs(gs: seq<Glyph>, canmulti: bool) {
    forall k :: 0 <= k < |gs| ==> ValidGlyph(gs[k], canmulti)
  }

  predicate ValidType(typ: string) {
    forall k :: 0 <= k < |typ| ==> typ[k] != '='
  }

  predicate ValidItem(i: Item, canmulti: bool) {
    ValidType(i.typ) && ValidGlyphs(i.value, canmulti) && (i.end.Plus? ==> canmulti)
  }

  /** Only the last attribute can be ended by the end of the string. */
  predicate ValidItems(items: seq<Item>, canmulti: bool) {
    && (forall k :: 0 <= k < |items| ==> ValidItem(items[k], canmulti))
    && (forall k :: 0 <= k < |items| - 1 ==> !items[k].end.EndOfString?)
  }

  /** More text can follow these items. */
  predicate Open(items: seq<Item>) {
    items != [] ==> !items[|items| - 1].end.EndOfString?
  }

  function RenderGlyph(g: Glyph): string {
    match g
    case Bare(c) => [c]
    case Escaped(c) => ['\\', c]
  }

  function RenderValue(gs: seq<Glyph>): string {
    if gs == [] then "" else RenderGlyph(gs[0]) + RenderValue(gs[1..])
  }

  function RenderEnd(e: End): string {
    match e
    case Slash => "/"
    case Plus => "+"
    case EndOfString => ""
  }

  function RenderItem(i: Item): string {
    i.typ + "=" + (RenderValue(i.value) + RenderEnd(i.end))
  }

  function Render(items: seq<Item>): string {
    if items == [] then "" else RenderItem(items[0]) + Render(items[1..])
  }

  function Text(gs: seq<Glyph>): string {
    if gs == [] then "" else [gs[0].c] + Text(gs[1..])
  }

  function Meaning(items: seq<Item>, joined: bool): seq<Attribute> {
    if items == [] then []
    else [Attribute(items[0].typ, Text(items[0].value), joined)] + Meaning(items[1..], items[0].end.Plus?)
  }

  lemma {:induction false} ReadRenderedValue(gs: seq<Glyph>, tail: string, canmulti: bool)
    requires ValidGlyphs(gs, canmulti)
    ensures ReadValue(RenderValue(gs) + tail, canmulti) == PrependText(Text(gs), ReadValue(tail, canmulti))
  {
    var v := ReadValue(tail, canmulti);
    if gs == [] {
      assert RenderValue(gs) + tail == tail;
      assert v.Value? ==> "" + v.text == v.text;
    } else {
      var s := RenderValue(gs[1..]) + tail;
      Assoc(RenderGlyph(gs[0]), RenderValue(gs[1..]), tail);
      ReadRenderedValue(gs[1..], tail, canmulti);
      ReadGlyph(gs[0], s, canmulti);
      if v.Value? {
        Assoc([gs[0].c], Text(gs[1..]), v.text);
      }
    }
  }

  lemma {:induction false} ReadGlyph(g: Glyph, s: string, canmulti: bool)
    requires ValidGlyph(g, canmulti)
    ensures ReadValue(RenderGlyph(g) + s, canmulti) == PrependText([g.c], ReadValue(s, canmulti))
  {
    var t := RenderGlyph(g) + s;
    assert t[|RenderGlyph(g)|..] == s;
  }

  lemma {:induction false} TypeLengthAt(s: string, n: nat)
    requires n < |s| && s[n] == '=' && forall k :: 0 <= k < n ==> s[k] != '='
    ensures TypeLength(s) == n
  {
  }

  lemma {:induction false} ReadEnd(e: End, tail: string, canmulti: bool)
    requires (e.Plus? ==> canmulti) && (e.EndOfString? ==> tail == "")
    ensures ReadValue(RenderEnd(e) + tail, canmulti) == Value("", tail, e.Plus?)
  {
    assert e.EndOfString? || (RenderEnd(e) + tail)[1..] == tail;
  }

  /** Reading what `RenderItem` wrote, whatever follows it. */
  lemma ReadRenderedItem(i: Item, tail: string, canmulti: bool)
    requires ValidItem(i, canmulti) && (i.end.EndOfString? ==> tail == "")
    ensures ReadAttribute(RenderItem(i) + tail, canmulti) == Read(i.typ, Text(i.value), tail, i.end.Plus?)
  {
    var n, v, ending := |i.typ|, RenderValue(i.value), RenderEnd(i.end) + tail;
    var s := i.typ + ("=" + (v + ending));
    assert RenderItem(i) + tail == s by {
      Assoc(i.typ + "=", v + RenderEnd(i.end), tail);
      Assoc(v, RenderEnd(i.end), tail);
      Assoc(i.typ, "=", v + ending);
    }
    assert s[..n] == i.typ && s[n] == '=' && s[n + 1..] == v + ending;
    TypeLengthAt(s, n);
    ReadRenderedValue(i.value, ending, canmulti);
    ReadEnd(i.end, tail, canmulti);
    assert Text(i.value) + "" == Text(i.value);
  }

  /** The attributes read from a text that starts with these items. */
  lemma {:induction false} ReadRendered(items: seq<Item>, rest: string, joined: bool, canmulti: bool)
    requires ValidItems(items, canmulti) && (rest != "" ==> Open(items))
    ensures rest == "" ==> Attributes(Render(items) + rest, joined, canmulti) == Some(Meaning(items, joined))
    ensures rest != "" && ReadAttribute(rest, canmulti).Broken? ==>
      Attributes(Render(items) + rest, joined, canmulti).None?
  {
    if items == [] {
      assert Render(items) + rest == rest;
    } else {
      var later, tail := items[1..], Render(items[1..]) + rest;
      assert items[0].end.EndOfString? ==> later == [];
      assert later != [] ==> later[|later| - 1] == items[|items| - 1];
      Assoc(RenderItem(items[0]), Render(later), rest);
      ReadRenderedItem(items[0], tail, canmulti);
      ReadRendered(later, rest, items[0].end.Plus?, canmulti);
    }
  }

  /** Reading inverts writing, for every list of attributes and every choice of characters to escape. */
  lemma {:induction false} AttributesRender(items: seq<Item>, joined: bool, canmulti: bool)
    requires ValidItems(items, canmulti)
    ensures Attributes(Render(items), joined, canmulti) == Some(Meaning(items, joined))
  {
    ReadRendered(items, "", joined, canmulti);
    assert Render(items) + "" == Render(items);
  }

  // ----- printing a list of attributes

  function Quote(value: string, canmulti: bool): seq<Glyph> {
    if value == "" then [] else [QuoteChar(value[0], canmulti)] + Quote(value[1..], canmulti)
  }

  function QuoteChar(c: char, canmulti: bool): Glyph {
    if c == '/' || c == '\\' || (canmulti && c == '+') then Escaped(c) else Bare(c)
  }

  function ToItems(attrs: seq<Attribute>, canmulti: bool): seq<Item> {
    if attrs == [] then []
    else [Item(attrs[0].typ, Quote(attrs[0].value, canmulti), EndBefore(attrs[1..]))] + ToItems(attrs[1..], canmulti)
  }

  function EndBefore(later: seq<Attribute>): End {
    if later == [] then EndOfString else if later[0].joined then Plus else Slash
  }

  function Print(attrs: seq<Attribute>, canmulti: bool): string {
    "/" + Render(ToItems(attrs, canmulti))
  }

  predicate Printable(attrs: seq<Attribute>, canmulti: bool) {
    forall k :: 0 <= k < |attrs| ==> ValidType(attrs[k].typ) && (attrs[k].joined ==> canmulti)
  }

  lemma {:induction false} QuoteText(value: string, canmulti: bool)
    ensures ValidGlyphs(Quote(value, canmulti), canmulti) && Text(Quote(value, canmulti)) == value
  {
    if value != "" {
      QuoteText(value[1..], canmulti);
      assert value == [value[0]] + value[1..];
    }
  }

  lemma {:induction false} ToItemsValid(attrs: seq<Attribute>, canmulti: bool)
    requires Printable(attrs, canmulti)
    ensures ValidItems(ToItems(attrs, canmulti), canmulti) && |ToItems(attrs, canmulti)| == |attrs|
  {
    if attrs != [] {
      ToItemsValid(attrs[1..], canmulti);
      QuoteText(attrs[0].value, canmulti);
    }
  }

  lemma {:induction false} ToItemsMeaning(attrs: seq<Attribute>, canmulti: bool)
    requires Printable(attrs, canmulti)
    ensures Meaning(ToItems(attrs, canmulti), attrs != [] && attrs[0].joined) == attrs
  {
    if attrs != [] {
      ToItemsMeaning(attrs[1..], canmulti);
      QuoteText(attrs[0].value, canmulti);
      assert ToItems(attrs, canmulti)[1..] == ToItems(attrs[1..], canmulti);
      assert attrs == [attrs[0]] + attrs[1..];
    }
  }

  /** Printing any list of attributes and reading it gives the list back. */
  lemma {:induction false} PrintAttributes(attrs: seq<Attribute>, canmulti: bool)
    requires Printable(attrs, canmulti) && (attrs != [] ==> !attrs[0].joined)
    ensures Attributes(Print(attrs, canmulti)[1..], false, canmulti) == Some(attrs)
  {
    ToItemsValid(attrs, canmulti);
    ToItemsMeaning(attrs, canmulti);
    AttributesRender(ToItems(attrs, canmulti), false, canmulti);
    assert Print(attrs, canmulti)[1..] == Render(ToItems(attrs, canmulti));
  }

  /** `e` is the entry for the attribute `a`. */
  predicate Stores(e: Entry, a: Attribute, known: Known) {
    !Skipped(a, known) && e == Entry(known(a.typ).value, a.value, a.joined)
  }

  /** The name parsed from a printed list has one entry for each attribute, in order. */
  lemma {:induction false} ParsePrint(attrs: seq<Attribute>, canmulti: bool, known: Known, accepts: Accepts)
    requires Printable(attrs, canmulti) && (attrs != [] ==> !attrs[0].joined)
    requires Storable(Entries(attrs, known), accepts)
    requires forall k :: 0 <= k < |attrs| ==> !Skipped(attrs[k], known)
    ensures var r := Parse(Print(attrs, canmulti), canmulti, known, accepts);
      r.Some? && |r.value| == |attrs| && forall k :: 0 <= k < |attrs| ==> Stores(r.value[k], attrs[k], known)
  {
    PrintAttributes(attrs, canmulti);
    EntriesOneByOne(attrs, known);
  }

  lemma {:induction false} EntriesOneByOne(attrs: seq<Attribute>, known: Known)
    requires forall k :: 0 <= k < |attrs| ==> !Skipped(attrs[k], known)
    ensures var es := Entries(attrs, known);
      |es| == |attrs| && forall k :: 0 <= k < |attrs| ==> Stores(es[k], attrs[k], known)
  {
    if attrs != [] {
      EntriesOneByOne(attrs[1..], known);
    }
  }

  // ----- attributes that are left out

  /** The positions of the attributes with a known type and a value, in order and all of them. */
  ghost predicate Wanted(at: seq<nat>, attrs: seq<Attribute>, known: Known) {
    && (forall j, k :: 0 <= j < k < |at| ==> at[j] < at[k])
    && (forall k :: 0 <= k < |at| ==> at[k] < |attrs|)
    && forall i :: 0 <= i < |attrs| ==> (i in at <==> known(attrs[i].typ).Some? && attrs[i].value != "")
  }

  /** One entry for each position. */
  ghost predicate EntriesAre(es: seq<Entry>, at: seq<nat>, attrs: seq<Attribute>, known: Known) {
    |es| == |at| && forall k :: 0 <= k < |at| ==>
      && at[k] < |attrs| && known(attrs[at[k]].typ).Some?
      && es[k] == Entry(known(attrs[at[k]].typ).value, attrs[at[k]].value, attrs[at[k]].joined)
  }

  lemma WantedNext(at: seq<nat>, before: seq<Attribute>, a: Attribute, known: Known)
    requires Wanted(at, before, known)
    ensures Wanted(if Skipped(a, known) then at else at + [|before|], before + [a], known)
  {
    var attrs := before + [a];
    assert |before| !in at;
    forall i | 0 <= i < |before|
      ensures attrs[i] == before[i]
    {
    }
  }

  lemma EntriesNext(es: seq<Entry>, at: seq<nat>, before: seq<Attribute>, a: Attribute, known: Known)
    requires EntriesAre(es, at, before, known)
    ensures EntriesAre(es + EntryOf(a, known), if Skipped(a, known) then at else at + [|before|], before + [a], known)
  {
  }

  lemma {:induction false} WantedMore(at0: seq<nat>, before: seq<Attribute>, a: Attribute, known: Known)
    returns (at: seq<nat>)
    requires Wanted(at0, before, known) && EntriesAre(Entries(before, known), at0, before, known)
    ensures Wanted(at, before + [a], known) && EntriesAre(Entries(before + [a], known), at, before + [a], known)
  {
    at := if Skipped(a, known) then at0 else at0 + [|before|];
    WantedNext(at0, before, a, known);
    EntriesNext(Entries(before, known), at0, before, a, known);
    EntriesAppend(before, a, known);
  }

  lemma {:induction false} WantedEntries(attrs: seq<Attribute>, known: Known) returns (at: seq<nat>)
    ensures Wanted(at, attrs, known) && EntriesAre(Entries(attrs, known), at, attrs, known)
  {
    if attrs == [] {
      return [];
    }
    var n := |attrs| - 1;
    at := WantedEntries(attrs[..n], known);
    at := WantedMore(at, attrs[..n], attrs[n], known);
    assert attrs == attrs[..n] + [attrs[n]];
  }

  lemma StorableExactly(es: seq<Entry>, at: seq<nat>, attrs: seq<Attribute>, known: Known, accepts: Accepts)
    requires Wanted(at, attrs, known) && EntriesAre(es, at, attrs, known)
    ensures Storable(es, accepts) <==>
      forall i :: 0 <= i < |attrs| && known(attrs[i].typ).Some? && attrs[i].value != "" ==>
        accepts(known(attrs[i].typ).value, attrs[i].value)
  {
    if Storable(es, accepts) {
      forall i | 0 <= i < |attrs| && known(attrs[i].typ).Some? && attrs[i].value != ""
        ensures accepts(known(attrs[i].typ).value, attrs[i].value)
      {
        assert i in at;
        var k :| 0 <= k < |at| && at[k] == i;
        assert accepts(es[k].nid, es[k].value);
      }
    } else {
      var k :| 0 <= k < |es| && !accepts(es[k].nid, es[k].value);
      assert at[k] in at;
    }
  }

  /**
   A printed list is refused exactly when an attribute with a known type and a value cannot be stored; otherwise
   the name has an entry for each of these attributes, in order, and none for the others.
   */
  lemma ParseListed(attrs: seq<Attribute>, canmulti: bool, known: Known, accepts: Accepts) returns (at: seq<nat>)
    requires Printable(attrs, canmulti) && (attrs != [] ==> !attrs[0].joined)
    ensures Wanted(at, attrs, known) && Print(attrs, canmulti)[..1] == "/"
    ensures var r := Parse(Print(attrs, canmulti), canmulti, known, accepts);
      && (r.Some? <==> forall i :: 0 <= i < |attrs| && known(attrs[i].typ).Some? && attrs[i].value != "" ==>
                         accepts(known(attrs[i].typ).value, attrs[i].value))
      && (r.Some? ==> EntriesAre(r.value, at, attrs, known))
  {
    PrintAttributes(attrs, canmulti);
    at := WantedEntries(attrs, known);
    StorableExactly(Entries(attrs, known), at, attrs, known, accepts);
  }

  predicate Ordinary(c: char) {
    c != '/' && c != '\\' && c != '+'
  }

  /** A slash ends an attribute, a plus sign joins the next one, and a backslash quotes one character. */
  lemma {:induction false} WrittenOut(typ: string, other: string, c: char, d: char, e: char)
    requires ValidType(typ) && ValidType(other) && Ordinary(c) && Ordinary(e)
    ensures Attributes(typ + "=" + [c, '\\', d, '+'] + (other + "=" + [e, '/']), false, true) ==
      Some([Attribute(typ, [c, d], false), Attribute(other, [e], true)])
  {
    var first, second := Item(typ, [Bare(c), Escaped(d)], Plus), Item(other, [Bare(e)], Slash);
    TwoGlyphs(Bare(c), Escaped(d));
    assert [c] + ['\\', d] + "+" == [c, '\\', d, '+'];
    OneGlyph(Bare(e));
    assert [e] + "/" == [e, '/'];
    TwoItems(first, second);
    AttributesRender([first, second], false, true);
  }

  /** Where multiple values are not read, a plus sign is a character like others. */
  lemma {:induction false} PlainPlus(typ: string, c: char)
    requires ValidType(typ) && Ordinary(c)
    ensures Attributes(typ + "=" + [c, '+', '/'], false, false) == Some([Attribute(typ, [c, '+'], false)])
  {
    var only := Item(typ, [Bare(c), Bare('+')], Slash);
    TwoGlyphs(Bare(c), Bare('+'));
    assert [c] + ['+'] + "/" == [c, '+', '/'];
    OneItem(only, false);
    AttributesRender([only], false, false);
  }

  lemma {:induction false} OneGlyph(g: Glyph)
    ensures RenderValue([g]) == RenderGlyph(g) && Text([g]) == [g.c]
  {
    assert [g][1..] == [];
  }

  lemma {:induction false} TwoGlyphs(g: Glyph, h: Glyph)
    ensures RenderValue([g, h]) == RenderGlyph(g) + RenderGlyph(h) && Text([g, h]) == [g.c, h.c]
  {
    assert [g, h][1..] == [h];
    OneGlyph(h);
  }

  lemma {:induction false} OneItem(i: Item, joined: bool)
    ensures Render([i]) == RenderItem(i)
    ensures Meaning([i], joined) == [Attribute(i.typ, Text(i.value), joined)]
  {
    assert [i][1..] == [];
    NoChange(RenderItem(i));
  }

  lemma {:induction false} TwoItems(i: Item, j: Item)
    ensures Render([i, j]) == RenderItem(i) + RenderItem(j)
    ensures Meaning([i, j], false) ==
      [Attribute(i.typ, Text(i.value), false), Attribute(j.typ, Text(j.value), i.end.Plus?)]
  {
    assert [i, j][1..] == [j];
    OneItem(j, i.end.Plus?);
  }

  // ----- which texts are refused

  /** Every text is a list of attributes followed by nothing, or by an attribute that cannot be read. */
  lemma {:induction false} Scan(s: string, canmulti: bool) returns (items: seq<Item>, rest: string)
    ensures ValidItems(items, canmulti) && s == Render(items) + rest
    ensures rest != "" ==> ReadAttribute(rest, canmulti).Broken? && Open(items)
    decreases |s|
  {
    if s == "" || ReadAttribute(s, canmulti).Broken? {
      return [], s;
    }
    var item, tail := ScanItem(s, canmulti);
    var more: seq<Item>;
    if item.end.EndOfString? {
      more, rest := [], "";
    } else {
      more, rest := Scan(tail, canmulti);
    }
    items := [item] + more;
    ScanMore(item, more, rest, canmulti);
    RenderMore(item, more, rest);
  }

  lemma {:induction false} ScanMore(item: Item, more: seq<Item>, rest: string, canmulti: bool)
    requires ValidItem(item, canmulti) && ValidItems(more, canmulti)
    requires item.end.EndOfString? ==> more == [] && rest == ""
    requires rest != "" ==> Open(more)
    ensures ValidItems([item] + more, canmulti) && (rest != "" ==> Open([item] + more))
  {
  }

  lemma {:induction false} RenderMore(item: Item, more: seq<Item>, rest: string)
    ensures RenderItem(item) + (Render(more) + rest) == Render([item] + more) + rest
  {
    assert ([item] + more)[1..] == more;
    Assoc(RenderItem(item), Render(more), rest);
  }

  lemma ScanItem(s: string, canmulti: bool) returns (item: Item, tail: string)
    requires ReadAttribute(s, canmulti).Read?
    ensures ValidItem(item, canmulti) && s == RenderItem(item) + tail && |tail| < |s|
    ensures item.end.EndOfString? ==> tail == ""
  {
    var n := TypeLength(s);
    var gs, end;
    gs, end, tail := ScanValue(s[n + 1..], canmulti);
    item := Item(s[..n], gs, end);
    assert s == (s[..n] + "=") + s[n + 1..];
    Assoc(s[..n] + "=", RenderValue(gs) + RenderEnd(end), tail);
  }

  lemma {:induction false} ScanValue(s: string, canmulti: bool) returns (gs: seq<Glyph>, end: End, tail: string)
    requires ReadValue(s, canmulti).Value?
    ensures ValidGlyphs(gs, canmulti) && s == (RenderValue(gs) + RenderEnd(end)) + tail
    ensures (end.Plus? ==> canmulti) && (end.EndOfString? ==> tail == "")
    decreases |s|
  {
    if s == "" {
      return [], EndOfString, "";
    }
    if s[0] == '/' || (canmulti && s[0] == '+') {
      gs, end, tail := [], if s[0] == '/' then Slash else Plus, s[1..];
      assert s == ("" + RenderEnd(end)) + tail;
      return;
    }
    var g := if s[0] == '\\' then Escaped(s[1]) else Bare(s[0]);
    var n := |RenderGlyph(g)|;
    var hs;
    hs, end, tail := ScanValue(s[n..], canmulti);
    gs := [g] + hs;
    assert s == RenderGlyph(g) + s[n..];
    assert gs[1..] == hs;
    Assoc(RenderGlyph(g), RenderValue(hs), RenderEnd(end));
    Assoc(RenderGlyph(g), RenderValue(hs) + RenderEnd(end), tail);
  }

  /** A text is refused for its form exactly when, after some attributes, one has no '=' or ends in a backslash. */
  lemma {:induction false} AttributesFailExactly(s: string, canmulti: bool)
    ensures Attributes(s, false, canmulti).None? <==>
      exists items: seq<Item>, rest: string ::
        && ValidItems(items, canmulti) && Open(items) && s == Render(items) + rest
        && rest != "" && ReadAttribute(rest, canmulti).Broken?
  {
    var items, rest := Scan(s, canmulti);
    ReadRendered(items, rest, false, canmulti);
    forall items: seq<Item>, rest: string |
      && ValidItems(items, canmulti) && Open(items) && s == Render(items) + rest
      && rest != "" && ReadAttribute(rest, canmulti).Broken?
      ensures Attributes(s, false, canmulti).None?
    {
      ReadRendered(items, rest, false, canmulti);
    }
  }

  // ----- the routine

  /** Collects a type into `work`: from `cp` to the next '=' or the end. */
  method CopyType(s: string, cp0: nat, work: array<char>) returns (cp: nat, bp: nat)
    requires cp0 <= |s| && |s| - cp0 < work.Length
    modifies work
    ensures bp == TypeLength(s[cp0..]) && cp == cp0 + bp <= |s|
    ensures work[..bp] == s[cp0..cp]
  {
    cp, bp := cp0, 0;
    while cp < |s| && s[cp] != '='
      invariant bp == cp - cp0 && cp0 <= cp <= |s|
      invariant work[..bp] == s[cp0..cp]
      invariant forall k :: cp0 <= k < cp ==> s[k] != '='
    {
      work[bp] := s[cp];
      assert work[..bp + 1] == s[cp0..cp] + [s[cp]];
      bp, cp := bp + 1, cp + 1;
    }
    TypeEnds(s[cp0..], bp);
  }

  lemma {:induction false} TypeEnds(s: string, n: nat)
    requires n <= |s| && (n == |s| || s[n] == '=') && forall k :: 0 <= k < n ==> s[k] != '='
    ensures TypeLength(s) == n
  {
  }

  /** `ReadValue` by position, as the routine's pointer moves. */
  function ReadValueAt(s: string, cp: nat, canmulti: bool): ValueRead
    requires cp <= |s|
    decreases |s| - cp
  {
    if cp == |s| then Value("", "", false)
    else if s[cp] == '/' || (canmulti && s[cp] == '+') then Value("", s[cp + 1..], s[cp] != '/')
    else if s[cp] != '\\' then PrependText([s[cp]], ReadValueAt(s, cp + 1, canmulti))
    else if cp + 1 == |s| then Dangling
    else PrependText([s[cp + 1]], ReadValueAt(s, cp + 2, canmulti))
  }

  lemma {:induction false} ReadValueAtIsReadValue(s: string, cp: nat, canmulti: bool)
    requires cp <= |s|
    ensures ReadValueAt(s, cp, canmulti) == ReadValue(s[cp..], canmulti)
    decreases |s| - cp
  {
    if cp < |s| {
      var n := if s[cp] == '\\' then 1 else 0;
      if cp + n < |s| {
        assert s[cp..][n + 1..] == s[cp + n + 1..];
        ReadValueAtIsReadValue(s, cp + n + 1, canmulti);
      }
    }
  }

  lemma PrependTwice(text: string, c: char, v: ValueRead)
    ensures PrependText(text, PrependText([c], v)) == PrependText(text + [c], v)
  {
    if v.Value? {
      Assoc(text, [c], v.text);
    }
  }

  lemma PrependNothing(v: ValueRead)
    ensures PrependText("", v) == v
  {
    assert v.Value? ==> "" + v.text == v.text;
  }

  /** The value that starts at `cp0` begins with `text` and goes on at `cp`. */
  predicate Copied(s: string, cp0: nat, canmulti: bool, text: string, cp: nat)
    requires cp0 <= |s|
  {
    cp <= |s| && ReadValueAt(s, cp0, canmulti) == PrependText(text, ReadValueAt(s, cp, canmulti))
  }

  lemma CopiedNothing(s: string, cp0: nat, canmulti: bool)
    requires cp0 <= |s|
    ensures Copied(s, cp0, canmulti, "", cp0)
  {
    PrependNothing(ReadValueAt(s, cp0, canmulti));
  }

  lemma {:induction false} CopiedNext(s: string, cp0: nat, canmulti: bool, text: string, cp: nat)
    requires cp0 <= |s| && cp < |s| && Copied(s, cp0, canmulti, text, cp)
    requires s[cp] != '/' && !(canmulti && s[cp] == '+')
    ensures var n := if s[cp] == '\\' then 1 else 0;
      if cp + n < |s| then Copied(s, cp0, canmulti, text + [s[cp + n]], cp + n + 1)
      else ReadValueAt(s, cp0, canmulti) == Dangling
  {
    var n := if s[cp] == '\\' then 1 else 0;
    if cp + n < |s| {
      PrependTwice(text, s[cp + n], ReadValueAt(s, cp + n + 1, canmulti));
    }
  }

  lemma {:induction false} CopiedAll(s: string, cp0: nat, canmulti: bool, text: string, cp: nat)
    requires cp0 <= |s| && Copied(s, cp0, canmulti, text, cp)
    requires cp < |s| ==> s[cp] == '/' || (canmulti && s[cp] == '+')
    ensures ReadValueAt(s, cp0, canmulti) ==
      if cp < |s| then Value(text, s[cp + 1..], s[cp] != '/') else Value(text, s[cp..], false)
  {
    assert text + "" == text;
  }

  /** One character of a value, with its escape, to `work[bp]`; false when a backslash ends the string. */
  method CopyGlyph(s: string, cp0: nat, canmulti: bool, work: array<char>, bp: nat, cp1: nat, ghost before: string,
                   ghost text: string) returns (ok: bool, cp: nat, ghost text': string)
    requires cp0 <= cp1 < |s| && Copied(s, cp0, canmulti, text, cp1) && bp < work.Length
    requires s[cp1] != '/' && !(canmulti && s[cp1] == '+') && work[..bp] == before + text
    modifies work
    ensures ok ==> cp1 < cp <= |s| && work[..bp + 1] == before + text' && Copied(s, cp0, canmulti, text', cp)
    ensures !ok ==> cp == |s| && work[..] == old(work[..]) && ReadValueAt(s, cp0, canmulti) == Dangling
  {
    CopiedNext(s, cp0, canmulti, text, cp1);
    cp, text' := cp1, text;
    if s[cp] == '\\' {
      cp := cp + 1;
      if cp == |s| {
        return false, cp, text;
      }
    }
    work[bp] := s[cp];
    Assoc(before, text, [s[cp]]);
    ok, text', cp := true, text + [s[cp]], cp + 1;
  }

  /** Collects a value into `work` from `bp0` on, undoing escapes; false when a backslash ends the string. */
  method CopyValue(s: string, cp0: nat, canmulti: bool, work: array<char>, bp0: nat)
    returns (ok: bool, cp: nat, bp: nat, plus: bool)
    requires cp0 <= |s| && bp0 + (|s| - cp0) < work.Length
    modifies work
    ensures work[..bp0] == old(work[..bp0])
    ensures cp <= |s| && bp0 <= bp < work.Length
    ensures ReadValueAt(s, cp0, canmulti) == if ok then Value(work[bp0..bp], s[cp..], plus) else Dangling
  {
    cp, bp, plus := cp0, bp0, false;
    ghost var before, text := work[..bp0], "";
    CopiedNothing(s, cp0, canmulti);
    while cp < |s| && s[cp] != '/' && !(canmulti && s[cp] == '+')
      invariant cp0 <= cp <= |s| && bp0 <= bp && bp - bp0 <= cp - cp0
      invariant work[..bp] == before + text && Copied(s, cp0, canmulti, text, cp)
    {
      ok, cp, text := CopyGlyph(s, cp0, canmulti, work, bp, cp, before, text);
      if !ok {
        assert work[..bp0] == before;
        return;
      }
      bp := bp + 1;
    }
    CopiedAll(s, cp0, canmulti, text, cp);
    assert work[bp0..bp] == text && work[..bp0] == before;
    if cp < |s| {
      plus := s[cp] != '/';
      cp := cp + 1;
    }
    ok := true;
  }

  /** The entries `n` made so far, with those of the rest of the text, are the entries of the whole. */
  ghost predicate Parsed(
    s: string, cp: nat, joined: bool, canmulti: bool, known: Known, attrs: seq<Attribute>, n: seq<Entry>)
    requires 1 <= cp <= |s|
  {
    && Attributes(s[1..], false, canmulti) == Prepend(attrs, Attributes(s[cp..], joined, canmulti))
    && n == Entries(attrs, known)
  }

  lemma ParsedNothing(s: string, canmulti: bool, known: Known)
    requires s != ""
    ensures Parsed(s, 1, false, canmulti, known, [], [])
  {
    var later := Attributes(s[1..], false, canmulti);
    assert later.Some? ==> [] + later.value == later.value;
  }

  lemma ParsedOne(
    s: string, cp: nat, next: nat, joined: bool, canmulti: bool, known: Known, attrs: seq<Attribute>, n: seq<Entry>,
    a: Attribute, plus: bool)
    requires 1 <= cp < |s| && next <= |s| && Parsed(s, cp, joined, canmulti, known, attrs, n) && a.joined == joined
    requires ReadAttribute(s[cp..], canmulti) == Read(a.typ, a.value, s[next..], plus)
    ensures cp < next && Parsed(s, next, plus, canmulti, known, attrs + [a], n + EntryOf(a, known))
  {
    var later := Attributes(s[next..], plus, canmulti);
    if later.Some? {
      Assoc(attrs, [a], later.value);
    }
    EntriesAppend(attrs, a, known);
  }

  lemma {:induction false} EntriesAppend(attrs: seq<Attribute>, a: Attribute, known: Known)
    ensures Entries(attrs + [a], known) == Entries(attrs, known) + EntryOf(a, known)
  {
    if attrs == [] {
      assert attrs + [a] == [a];
    } else {
      EntriesAppend(attrs[1..], a, known);
      assert (attrs + [a])[1..] == attrs[1..] + [a];
      Assoc(EntryOf(attrs[0], known), Entries(attrs[1..], known), EntryOf(a, known));
    }
  }

  lemma {:induction false} EntriesSplit(attrs: seq<Attribute>, later: seq<Attribute>, known: Known)
    ensures Entries(attrs + later, known) == Entries(attrs, known) + Entries(later, known)
  {
    if attrs == [] {
      assert attrs + later == later;
    } else {
      EntriesSplit(attrs[1..], later, known);
      assert (attrs + later)[1..] == attrs[1..] + later;
      Assoc(EntryOf(attrs[0], known), Entries(attrs[1..], known), Entries(later, known));
    }
  }

  lemma ParsedBroken(
    s: string, cp: nat, joined: bool, canmulti: bool, known: Known, accepts: Accepts, attrs: seq<Attribute>,
    n: seq<Entry>)
    requires 1 <= cp < |s| && s[0] == '/' && Parsed(s, cp, joined, canmulti, known, attrs, n)
    requires ReadAttribute(s[cp..], canmulti).Broken?
    ensures Parse(s, canmulti, known, accepts).None?
  {
  }

  lemma ParsedRefused(
    s: string, cp: nat, joined: bool, canmulti: bool, known: Known, accepts: Accepts, attrs: seq<Attribute>,
    n: seq<Entry>)
    requires 1 <= cp <= |s| && s[0] == '/' && Parsed(s, cp, joined, canmulti, known, attrs, n)
    requires !Storable(n, accepts)
    ensures Parse(s, canmulti, known, accepts).None?
  {
    var later := Attributes(s[cp..], joined, canmulti);
    if later.Some? {
      EntriesSplit(attrs, later.value, known);
      var k :| 0 <= k < |n| && !accepts(n[k].nid, n[k].value);
      assert (n + Entries(later.value, known))[k] == n[k];
    }
  }

  lemma ParsedAll(
    s: string, joined: bool, canmulti: bool, known: Known, accepts: Accepts, attrs: seq<Attribute>, n: seq<Entry>)
    requires 1 <= |s| && s[0] == '/' && Parsed(s, |s|, joined, canmulti, known, attrs, n) && Storable(n, accepts)
    ensures Parse(s, canmulti, known, accepts) == Some(n)
  {
    assert attrs + [] == attrs;
  }

  /** `ReadAttribute` by position. */
  function ReadAttributeAt(s: string, cp: nat, canmulti: bool): AttributeRead
    requires cp <= |s|
  {
    var equals := cp + TypeLength(s[cp..]);
    if equals == |s| then Broken
    else
      match ReadValueAt(s, equals + 1, canmulti)
      case Dangling => Broken
      case Value(text, rest, plus) => Read(s[cp..equals], text, rest, plus)
  }

  lemma ReadAttributeAtIsReadAttribute(s: string, cp: nat, canmulti: bool)
    requires cp <= |s|
    ensures ReadAttributeAt(s, cp, canmulti) == ReadAttribute(s[cp..], canmulti)
  {
    var n := TypeLength(s[cp..]);
    if cp + n < |s| {
      assert s[cp..][n + 1..] == s[cp + n + 1..] && s[cp..][..n] == s[cp..cp + n];
      ReadValueAtIsReadValue(s, cp + n + 1, canmulti);
    }
  }

  /** Reads the value behind the equals sign, which comes after a type of `bp` characters. */
  method ReadRest(s: string, equals: nat, canmulti: bool, work: array<char>, bp: nat)
    returns (ok: bool, value: string, cp: nat, plus: bool)
    requires equals < |s| && bp + (|s| - equals) < work.Length
    modifies work
    ensures cp <= |s| && work[..bp] == old(work[..bp])
    ensures ReadValueAt(s, equals + 1, canmulti) == if ok then Value(value, s[cp..], plus) else Dangling
  {
    ghost var before := work[..bp];
    work[bp] := '\0';
    assert work[..bp + 1] == before + ['\0'];
    var end;
    ok, cp, end, plus := CopyValue(s, equals + 1, canmulti, work, bp + 1);
    assert work[..bp] == work[..bp + 1][..bp] == before;
    value := work[bp + 1..end];
    work[end] := '\0';
  }

  /** Reads one attribute through the buffer `work`. */
  method ReadItem(s: string, cp0: nat, canmulti: bool, work: array<char>)
    returns (ok: bool, typ: string, value: string, cp: nat, plus: bool)
    requires cp0 < |s| && |s| - cp0 < work.Length
    modifies work
    ensures cp <= |s|
    ensures ReadAttributeAt(s, cp0, canmulti) == if ok then Read(typ, value, s[cp..], plus) else Broken
  {
    var equals, bp := CopyType(s, cp0, work);
    if equals == |s| {
      return false, "", "", equals, false;
    }
    ok, value, cp, plus := ReadRest(s, equals, canmulti, work, bp);
    typ := work[..bp];
  }

  method ParseName(s: string, canmulti: bool, known: Known, accepts: Accepts) returns (r: Option<seq<Entry>>)
    ensures r == Parse(s, canmulti, known, accepts)
  {
    if s == "" || s[0] != '/' {
      return None;
    }
    var cp, nextIsMulti := 1, false;
    var n: seq<Entry> := [];
    var work := new char[|s|];
    ghost var attrs: seq<Attribute> := [];
    ParsedNothing(s, canmulti, known);
    while cp < |s|
      invariant 1 <= cp <= |s| && Parsed(s, cp, nextIsMulti, canmulti, known, attrs, n) && Storable(n, accepts)
    {
      var isMulti := nextIsMulti;
      var ok, typ, value, next, plus := ReadItem(s, cp, canmulti, work);
      ReadAttributeAtIsReadAttribute(s, cp, canmulti);
      if !ok {
        ParsedBroken(s, cp, isMulti, canmulti, known, accepts, attrs, n);
        return None;
      }
      ghost var a := Attribute(typ, value, isMulti);
      ParsedOne(s, cp, next, isMulti, canmulti, known, attrs, n, a, plus);
      attrs := attrs + [a];
      cp, nextIsMulti := next, plus;
      var nid := known(typ);
      if nid.None? || value == "" {
        assert EntryOf(a, known) == [];
        continue;
      }
      n := n + [Entry(nid.value, value, isMulti)];
      if !accepts(nid.value, value) {
        assert !accepts(n[|n| - 1].nid, n[|n| - 1].value);
        ParsedRefused(s, cp, nextIsMulti, canmulti, known, accepts, attrs, n);
        return None;
      }
    }
    ParsedAll(s, nextIsMulti, canmulti, known, accepts, attrs, n);
    r := Some(n);
  }
}
