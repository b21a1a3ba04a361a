/**
 * The text that the printer writes, in the terms of the grammar: one spelling for each int and each
 * string, and a fixed layout around the values.
 */
module Layout {
  import opened Bytes
  import opened JsonValue
  import opened Grammar
  import opened Reading
  import Rendering

  // What the printer may write, byte by byte.

  /** A minus or none, and a single zero or a digit from 1 to 9 and further digits; zero has no minus. */
  predicate PlainInt(n: Numeral) {
    && Digits(n.whole) && n.whole != [] && (|n.whole| > 1 || n.minus ==> n.whole[0] != 48)
    && !n.point && n.fraction == [] && n.scaling.Unscaled?
  }

  /** A byte for itself, a two-byte escape, or four digits in lower case for the other control bytes. */
  predicate ShortestUnit(u: Unit) {
    match u
    case Plain(b) => 32 <= b && b != 34 && b != 92
    case Short(letter) => letter in {34, 92, 98, 102, 110, 114, 116}
    case Code(t) =>
      && FourHex(t) && 0 < CodeOf(t) < 32 && CodeOf(t) !in {8, 9, 10, 12, 13}
      && forall i :: 0 <= i < 4 ==> !(65 <= t[i] <= 70)
    case Pair(_, _) => false
    case NoDigits(_) => false
    case Dangling => false
  }

  predicate Shortest(us: seq<Unit>) { us == [] || (ShortestUnit(us[0]) && Shortest(us[1..])) }

  /** A new line behind as many tabs as the depth, when formatted. */
  function Line(format: bool, depth: nat): seq<byte> { if format then [10] + seq(depth, _ => 9) else [] }

  /** The text of a value inside `depth` arrays and objects, laid out as the printer does. */
  predicate Laid(c: Syntax, format: bool, depth: nat) {
    match c
    case NumberWord(n) => PlainInt(n)
    case StringWord(us) => Shortest(us)
    case ArrayWord(inner, items) => inner == [] && LaidItems(items, format, depth + 1, [])
    case ObjectWord(inner, entries) =>
      inner == (if entries == [] then Line(format, depth) else []) && LaidEntries(entries, format, depth)
    case _ => true
  }

  /** A space after each comma, when formatted. */
  predicate LaidItems(items: seq<Item>, format: bool, depth: nat, before: seq<byte>) {
    items != [] ==>
      && items[0].before == before && items[0].after == []
      && Laid(items[0].value, format, depth) && LaidItems(items[1..], format, depth, if format then [32] else [])
  }

  /** Each entry on its own line, a tab after its colon, and the closing brace on a line of its own. */
  predicate LaidEntries(entries: seq<Entry>, format: bool, depth: nat) {
    entries != [] ==>
      var x := entries[0];
      && x.before == Line(format, depth + 1) && x.beforeColon == [] && x.afterColon == (if format then [9] else [])
      && x.after == (if |entries| == 1 then Line(format, depth) else [])
      && Shortest(x.key) && Laid(x.value, format, depth + 1) && LaidEntries(entries[1..], format, depth)
  }

  // Numbers.

  lemma {:induction false} WorthIsPositive(t: seq<byte>)
    requires Digits(t) && t != [] && t[0] != 48
    ensures Worth(t) > 0
  {
    if |t| > 1 {
      WorthIsPositive(t[..|t| - 1]);
    }
  }

  /** Digits without a leading zero are those that `%d` writes for their worth. */
  lemma {:induction false} DigitsOfWorth(t: seq<byte>)
    requires Digits(t) && t != [] && (|t| > 1 ==> t[0] != 48)
    ensures Rendering.Digits(Worth(t)) == t
  {
    var front := t[..|t| - 1];
    if |t| > 1 {
      WorthIsPositive(front);
      DigitsOfWorth(front);
    } else {
      assert front == [];
    }
  }

  lemma {:induction false} WorthOfDigits(n: nat)
    ensures var t := Rendering.Digits(n); Digits(t) && t != [] && Worth(t) == n && (n > 0 ==> t[0] != 48)
    ensures n == 0 ==> Rendering.Digits(n) == [48]
  {
    if n >= 10 {
      var t := Rendering.Digits(n);
      WorthOfDigits(n / 10);
      assert t[..|t| - 1] == Rendering.Digits(n / 10);
    }
  }

  /** `IntText(n)` is the one plain int with the value `n`. */
  lemma PlainIntIsText(m: Numeral, n: int)
    requires PlainInt(m)
    ensures NumeralValue(m) == n as real <==> NumeralText(m) == Rendering.IntText(n)
    ensures NumeralValue(m) == n as real ==> (m.minus <==> n < 0)
  {
    var w := Worth(m.whole);
    ValueOfPlain(m);
    DigitsOfWorth(m.whole);
    if m.whole[0] != 48 { WorthIsPositive(m.whole); }
    TextOfPlain(m);
    if NumeralText(m) == Rendering.IntText(n) {
      var k := if n < 0 then -n else n;
      WorthOfDigits(k);
      assert Rendering.IntText(n)[0] == 45 <==> n < 0;
      assert n < 0 ==> Rendering.IntText(n)[1..] == Rendering.Digits(k);
      assert m.minus ==> NumeralText(m)[1..] == m.whole;
    }
  }

  lemma TextOfPlain(m: Numeral)
    requires PlainInt(m)
    ensures NumeralText(m) == if m.minus then [45] + m.whole else m.whole
    ensures NumeralText(m)[0] == 45 <==> m.minus
  {
    assert NumeralText(m) == (if m.minus then [45] else []) + m.whole + [] + [];
  }

  lemma ValueOfPlain(m: Numeral)
    requires PlainInt(m)
    ensures NumeralValue(m) == (if m.minus then -(Worth(m.whole) as real) else Worth(m.whole) as real)
  {
    assert m.whole + m.fraction == m.whole;
    assert Tens(0) == 1;
  }

  lemma IntIsPlain(n: int) returns (m: Numeral)
    ensures PlainInt(m) && Numeric(m) && NumeralValue(m) == n as real && NumeralText(m) == Rendering.IntText(n)
  {
    var t := Rendering.Digits(if n < 0 then -n else n);
    m := Numeral(n < 0, t, false, [], Unscaled);
    WorthOfDigits(if n < 0 then -n else n);
    ValueOfPlain(m);
    PlainIntIsText(m, n);
  }

  // Strings.

  /** A shortest unit is the escape of its one byte. */
  lemma UnitIsEscape(u: Unit) returns (c: cbyte)
    requires ShortestUnit(u)
    ensures Spells(u) && UnitBytes(u) == [c] && UnitText(u) == Rendering.EscapeByte(c)
  {
    match u
    case Plain(b) => c := b;
    case Short(letter) => c := Meant(letter);
    case Code(t) =>
      c := CodeOf(t);
      assert t == [t[0], t[1], t[2], t[3]];
  }

  lemma EscapeIsUnit(c: cbyte) returns (u: Unit)
    ensures ShortestUnit(u) && Spells(u) && UnitBytes(u) == [c]
  {
    if c in {34, 92} {
      u := Short(c);
    } else if c in {8, 9, 10, 12, 13} {
      u := Short(if c == 8 then 98 else if c == 9 then 116 else if c == 10 then 110 else if c == 12 then 102 else 114);
    } else if c < 32 {
      var t := [48, 48, 48 + c / 16, if c % 16 < 10 then 48 + c % 16 else 87 + c % 16];
      assert CodeOf(t) == c;
      u := Code(t);
    } else {
      u := Plain(c);
    }
  }

  lemma {:induction false} ShortestIsStrict(us: seq<Unit>)
    requires Shortest(us)
    ensures forall u <- us :: StrictUnit(u)
    ensures Spelling(us)
  {
    hide Spelling;
    if us != [] {
      ShortestIsStrict(us[1..]);
      assert us == [us[0]] + us[1..];
    }
    StrictIsSpelling(us);
  }

  /** The string in the shortest spelling is what its escape comes from. */
  lemma {:induction false} ShortestIsEscape(us: seq<Unit>)
    requires Shortest(us)
    ensures Spelling(us) && SpellingText(us) == Rendering.Escape(StringOf(us))
    ensures us != [] ==> StringOf(us) != []
  {
    hide ShortestUnit, Spells, UnitText, UnitBytes, Rendering.EscapeByte, Spelling, SpellingBytes, StringOf;
    ShortestIsStrict(us);
    if us != [] {
      var c := UnitIsEscape(us[0]);
      ShortestIsEscape(us[1..]);
      StringFirst(us, c);
    } else {
      NoString();
    }
  }

  lemma NoString()
    ensures Spelling([]) && StringOf([]) == []
  {
  }

  lemma StringFirst(us: seq<Unit>, c: cbyte)
    requires us != [] && Spells(us[0]) && Spelling(us) && Spelling(us[1..]) && UnitBytes(us[0]) == [c]
    ensures StringOf(us) == [c] + StringOf(us[1..])
  {
    hide Spells, UnitBytes, Closes;
    assert SpellingBytes(us) == [c] + SpellingBytes(us[1..]);
    assert SpellingBytes(us)[1..] == SpellingBytes(us[1..]);
  }

  lemma {:induction false} StringIsShortest(s: CString) returns (us: seq<Unit>)
    ensures Shortest(us) && Spelling(us) && StringOf(us) == s
  {
    hide ShortestUnit, Spells, UnitBytes, Spelling, StringOf;
    us := [];
    NoString();
    if s != [] {
      var u := EscapeIsUnit(s[0]);
      var rest := StringIsShortest(s[1..]);
      us := [u] + rest;
      assert us[1..] == rest;
      ShortestIsStrict(us);
      StringFirst(us, s[0]);
    }
  }

  lemma QuotedIsStringText(us: seq<Unit>)
    requires Shortest(us)
    ensures Spelling(us) && Quoted(us) == Rendering.StringText(StringOf(us))
  {
    hide Shortest, Spelling, SpellingText, StringOf, Rendering.Escape;
    ShortestIsEscape(us);
  }

  // Values.

  /** A text laid out like this is what the printer renders for its value. */
  lemma {:induction false} LaidIsRendered(c: Syntax, format: bool, depth: nat)
    requires Laid(c, format, depth) && Legible(c) && Printable(ValueOf(c))
    ensures TextOf(c) == Rendering.Render(ValueOf(c), format, depth)
    decreases c, 1
  {
    hide PlainInt, Shortest, NumeralText, NumeralValue, Quoted, StringOf, Rendering.StringText, Rendering.IntText;
    match c
    case NumberWord(n) => PlainIntIsText(n, IntOf(NumeralValue(n)));
    case StringWord(us) => QuotedIsStringText(us);
    case ArrayWord(inner, items) => ArrayIsRendered(items, format, depth);
    case ObjectWord(inner, entries) => ObjectIsRendered(inner, entries, format, depth);
    case _ =>
  }

  lemma {:induction false} ArrayIsRendered(items: seq<Item>, format: bool, depth: nat)
    requires LaidItems(items, format, depth + 1, []) && Legible(ArrayWord([], items))
    requires Printable(Array(ItemValues(items)))
    ensures TextOf(ArrayWord([], items)) == Rendering.Render(Array(ItemValues(items)), format, depth)
    decreases items, 1
  {
    hide ItemsText, Rendering.ItemsText, Laid, Gap;
    LegibleArray([], items);
    ItemsAreRendered(items, format, depth + 1, []);
  }

  lemma {:induction false} ItemsAreRendered(items: seq<Item>, format: bool, depth: nat, before: seq<byte>)
    requires LaidItems(items, format, depth, before) && LegibleItems(items)
    requires forall v <- ItemValues(items) :: Printable(v)
    ensures ItemsText(items)
      == (if items == [] then [] else before) + Rendering.ItemsText(ItemValues(items), format, depth)
    decreases items, 0
  {
    hide Laid, Legible, Printable, TextOf, Rendering.Render, Gap;
    NoItems();
    if items != [] {
      var values := ItemValues(items);
      assert values[0] == ValueOf(items[0].value) && values[1..] == ItemValues(items[1..]);
      LaidIsRendered(items[0].value, format, depth);
      ItemsAreRendered(items[1..], format, depth, if format then [32] else []);
      FirstItem(items, before, values, format, depth);
    }
  }

  lemma FirstItem(items: seq<Item>, before: seq<byte>, values: seq<Json>, format: bool, depth: nat)
    requires items != [] && |values| == |items| && items[0].before == before && items[0].after == []
    requires TextOf(items[0].value) == Rendering.Render(values[0], format, depth)
    requires ItemsText(items[1..])
      == (if |items| == 1 then [] else if format then [32] else []) + Rendering.ItemsText(values[1..], format, depth)
    ensures ItemsText(items) == before + Rendering.ItemsText(values, format, depth)
  {
    hide TextOf, Rendering.Render;
    var t, rest := TextOf(items[0].value), Rendering.ItemsText(values[1..], format, depth);
    var comma, space := if |items| > 1 then [44] else [], if |items| == 1 then [] else if format then [32] else [];
    assert ItemsText(items) == before + t + [] + comma + ItemsText(items[1..]);
    assert Rendering.ItemsText(values, format, depth) == t + Rendering.ItemSeparator(format, |items| > 1) + rest;
    assert comma + space == Rendering.ItemSeparator(format, |items| > 1);
    Regroup(before, t, comma, space, rest);
  }

  lemma Regroup(a: seq<byte>, b: seq<byte>, c: seq<byte>, d: seq<byte>, e: seq<byte>)
    ensures a + b + [] + c + (d + e) == a + (b + (c + d) + e)
  {
    assert a + b + [] == a + b;
    assert a + b + c + (d + e) == a + b + (c + (d + e)) == a + (b + (c + (d + e)));
    assert c + (d + e) == c + d + e;
    assert b + (c + d + e) == b + (c + d) + e;
  }

  lemma {:induction false} ObjectIsRendered(inner: seq<byte>, entries: seq<Entry>, format: bool, depth: nat)
    requires Laid(ObjectWord(inner, entries), format, depth) && Legible(ObjectWord(inner, entries))
    requires Printable(Object(EntryValues(entries)))
    ensures TextOf(ObjectWord(inner, entries)) == Rendering.Render(Object(EntryValues(entries)), format, depth)
    decreases entries, 1
  {
    hide EntriesText, Rendering.MembersText, Rendering.CloseObject, Line, LaidEntries, LegibleEntries, Printable;
    var open, text, close := NewLine(format), EntriesText(entries), Rendering.CloseObject(format, depth);
    var middle := Rendering.MembersText(EntryValues(entries), format, depth + 1);
    LegibleObject(inner, entries);
    NoItems();
    if entries == [] {
      Closing(format, depth);
      Rendering.EmptyMembers([], format, depth + 1);
      Middle(inner, [], open, [], close);
    } else {
      PrintableValues(EntryValues(entries));
      EntriesAreRendered(entries, format, depth);
      Middle(inner, text, open, middle, close);
    }
    assert Rendering.OpenObject(format) == [123] + open;
    Embrace(inner, text, open, middle, close);
  }

  function NewLine(format: bool): seq<byte> { if format then [10] else [] }

  lemma Middle(inner: seq<byte>, text: seq<byte>, open: seq<byte>, middle: seq<byte>, close: seq<byte>)
    requires || (inner == [] && text + [125] == open + middle + close)
             || (text == [] && middle == [] && inner + [125] == open + close)
    ensures inner + text + [125] == open + middle + close
  {
    assert inner + text == if inner == [] then text else inner;
    assert middle == [] ==> open + middle == open;
  }

  lemma Embrace(inner: seq<byte>, text: seq<byte>, open: seq<byte>, middle: seq<byte>, close: seq<byte>)
    requires inner + text + [125] == open + middle + close
    ensures [123] + inner + text + [125] == [123] + open + middle + close
  {
    assert [123] + inner + text + [125] == [123] + (inner + text + [125]);
    assert [123] + open + middle + close == [123] + (open + middle + close);
  }

  lemma PrintableValues(members: seq<Member>)
    requires Printable(Object(members))
    ensures forall m <- members :: Printable(m.value)
  {
  }

  /** A line behind its tabs, in the printer's terms. */
  lemma Closing(format: bool, depth: nat)
    ensures Line(format, depth) == NewLine(format) + (if format then Rendering.Tabs(depth) else [])
    ensures Line(format, depth) + [125] == NewLine(format) + Rendering.CloseObject(format, depth)
  {
    assert format ==> Rendering.Tabs(depth) == seq(depth, _ => 9);
  }

  lemma {:induction false} EntriesAreRendered(entries: seq<Entry>, format: bool, depth: nat)
    requires entries != [] && LaidEntries(entries, format, depth) && LegibleEntries(entries)
    requires forall m <- EntryValues(entries) :: Printable(m.value)
    ensures EntriesText(entries) + [125]
      == NewLine(format) + Rendering.MembersText(EntryValues(entries), format, depth + 1)
         + Rendering.CloseObject(format, depth)
    decreases entries, 0
  {
    hide Laid, Legible, Printable, TextOf, Rendering.Render, LegibleGaps, Line, EntriesText, EntryText, NewLine;
    hide StringOf;
    hide Rendering.MembersText, Rendering.CloseObject, Shortest, Quoted, Spelling;
    var values, x := EntryValues(entries), entries[0];
    assert values[0] == Member(StringOf(x.key), ValueOf(x.value)) && values[1..] == EntryValues(entries[1..]);
    LaidIsRendered(x.value, format, depth + 1);
    HeadIsRendered(x, format, depth);
    if |entries| > 1 {
      EntriesAreRendered(entries[1..], format, depth);
    }
    EntryTail(entries, values, format, depth);
    FirstEntry(entries, values, format, depth);
  }

  lemma HeadIsRendered(x: Entry, format: bool, depth: nat)
    requires x.before == Line(format, depth + 1) && x.beforeColon == [] && x.afterColon == (if format then [9] else [])
    requires Shortest(x.key) && Spelling(x.key)
    ensures EntryHead(x) == NewLine(format) + Rendering.MemberHead(StringOf(x.key), format, depth + 1)
  {
    hide Line, NewLine, Quoted, Rendering.StringText, StringOf, Shortest, Spelling, Rendering.Tabs;
    QuotedIsStringText(x.key);
    Closing(format, depth + 1);
    var white, key := if format then Rendering.Tabs(depth + 1) else [], Quoted(x.key);
    var separator := Rendering.KeySeparator(format);
    assert [58] + x.afterColon == separator;
    Behind(NewLine(format), white, key, x.afterColon);
  }

  lemma Behind(line: seq<byte>, white: seq<byte>, key: seq<byte>, tab: seq<byte>)
    ensures line + white + key + [] + [58] + tab == line + (white + key + ([58] + tab))
  {
  }

  lemma CommaTail(line: seq<byte>, rest: seq<byte>, close: seq<byte>)
    ensures [] + [44] + (line + rest + close) == [44] + line + rest + close
  {
  }

  lemma LastTail(before: seq<byte>, line: seq<byte>, close: seq<byte>)
    requires before + [125] == line + close
    ensures before + [] + ([] + [125]) == line + [] + close
  {
    assert before + [] == before && [] + [125] == [125] && line + [] == line;
  }

  /** What follows a value: the comma and the other entries, or the closing brace. */
  lemma EntryTail(entries: seq<Entry>, values: seq<Member>, format: bool, depth: nat)
    requires entries != [] && |values| == |entries|
    requires entries[0].after == (if |entries| == 1 then Line(format, depth) else [])
    requires |entries| > 1 ==>
      EntriesText(entries[1..]) + [125]
      == NewLine(format) + Rendering.MembersText(values[1..], format, depth + 1) + Rendering.CloseObject(format, depth)
    ensures entries[0].after + (if |entries| > 1 then [44] else []) + (EntriesText(entries[1..]) + [125])
      == Rendering.MemberTail(format, |entries| > 1) + Rendering.MembersText(values[1..], format, depth + 1)
         + Rendering.CloseObject(format, depth)
  {
    hide Line, EntriesText, Rendering.MembersText, Rendering.CloseObject;
    var rest, close := Rendering.MembersText(values[1..], format, depth + 1), Rendering.CloseObject(format, depth);
    NoItems();
    Rendering.EmptyMembers(values[1..], format, depth + 1);
    Closing(format, depth);
    if |entries| > 1 {
      CommaTail(NewLine(format), rest, close);
    } else {
      assert entries[1..] == [] && Rendering.MemberTail(format, false) == NewLine(format);
      LastTail(Line(format, depth), NewLine(format), close);
    }
  }

  lemma {:induction false} FirstEntry(entries: seq<Entry>, values: seq<Member>, format: bool, depth: nat)
    requires entries != [] && |values| == |entries|
    requires EntryHead(entries[0]) == NewLine(format) + Rendering.MemberHead(values[0].key, format, depth + 1)
    requires TextOf(entries[0].value) == Rendering.Render(values[0].value, format, depth + 1)
    requires entries[0].after + (if |entries| > 1 then [44] else []) + (EntriesText(entries[1..]) + [125])
      == Rendering.MemberTail(format, |entries| > 1) + Rendering.MembersText(values[1..], format, depth + 1)
         + Rendering.CloseObject(format, depth)
    ensures EntriesText(entries) + [125]
      == NewLine(format) + Rendering.MembersText(values, format, depth + 1) + Rendering.CloseObject(format, depth)
  {
    hide TextOf, EntryHead, NewLine, Rendering.Render, Rendering.MemberHead, Rendering.MemberTail;
    hide Rendering.CloseObject;
    hide EntriesText, Rendering.MembersText;
    var x, head, t := entries[0], Rendering.MemberHead(values[0].key, format, depth + 1), TextOf(entries[0].value);
    var comma, tail := if |entries| > 1 then [44] else [], Rendering.MemberTail(format, |entries| > 1);
    var rest, close := Rendering.MembersText(values[1..], format, depth + 1), Rendering.CloseObject(format, depth);
    FirstText(entries, values, format, depth);
    Gather(NewLine(format) + head + t, x.after, comma, EntriesText(entries[1..]), [125]);
    Gather(NewLine(format) + head + t, tail, rest, [], close);
    assert rest + [] == rest && NewLine(format) + head + t + tail + rest == NewLine(format) + (head + t + tail + rest);
  }

  lemma FirstText(entries: seq<Entry>, values: seq<Member>, format: bool, depth: nat)
    requires entries != [] && |values| == |entries|
    ensures var x := entries[0];
      EntriesText(entries)
      == EntryHead(x) + TextOf(x.value) + x.after + (if |entries| > 1 then [44] else []) + EntriesText(entries[1..])
    ensures Rendering.MembersText(values, format, depth + 1)
      == Rendering.MemberHead(values[0].key, format, depth + 1) + Rendering.Render(values[0].value, format, depth + 1)
         + Rendering.MemberTail(format, |entries| > 1) + Rendering.MembersText(values[1..], format, depth + 1)
  {
    hide TextOf, EntryHead, Rendering.Render, Rendering.MemberHead, Rendering.MemberTail;
  }

  lemma Gather(a: seq<byte>, b: seq<byte>, c: seq<byte>, d: seq<byte>, e: seq<byte>)
    ensures a + b + c + d + e == a + (b + c + (d + e))
  {
    assert b + c + (d + e) == b + c + d + e;
    assert a + b + c + d + e == a + (b + c + d + e);
  }

  /** Every printable value has a text laid out like this. */
  lemma {:induction false} LayOut(v: Json, format: bool, depth: nat) returns (c: Syntax)
    requires Printable(v)
    ensures Laid(c, format, depth) && Legible(c) && ValueOf(c) == v
    decreases v, 1
  {
    hide PlainInt, Numeric, NumeralText, NumeralValue, Shortest, Spelling, StringOf;
    match v
    case Null => c := NullWord;
    case Bool(b) => c := if b then TrueWord else FalseWord;
    case Number(d) =>
      var n := IntIsPlain(IntOf(d));
      Rendering.IntTextLength(IntOf(d));
      c := NumberWord(n);
    case String(s) =>
      var us := StringIsShortest(s);
      c := StringWord(us);
    case Array(items) =>
      var words := LayOutItems(items, format, depth + 1, []);
      c := ArrayWord([], words);
    case Object(members) =>
      var words := LayOutEntries(members, format, depth);
      c := ObjectWord(if words == [] then Line(format, depth) else [], words);
  }

  lemma {:induction false} LayOutItems(values: seq<Json>, format: bool, depth: nat, before: seq<byte>)
    returns (items: seq<Item>)
    requires Gap(before) && forall v <- values :: Printable(v)
    ensures LaidItems(items, format, depth, before) && LegibleItems(items) && ItemValues(items) == values
    decreases values, 0
  {
    hide Laid, Legible, Printable, ValueOf;
    items := [];
    if values != [] {
      var c := LayOut(values[0], format, depth);
      var rest := LayOutItems(values[1..], format, depth, if format then [32] else []);
      items := [Item(before, c, [])] + rest;
      assert items[1..] == rest;
    }
  }

  lemma {:induction false} LayOutEntries(members: seq<Member>, format: bool, depth: nat) returns (entries: seq<Entry>)
    requires forall m <- members :: Printable(m.value)
    ensures LaidEntries(entries, format, depth) && LegibleEntries(entries) && EntryValues(entries) == members
    decreases members, 0
  {
    hide Laid, Legible, Printable, ValueOf, Shortest, Spelling, StringOf;
    entries := [];
    if members != [] {
      var us := StringIsShortest(members[0].key);
      var c := LayOut(members[0].value, format, depth + 1);
      var rest := LayOutEntries(members[1..], format, depth);
      var after := if |members| == 1 then Line(format, depth) else [];
      entries := [Entry(Line(format, depth + 1), us, [], if format then [9] else [], c, after)] + rest;
      assert entries[1..] == rest && |entries| == |members|;
    }
  }

  /** What is laid out like this is JSON to the letter. */
  lemma {:induction false} LaidIsStrict(c: Syntax, format: bool, depth: nat)
    requires Laid(c, format, depth)
    ensures Strict(c)
    decreases c, 1
  {
    match c
    case StringWord(us) => ShortestIsStrict(us);
    case ArrayWord(inner, items) => LaidItemsAreStrict(items, format, depth + 1, []);
    case ObjectWord(inner, entries) => LaidEntriesAreStrict(entries, format, depth);
    case _ =>
  }

  lemma {:induction false} LaidItemsAreStrict(items: seq<Item>, format: bool, depth: nat, before: seq<byte>)
    requires LaidItems(items, format, depth, before) && StrictGap(before)
    ensures forall x <- items :: StrictGap(x.before) && StrictGap(x.after) && Strict(x.value)
    decreases items, 0
  {
    if items != [] {
      LaidIsStrict(items[0].value, format, depth);
      LaidItemsAreStrict(items[1..], format, depth, if format then [32] else []);
      assert items == [items[0]] + items[1..];
    }
  }

  lemma {:induction false} LaidEntriesAreStrict(entries: seq<Entry>, format: bool, depth: nat)
    requires LaidEntries(entries, format, depth)
    ensures forall x <- entries :: (forall u <- x.key :: StrictUnit(u)) && StrictGaps(x) && Strict(x.value)
    decreases entries, 0
  {
    if entries != [] {
      LaidIsStrict(entries[0].value, format, depth + 1);
      ShortestIsStrict(entries[0].key);
      LaidEntriesAreStrict(entries[1..], format, depth);
      assert entries == [entries[0]] + entries[1..];
    }
  }

  /** What the printer writes is JSON, and the one text with this layout for the value. */
  lemma RenderIsLaid(v: Json, format: bool, depth: nat)
    requires Printable(v)
    ensures exists c :: Legible(c) && Laid(c, format, depth) && ValueOf(c) == v
    ensures forall c :: Legible(c) && Laid(c, format, depth) && ValueOf(c) == v ==>
      Strict(c) && TextOf(c) == Rendering.Render(v, format, depth)
  {
    hide Laid, Legible, TextOf, Rendering.Render, Printable, Strict;
    var c := LayOut(v, format, depth);
    forall c | Legible(c) && Laid(c, format, depth) && ValueOf(c) == v
      ensures Strict(c) && TextOf(c) == Rendering.Render(v, format, depth)
    {
      LaidIsRendered(c, format, depth);
      LaidIsStrict(c, format, depth);
    }
  }
}
