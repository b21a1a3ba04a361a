/** Where the parser reports an error: a text that is right up to one place fails at that place. */
module Faults {
  import opened Bytes
  import opened JsonValue
  import opened Grammar
  import opened NumberText
  import opened Utf
  import opened StringCodec
  import opened ParseSpec
  import opened Reading

  /**
   * What is wrong with a string: no quote, no end, or, behind some units, a letter that no escape has,
   * fewer than four bytes for a code point, or half a surrogate pair.
   */
  datatype TextFault =
    | NoQuote
    | Unclosed(rest: seq<byte>)
    | BadLetter(us: seq<Unit>, letter: byte, rest: seq<byte>)
    | CutShort(us: seq<Unit>, rest: seq<byte>)
    | LoneSurrogate(us: seq<Unit>, digits: seq<byte>, rest: seq<byte>)

  /** What is wrong with a value: it does not begin, it has no digits, it is nested too deep, or its text is wrong. */
  datatype Fault = NoValue | NoNumber | TooDeep | InText(fault: TextFault)

  /** The way to the place: through arrays and objects, each of them right up to there. */
  datatype Way =
    | Here(fault: Fault)
    | IntoItem(items: seq<Item>, before: seq<byte>, way: Way)
    | AfterItem(items: seq<Item>, lastItem: Item)
    | IntoEntry(entries: seq<Entry>, head: Entry, way: Way)
    | AtName(entries: seq<Entry>, before: seq<byte>, name: TextFault)
    | AtColon(entries: seq<Entry>, before: seq<byte>, key: seq<Unit>, beforeColon: seq<byte>)
    | AfterEntry(entries: seq<Entry>, lastEntry: Entry)

  predicate Digit(b: byte) { 48 <= b <= 57 }

  function ByteAt(s: seq<byte>, i: nat): byte { if i < |s| then s[i] else 0 }

  // Strings.

  /** Read in pairs from each backslash on, the text has no quote but behind a backslash. */
  predicate Hangs(t: seq<byte>) {
    t == [] || if t[0] == 92 then |t| == 1 || Hangs(t[2..]) else t[0] != 34 && Hangs(t[1..])
  }

  predicate Inner(us: seq<Unit>) { Units(us) && forall i :: 0 <= i < |us| ==> !us[i].Dangling? }

  /** Two digits that make a pair with a high surrogate before them. */
  predicate BeginsLow(t: seq<byte>) {
    |t| >= 6 && t[0] == 92 && t[1] == 117 && FourHex(t[2..6]) && 0xDC00 <= CodeOf(t[2..6]) <= 0xDFFF
  }

  /** The text in quotes, for the faults that have both. */
  function Inside(f: TextFault): seq<byte> {
    match f
    case NoQuote => []
    case Unclosed(rest) => rest
    case BadLetter(us, c, rest) => SpellingText(us) + [92, c] + rest
    case CutShort(us, rest) => SpellingText(us) + [92, 117] + rest
    case LoneSurrogate(us, t, rest) => SpellingText(us) + ([92, 117] + t) + rest
  }

  predicate TextBreaks(s: seq<byte>, q: nat, f: TextFault) {
    && q < |s| && (s[q] == 34 <==> !f.NoQuote?)
    && match f
    case NoQuote => true
    case Unclosed(rest) => Hangs(rest) && At(s, q + 1, rest) && q + 1 + |rest| == |s|
    case BadLetter(us, c, _) => InQuotes(s, q, f) && Inner(us) && c !in {34, 92, 47, 98, 102, 110, 114, 116, 117}
    case CutShort(us, rest) => InQuotes(s, q, f) && Inner(us) && |rest| < 4
    case LoneSurrogate(us, t, rest) =>
      && InQuotes(s, q, f) && Inner(us) && FourHex(t) && 0xD800 <= CodeOf(t) <= 0xDFFF
      && (CodeOf(t) <= 0xDBFF ==> !BeginsLow(rest))
  }

  predicate InQuotes(s: seq<byte>, q: nat, f: TextFault) { Closes(Inside(f)) && At(s, q + 1, Inside(f) + [34]) }

  /** An error behind the opening quote, or at the backslash of the escape. */
  function TextPosition(q: nat, f: TextFault): nat {
    match f
    case NoQuote => q + 1
    case Unclosed(_) => q + 1
    case BadLetter(us, _, _) => q + 1 + |SpellingText(us)|
    case CutShort(us, _) => q + 1 + |SpellingText(us)|
    case LoneSurrogate(us, _, _) => q + 1 + |SpellingText(us)|
  }

  lemma {:induction false} NoEndIsFound(s: seq<byte>, p: nat, t: seq<byte>)
    requires Hangs(t) && At(s, p, t) && p + |t| == |s|
    ensures ClosingQuote(s, p) == -1
    decreases |t|
  {
    hide At;
    if t != [] {
      var k := if t[0] == 92 && |t| > 1 then 2 else 1;
      assert t == t[..k] + t[k..];
      AtSplit(s, p, t[..k], t[k..]);
      AtByte(s, p, t, 0);
      NoEndIsFound(s, p + k, t[k..]);
    }
  }

  /** The second pass decodes the units before the bad escape, and stops there. */
  lemma {:induction false} SpellingThenBad(s: seq<byte>, p: nat, e: nat, us: seq<Unit>)
    requires Inner(us) && At(s, p, SpellingText(us)) && p + |SpellingText(us)| <= e < |s|
    requires Decode(s, p + |SpellingText(us)|, e) == Decoded.BadEscape(p + |SpellingText(us)|)
    ensures Decode(s, p, e) == Decoded.BadEscape(p + |SpellingText(us)|)
    decreases |us|
  {
    hide At, UnitText, UnitBytes, Spells;
    if us != [] {
      var n := p + |UnitText(us[0])|;
      AtSplit(s, p, UnitText(us[0]), SpellingText(us[1..]));
      SpellingThenBad(s, n, e, us[1..]);
      UnitIsRead(s, p, e, us[0]);
    }
  }

  /** Behind the units stands an escape that cannot be decoded. */
  lemma BadEscapeIsFound(s: seq<byte>, q: nat, f: TextFault, us: seq<Unit>, bad: seq<byte>, rest: seq<byte>)
    requires q < |s| && s[q] == 34 && InQuotes(s, q, f) && Inner(us) && Inside(f) == SpellingText(us) + bad + rest
    requires var n := q + 1 + |SpellingText(us)|; var e := q + 1 + |Inside(f)|;
      At(s, n, bad) && At(s, n + |bad|, rest) && e < |s| && s[e] == 34 ==> Decode(s, n, e) == Decoded.BadEscape(n)
    ensures StringAt(s, q) == BadText(q + 1 + |SpellingText(us)|)
  {
    hide At, ClosingQuote, Decode, Inner, SpellingText, StringAt, Closes, Inside;
    var e := q + 1 + |Inside(f)|;
    AtSplit(s, q + 1, Inside(f), [34]);
    AtSplit3(s, q + 1, SpellingText(us), bad, rest);
    AtHead(s, e, [34]);
    EndIsFound(s, q + 1, Inside(f));
    SpellingThenBad(s, q + 1, e, us);
    BadDecode(s, q, e, q + 1 + |SpellingText(us)|);
  }

  lemma BadDecode(s: seq<byte>, q: nat, e: nat, n: nat)
    requires q < |s| && s[q] == 34 && ClosingQuote(s, q + 1) == e < |s| && Decode(s, q + 1, e) == Decoded.BadEscape(n)
    ensures StringAt(s, q) == BadText(n)
  {
    hide ClosingQuote, Decode;
  }

  lemma BadLetterIsFound(s: seq<byte>, q: nat, us: seq<Unit>, c: byte, rest: seq<byte>)
    requires TextBreaks(s, q, BadLetter(us, c, rest))
    ensures StringAt(s, q) == BadText(q + 1 + |SpellingText(us)|)
  {
    hide At, SpellingText, StringAt, Inner, Closes;
    var f, n := BadLetter(us, c, rest), q + 1 + |SpellingText(us)|;
    if At(s, n, [92, c]) {
      AtByte(s, n, [92, c], 0);
      AtByte(s, n, [92, c], 1);
    }
    BadEscapeIsFound(s, q, f, us, [92, c], rest);
  }

  lemma CutShortIsFound(s: seq<byte>, q: nat, us: seq<Unit>, rest: seq<byte>)
    requires TextBreaks(s, q, CutShort(us, rest))
    ensures StringAt(s, q) == BadText(q + 1 + |SpellingText(us)|)
  {
    hide At, SpellingText, StringAt, Inner, Closes;
    var f, n := CutShort(us, rest), q + 1 + |SpellingText(us)|;
    if At(s, n, [92, 117]) { EscapeStart(s, n); }
    BadEscapeIsFound(s, q, f, us, [92, 117], rest);
  }

  lemma LoneSurrogateIsFound(s: seq<byte>, q: nat, us: seq<Unit>, t: seq<byte>, rest: seq<byte>)
    requires TextBreaks(s, q, LoneSurrogate(us, t, rest))
    ensures StringAt(s, q) == BadText(q + 1 + |SpellingText(us)|)
  {
    hide At, SpellingText, StringAt, Inner, Closes, CodeOf, BeginsLow, Decode;
    var f, n := LoneSurrogate(us, t, rest), q + 1 + |SpellingText(us)|;
    var e := n + 6 + |rest|;
    if At(s, n, [92, 117] + t) && At(s, n + 6, rest) && e < |s| {
      HalfIsBad(s, n, e, t, rest);
    }
    BadEscapeIsFound(s, q, f, us, [92, 117] + t, rest);
  }

  lemma HalfIsBad(s: seq<byte>, n: nat, e: nat, t: seq<byte>, rest: seq<byte>)
    requires At(s, n, [92, 117] + t) && At(s, n + 6, rest) && e == n + 6 + |rest| < |s|
    requires FourHex(t) && 0xD800 <= CodeOf(t) <= 0xDFFF && (CodeOf(t) <= 0xDBFF ==> !BeginsLow(rest))
    ensures Decode(s, n, e) == Decoded.BadEscape(n)
  {
    hide At, CodeOf, BeginsLow, Hex4;
    AtSplit(s, n, [92, 117], t);
    EscapeStart(s, n);
    HexIsRead(s, n + 2, t);
    if CodeOf(t) <= 0xDBFF {
      NoLowFollows(s, n + 6, rest);
    }
  }

  lemma NoLowFollows(s: seq<byte>, m: nat, rest: seq<byte>)
    requires At(s, m, rest) && !BeginsLow(rest)
    ensures |rest| < 6 || s[m] != 92 || s[m + 1] != 117 || !IsLow(Hex4(s, m + 2))
  {
    hide CodeOf, Hex4, HexValue;
    if |rest| >= 6 {
      AtByte(s, m, rest, 0);
      AtByte(s, m, rest, 1);
      var t := rest[2..6];
      assert At(s, m + 2, t) by { LowThere(s, m, rest); }
      FourBytes(s, m + 2, t);
      if FourHex(t) { HexIsRead(s, m + 2, t); }
    }
  }

  lemma LowThere(s: seq<byte>, m: nat, rest: seq<byte>)
    requires At(s, m, rest) && |rest| >= 6
    ensures At(s, m + 2, rest[2..6])
  {
    hide At;
    assert rest == rest[..2] + rest[2..6] + rest[6..];
    AtSplit3(s, m, rest[..2], rest[2..6], rest[6..]);
  }

  lemma TextFaultIsFound(s: seq<byte>, q: nat, f: TextFault)
    requires TextBreaks(s, q, f)
    ensures StringAt(s, q) == BadText(TextPosition(q, f))
  {
    hide At, SpellingText, CodeOf, Hangs, Closes, Inner, Inside, InQuotes;
    match f
    case NoQuote =>
    case Unclosed(rest) => NoEndIsFound(s, q + 1, rest);
    case BadLetter(us, c, rest) => BadLetterIsFound(s, q, us, c, rest);
    case CutShort(us, rest) => CutShortIsFound(s, q, us, rest);
    case LoneSurrogate(us, t, rest) => LoneSurrogateIsFound(s, q, us, t, rest);
  }

  // Values.

  predicate Breaks(s: seq<byte>, q: nat, f: Fault, nesting: int) {
    q < |s| && match f
    case NoValue =>
      && s[q] !in {34, 45, 91, 123} && !Digit(s[q]) && !At(s, q, [110, 117, 108, 108])
      && !At(s, q, [102, 97, 108, 115, 101]) && !At(s, q, [116, 114, 117, 101])
    case NoNumber => s[q] == 45 && !Digit(ByteAt(s, q + 1)) && !(ByteAt(s, q + 1) == 46 && Digit(ByteAt(s, q + 2)))
    case TooDeep => s[q] in {91, 123} && nesting == 1000
    case InText(fault) => s[q] == 34 && TextBreaks(s, q, fault)
  }

  lemma FaultIsFound(s: seq<byte>, q: nat, f: Fault, nesting: int)
    requires Terminated(s) && Breaks(s, q, f, nesting) && nesting <= NESTING_LIMIT
    ensures ParseValue(s, q, nesting) == Failed(match f case InText(fault) => TextPosition(q, fault) case _ => q)
  {
    hide At, StringAt, ParseNumber, ParseItems, ParseMembers, TextBreaks;
    match f
    case NoValue =>
    case NoNumber => NoLiteral(s, q); NoDigitsAfterMinus(s, q);
    case TooDeep => NoLiteral(s, q);
    case InText(fault) => NoLiteral(s, q); TextFaultIsFound(s, q, fault);
  }

  lemma NoDigitsAfterMinus(s: seq<byte>, q: nat)
    requires Terminated(s) && Breaks(s, q, Fault.NoNumber, 0)
    ensures ParseNumber(s, q) == Failed(q)
  {
    hide Exponent, Value, Scale;
    var t := s[q..q + Span(s, q, 0)];
    assert Span(s, q, 0) == Span(s, q, 1);
    assert t[0] == 45 && (|t| > 1 ==> t[1] == s[q + 1]) && (|t| > 2 ==> t[2] == s[q + 2]);
    assert DigitRun(t, 1) == 1;
    assert |t| > 1 && t[1] == 46 ==> DigitRun(t, 2) == 2;
  }

  // Arrays and objects that are right up to a place.

  /** Items with a comma after each. */
  function Leading(items: seq<Item>): seq<byte> {
    if items == [] then [] else ItemText(items[0]) + [44] + Leading(items[1..])
  }

  function LeadingEntries(entries: seq<Entry>): seq<byte> {
    if entries == [] then [] else EntryText(entries[0]) + [44] + LeadingEntries(entries[1..])
  }

  /** A byte that cannot continue a number. */
  predicate EndsNumber(b: byte) { !Digit(b) && b !in {43, 45, 46, 69, 101} }

  predicate ItemsStand(s: seq<byte>, i: nat, items: seq<Item>, nesting: int) {
    && nesting < 1000 && LegibleItems(items) && nesting + 1 + ItemsHeight(ItemValues(items)) <= 1000
    && At(s, i, [91] + Leading(items))
  }

  predicate EntriesStand(s: seq<byte>, i: nat, entries: seq<Entry>, nesting: int) {
    && nesting < 1000 && LegibleEntries(entries) && nesting + 1 + MembersHeight(EntryValues(entries)) <= 1000
    && At(s, i, [123] + LeadingEntries(entries))
  }

  /** Behind the items comes a gap, and then the value at `q`. */
  predicate ItemBegins(s: seq<byte>, i: nat, items: seq<Item>, before: seq<byte>, q: nat, nesting: int) {
    var n := i + 1 + |Leading(items)|;
    && ItemsStand(s, i, items, nesting) && q == n + |before| && Gap(before) && At(s, n, before) && Stops(s, q)
    && (items == [] ==> s[q] != 93)
  }

  /** Behind one more item comes a byte that neither continues nor ends the array. */
  predicate ItemsBreakOff(s: seq<byte>, i: nat, items: seq<Item>, x: Item, q: nat, nesting: int) {
    var n := i + 1 + |Leading(items)|;
    && ItemsStand(s, i, items, nesting) && q == n + |ItemText(x)| && At(s, n, ItemText(x))
    && Gap(x.before) && Gap(x.after) && Legible(x.value) && nesting + 1 + Height(ValueOf(x.value)) <= 1000
    && Stops(s, q) && s[q] !in {44, 93} && (x.after == [] ==> EndsNumber(s[q]))
  }

  /** Behind the entries come a name and its colon, and then the value at `q`. */
  predicate EntryBegins(s: seq<byte>, i: nat, entries: seq<Entry>, head: Entry, q: nat, nesting: int) {
    var n := i + 1 + |LeadingEntries(entries)|;
    && EntriesStand(s, i, entries, nesting) && q == n + |EntryHead(head)| && At(s, n, EntryHead(head))
    && Spelling(head.key) && LegibleGaps(head) && Stops(s, q)
  }

  /** Behind the entries comes a gap, and then no name at `q`. */
  predicate NameBreaks(s: seq<byte>, i: nat, entries: seq<Entry>, before: seq<byte>, f: TextFault, q: nat,
      nesting: int) {
    var n := i + 1 + |LeadingEntries(entries)|;
    && EntriesStand(s, i, entries, nesting) && q == n + |before| && Gap(before) && At(s, n, before) && Stops(s, q)
    && (entries == [] ==> s[q] != 125) && TextBreaks(s, q, f)
  }

  /** Behind a name comes a byte that is no colon. */
  predicate ColonMissing(s: seq<byte>, i: nat, entries: seq<Entry>, before: seq<byte>, key: seq<Unit>,
      beforeColon: seq<byte>, q: nat, nesting: int) {
    var n := i + 1 + |LeadingEntries(entries)|;
    && EntriesStand(s, i, entries, nesting) && q == n + |before + Quoted(key) + beforeColon|
    && At(s, n, before + Quoted(key) + beforeColon) && Gap(before) && Gap(beforeColon) && Spelling(key)
    && Stops(s, q) && s[q] != 58
  }

  /** Behind one more entry comes a byte that neither continues nor ends the object. */
  predicate EntriesBreakOff(s: seq<byte>, i: nat, entries: seq<Entry>, x: Entry, q: nat, nesting: int) {
    var n := i + 1 + |LeadingEntries(entries)|;
    && EntriesStand(s, i, entries, nesting) && q == n + |EntryText(x)| && At(s, n, EntryText(x))
    && Spelling(x.key) && LegibleGaps(x) && Legible(x.value) && nesting + 1 + Height(ValueOf(x.value)) <= 1000
    && Stops(s, q) && s[q] !in {44, 125} && (x.after == [] ==> EndsNumber(s[q]))
  }

  /** Where a way ends, in a text that has the value at `i`. */
  function Place(i: nat, w: Way): nat {
    match w
    case Here(_) => i
    case IntoItem(items, before, _) => i + 1 + |Leading(items)| + |before|
    case AfterItem(items, x) => i + 1 + |Leading(items)| + |ItemText(x)|
    case IntoEntry(entries, head, _) => i + 1 + |LeadingEntries(entries)| + |EntryHead(head)|
    case AtName(entries, before, _) => i + 1 + |LeadingEntries(entries)| + |before|
    case AtColon(entries, before, key, beforeColon) =>
      i + 1 + |LeadingEntries(entries)| + |before + Quoted(key) + beforeColon|
    case AfterEntry(entries, x) => i + 1 + |LeadingEntries(entries)| + |EntryText(x)|
  }

  /** The text is right along the way, and what stands at its end is wrong. */
  predicate WayBreaks(s: seq<byte>, i: nat, w: Way, nesting: int)
    decreases w
  {
    var q := Place(i, w);
    match w
    case Here(f) => Breaks(s, i, f, nesting)
    case IntoItem(items, before, way) => ItemBegins(s, i, items, before, q, nesting) && WayBreaks(s, q, way,
        nesting + 1)
    case AfterItem(items, x) => ItemsBreakOff(s, i, items, x, q, nesting)
    case IntoEntry(entries, head, way) => EntryBegins(s, i, entries, head, q, nesting) && WayBreaks(s, q, way,
        nesting + 1)
    case AtName(entries, before, f) => NameBreaks(s, i, entries, before, f, q, nesting)
    case AtColon(entries, before, key, beforeColon) => ColonMissing(s, i, entries, before, key, beforeColon, q, nesting)
    case AfterEntry(entries, x) => EntriesBreakOff(s, i, entries, x, q, nesting)
  }

  /** The position of the error. */
  function WayPosition(i: nat, w: Way): nat
    decreases w
  {
    match w
    case Here(InText(f)) => TextPosition(i, f)
    case AtName(_, _, f) => TextPosition(Place(i, w), f)
    case IntoItem(_, _, way) => WayPosition(Place(i, w), way)
    case IntoEntry(_, _, way) => WayPosition(Place(i, w), way)
    case _ => Place(i, w)
  }

  /** The loop over items looks at the next visible byte only. */
  lemma SameStart(s: seq<byte>, j: nat, i: nat, nesting: int, done: seq<Json>)
    requires Terminated(s) && j < |s| && i < |s| && Skip(s, j) == Skip(s, i)
    requires nesting <= NESTING_LIMIT && nesting + ItemsHeight(done) <= NESTING_LIMIT
    ensures ParseItems(s, j, nesting, done) == ParseItems(s, i, nesting, done)
  {
    hide Skip, ParseValue, ItemsHeight;
  }

  lemma LeadingSplit(s: seq<byte>, i: nat, items: seq<Item>)
    requires items != [] && At(s, i, Leading(items))
    ensures var x := items[0];
      var v := i + |x.before|; var n := v + |TextOf(x.value)|; var k := n + |x.after|;
      && At(s, i, x.before) && At(s, v, TextOf(x.value)) && At(s, n, x.after) && At(s, k, [44])
      && At(s, k + 1, Leading(items[1..])) && i + |Leading(items)| == k + 1 + |Leading(items[1..])|
  {
    hide At, TextOf;
    var x := items[0];
    AtSplit3(s, i, ItemText(x), [44], Leading(items[1..]));
    AtSplit3(s, i, x.before, TextOf(x.value), x.after);
  }

  /** The value of the first item is read, and the comma behind it is found. */
  lemma LeadingValue(s: seq<byte>, i: nat, items: seq<Item>, nesting: int)
    requires Terminated(s) && items != [] && LegibleItems(items) && i < |s| && At(s, i, Leading(items))
    requires nesting <= NESTING_LIMIT && nesting + Height(ValueOf(items[0].value)) <= NESTING_LIMIT
    ensures var x := items[0];
      var n := i + |x.before| + |TextOf(x.value)|; var k := n + |x.after|;
      && k + 1 < |s| && s[k] == 44 && s[Skip(s, i)] != 93 && Skip(s, n) == k
      && ParseValue(s, Skip(s, i), nesting) == Parsed(ValueOf(x.value), n)
      && At(s, k + 1, Leading(items[1..])) && i + |Leading(items)| == k + 1 + |Leading(items[1..])|
  {
    hide At, TextOf, ParseValue, Leading, Legible, Height, Skip, Delimited, LegibleItems, Gap, ValueOf, Terminated;
    var x := items[0];
    var v := i + |x.before|;
    var n := v + |TextOf(x.value)|;
    var k := n + |x.after|;
    FirstItemLegible(items);
    LeadingSplit(s, i, items);
    AtHead(s, k, [44]);
    NotLast(s, k);
    AfterValue(s, n, x.after);
    TextHead(x.value);
    AtHead(s, v, TextOf(x.value));
    GapIsSkipped(s, i, x.before);
    ValueIsRead(s, v, x.value, nesting);
  }

  lemma FirstItemLegible(items: seq<Item>)
    requires items != [] && LegibleItems(items)
    ensures Gap(items[0].before) && Gap(items[0].after) && Legible(items[0].value)
  {
    hide Gap, Legible;
    assert items[0] in items;
  }

  lemma NotLast(s: seq<byte>, k: nat)
    requires Terminated(s) && k < |s| && s[k] != 0
    ensures k + 1 < |s|
  {
  }

  /** One item and its comma are read. */
  lemma LeadingStep(s: seq<byte>, j: nat, i: nat, items: seq<Item>, nesting: int, done: seq<Json>)
    requires Terminated(s) && items != [] && LegibleItems(items) && j < |s| && i < |s| && Skip(s, j) == Skip(s, i)
    requires nesting <= NESTING_LIMIT && nesting + ItemsHeight(ItemValues(items)) <= NESTING_LIMIT
    requires nesting + ItemsHeight(done) <= NESTING_LIMIT && At(s, i, Leading(items))
    ensures var more := done + [ValueOf(items[0].value)];
      && nesting + ItemsHeight(more) <= NESTING_LIMIT
      && var k := i + |ItemText(items[0])| + 1;
      && k < |s| && At(s, k, Leading(items[1..])) && i + |Leading(items)| == k + |Leading(items[1..])|
      && ParseItems(s, j, nesting, done) == ParseItems(s, k, nesting, more)
    ensures s[Skip(s, i)] != 93
  {
    hide At, TextOf, ParseValue, ParseItems, Leading, Legible, Height, Skip, ItemsHeight, Gap;
    var x := items[0];
    HeightOfFirst(ItemValues(items));
    LeadingValue(s, i, items, nesting);
    ItemsStep(s, j, nesting, done, ValueOf(x.value), i + |x.before| + |TextOf(x.value)|);
  }

  /** Items with their commas are read, and the loop goes on behind them. */
  lemma {:induction false} LeadingIsRead(s: seq<byte>, j: nat, i: nat, items: seq<Item>, nesting: int, done: seq<Json>)
    requires Terminated(s) && LegibleItems(items) && j < |s| && i < |s| && Skip(s, j) == Skip(s, i)
    requires nesting <= NESTING_LIMIT && nesting + ItemsHeight(ItemValues(items)) <= NESTING_LIMIT
    requires nesting + ItemsHeight(done) <= NESTING_LIMIT && At(s, i, Leading(items))
    requires i + |Leading(items)| < |s|
    ensures nesting + ItemsHeight(done + ItemValues(items)) <= NESTING_LIMIT
    ensures ParseItems(s, j, nesting, done)
      == ParseItems(s, i + |Leading(items)|, nesting, done + ItemValues(items))
    ensures items != [] ==> s[Skip(s, i)] != 93
    decreases |items|
  {
    hide At, TextOf, ParseValue, ParseItems, Leading, Legible, Height, Skip, ItemsHeight, ItemText, Gap;
    var values := ItemValues(items);
    if items == [] {
      NothingLeads();
      SameStart(s, j, i, nesting, done);
      assert done + [] == done;
    } else {
      var k := i + |ItemText(items[0])| + 1;
      LeadingStep(s, j, i, items, nesting, done);
      HeightOfFirst(values);
      LeadingIsRead(s, k, k, items[1..], nesting, done + [values[0]]);
      FirstMoves(done, values);
    }
  }

  lemma NothingLeads()
    ensures Leading([]) == [] && LeadingEntries([]) == [] && ItemValues([]) == [] && EntryValues([]) == []
  {
  }

  lemma HeightOfFirst(values: seq<Json>)
    requires values != []
    ensures Height(values[0]) <= ItemsHeight(values) && ItemsHeight(values[1..]) <= ItemsHeight(values)
  {
  }

  lemma SameEntriesStart(s: seq<byte>, j: nat, i: nat, nesting: int, done: seq<Member>)
    requires Terminated(s) && j < |s| && i < |s| && Skip(s, j) == Skip(s, i)
    requires nesting <= NESTING_LIMIT && nesting + MembersHeight(done) <= NESTING_LIMIT
    ensures ParseMembers(s, j, nesting, done) == ParseMembers(s, i, nesting, done)
  {
    hide Skip, ParseValue, MembersHeight, EntryAt, KeyAt;
    SameEntry(s, j, i, nesting);
  }

  lemma SameEntry(s: seq<byte>, j: nat, i: nat, nesting: int)
    requires Terminated(s) && j < |s| && i < |s| && Skip(s, j) == Skip(s, i) && nesting <= NESTING_LIMIT
    ensures KeyAt(s, j) == KeyAt(s, i) && EntryAt(s, j, nesting) == EntryAt(s, i, nesting)
  {
    hide Skip, ParseValue, StringAt;
  }

  lemma LeadingEntriesSplit(s: seq<byte>, i: nat, entries: seq<Entry>)
    requires entries != [] && At(s, i, LeadingEntries(entries))
    ensures var x := entries[0];
      var v := i + |EntryHead(x)|; var n := v + |TextOf(x.value)|; var k := n + |x.after|;
      && At(s, i, EntryHead(x)) && At(s, v, TextOf(x.value)) && At(s, n, x.after) && At(s, k, [44])
      && At(s, k + 1, LeadingEntries(entries[1..]))
      && i + |LeadingEntries(entries)| == k + 1 + |LeadingEntries(entries[1..])|
  {
    hide At, TextOf, EntryHead;
    var x := entries[0];
    AtSplit3(s, i, EntryText(x), [44], LeadingEntries(entries[1..]));
    AtSplit3(s, i, EntryHead(x), TextOf(x.value), x.after);
  }

  lemma LeadingEntriesStep(s: seq<byte>, j: nat, i: nat, entries: seq<Entry>, nesting: int, done: seq<Member>)
    requires Terminated(s) && entries != [] && LegibleEntries(entries)
    requires j < |s| && i < |s| && Skip(s, j) == Skip(s, i)
    requires nesting <= NESTING_LIMIT && nesting + MembersHeight(EntryValues(entries)) <= NESTING_LIMIT
    requires nesting + MembersHeight(done) <= NESTING_LIMIT && At(s, i, LeadingEntries(entries))
    ensures var more := done + [EntryValues(entries)[0]];
      && nesting + MembersHeight(more) <= NESTING_LIMIT
      && var k := i + |EntryText(entries[0])| + 1;
      && k < |s| && At(s, k, LeadingEntries(entries[1..]))
      && i + |LeadingEntries(entries)| == k + |LeadingEntries(entries[1..])|
      && ParseMembers(s, j, nesting, done) == ParseMembers(s, k, nesting, more)
    ensures s[Skip(s, i)] == 34
  {
    hide At, TextOf, ParseValue, ParseMembers, LeadingEntries, Legible, Height, Skip, Delimited, MembersHeight, KeyAt;
    hide EntryHead, LegibleGaps, Spelling, StringOf;
    var x, m := entries[0], EntryValues(entries)[0];
    var v := i + |EntryHead(x)|;
    var n := v + |TextOf(x.value)|;
    var k := n + |x.after|;
    LeadingEntriesSplit(s, i, entries);
    AtHead(s, k, [44]);
    GapsOf(x);
    AfterValue(s, n, x.after);
    TextHead(x.value);
    AtHead(s, v, TextOf(x.value));
    HeadIsRead(s, j, i, x);
    HeightOfFirstMember(EntryValues(entries));
    ValueIsRead(s, v, x.value, nesting);
    MembersStep(s, j, nesting, done, m, n);
  }

  lemma HeightOfFirstMember(members: seq<Member>)
    requires members != []
    ensures Height(members[0].value) <= MembersHeight(members) && MembersHeight(members[1..]) <= MembersHeight(members)
  {
  }

  lemma {:induction false} LeadingEntriesRead(s: seq<byte>, j: nat, i: nat, entries: seq<Entry>, nesting: int,
      done: seq<Member>)
    requires Terminated(s) && LegibleEntries(entries) && j < |s| && i < |s| && Skip(s, j) == Skip(s, i)
    requires nesting <= NESTING_LIMIT && nesting + MembersHeight(EntryValues(entries)) <= NESTING_LIMIT
    requires nesting + MembersHeight(done) <= NESTING_LIMIT && At(s, i, LeadingEntries(entries))
    requires i + |LeadingEntries(entries)| < |s|
    ensures nesting + MembersHeight(done + EntryValues(entries)) <= NESTING_LIMIT
    ensures ParseMembers(s, j, nesting, done)
      == ParseMembers(s, i + |LeadingEntries(entries)|, nesting, done + EntryValues(entries))
    ensures entries != [] ==> s[Skip(s, i)] == 34
    decreases |entries|
  {
    hide At, TextOf, ParseMembers, LeadingEntries, Legible, LegibleGaps, Spelling, StringOf, Height, Skip;
    hide MembersHeight;
    hide EntryText, Gap;
    var members := EntryValues(entries);
    if entries == [] {
      NothingLeads();
      SameEntriesStart(s, j, i, nesting, done);
      assert done + [] == done;
    } else {
      var k := i + |EntryText(entries[0])| + 1;
      LeadingEntriesStep(s, j, i, entries, nesting, done);
      HeightOfFirstMember(members);
      LeadingEntriesRead(s, k, k, entries[1..], nesting, done + [members[0]]);
      FirstMoves(done, members);
    }
  }

  lemma OpensArray(s: seq<byte>, i: nat, nesting: int)
    requires Terminated(s) && i + 1 < |s| && s[i] == 91 && nesting < 1000 && s[Skip(s, i + 1)] != 93
    ensures ItemsHeight([]) == 0 && ParseValue(s, i, nesting) == ParseItems(s, Skip(s, i + 1), nesting + 1, [])
  {
    hide ParseItems, Skip, StringAt, ParseNumber, ParseMembers, At;
    NoLiteral(s, i);
  }

  lemma OpensObject(s: seq<byte>, i: nat, nesting: int)
    requires Terminated(s) && i + 1 < |s| && s[i] == 123 && nesting < 1000 && s[Skip(s, i + 1)] != 125
    ensures MembersHeight([]) == 0 && ParseValue(s, i, nesting) == ParseMembers(s, Skip(s, i + 1), nesting + 1, [])
  {
    hide ParseItems, Skip, StringAt, ParseNumber, ParseMembers, At;
    NoLiteral(s, i);
  }

  /** An array is read up to the place behind the commas. */
  lemma ArrayGoesOn(s: seq<byte>, i: nat, items: seq<Item>, nesting: int)
    requires Terminated(s) && ItemsStand(s, i, items, nesting)
    requires var n := i + 1 + |Leading(items)|; n < |s| && (items == [] ==> s[Skip(s, n)] != 93)
    ensures i < |s| && nesting + 1 + ItemsHeight(ItemValues(items)) <= NESTING_LIMIT
    ensures ParseValue(s, i, nesting) == ParseItems(s, i + 1 + |Leading(items)|, nesting + 1, ItemValues(items))
  {
    hide At, ParseItems, ParseValue, Leading, Skip, ItemsHeight, Legible;
    AtSplit(s, i, [91], Leading(items));
    AtHead(s, i, [91]);
    SkipTwice(s, i + 1);
    NothingLeads();
    NoHeight();
    LeadingIsRead(s, Skip(s, i + 1), i + 1, items, nesting + 1, []);
    OpensArray(s, i, nesting);
    assert [] + ItemValues(items) == ItemValues(items);
  }

  lemma NoHeight()
    ensures ItemsHeight([]) == 0 && MembersHeight([]) == 0
  {
  }

  lemma ObjectGoesOn(s: seq<byte>, i: nat, entries: seq<Entry>, nesting: int)
    requires Terminated(s) && EntriesStand(s, i, entries, nesting)
    requires var n := i + 1 + |LeadingEntries(entries)|; n < |s| && (entries == [] ==> s[Skip(s, n)] != 125)
    ensures i < |s| && nesting + 1 + MembersHeight(EntryValues(entries)) <= NESTING_LIMIT
    ensures ParseValue(s, i, nesting)
      == ParseMembers(s, i + 1 + |LeadingEntries(entries)|, nesting + 1, EntryValues(entries))
  {
    hide At, ParseMembers, ParseValue, LeadingEntries, Skip, MembersHeight, Legible, LegibleGaps, Spelling, StringOf;
    AtSplit(s, i, [123], LeadingEntries(entries));
    AtHead(s, i, [123]);
    SkipTwice(s, i + 1);
    NothingLeads();
    NoHeight();
    LeadingEntriesRead(s, Skip(s, i + 1), i + 1, entries, nesting + 1, []);
    OpensObject(s, i, nesting);
    assert [] + EntryValues(entries) == EntryValues(entries);
  }

  // The error is found.

  lemma AfterLast(s: seq<byte>, n: nat, g: seq<byte>)
    requires Gap(g) && At(s, n, g) && Stops(s, n + |g|) && (g == [] ==> EndsNumber(s[n]))
    ensures Delimited(s, n) && Skip(s, n) == n + |g|
  {
    GapIsSkipped(s, n, g);
    if g != [] {
      AtHead(s, n, g);
    }
  }

  lemma ItemFaultIsFound(s: seq<byte>, i: nat, items: seq<Item>, x: Item, q: nat, nesting: int)
    requires Terminated(s) && ItemsBreakOff(s, i, items, x, q, nesting)
    ensures i < |s| && nesting < 1000 && ParseValue(s, i, nesting) == Failed(q)
  {
    hide At, ParseItems, ParseValue, Leading, Skip, ItemsHeight, Height, Legible, TextOf, Delimited, Gap;
    var n := i + 1 + |Leading(items)|;
    var v := n + |x.before|;
    var m := v + |TextOf(x.value)|;
    AtSplit3(s, n, x.before, TextOf(x.value), x.after);
    TextHead(x.value);
    AtHead(s, v, TextOf(x.value));
    GapIsSkipped(s, n, x.before);
    AfterLast(s, m, x.after);
    ArrayGoesOn(s, i, items, nesting);
    hide ItemsStand;
    ValueIsRead(s, v, x.value, nesting + 1);
    ItemsStep(s, n, nesting + 1, ItemValues(items), ValueOf(x.value), m);
  }

  lemma EntryFaultIsFound(s: seq<byte>, i: nat, entries: seq<Entry>, x: Entry, q: nat, nesting: int)
    requires Terminated(s) && EntriesBreakOff(s, i, entries, x, q, nesting)
    ensures i < |s| && nesting < 1000 && ParseValue(s, i, nesting) == Failed(q)
  {
    hide At, ParseMembers, ParseValue, LeadingEntries, Skip, MembersHeight, Height, Legible, TextOf, Delimited;
    hide Gap, LegibleGaps, KeyAt, EntryHead, Spelling, StringOf;
    var n := i + 1 + |LeadingEntries(entries)|;
    var v := n + |EntryHead(x)|;
    var m := v + |TextOf(x.value)|;
    AtSplit3(s, n, EntryHead(x), TextOf(x.value), x.after);
    TextHead(x.value);
    AtHead(s, v, TextOf(x.value));
    HeadIsRead(s, n, n, x);
    GapsOf(x);
    AfterLast(s, m, x.after);
    ObjectGoesOn(s, i, entries, nesting);
    hide EntriesStand;
    ValueIsRead(s, v, x.value, nesting + 1);
    MembersStep(s, n, nesting + 1, EntryValues(entries), Member(StringOf(x.key), ValueOf(x.value)), m);
  }

  lemma NameFaultIsFound(s: seq<byte>, i: nat, entries: seq<Entry>, before: seq<byte>, f: TextFault, q: nat,
      nesting: int)
    requires Terminated(s) && NameBreaks(s, i, entries, before, f, q, nesting)
    ensures i < |s| && nesting < 1000 && ParseValue(s, i, nesting) == Failed(TextPosition(q, f))
  {
    hide At, ParseMembers, ParseValue, LeadingEntries, Skip, MembersHeight, TextBreaks, StringAt, Legible, Gap;
    hide TextPosition;
    var n := i + 1 + |LeadingEntries(entries)|;
    GapIsSkipped(s, n, before);
    ObjectGoesOn(s, i, entries, nesting);
    hide EntriesStand;
    TextFaultIsFound(s, q, f);
    NoNameThere(s, n, q, nesting + 1, TextPosition(q, f));
    MembersFail(s, n, nesting + 1, EntryValues(entries));
  }

  lemma NoNameThere(s: seq<byte>, n: nat, q: nat, nesting: int, p: nat)
    requires Terminated(s) && n < |s| && Skip(s, n) == q && StringAt(s, q) == BadText(p) && nesting <= NESTING_LIMIT
    ensures EntryAt(s, n, nesting) == Failed(p)
  {
    hide Skip, StringAt, ParseValue;
  }

  lemma ColonFaultIsFound(s: seq<byte>, i: nat, entries: seq<Entry>, before: seq<byte>, key: seq<Unit>,
      beforeColon: seq<byte>, q: nat, nesting: int)
    requires Terminated(s) && ColonMissing(s, i, entries, before, key, beforeColon, q, nesting)
    ensures i < |s| && nesting < 1000 && ParseValue(s, i, nesting) == Failed(q)
  {
    hide At, ParseMembers, ParseValue, LeadingEntries, Skip, MembersHeight, StringAt, Legible, Gap, Spelling;
    hide SpellingText;
    hide StringOf;
    var n := i + 1 + |LeadingEntries(entries)|;
    var k := n + |before|;
    AtSplit3(s, n, before, Quoted(key), beforeColon);
    AtHead(s, k, Quoted(key));
    GapIsSkipped(s, n, before);
    LiteralIsRead(s, k, key);
    GapIsSkipped(s, k + |Quoted(key)|, beforeColon);
    ObjectGoesOn(s, i, entries, nesting);
    hide EntriesStand;
    MembersFail(s, n, nesting + 1, EntryValues(entries));
  }

  /** An array fails as its item does. */
  lemma ThroughItems(s: seq<byte>, i: nat, items: seq<Item>, before: seq<byte>, q: nat, nesting: int)
    requires Terminated(s) && ItemBegins(s, i, items, before, q, nesting)
    ensures nesting < 1000 && i < |s| && q < |s|
    ensures ParseValue(s, q, nesting + 1).Failed? ==> ParseValue(s, i, nesting) == ParseValue(s, q, nesting + 1)
  {
    hide At, ParseItems, ParseValue, Leading, Skip, ItemsHeight, Legible, Gap;
    var n := i + 1 + |Leading(items)|;
    GapIsSkipped(s, n, before);
    ArrayGoesOn(s, i, items, nesting);
    hide ItemsStand;
    if ParseValue(s, q, nesting + 1).Failed? {
      ItemsFail(s, n, nesting + 1, ItemValues(items));
    }
  }

  lemma ThroughEntries(s: seq<byte>, i: nat, entries: seq<Entry>, head: Entry, q: nat, nesting: int)
    requires Terminated(s) && EntryBegins(s, i, entries, head, q, nesting)
    ensures nesting < 1000 && i < |s| && q < |s|
    ensures ParseValue(s, q, nesting + 1).Failed? ==> ParseValue(s, i, nesting) == ParseValue(s, q, nesting + 1)
  {
    hide At, ParseMembers, ParseValue, LeadingEntries, Skip, MembersHeight, Legible, LegibleGaps, Spelling, KeyAt;
    hide EntryHead;
    hide StringOf;
    var n := i + 1 + |LeadingEntries(entries)|;
    HeadIsRead(s, n, n, head);
    ObjectGoesOn(s, i, entries, nesting);
    hide EntriesStand;
    if ParseValue(s, q, nesting + 1).Failed? {
      MembersFail(s, n, nesting + 1, EntryValues(entries));
    }
  }

  lemma PlaceHere(i: nat, f: Fault)
    ensures Place(i, Here(f)) == i
  {
  }

  /** A value whose text is right up to one place is refused at that place. */
  lemma {:induction false} WayIsFound(s: seq<byte>, i: nat, w: Way, nesting: int)
    requires Terminated(s) && nesting <= NESTING_LIMIT && WayBreaks(s, i, w, nesting)
    ensures i < |s| && ParseValue(s, i, nesting) == Failed(WayPosition(i, w))
    decreases w
  {
    hide ParseValue, TextPosition, Place, TextBreaks, ItemsBreakOff, EntriesBreakOff, ItemBegins, EntryBegins;
    hide NameBreaks;
    hide ColonMissing;
    var q := Place(i, w);
    match w
    case Here(f) =>
      PlaceHere(i, f);
      FaultIsFound(s, i, f, nesting);
    case IntoItem(items, before, way) =>
      ThroughItems(s, i, items, before, q, nesting);
      WayIsFound(s, q, way, nesting + 1);
    case AfterItem(items, x) => ItemFaultIsFound(s, i, items, x, q, nesting);
    case IntoEntry(entries, head, way) =>
      ThroughEntries(s, i, entries, head, q, nesting);
      WayIsFound(s, q, way, nesting + 1);
    case AtName(entries, before, f) => NameFaultIsFound(s, i, entries, before, f, q, nesting);
    case AtColon(entries, before, key, beforeColon) =>
      ColonFaultIsFound(s, i, entries, before, key, beforeColon, q, nesting);
    case AfterEntry(entries, x) => EntryFaultIsFound(s, i, entries, x, q, nesting);
  }

  /**
   * The error position of a document: behind a byte order mark and a gap, the place where the text
   * goes wrong, or the last byte of the buffer if that place lies behind it.
   */
  lemma ErrorIsAtFault(s: seq<byte>, d: Document, w: Way, requireNul: bool)
    requires Terminated(s) && Gap(d.before) && At(s, 0, Mark(d) + d.before)
    requires var i := |Mark(d) + d.before|; Stops(s, i) && WayBreaks(s, i, w, 0) && (d.mark ==> |s| > 4)
    requires !d.mark ==> ByteAt(s, 0) != 239
    ensures var p := WayPosition(|Mark(d) + d.before|, w);
      ParseDocument(s, requireNul) == Failed(if p < |s| then p else |s| - 1)
  {
    hide At, WayBreaks, WayPosition, ParseValue, Skip, Gap;
    AtSplit(s, 0, Mark(d), d.before);
    if d.mark {
      AtByte(s, 0, Mark(d), 0);
      AtByte(s, 0, Mark(d), 1);
      AtByte(s, 0, Mark(d), 2);
    }
    GapIsSkipped(s, |Mark(d)|, d.before);
    WayIsFound(s, |Mark(d) + d.before|, w, 0);
  }

  /** Where the end of the text is demanded, the first visible byte behind the value is the error. */
  lemma TrailingByteIsFound(s: seq<byte>, d: Document)
    requires Terminated(s) && LegibleDocument(d) && Height(ValueOf(d.value)) <= 1000
    requires At(s, 0, Mark(d) + d.before + TextOf(d.value) + d.after) && (!d.mark ==> ByteAt(s, 0) != 239)
    requires var q := |Mark(d) + d.before + TextOf(d.value) + d.after|;
      Stops(s, q) && s[q] != 0 && (d.after == [] ==> EndsNumber(s[q])) && (d.mark ==> |s| > 4)
    ensures ParseDocument(s, true) == Failed(|Mark(d) + d.before + TextOf(d.value) + d.after|)
    ensures ParseDocument(s, false) == Parsed(ValueOf(d.value), |Mark(d) + d.before + TextOf(d.value)|)
  {
    hide At, TextOf, ParseValue, Skip, Gap, Legible, Height, ValueOf, Delimited;
    var i := |Mark(d)| + |d.before|;
    AtSplit4(s, 0, Mark(d), d.before, TextOf(d.value), d.after);
    if d.mark {
      AtByte(s, 0, Mark(d), 0);
      AtByte(s, 0, Mark(d), 1);
      AtByte(s, 0, Mark(d), 2);
    }
    TextHead(d.value);
    AtHead(s, i, TextOf(d.value));
    GapIsSkipped(s, |Mark(d)|, d.before);
    AfterLast(s, i + |TextOf(d.value)|, d.after);
    ValueIsRead(s, i, d.value, 0);
  }
}
