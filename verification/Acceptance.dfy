/** The parser accepts nothing but the texts of the grammar. */
module Acceptance {
  import opened Bytes
  import opened JsonValue
  import opened Grammar
  import opened NumberText
  import opened Utf
  import opened StringCodec
  import opened ParseSpec
  import opened Reading

  lemma Cut(s: seq<byte>, a: nat, b: nat, c: nat)
    requires a <= b <= c <= |s|
    ensures s[a..c] == s[a..b] + s[b..c] && (b == a + 1 ==> s[a..b] == [s[a]])
  {
  }

  // Strings.

  lemma {:induction false} TextCloses(s: seq<byte>, p: nat)
    requires 0 <= ClosingQuote(s, p)
    ensures Closes(s[p..ClosingQuote(s, p)])
    decreases |s| - p
  {
    var e := ClosingQuote(s, p);
    if s[p] != QUOTE {
      var k := if s[p] == BACKSLASH then 2 else 1;
      TextCloses(s, p + k);
      assert s[p..e][k..] == s[p + k..e];
    } else {
      assert s[p..e] == [];
    }
  }

  lemma HexIsWritten(s: seq<byte>, i: nat)
    requires i + 4 <= |s|
    ensures Hex4(s, i) == if FourHex(s[i..i + 4]) then CodeOf(s[i..i + 4]) else 0
  {
    var t := s[i..i + 4];
    assert At(s, i, t);
    FourBytes(s, i, t);
    if FourHex(t) {
      HexIsRead(s, i, t);
    }
  }

  /** An accepted escape is a unit of the grammar. */
  lemma CodeIsUnit(s: seq<byte>, p: nat, e: nat) returns (u: Unit)
    requires p + 1 < e < |s| && s[p] == 92 && s[p + 1] == 117 && LiteralAt(s, p, e).length != 0
    ensures var r := LiteralAt(s, p, e);
      && p + r.length <= e && Spells(u) && !u.Dangling?
      && UnitText(u) == s[p..p + r.length] && UnitBytes(u) == Utf8(r.codepoint)
  {
    hide Utf8, CodeOf, FourHex, Hex4;
    var r := LiteralAt(s, p, e);
    var t := s[p + 2..p + 6];
    HexIsWritten(s, p + 2);
    Cut(s, p, p + 2, p + 6);
    assert s[p..p + 2] == [92, 117];
    NoHexIsNul();
    if r.length == 12 {
      var v := s[p + 8..p + 12];
      HexIsWritten(s, p + 8);
      Cut(s, p, p + 6, p + 8);
      Cut(s, p, p + 8, p + 12);
      assert s[p + 6..p + 8] == [92, 117];
      u := Pair(t, v);
    } else if FourHex(t) {
      u := Code(t);
    } else {
      u := NoDigits(t);
    }
  }

  lemma NoHexIsNul()
    ensures Utf8(0) == [0]
  {
  }

  lemma {:induction false} LiteralIsSpelled(s: seq<byte>, p: nat, e: nat) returns (us: seq<Unit>)
    requires p <= e < |s| && s[e] == QUOTE && Decode(s, p, e).Decoded?
    ensures Units(us) && SpellingText(us) == s[p..e] && SpellingBytes(us) == Decode(s, p, e).bytes
    decreases e - p
  {
    hide LiteralAt, SimpleEscape, Spells, Units, SpellingText, SpellingBytes, Utf8, Meant;
    NothingSpelled();
    us := [];
    if p + 1 == e && s[p] == BACKSLASH {
      us := [Dangling];
      LastIsQuote(s, p);
    } else if p < e {
      var u, n, rest;
      if s[p] != BACKSLASH {
        u, n := Plain(s[p]), p + 1;
        PlainIsUnit(s[p]);
        assert UnitText(u) == s[p..n];
      } else if s[p + 1] == 117 {
        u := CodeIsUnit(s, p, e);
        n := p + LiteralAt(s, p, e).length;
      } else {
        ShortIsUnit(s[p + 1]);
        u, n := Short(s[p + 1]), p + 2;
        assert UnitText(u) == s[p..n];
      }
      rest := LiteralIsSpelled(s, n, e);
      us := [u] + rest;
      Cut(s, p, n, e);
      SpellingFirst(u, rest);
    }
  }

  /** A backslash right before the closing quote makes it part of the string. */
  lemma LastIsQuote(s: seq<byte>, p: nat)
    requires p + 1 < |s| && s[p] == BACKSLASH && s[p + 1] == QUOTE
    ensures Decode(s, p, p + 1) == Decoded([34])
    ensures Units([Dangling]) && SpellingText([Dangling]) == s[p..p + 1] && SpellingBytes([Dangling]) == [34]
  {
    assert [Dangling][1..] == [];
  }

  lemma SpellingFirst(u: Unit, rest: seq<Unit>)
    requires Spells(u) && !u.Dangling? && Units(rest)
    ensures Units([u] + rest) && SpellingText([u] + rest) == UnitText(u) + SpellingText(rest)
    ensures SpellingBytes([u] + rest) == UnitBytes(u) + SpellingBytes(rest)
  {
    assert ([u] + rest)[1..] == rest;
  }

  lemma NothingSpelled()
    ensures Units([]) && SpellingText([]) == [] && SpellingBytes([]) == []
  {
  }

  lemma PlainIsUnit(b: byte)
    ensures b != 92 ==> Spells(Plain(b)) && !Plain(b).Dangling?
  {
  }

  lemma ShortIsUnit(c: byte)
    ensures SimpleEscape(c) >= 0 ==> Spells(Short(c)) && Meant(c) == SimpleEscape(c)
  {
  }

  lemma StringIsSpelled(s: seq<byte>, i: nat) returns (us: seq<Unit>)
    requires i < |s| && StringAt(s, i).Text?
    ensures Spelling(us) && s[i..StringAt(s, i).next] == Quoted(us) && StringAt(s, i).text == StringOf(us)
  {
    hide Decode, ClosingQuote, SpellingText, SpellingBytes, Units, BeforeNul, Closes;
    var e := ClosingQuote(s, i + 1);
    us := LiteralIsSpelled(s, i + 1, e);
    TextCloses(s, i + 1);
    Cut(s, i, i + 1, e);
    Cut(s, i, e, e + 1);
  }

  // Numbers.

  lemma ScalingOf(t: seq<byte>, i: nat) returns (x: Scaling)
    requires i <= |t|
    ensures var (power, after) := Exponent(t, i); t[i..after] == ScalingText(x) && Scale(power) == Power(x)
    ensures x.Scaled? ==> x.letter in {101, 69} && x.sign in {[], [43], [45]} && Digits(x.digits) && x.digits != []
  {
    hide Worth, Value, Scale, DigitRun, ScalingText, Power;
    NoScaling(t, i);
    x := Unscaled;
    if i < |t| && (t[i] == 101 || t[i] == 69) {
      var d := if IsSign(t, i + 1) then i + 2 else i + 1;
      var after := DigitRun(t, d);
      if after != d {
        x := Scaled(t[i], t[i + 1..d], t[d..after]);
        assert forall k :: 0 <= k < after - d ==> x.digits[k] == t[d + k];
        SignOf(t, i, d);
        PowerOf(t, d, after, t[i + 1] == 45, x);
        ScalingSlice(t, i, d, after);
      }
    }
  }

  lemma NoScaling(t: seq<byte>, i: nat)
    requires i <= |t|
    ensures t[i..i] == ScalingText(Unscaled) && Scale(0) == Power(Unscaled)
  {
  }

  lemma ScalingSlice(t: seq<byte>, i: nat, d: nat, after: nat)
    requires i < d <= after <= |t|
    ensures t[i..after] == ScalingText(Scaled(t[i], t[i + 1..d], t[d..after]))
  {
    Cut(t, i, i + 1, d);
    Cut(t, i, d, after);
  }

  lemma SignOf(t: seq<byte>, i: nat, d: nat)
    requires i + 1 < |t| && d == if IsSign(t, i + 1) then i + 2 else i + 1
    ensures t[i + 1..d] in {[], [43], [45]} && (t[i + 1..d] == [45] <==> t[i + 1] == 45)
  {
    if d == i + 2 {
      Cut(t, i + 1, d, d);
      assert t[i + 1..d] == [43] || t[i + 1..d] == [45];
    } else {
      assert t[i + 1..d] == [];
    }
  }

  /** What `strtod` takes from a text that starts as a number is a numeral, with its value. */
  lemma NumeralOf(t: seq<byte>) returns (n: Numeral)
    requires Strtod(t).Decimal? && (t[0] == 45 || 48 <= t[0] <= 57)
    ensures Numeric(n) && NumeralText(n) == t[..Strtod(t).length] && NumeralValue(n) == Strtod(t).value
  {
    hide ScalingText, Worth, Power, Value, Scale, Exponent, DigitRun;
    var start := if IsSign(t, 0) then 1 else 0;
    var point := DigitRun(t, start);
    var frac := if point < |t| && t[point] == POINT then point + 1 else point;
    var end := if frac > point then DigitRun(t, frac) else point;
    var x := ScalingOf(t, end);
    var after := Exponent(t, end).1;
    n := Numeral(start == 1, t[start..point], frac > point, t[frac..end], x);
    hide NumeralValue, NumeralText;
    ValueOfParts(n, t, start, point, frac, end);
    NumeralSlices(n, t, start, point, frac, end, after);
  }

  lemma ValueOfParts(n: Numeral, t: seq<byte>, start: nat, point: nat, frac: nat, end: nat)
    requires Numeric(n) && start <= point <= frac <= end <= |t| && frac <= point + 1
    requires t[start..point] == n.whole && t[frac..end] == n.fraction && (point < frac ==> t[point] == 46)
    requires Scale(Exponent(t, end).0) == Power(n.scaling)
    ensures NumeralValue(n)
      == (var magnitude := Value(t, start, end, 0) as real * Scale(Exponent(t, end).0 - (end - frac));
          if n.minus then -magnitude else magnitude)
  {
    hide Worth, Power, Value, Scale, Exponent, DigitRun, Numeric;
    MagnitudeIsRead(n, t, start, point, frac, end);
    ScaleShift(Exponent(t, end).0, |n.fraction|);
    Reorder(Worth(n.whole + n.fraction) as real, Power(n.scaling), Tens(|n.fraction|) as real);
  }

  lemma NumeralSlices(n: Numeral, t: seq<byte>, start: nat, point: nat, frac: nat, end: nat, after: nat)
    requires start <= point <= frac <= end <= after <= |t| && start == (if n.minus then 1 else 0)
    requires frac == (if n.point then point + 1 else point) && (n.minus ==> t[0] == 45) && (n.point ==> t[point] == 46)
    requires n.whole == t[start..point] && n.fraction == t[frac..end] && ScalingText(n.scaling) == t[end..after]
    requires !n.point ==> n.fraction == []
    ensures NumeralText(n) == t[..after]
  {
    hide ScalingText;
    if n.point { Cut(t, point, point + 1, end); }
    Cut(t, 0, start, point);
    Cut(t, 0, point, end);
    Cut(t, 0, end, after);
    assert t[..after] == t[0..after] && (n.minus ==> t[0..1] == [45]);
  }

  lemma NumberIsWritten(s: seq<byte>, i: nat) returns (n: Numeral)
    requires Terminated(s) && i < |s| && (s[i] == 45 || 48 <= s[i] <= 57) && ParseNumber(s, i).Parsed?
    ensures Numeric(n) && |NumeralText(n)| <= 63
    ensures s[i..ParseNumber(s, i).next] == NumeralText(n) && ParseNumber(s, i).value == Number(NumeralValue(n))
  {
    hide Strtod, NumeralText, NumeralValue, Numeric, NumberByte;
    var t := s[i..i + Span(s, i, 0)];
    n := NumeralOf(t);
    assert t[..Strtod(t).length] == s[i..i + Strtod(t).length];
  }

  // Values.

  lemma GapOf(s: seq<byte>, i: nat)
    requires i < |s|
    ensures Gap(s[i..Skip(s, i)])
  {
  }

  /** A value that the parser reads is written there in the grammar. */
  lemma {:induction false} ValueIsWritten(s: seq<byte>, i: nat, depth: int) returns (c: Syntax)
    requires Terminated(s) && i < |s| && depth <= NESTING_LIMIT && ParseValue(s, i, depth).Parsed?
    ensures Legible(c) && s[i..ParseValue(s, i, depth).next] == TextOf(c) && ParseValue(s, i, depth).value == ValueOf(c)
    decreases |s| - i, 1
  {
    hide At, StringAt, ParseNumber, ParseItems, ParseMembers, Quoted, NumeralText, Numeric, NumeralValue, Skip;
    hide Terminated, Spelling, StringOf;
    var next := ParseValue(s, i, depth).next;
    if At(s, i, NULL_TEXT) {
      c := NullWord;
      AtSlice(s, i, NULL_TEXT);
    } else if At(s, i, FALSE_TEXT) {
      c := FalseWord;
      AtSlice(s, i, FALSE_TEXT);
    } else if At(s, i, TRUE_TEXT) {
      c := TrueWord;
      AtSlice(s, i, TRUE_TEXT);
    } else if s[i] == QUOTE {
      var us := StringIsSpelled(s, i);
      c := StringWord(us);
    } else if s[i] == MINUS || IsDigit(s[i]) {
      var n := NumberIsWritten(s, i);
      c := NumberWord(n);
    } else if s[i] == OPEN_BRACKET {
      c := ArrayIsWritten(s, i, depth);
    } else {
      c := ObjectIsWritten(s, i, depth);
    }
  }

  lemma {:induction false} ArrayIsWritten(s: seq<byte>, i: nat, depth: int) returns (c: Syntax)
    requires Terminated(s) && i < |s| && s[i] == OPEN_BRACKET && depth <= NESTING_LIMIT
    requires ParseArray(s, i, depth).Parsed?
    ensures Legible(c) && s[i..ParseArray(s, i, depth).next] == TextOf(c) && ParseArray(s, i, depth).value == ValueOf(c)
    decreases |s| - i, 0
  {
    hide ParseItems, Skip, Terminated, Gap, ItemsText, ItemValues;
    var j, next := Skip(s, i + 1), ParseArray(s, i, depth).next;
    GapOf(s, i + 1);
    Cut(s, i, i + 1, j);
    Cut(s, i, j, next);
    NoItems();
    if s[j] == CLOSE_BRACKET {
      c := ArrayWord(s[i + 1..j], []);
      Cut(s, j, j + 1, j + 1);
    } else {
      var items := ItemsAreWritten(s, i + 1, j, depth + 1, []);
      c := ArrayWord([], items);
      Cut(s, i, i + 1, next);
      assert [] + ItemValues(items) == ItemValues(items);
      ArrayIsLegible(items);
    }
  }

  lemma ArrayIsLegible(items: seq<Item>)
    requires items != [] && LegibleItems(items)
    ensures Legible(ArrayWord([], items))
    ensures TextOf(ArrayWord([], items)) == [91] + (ItemsText(items) + [93])
  {
    hide ItemsText;
    assert [91] + [] + ItemsText(items) + [93] == [91] + (ItemsText(items) + [93]);
  }

  lemma {:induction false} ItemsAreWritten(s: seq<byte>, from: nat, j: nat, depth: int, done: seq<Json>)
    returns (items: seq<Item>)
    requires Terminated(s) && from <= j < |s| && Skip(s, from) == Skip(s, j) && depth <= NESTING_LIMIT
    requires depth + ItemsHeight(done) <= NESTING_LIMIT && ParseItems(s, j, depth, done).Parsed?
    ensures items != [] && LegibleItems(items)
    ensures var r := ParseItems(s, j, depth, done);
      s[from..r.next] == ItemsText(items) + [93] && r.value == Array(done + ItemValues(items))
    decreases |s| - j, 3
  {
    hide Skip, ParseValue, ItemsHeight, Height, Terminated, Legible, Gap, ItemsText, ItemText, ItemValues;
    hide ValueOf;
    hide TextOf, ParseItems;
    var r, first := ParseItems(s, j, depth, done), ParseValue(s, Skip(s, j), depth);
    if first.Failed? { ItemsFail(s, j, depth, done); }
    var k := Skip(s, first.next);
    ItemsStep(s, j, depth, done, first.value, first.next);
    var x := ItemIsWritten(s, from, j, depth);
    var rest: seq<Item> := [];
    NoItems();
    if s[k] == COMMA {
      rest := ItemsAreWritten(s, k + 1, k + 1, depth, done + [first.value]);
      Cut(s, k, k + 1, r.next);
    } else {
      NoLegibleItems();
      Cut(s, k, k + 1, k + 1);
    }
    Cut(s, from, k, r.next);
    items := [x] + rest;
    ItemsFirst(x, rest);
    MovesOver(done, first.value, ItemValues(rest));
  }

  lemma MovesOver<T>(done: seq<T>, x: T, rest: seq<T>)
    ensures done + [x] + rest == done + ([x] + rest) && (rest == [] ==> done + [x] == done + ([x] + rest))
  {
  }

  lemma NoLegibleItems()
    ensures LegibleItems([]) && LegibleEntries([])
  {
  }

  /** One value with the gaps around it. */
  lemma {:induction false} ItemIsWritten(s: seq<byte>, from: nat, j: nat, depth: int) returns (x: Item)
    requires Terminated(s) && from <= j < |s| && Skip(s, from) == Skip(s, j) && depth <= NESTING_LIMIT
    requires ParseValue(s, Skip(s, j), depth).Parsed?
    ensures Gap(x.before) && Gap(x.after) && Legible(x.value)
    ensures var first := ParseValue(s, Skip(s, j), depth);
      s[from..Skip(s, first.next)] == ItemText(x) && ValueOf(x.value) == first.value
    decreases |s| - j, 2
  {
    hide Skip, ParseValue, Height, Terminated, Legible, Gap, TextOf, ValueOf;
    var v := Skip(s, j);
    var n := ParseValue(s, v, depth).next;
    var c := ValueIsWritten(s, v, depth);
    GapOf(s, from);
    GapOf(s, n);
    x := Item(s[from..v], c, s[n..Skip(s, n)]);
    Cut(s, from, v, n);
    Cut(s, from, n, Skip(s, n));
  }

  lemma ItemsFirst(x: Item, rest: seq<Item>)
    requires Gap(x.before) && Gap(x.after) && Legible(x.value) && LegibleItems(rest)
    ensures LegibleItems([x] + rest) && ItemValues([x] + rest) == [ValueOf(x.value)] + ItemValues(rest)
    ensures ItemsText([x] + rest) + [93]
      == ItemText(x) + (if rest == [] then [93] else [44] + (ItemsText(rest) + [93]))
  {
    hide ItemText, Legible;
    assert ([x] + rest)[1..] == rest;
    assert rest == [] ==> ItemsText(rest) == [];
  }

  // Objects.

  lemma {:induction false} ObjectIsWritten(s: seq<byte>, i: nat, depth: int) returns (c: Syntax)
    requires Terminated(s) && i < |s| && s[i] == OPEN_BRACE && depth <= NESTING_LIMIT
    requires ParseObject(s, i, depth).Parsed?
    ensures Legible(c) && s[i..ParseObject(s, i, depth).next] == TextOf(c)
    ensures ParseObject(s, i, depth).value == ValueOf(c)
    decreases |s| - i, 0
  {
    hide ParseMembers, Skip, Terminated, Gap, EntriesText, EntryValues;
    var j, next := Skip(s, i + 1), ParseObject(s, i, depth).next;
    GapOf(s, i + 1);
    Cut(s, i, i + 1, j);
    Cut(s, i, j, next);
    NoItems();
    if s[j] == CLOSE_BRACE {
      c := ObjectWord(s[i + 1..j], []);
      Cut(s, j, j + 1, j + 1);
    } else {
      var entries := EntriesAreWritten(s, i + 1, j, depth + 1, []);
      c := ObjectWord([], entries);
      Cut(s, i, i + 1, next);
      assert [] + EntryValues(entries) == EntryValues(entries);
      ObjectIsLegible(entries);
    }
  }

  lemma ObjectIsLegible(entries: seq<Entry>)
    requires entries != [] && LegibleEntries(entries)
    ensures Legible(ObjectWord([], entries))
    ensures TextOf(ObjectWord([], entries)) == [123] + (EntriesText(entries) + [125])
  {
    hide EntriesText;
    assert [123] + [] + EntriesText(entries) + [125] == [123] + (EntriesText(entries) + [125]);
  }

  lemma {:induction false} EntriesAreWritten(s: seq<byte>, from: nat, j: nat, depth: int, done: seq<Member>)
    returns (entries: seq<Entry>)
    requires Terminated(s) && from <= j < |s| && Skip(s, from) == Skip(s, j) && depth <= NESTING_LIMIT
    requires depth + MembersHeight(done) <= NESTING_LIMIT && ParseMembers(s, j, depth, done).Parsed?
    ensures entries != [] && LegibleEntries(entries)
    ensures var r := ParseMembers(s, j, depth, done);
      s[from..r.next] == EntriesText(entries) + [125] && r.value == Object(done + EntryValues(entries))
    decreases |s| - j, 4
  {
    hide Skip, EntryAt, KeyAt, MembersHeight, Height, Terminated, Legible, Gap, EntriesText, EntryText;
    hide EntryValues;
    hide ValueOf, StringOf, Spelling, LegibleGaps, ParseMembers;
    var r, first := ParseMembers(s, j, depth, done), EntryAt(s, j, depth);
    if first.Failed? { MembersFail(s, j, depth, done); }
    var k, m := Skip(s, first.next), Member(KeyAt(s, j).text, first.value);
    MembersStep(s, j, depth, done, m, first.next);
    var x := EntryIsWritten(s, from, j, depth);
    var rest: seq<Entry> := [];
    NoItems();
    if s[k] == COMMA {
      rest := EntriesAreWritten(s, k + 1, k + 1, depth, done + [m]);
      Cut(s, k, k + 1, r.next);
    } else {
      NoLegibleItems();
      Cut(s, k, k + 1, k + 1);
    }
    Cut(s, from, k, r.next);
    entries := [x] + rest;
    EntriesFirst(x, rest);
    MovesOver(done, m, EntryValues(rest));
  }

  /** A name, its colon and its value, with the gaps around them. */
  lemma {:induction false} EntryIsWritten(s: seq<byte>, from: nat, j: nat, depth: int) returns (x: Entry)
    requires Terminated(s) && from <= j < |s| && Skip(s, from) == Skip(s, j) && depth <= NESTING_LIMIT
    requires EntryAt(s, j, depth).Parsed?
    ensures Spelling(x.key) && LegibleGaps(x) && Legible(x.value) && KeyAt(s, j).Text?
    ensures var first := EntryAt(s, j, depth);
      && s[from..Skip(s, first.next)] == EntryText(x)
      && StringOf(x.key) == KeyAt(s, j).text && ValueOf(x.value) == first.value
    decreases |s| - j, 3
  {
    hide Skip, ParseValue, Height, Terminated, Legible, Gap, TextOf, ValueOf, StringOf, Spelling, EntryHead;
    hide KeyAt;
    hide LegibleGaps;
    var v := Skip(s, KeyAt(s, j).next);
    var n := EntryAt(s, j, depth).next;
    var head := HeadIsWritten(s, from, j);
    var c := ValueIsWritten(s, v, depth);
    GapOf(s, n);
    x := head.(value := c, after := s[n..Skip(s, n)]);
    SameHead(head, x);
    Cut(s, from, v, n);
    Cut(s, from, n, Skip(s, n));
  }

  lemma EntriesFirst(x: Entry, rest: seq<Entry>)
    requires Spelling(x.key) && LegibleGaps(x) && Legible(x.value) && LegibleEntries(rest)
    ensures LegibleEntries([x] + rest)
    ensures EntryValues([x] + rest) == [Member(StringOf(x.key), ValueOf(x.value))] + EntryValues(rest)
    ensures EntriesText([x] + rest) + [125]
      == EntryText(x) + (if rest == [] then [125] else [44] + (EntriesText(rest) + [125]))
  {
    hide EntryText, Legible, LegibleGaps, Spelling, StringOf;
    assert ([x] + rest)[1..] == rest;
    assert rest == [] ==> EntriesText(rest) == [];
  }

  lemma SameHead(x: Entry, y: Entry)
    requires LegibleGaps(x) && Gap(y.after) && y == x.(value := y.value, after := y.after)
    ensures EntryHead(y) == EntryHead(x) && LegibleGaps(y)
  {
  }

  /** A name and its colon, with the gaps around them; the value is still to come. */
  lemma HeadIsWritten(s: seq<byte>, from: nat, j: nat) returns (x: Entry)
    requires Terminated(s) && from <= j < |s| && Skip(s, from) == Skip(s, j) && KeyAt(s, j).Text?
    ensures Spelling(x.key) && LegibleGaps(x) && StringOf(x.key) == KeyAt(s, j).text
    ensures from <= Skip(s, KeyAt(s, j).next) && s[from..Skip(s, KeyAt(s, j).next)] == EntryHead(x)
  {
    hide Skip, StringAt, Terminated, Gap, StringOf, Spelling, Quoted, KeyAt;
    KeyParts(s, j);
    var q := Skip(s, j);
    var g := StringAt(s, q).next;
    var colon := Skip(s, g);
    var v := Skip(s, colon + 1);
    var us := StringIsSpelled(s, q);
    GapOf(s, from);
    GapOf(s, g);
    GapOf(s, colon + 1);
    NoGap();
    x := Entry(s[from..q], us, s[g..colon], s[colon + 1..v], NullWord, []);
    FivePieces(s, from, q, g, colon, v);
  }

  lemma KeyParts(s: seq<byte>, j: nat)
    requires Terminated(s) && j < |s| && KeyAt(s, j).Text?
    ensures var r := StringAt(s, Skip(s, j));
      && r.Text? && r.next < |s| && r.text == KeyAt(s, j).text && s[Skip(s, r.next)] == 58
      && KeyAt(s, j).next == Skip(s, r.next) + 1
  {
  }

  lemma FivePieces(s: seq<byte>, from: nat, q: nat, g: nat, colon: nat, v: nat)
    requires from <= q <= g <= colon < v <= |s|
    ensures s[from..v] == s[from..q] + s[q..g] + s[g..colon] + [s[colon]] + s[colon + 1..v]
  {
    Cut(s, from, q, g);
    Cut(s, from, g, colon);
    Cut(s, from, colon, colon + 1);
    Cut(s, from, colon + 1, v);
    Cut(s, colon, colon + 1, v);
  }

  lemma NoGap()
    ensures Gap([])
  {
  }

  // Documents.

  /** A buffer that the parser accepts as a whole is a document of the grammar. */
  lemma DocumentIsWritten(s: seq<byte>) returns (d: Document)
    requires Terminated(s) && ParseDocument(s, true).Parsed?
    ensures LegibleDocument(d) && DocumentText(d) == s && ValueOf(d.value) == ParseDocument(s, true).value
  {
    hide Skip, ParseValue, Height, Legible, Gap, TextOf, ValueOf;
    var mark := |s| > 4 && s[0] == 0xEF && s[1] == 0xBB && s[2] == 0xBF;
    var m, i := if mark then 3 else 0, Start(s);
    var n := ParseValue(s, i, 0).next;
    var k := Skip(s, n);
    var c := ValueIsWritten(s, i, 0);
    GapOf(s, m);
    GapOf(s, n);
    d := Document(mark, s[m..i], c, s[n..k]);
    Cut(s, 0, m, i);
    Cut(s, 0, i, n);
    Cut(s, 0, n, k);
    Cut(s, 0, k, k + 1);
    Cut(s, k, k + 1, k + 1);
    assert mark ==> s[0..3] == [239, 187, 191];
    assert s[0..k + 1] == s;
  }

  /**
   * The parser accepts a buffer as a whole if and only if it is a document of the grammar nested at
   * most 1000 deep, and then reads the document's value.
   */
  lemma AcceptsExactly(s: seq<byte>)
    requires Terminated(s)
    ensures ParseDocument(s, true).Parsed? <==>
      exists d :: LegibleDocument(d) && DocumentText(d) == s && Height(ValueOf(d.value)) <= 1000
    ensures forall d :: LegibleDocument(d) && DocumentText(d) == s && Height(ValueOf(d.value)) <= 1000 ==>
      ParseDocument(s, true) == Parsed(ValueOf(d.value), |s| - 1)
  {
    hide ParseDocument, DocumentText, Legible, Gap, Height;
    if ParseDocument(s, true).Parsed? {
      var d := DocumentIsWritten(s);
      assert LegibleDocument(d) && DocumentText(d) == s;
    }
    forall d | LegibleDocument(d) && DocumentText(d) == s && Height(ValueOf(d.value)) <= 1000
      ensures ParseDocument(s, true) == Parsed(ValueOf(d.value), |s| - 1)
    {
      DocumentIsRead(d, true);
      DocumentLength(d);
    }
  }

  lemma DocumentLength(d: Document)
    ensures |DocumentText(d)| == |Mark(d) + d.before + TextOf(d.value)| + |d.after| + 1
  {
    hide TextOf;
  }
}
