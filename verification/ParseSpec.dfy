/** What the parser computes, as functions over the whole input: the specification of the parser. */
module ParseSpec {
  import opened Bytes
  import opened JsonValue
  import opened NumberText
  import opened StringCodec

  /** CJSON_NESTING_LIMIT. */
  const NESTING_LIMIT: nat := 1000

  /** The input of `cJSON_Parse`: a buffer whose last byte is NUL. */
  ghost predicate Terminated(s: seq<byte>) { s != [] && s[|s| - 1] == NUL }

  /** A value and the position after it, or the position at which the parser gave up. */
  datatype Outcome = Parsed(value: Json, next: nat) | Failed(position: nat)

  /** `buffer_skip_whitespace` inside the buffer: it never goes past the last byte, even when that is NUL. */
  function Skip(s: seq<byte>, i: nat): (j: nat)
    requires i < |s|
    ensures i <= j < |s|
    ensures s[j] > 32 || j == |s| - 1
    ensures forall k :: i <= k < j ==> s[k] <= 32
    decreases |s| - i
  {
    if s[i] <= 32 && i + 1 < |s| then Skip(s, i + 1) else i
  }

  /**
   * `parse_value` at position `i`, inside `depth` arrays and objects. A count that starts below zero
   * moves the limit; the parser starts at zero.
   */
  function ParseValue(s: seq<byte>, i: nat, depth: int): (r: Outcome)
    requires Terminated(s) && i < |s| && depth <= NESTING_LIMIT
    ensures r.Parsed? ==> i < r.next < |s| && depth + Height(r.value) <= NESTING_LIMIT
    ensures r.Failed? ==> i <= r.position <= |s|
    decreases |s| - i, 1
  {
    if At(s, i, NULL_TEXT) then
      AtInside(s, i, NULL_TEXT);
      Parsed(Null, i + 4)
    else if At(s, i, FALSE_TEXT) then
      AtInside(s, i, FALSE_TEXT);
      Parsed(Bool(false), i + 5)
    else if At(s, i, TRUE_TEXT) then
      AtInside(s, i, TRUE_TEXT);
      Parsed(Bool(true), i + 4)
    else if s[i] == QUOTE then
      match StringAt(s, i)
      case Text(text, next) => Parsed(String(text), next)
      case BadText(position) => Failed(position)
    else if s[i] == MINUS || IsDigit(s[i]) then ParseNumber(s, i)
    else if s[i] == OPEN_BRACKET then ParseArray(s, i, depth)
    else if s[i] == OPEN_BRACE then ParseObject(s, i, depth)
    else Failed(i)
  }

  function ParseNumber(s: seq<byte>, i: nat): (r: Outcome)
    requires Terminated(s) && i < |s|
    ensures r.Parsed? ==> i < r.next < |s| && r.value.Number?
    ensures r.Failed? ==> r.position == i
  {
    var t := s[i..i + Span(s, i, 0)];
    var d := Strtod(t);
    if d.NoNumber? then Failed(i) else Parsed(Number(d.value), i + d.length)
  }

  function ParseArray(s: seq<byte>, i: nat, depth: int): (r: Outcome)
    requires Terminated(s) && i < |s| && s[i] == OPEN_BRACKET && depth <= NESTING_LIMIT
    ensures r.Parsed? ==> i < r.next < |s| && depth + Height(r.value) <= NESTING_LIMIT
    ensures r.Failed? ==> i <= r.position <= |s|
    decreases |s| - i, 0
  {
    if depth >= NESTING_LIMIT then Failed(i)
    else
      var j := Skip(s, i + 1);
      if s[j] == CLOSE_BRACKET then Parsed(Array([]), j + 1) else ParseItems(s, j, depth + 1, [])
  }

  function ParseObject(s: seq<byte>, i: nat, depth: int): (r: Outcome)
    requires Terminated(s) && i < |s| && s[i] == OPEN_BRACE && depth <= NESTING_LIMIT
    ensures r.Parsed? ==> i < r.next < |s| && depth + Height(r.value) <= NESTING_LIMIT
    ensures r.Failed? ==> i <= r.position <= |s|
    decreases |s| - i, 0
  {
    if depth >= NESTING_LIMIT then Failed(i)
    else
      var j := Skip(s, i + 1);
      if s[j] == CLOSE_BRACE then Parsed(Object([]), j + 1) else ParseMembers(s, j, depth + 1, [])
  }

  /** The rest of an array: the items before `j` are in `done`, the next one starts at `j` or after whitespace. */
  function ParseItems(s: seq<byte>, j: nat, depth: int, done: seq<Json>): (r: Outcome)
    requires Terminated(s) && j < |s| && depth <= NESTING_LIMIT
    requires depth + ItemsHeight(done) <= NESTING_LIMIT
    ensures r.Parsed? ==> j < r.next < |s| && depth - 1 + Height(r.value) <= NESTING_LIMIT
    ensures r.Failed? ==> j <= r.position <= |s|
    decreases |s| - j, 2
  {
    match ParseValue(s, Skip(s, j), depth)
    case Failed(position) => Failed(position)
    case Parsed(value, next) =>
      var k := Skip(s, next);
      ItemsHeightSnoc(done, value);
      if s[k] == COMMA then ParseItems(s, k + 1, depth, done + [value])
      else if s[k] == CLOSE_BRACKET then Parsed(Array(done + [value]), k + 1)
      else Failed(k)
  }

  /** The rest of an object. A member is a string, a colon and a value. */
  function ParseMembers(s: seq<byte>, j: nat, depth: int, done: seq<Member>): (r: Outcome)
    requires Terminated(s) && j < |s| && depth <= NESTING_LIMIT
    requires depth + MembersHeight(done) <= NESTING_LIMIT
    ensures r.Parsed? ==> j < r.next < |s| && depth - 1 + Height(r.value) <= NESTING_LIMIT
    ensures r.Failed? ==> j <= r.position <= |s|
    decreases |s| - j, 3
  {
    match EntryAt(s, j, depth)
    case Failed(position) => Failed(position)
    case Parsed(value, next) =>
      var k, m := Skip(s, next), Member(KeyAt(s, j).text, value);
      MembersHeightSnoc(done, m);
      if s[k] == COMMA then ParseMembers(s, k + 1, depth, done + [m])
      else if s[k] == CLOSE_BRACE then Parsed(Object(done + [m]), k + 1)
      else Failed(k)
  }

  /** A member from its name to its value. */
  function EntryAt(s: seq<byte>, j: nat, depth: int): (r: Outcome)
    requires Terminated(s) && j < |s| && depth <= NESTING_LIMIT
    ensures r.Parsed? ==> KeyAt(s, j).Text? && j < r.next < |s| && depth + Height(r.value) <= NESTING_LIMIT
    ensures r.Failed? ==> j <= r.position <= |s|
    decreases |s| - j, 2
  {
    match KeyAt(s, j)
    case BadText(position) => Failed(position)
    case Text(_, next) => ParseValue(s, Skip(s, next), depth)
  }

  /** The name of a member and its colon. */
  function KeyAt(s: seq<byte>, j: nat): (r: StringResult)
    requires Terminated(s) && j < |s|
    ensures r.Text? ==> j < r.next < |s|
    ensures r.BadText? ==> j <= r.position <= |s|
  {
    match StringAt(s, Skip(s, j))
    case BadText(position) => BadText(position)
    case Text(key, next) =>
      var colon := Skip(s, next);
      if s[colon] == COLON then Text(key, colon + 1) else BadText(colon)
  }

  /** A C string inside a terminated buffer ends before the last byte. */
  lemma AtInside(s: seq<byte>, i: nat, t: CString)
    requires Terminated(s) && At(s, i, t) && t != []
    ensures i + |t| < |s|
  {
    assert s[i + |t| - 1] == s[i..i + |t|][|t| - 1] == t[|t| - 1];
  }

  lemma {:induction false} ItemsHeightSnoc(items: seq<Json>, v: Json)
    ensures ItemsHeight(items + [v]) == Max(ItemsHeight(items), Height(v))
  {
    if items == [] {
      assert [v][1..] == [];
    } else {
      assert (items + [v])[1..] == items[1..] + [v];
      ItemsHeightSnoc(items[1..], v);
    }
  }

  lemma {:induction false} MembersHeightSnoc(members: seq<Member>, m: Member)
    ensures MembersHeight(members + [m]) == Max(MembersHeight(members), Height(m.value))
  {
    if members == [] {
      assert [m][1..] == [];
    } else {
      assert (members + [m])[1..] == members[1..] + [m];
      MembersHeightSnoc(members[1..], m);
    }
  }

  /** One turn of the array loop. */
  lemma ItemsStep(s: seq<byte>, j: nat, nesting: int, done: seq<Json>, v: Json, n: nat)
    requires Terminated(s) && j < |s| && nesting + ItemsHeight(done) <= NESTING_LIMIT
    requires ParseValue(s, Skip(s, j), nesting) == Parsed(v, n)
    ensures nesting + ItemsHeight(done + [v]) <= NESTING_LIMIT && n < |s|
    ensures s[Skip(s, n)] == COMMA ==>
      Skip(s, n) + 1 < |s| && ParseItems(s, j, nesting, done) == ParseItems(s, Skip(s, n) + 1, nesting, done + [v])
    ensures s[Skip(s, n)] == CLOSE_BRACKET ==>
      ParseItems(s, j, nesting, done) == Parsed(Array(done + [v]), Skip(s, n) + 1)
    ensures s[Skip(s, n)] != COMMA && s[Skip(s, n)] != CLOSE_BRACKET ==>
      ParseItems(s, j, nesting, done) == Failed(Skip(s, n))
  {
    hide Skip, ParseValue, ItemsHeight, Height;
    ItemsHeightSnoc(done, v);
  }

  /** A bad element ends the array loop. */
  lemma ItemsFail(s: seq<byte>, j: nat, nesting: int, done: seq<Json>)
    requires Terminated(s) && j < |s| && nesting + ItemsHeight(done) <= NESTING_LIMIT
    requires ParseValue(s, Skip(s, j), nesting).Failed?
    ensures ParseItems(s, j, nesting, done) == ParseValue(s, Skip(s, j), nesting)
  {
    hide Skip, ParseValue, ItemsHeight, Height;
  }

  /** One turn of the object loop. */
  lemma MembersStep(s: seq<byte>, j: nat, nesting: int, done: seq<Member>, m: Member, n: nat)
    requires Terminated(s) && j < |s| && nesting + MembersHeight(done) <= NESTING_LIMIT
    requires EntryAt(s, j, nesting) == Parsed(m.value, n) && KeyAt(s, j).text == m.key
    ensures nesting + MembersHeight(done + [m]) <= NESTING_LIMIT && n < |s|
    ensures s[Skip(s, n)] == COMMA ==>
      Skip(s, n) + 1 < |s| && ParseMembers(s, j, nesting, done) == ParseMembers(s, Skip(s, n) + 1, nesting, done + [m])
    ensures s[Skip(s, n)] == CLOSE_BRACE ==>
      ParseMembers(s, j, nesting, done) == Parsed(Object(done + [m]), Skip(s, n) + 1)
    ensures s[Skip(s, n)] != COMMA && s[Skip(s, n)] != CLOSE_BRACE ==>
      ParseMembers(s, j, nesting, done) == Failed(Skip(s, n))
  {
    hide Skip, ParseValue, KeyAt, MembersHeight, Height;
    MembersHeightSnoc(done, m);
  }

  /** A bad member ends the object loop. */
  lemma MembersFail(s: seq<byte>, j: nat, nesting: int, done: seq<Member>)
    requires Terminated(s) && j < |s| && nesting + MembersHeight(done) <= NESTING_LIMIT
    requires EntryAt(s, j, nesting).Failed?
    ensures ParseMembers(s, j, nesting, done) == EntryAt(s, j, nesting)
  {
    hide Skip, ParseValue, KeyAt, MembersHeight, Height;
  }

  // A value that is read under a limit is read in the same way under a higher one.

  lemma {:induction false} ValueUnderHigherLimit(s: seq<byte>, i: nat, depth: int, lower: int)
    requires Terminated(s) && i < |s| && lower <= depth <= NESTING_LIMIT
    requires ParseValue(s, i, depth).Parsed?
    ensures ParseValue(s, i, lower) == ParseValue(s, i, depth)
    decreases |s| - i, 1
  {
    hide At, StringAt, ParseItems, ParseMembers, ParseNumber;
    var j := if i + 1 < |s| then Skip(s, i + 1) else i;
    if s[i] == OPEN_BRACKET && ParseArray(s, i, depth).Parsed? && s[j] != CLOSE_BRACKET {
      ItemsUnderHigherLimit(s, j, depth + 1, lower + 1, []);
    } else if s[i] == OPEN_BRACE && ParseObject(s, i, depth).Parsed? && s[j] != CLOSE_BRACE {
      MembersUnderHigherLimit(s, j, depth + 1, lower + 1, []);
    }
  }

  lemma {:induction false} ItemsUnderHigherLimit(s: seq<byte>, j: nat, depth: int, lower: int, done: seq<Json>)
    requires Terminated(s) && j < |s| && lower <= depth <= NESTING_LIMIT && depth + ItemsHeight(done) <= NESTING_LIMIT
    requires ParseItems(s, j, depth, done).Parsed?
    ensures ParseItems(s, j, lower, done) == ParseItems(s, j, depth, done)
    decreases |s| - j, 2
  {
    hide Skip, ParseValue, ItemsHeight, Height;
    ValueUnderHigherLimit(s, Skip(s, j), depth, lower);
    var r := ParseValue(s, Skip(s, j), depth);
    var k := Skip(s, r.next);
    ItemsHeightSnoc(done, r.value);
    if s[k] == COMMA {
      ItemsUnderHigherLimit(s, k + 1, depth, lower, done + [r.value]);
    }
  }

  lemma {:induction false} MembersUnderHigherLimit(s: seq<byte>, j: nat, depth: int, lower: int, done: seq<Member>)
    requires Terminated(s) && j < |s| && lower <= depth <= NESTING_LIMIT && depth + MembersHeight(done) <= NESTING_LIMIT
    requires ParseMembers(s, j, depth, done).Parsed?
    ensures ParseMembers(s, j, lower, done) == ParseMembers(s, j, depth, done)
    decreases |s| - j, 3
  {
    hide Skip, ParseValue, KeyAt, MembersHeight, Height;
    assert EntryAt(s, j, depth).Parsed?;
    ValueUnderHigherLimit(s, Skip(s, KeyAt(s, j).next), depth, lower);
    var r := EntryAt(s, j, depth);
    assert EntryAt(s, j, lower) == r;
    var k, m := Skip(s, r.next), Member(KeyAt(s, j).text, r.value);
    MembersHeightSnoc(done, m);
    if s[k] == COMMA {
      MembersUnderHigherLimit(s, k + 1, depth, lower, done + [m]);
    }
  }

  /** Where parsing starts: after a byte order mark and whitespace. */
  function Start(s: seq<byte>): (i: nat)
    requires Terminated(s)
    ensures i < |s|
  {
    Skip(s, if |s| > 4 && s[0] == 0xEF && s[1] == 0xBB && s[2] == 0xBF then 3 else 0)
  }

  /**
   * `cJSON_ParseWithLengthOpts`: a value and the end position, or the error position, which lies
   * inside the buffer.
   */
  function ParseDocument(s: seq<byte>, requireNul: bool): (r: Outcome)
    requires Terminated(s)
    ensures r.Parsed? ==> r.next < |s| && Height(r.value) <= NESTING_LIMIT
    ensures r.Failed? ==> r.position < |s|
  {
    match ParseValue(s, Start(s), 0)
    case Failed(position) => Failed(if position < |s| then position else |s| - 1)
    case Parsed(value, next) =>
      if !requireNul then Parsed(value, next)
      else
        var k := Skip(s, next);
        if s[k] == NUL then Parsed(value, k) else Failed(k)
  }
}
