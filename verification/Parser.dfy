/** The recursive parser over a byte buffer. It builds nodes in place and frees them when it gives up. */
module Parser {
  import opened Bytes
  import opened JsonValue
  import opened NumberText
  import opened StringCodec
  import opened ParseSpec
  import opened StringParser
  import opened Tree
  import opened Ownership
  import opened ListBuilder

  class ParseBuffer {
    const content: seq<byte>
    const heap: Heap
    var offset: nat
    var depth: nat

    constructor (content: seq<byte>, heap: Heap)
      ensures this.content == content && this.heap == heap && offset == 0 && depth == 0
    {
      this.content, this.heap := content, heap;
      offset, depth := 0, 0;
    }

    /** Inside a NUL-terminated buffer, under the nesting limit. */
    ghost predicate Ready()
      reads this`offset, this`depth
    {
      Terminated(content) && offset < |content| && depth <= NESTING_LIMIT
    }

    /** `buffer_skip_whitespace`: steps back when it reaches the end of the buffer. */
    method SkipWhitespace()
      modifies this`offset
      ensures old(offset) >= |content| ==> offset == old(offset)
      ensures old(offset) < |content| ==> offset == Skip(content, old(offset))
    {
      if offset >= |content| {
        return;
      }
      while offset < |content| && content[offset] <= 32
        invariant old(offset) <= offset <= |content|
        invariant forall k :: old(offset) <= k < offset ==> content[k] <= 32
      {
        offset := offset + 1;
      }
      if offset == |content| {
        offset := offset - 1;
      }
      SkipIs(content, old(offset), offset);
    }

    /** `parse_string`. */
    method ParseString(item: Node) returns (ok: bool)
      requires Ready() && Unparsed(item)
      modifies this`offset, heap, item`kind, item`valuestring, item`own, item`val
      ensures ok == StringAt(content, old(offset)).Text?
      ensures ok ==> offset == StringAt(content, old(offset)).next
      ensures ok ==>
        && item.kind == StringKind && item.valuestring != null && fresh(item.valuestring)
        && item.valuestring.s == StringAt(content, old(offset)).text && item.val == String(item.valuestring.s)
        && item.own == old(item.own) + {item.valuestring} && heap.live == old(heap.live) + {item.valuestring}
      ensures !ok ==> offset == StringAt(content, old(offset)).position && Unparsed(item) && item.own == old(item.own)
      ensures !ok ==> heap.live == old(heap.live)
    {
      hide ClosingQuote, Decode, Hiding, Count, BeforeNul, Terminated;
      var start := offset + 1;
      if content[offset] != QUOTE {
        offset := start;
        return false;
      }
      var end, skipped := ScanString(content, start);
      if end < 0 {
        offset := start;
        return false;
      }
      var n := CountedLength(content, start, end, skipped);
      var output := new byte[n + 1];
      var decoded, written, position := DecodeString(content, start, end, skipped, output);
      if !decoded {
        offset := position;
        return false;
      }
      item.kind := StringKind;
      item.valuestring := heap.NewText(BeforeNul(output[..written]));
      item.val := String(item.valuestring.s);
      item.own := item.own + {item.valuestring};
      offset := end + 1;
      ok := true;
    }

    /** The copying loop of `parse_number`. */
    method CopyNumber() returns (text: seq<byte>)
      requires Ready()
      ensures text == content[offset..offset + Span(content, offset, 0)]
    {
      hide NumberByte, Terminated, Span;
      var copy := new byte[NUMBER_BUFFER + 1];
      var i := 0;
      while i < NUMBER_BUFFER && offset + i < |content| && NumberByte(content[offset + i])
        invariant 0 <= i <= NUMBER_BUFFER && offset + i <= |content|
        invariant forall j :: 0 <= j < i ==> copy[j] == content[offset + j]
        invariant forall j :: offset <= j < offset + i ==> NumberByte(content[j])
      {
        copy[i] := content[offset + i];
        i := i + 1;
      }
      SpanIs(content, offset, 0, i);
      text := copy[..i];
    }

    /** `parse_number`: the run of number characters goes to `strtod`. */
    method ParseNumber(item: Node) returns (ok: bool)
      requires Ready()
      modifies this`offset, item`kind, item`valueint, item`valuedouble, item`val
      ensures ok == ParseSpec.ParseNumber(content, old(offset)).Parsed?
      ensures ok ==> Parsed(item.val, offset) == ParseSpec.ParseNumber(content, old(offset))
      ensures ok ==>
        item.kind == NumberKind && item.val == Number(item.valuedouble) && item.valueint == IntOf(item.valuedouble)
      ensures !ok ==> offset == old(offset) && item.kind == old(item.kind) && item.valueint == old(item.valueint)
    {
      hide Strtod, Span, IntOf;
      var text := CopyNumber();
      var d := Strtod(text);
      if d.NoNumber? {
        return false;
      }
      StoreNumber(item, d.value);
      item.kind := NumberKind;
      offset := offset + d.length;
      ok := true;
    }

    /** The literals of `parse_value`. */
    method ParseLiteral(item: Node) returns (matched: bool)
      requires Ready() && Unparsed(item)
      modifies this`offset, item`kind, item`valueint, item`val
      ensures matched <==>
        || At(content, old(offset), NULL_TEXT)
        || At(content, old(offset), FALSE_TEXT)
        || At(content, old(offset), TRUE_TEXT)
      ensures matched ==> item.Valid() && ParseSpec.ParseValue(content, old(offset), depth) == Parsed(item.val, offset)
      ensures matched ==> TruesAreOne(item)
      ensures !matched ==> offset == old(offset) && item.valueint == old(item.valueint)
    {
      hide Node.Valid, At, Terminated;
      matched := true;
      if At(content, offset, NULL_TEXT) {
        item.kind, item.val := NullKind, Null;
        offset := offset + 4;
      } else if At(content, offset, FALSE_TEXT) {
        item.kind, item.val := FalseKind, Bool(false);
        offset := offset + 5;
      } else if At(content, offset, TRUE_TEXT) {
        item.kind, item.val := TrueKind, Bool(true);
        item.valueint := 1;
        offset := offset + 4;
      } else {
        return false;
      }
      LeafValid(item);
    }

    /** The string and number cases of `parse_value`. */
    method ParseScalar(item: Node) returns (ok: bool)
      requires Ready() && Unparsed(item)
      requires content[offset] == QUOTE || content[offset] == MINUS || IsDigit(content[offset])
      modifies this`offset, heap, item`kind, item`valuestring, item`valueint, item`valuedouble, item`own, item`val
      ensures ok == ParseSpec.ParseValue(content, old(offset), depth).Parsed?
      ensures ok ==> item.Valid() && ParseSpec.ParseValue(content, old(offset), depth) == Parsed(item.val, offset)
      ensures ok ==> TruesAreOne(item)
      ensures ok ==> item.below == {} && fresh(item.own - old(item.own)) && old(item.own) <= item.own
      ensures ok ==> heap.live == old(heap.live) + (item.own - old(item.own))
      ensures !ok ==> offset == ParseSpec.ParseValue(content, old(offset), depth).position
      ensures !ok ==> Unparsed(item) && item.own == old(item.own) && heap.live == old(heap.live)
    {
      hide Node.Valid, At, Terminated, StringAt, ParseSpec.ParseNumber, IntOf;
      NoLiteralHere(content, offset);
      if content[offset] == QUOTE {
        ok := ParseString(item);
      } else {
        ok := ParseNumber(item);
      }
      if ok {
        LeafValid(item);
      }
    }

    /** `parse_value`: on success the item denotes the value; on failure everything allocated is freed again. */
    method ParseValue(item: Node) returns (ok: bool)
      requires Ready() && Unparsed(item) && item.own <= heap.live
      modifies this`offset, this`depth, heap, item`kind, item`child, item`valuestring, item`valueint, item`valuedouble
      modifies item`kids, item`below, item`own, item`val
      ensures ok == ParseSpec.ParseValue(content, old(offset), old(depth)).Parsed?
      ensures ok ==> ParseSpec.ParseValue(content, old(offset), old(depth)) == Parsed(item.val, offset)
      ensures ok ==> depth == old(depth) && item.Valid()
      ensures ok ==> TruesAreOne(item)
      ensures ok ==> fresh(item.below) && fresh(item.own - old(item.own)) && old(item.own) <= item.own
      ensures ok ==> heap.live == old(heap.live) + item.own
      ensures !ok ==> offset == ParseSpec.ParseValue(content, old(offset), old(depth)).position
      ensures !ok ==> Unparsed(item) && item.own == old(item.own) && heap.live == old(heap.live)
      decreases |content| - offset, 6
    {
      hide Node.Valid, At, StringAt, ParseSpec.ParseNumber, ParseSpec.ParseArray, ParseSpec.ParseObject, Terminated;
      hide Unparsed;
      NotBelowUnparsed(item);
      ok := ParseLiteral(item);
      if ok {
        return;
      }
      if content[offset] == QUOTE || content[offset] == MINUS || IsDigit(content[offset]) {
        ok := ParseScalar(item);
        return;
      }
      if content[offset] == OPEN_BRACKET {
        ok := ParseArray(item);
        return;
      }
      if content[offset] == OPEN_BRACE {
        ok := ParseObject(item);
        return;
      }
    }

    /** `parse_array`. */
    method ParseArray(item: Node) returns (ok: bool)
      requires Ready() && content[offset] == OPEN_BRACKET && Unparsed(item) && item.own <= heap.live
      modifies this`offset, this`depth, heap, item`kind, item`child, item`valuestring, item`valueint, item`valuedouble
      modifies item`kids, item`below, item`own, item`val
      ensures ok == ParseSpec.ParseArray(content, old(offset), old(depth)).Parsed?
      ensures ok ==> ParseSpec.ParseArray(content, old(offset), old(depth)) == Parsed(item.val, offset)
      ensures ok ==> depth == old(depth) && item.Valid()
      ensures ok ==> TruesAreOne(item)
      ensures ok ==> fresh(item.below) && fresh(item.own - old(item.own)) && old(item.own) <= item.own
      ensures ok ==> heap.live == old(heap.live) + item.own
      ensures !ok ==> offset == ParseSpec.ParseArray(content, old(offset), old(depth)).position
      ensures !ok ==> Unparsed(item) && item.own == old(item.own) && heap.live == old(heap.live)
      decreases |content| - offset, 5
    {
      hide Node.Valid, ParseSpec.ParseArray, Listed, Parts, Distinct, OwnAll, BelowAll, HaveValues, Terminated, Height;
      hide Unparsed, Childless, Node.MeansWith;
      if depth >= NESTING_LIMIT {
        TooDeep(content, offset, depth);
        return false;
      }
      var head, current;
      ghost var chain, values;
      ok, head, current, chain, values := ParseArrayList();
      if !ok {
        return;
      }
      depth := depth - 1;
      WithinAll(chain);
      UnparsedIsChildless(item);
      FinishArray(item, head, current, chain, values);
      offset := offset + 1;
    }

    /** The children of the container, from its opening to its closing bracket. */
    method ParseArrayList()
      returns (ok: bool, head: Node?, current: Node?, ghost chain: seq<Node>, ghost values: seq<Json>)
      requires Ready() && content[offset] == OPEN_BRACKET && depth < NESTING_LIMIT
      modifies this`offset, this`depth, heap
      ensures ok == ParseSpec.ParseArray(content, old(offset), old(depth)).Parsed?
      ensures ok ==>
        && offset < |content|
        && ParseSpec.ParseArray(content, old(offset), old(depth)) == Parsed(Array(values), offset + 1)
      ensures ok ==> depth == old(depth) + 1 && HaveValues(chain, values)
      ensures ok ==> Listed(head, current, chain) && Parts(chain) && Distinct(chain)
      ensures ok ==> fresh(chain) && fresh(OwnAll(chain)) && fresh(BelowAll(chain))
      ensures ok ==> heap.live == old(heap.live) + OwnAll(chain)
      ensures !ok ==>
        offset == ParseSpec.ParseArray(content, old(offset), old(depth)).position && heap.live == old(heap.live)
      decreases |content| - offset, 4
    {
      hide Node.Valid, ParseSpec.ParseItems, Skip, Listed, Parts, Distinct, OwnAll, BelowAll, HaveValues, Terminated;
      hide Height;
      NotLast(content, offset);
      depth := depth + 1;
      offset := offset + 1;
      SkipWhitespace();
      if content[offset] == CLOSE_BRACKET {
        EmptyList();
        return true, null, null, [], [];
      }
      offset := offset - 1;
      ok, head, current, chain, values := ParseElements();
    }

    /** The loop of `parse_array`, from just before the first element to the closing bracket. */
    method ParseElements()
      returns (ok: bool, head: Node?, current: Node?, ghost chain: seq<Node>, ghost values: seq<Json>)
      requires Terminated(content) && offset + 1 < |content| && 1 <= depth <= NESTING_LIMIT
      modifies this`offset, this`depth, heap
      ensures ok == ParseItems(content, old(offset) + 1, old(depth), []).Parsed?
      ensures ok ==>
        offset < |content| && ParseItems(content, old(offset) + 1, old(depth), []) == Parsed(Array(values), offset + 1)
      ensures ok ==> depth == old(depth) && HaveValues(chain, values)
      ensures ok ==> Listed(head, current, chain) && Parts(chain) && Distinct(chain)
      ensures ok ==> fresh(chain) && fresh(OwnAll(chain)) && fresh(BelowAll(chain))
      ensures ok ==> heap.live == old(heap.live) + OwnAll(chain)
      ensures !ok ==>
        offset == ParseItems(content, old(offset) + 1, old(depth), []).position && heap.live == old(heap.live)
      decreases |content| - offset, 3
    {
      hide Node.Valid, ParseSpec.ParseItems, ParseSpec.ParseValue, Skip, Listed, Parts, Distinct, OwnAll, BelowAll;
      hide HaveValues, Terminated, ItemsHeight;
      EmptyList();
      NoHeight();
      head, current, chain, values := null, null, [], [];
      var more := true;
      while more
        invariant depth == old(depth) && old(offset) <= offset < |content|
        invariant depth + ItemsHeight(values) <= NESTING_LIMIT
        invariant HaveValues(chain, values) && Listed(head, current, chain) && Parts(chain) && Distinct(chain)
        invariant fresh(chain) && fresh(OwnAll(chain)) && fresh(BelowAll(chain))
        invariant heap.live == old(heap.live) + OwnAll(chain)
        invariant more ==> offset + 1 < |content|
        invariant more ==>
          ParseItems(content, old(offset) + 1, old(depth), []) == ParseItems(content, offset + 1, depth, values)
        invariant !more && content[offset] == CLOSE_BRACKET ==>
          ParseItems(content, old(offset) + 1, old(depth), []) == Parsed(Array(values), offset + 1)
        invariant !more && content[offset] != CLOSE_BRACKET ==>
          ParseItems(content, old(offset) + 1, old(depth), []) == Failed(offset)
        decreases |content| - offset, more
      {
        ghost var j, depth0 := offset + 1, depth;
        var item;
        ok, head, item := ParseElement(head, current, chain);
        if !ok {
          ItemsFail(content, j, depth0, values);
          return;
        }
        ItemsStep(content, j, depth, values, item.val, offset);
        AllSnoc(chain, item);
        ValuesSnoc(chain, values, item);
        chain, values, current := chain + [item], values + [item.val], item;
        assert fresh(BelowAll(chain)) && fresh(OwnAll(chain));
        SkipWhitespace();
        more := content[offset] == COMMA;
      }
      if content[offset] != CLOSE_BRACKET {
        Abandon(heap, head, current, chain);
        ok := false;
      } else {
        ok := true;
      }
    }

    /** One turn of that loop: a new child is linked, and parsed after whitespace. A failure frees the whole list. */
    method ParseElement(head: Node?, current: Node?, ghost chain: seq<Node>)
      returns (ok: bool, newHead: Node?, item: Node)
      requires Terminated(content) && offset + 1 < |content| && depth <= NESTING_LIMIT
      requires Listed(head, current, chain) && Parts(chain) && Distinct(chain) && OwnAll(chain) <= heap.live
      modifies this`offset, this`depth, heap, chain`next
      ensures ok == ParseSpec.ParseValue(content, Skip(content, old(offset) + 1), old(depth)).Parsed?
      ensures ok ==>
        ParseSpec.ParseValue(content, Skip(content, old(offset) + 1), old(depth)) == Parsed(item.val, offset)
      ensures ok ==> depth == old(depth) && fresh(item) && fresh(item.own) && fresh(item.below) && TrueIsOne(item)
      ensures ok ==> Listed(newHead, item, chain + [item]) && Parts(chain + [item]) && Distinct(chain + [item])
      ensures ok ==> heap.live == old(heap.live) + item.own
      ensures !ok ==> offset == ParseSpec.ParseValue(content, Skip(content, old(offset) + 1), old(depth)).position
      ensures !ok ==> heap.live == old(heap.live) - OwnAll(chain)
      decreases |content| - offset, 2
    {
      hide Node.Valid, ParseSpec.ParseValue, Skip, Listed, Parts, Distinct, OwnAll;
      newHead, item := Attach(heap, head, current, chain);
      offset := offset + 1;
      SkipWhitespace();
      ok := ParseValue(item);
      if ok {
        PartsSnoc(chain, item);
      } else {
        AbandonLast(heap, newHead, chain, item);
      }
    }

    /** `parse_object`. */
    method ParseObject(item: Node) returns (ok: bool)
      requires Ready() && content[offset] == OPEN_BRACE && Unparsed(item) && item.own <= heap.live
      modifies this`offset, this`depth, heap, item`kind, item`child, item`valuestring, item`valueint, item`valuedouble
      modifies item`kids, item`below, item`own, item`val
      ensures ok == ParseSpec.ParseObject(content, old(offset), old(depth)).Parsed?
      ensures ok ==> ParseSpec.ParseObject(content, old(offset), old(depth)) == Parsed(item.val, offset)
      ensures ok ==> depth == old(depth) && item.Valid()
      ensures ok ==> TruesAreOne(item)
      ensures ok ==> fresh(item.below) && fresh(item.own - old(item.own)) && old(item.own) <= item.own
      ensures ok ==> heap.live == old(heap.live) + item.own
      ensures !ok ==> offset == ParseSpec.ParseObject(content, old(offset), old(depth)).position
      ensures !ok ==> Unparsed(item) && item.own == old(item.own) && heap.live == old(heap.live)
      decreases |content| - offset, 5
    {
      hide Node.Valid, ParseSpec.ParseObject, Listed, Parts, Distinct, OwnAll, BelowAll, HaveMembers, Terminated;
      hide Height, Unparsed, Childless, Node.MeansWith;
      if depth >= NESTING_LIMIT {
        TooDeep(content, offset, depth);
        return false;
      }
      var head, current;
      ghost var chain, members;
      ok, head, current, chain, members := ParseObjectList();
      if !ok {
        return;
      }
      depth := depth - 1;
      WithinAll(chain);
      UnparsedIsChildless(item);
      FinishObject(item, head, current, chain, members);
      offset := offset + 1;
    }

    /** The children of the container, from its opening to its closing bracket. */
    method ParseObjectList()
      returns (ok: bool, head: Node?, current: Node?, ghost chain: seq<Node>, ghost members: seq<Member>)
      requires Ready() && content[offset] == OPEN_BRACE && depth < NESTING_LIMIT
      modifies this`offset, this`depth, heap
      ensures ok == ParseSpec.ParseObject(content, old(offset), old(depth)).Parsed?
      ensures ok ==>
        && offset < |content|
        && ParseSpec.ParseObject(content, old(offset), old(depth)) == Parsed(Object(members), offset + 1)
      ensures ok ==> depth == old(depth) + 1 && HaveMembers(chain, members)
      ensures ok ==> Listed(head, current, chain) && Parts(chain) && Distinct(chain)
      ensures ok ==> fresh(chain) && fresh(OwnAll(chain)) && fresh(BelowAll(chain))
      ensures ok ==> heap.live == old(heap.live) + OwnAll(chain)
      ensures !ok ==>
        offset == ParseSpec.ParseObject(content, old(offset), old(depth)).position && heap.live == old(heap.live)
      decreases |content| - offset, 4
    {
      hide Node.Valid, ParseSpec.ParseMembers, Skip, Listed, Parts, Distinct, OwnAll, BelowAll, HaveMembers, Terminated;
      hide Height;
      NotLast(content, offset);
      depth := depth + 1;
      offset := offset + 1;
      SkipWhitespace();
      if content[offset] == CLOSE_BRACE {
        EmptyList();
        return true, null, null, [], [];
      }
      offset := offset - 1;
      ok, head, current, chain, members := ParseEntries();
    }

    /** The loop of `parse_object`, from just before the first member to the closing brace. */
    method ParseEntries()
      returns (ok: bool, head: Node?, current: Node?, ghost chain: seq<Node>, ghost members: seq<Member>)
      requires Terminated(content) && offset + 1 < |content| && 1 <= depth <= NESTING_LIMIT
      modifies this`offset, this`depth, heap
      ensures ok == ParseMembers(content, old(offset) + 1, old(depth), []).Parsed?
      ensures ok ==>
        && offset < |content|
        && ParseMembers(content, old(offset) + 1, old(depth), []) == Parsed(Object(members), offset + 1)
      ensures ok ==> depth == old(depth) && HaveMembers(chain, members)
      ensures ok ==> Listed(head, current, chain) && Parts(chain) && Distinct(chain)
      ensures ok ==> fresh(chain) && fresh(OwnAll(chain)) && fresh(BelowAll(chain))
      ensures ok ==> heap.live == old(heap.live) + OwnAll(chain)
      ensures !ok ==>
        offset == ParseMembers(content, old(offset) + 1, old(depth), []).position && heap.live == old(heap.live)
      decreases |content| - offset, 3
    {
      hide Node.Valid, ParseSpec.ParseMembers, EntryAt, KeyAt, Skip, Listed, Parts, Distinct, OwnAll, BelowAll;
      hide HaveMembers, Terminated, MembersHeight;
      EmptyList();
      NoHeight();
      head, current, chain, members := null, null, [], [];
      var more := true;
      while more
        invariant depth == old(depth) && old(offset) <= offset < |content|
        invariant depth + MembersHeight(members) <= NESTING_LIMIT
        invariant HaveMembers(chain, members) && Listed(head, current, chain) && Parts(chain) && Distinct(chain)
        invariant fresh(chain) && fresh(OwnAll(chain)) && fresh(BelowAll(chain))
        invariant heap.live == old(heap.live) + OwnAll(chain)
        invariant more ==> offset + 1 < |content|
        invariant more ==>
          ParseMembers(content, old(offset) + 1, old(depth), []) == ParseMembers(content, offset + 1, depth, members)
        invariant !more && content[offset] == CLOSE_BRACE ==>
          ParseMembers(content, old(offset) + 1, old(depth), []) == Parsed(Object(members), offset + 1)
        invariant !more && content[offset] != CLOSE_BRACE ==>
          ParseMembers(content, old(offset) + 1, old(depth), []) == Failed(offset)
        decreases |content| - offset, more
      {
        ghost var j, depth0 := offset + 1, depth;
        var item;
        ok, head, item := ParseEntry(head, current, chain);
        if !ok {
          MembersFail(content, j, depth0, members);
          return;
        }
        MembersStep(content, j, depth, members, Member(item.key.s, item.val), offset);
        AllSnoc(chain, item);
        MembersSnoc(chain, members, item);
        chain, members, current := chain + [item], members + [Member(item.key.s, item.val)], item;
        assert fresh(BelowAll(chain)) && fresh(OwnAll(chain));
        SkipWhitespace();
        more := content[offset] == COMMA;
      }
      if content[offset] != CLOSE_BRACE {
        Abandon(heap, head, current, chain);
        ok := false;
      } else {
        ok := true;
      }
    }

    /**
     * One turn of that loop: a new child is linked, and its name, colon and value are parsed. A
     * failure frees the whole list.
     */
    method ParseEntry(head: Node?, current: Node?, ghost chain: seq<Node>)
      returns (ok: bool, newHead: Node?, item: Node)
      requires Terminated(content) && offset + 1 < |content| && depth <= NESTING_LIMIT
      requires Listed(head, current, chain) && Parts(chain) && Distinct(chain) && OwnAll(chain) <= heap.live
      modifies this`offset, this`depth, heap, chain`next
      ensures ok == EntryAt(content, old(offset) + 1, old(depth)).Parsed?
      ensures ok ==> item.key != null && KeyAt(content, old(offset) + 1).text == item.key.s
      ensures ok ==> EntryAt(content, old(offset) + 1, old(depth)) == Parsed(item.val, offset)
      ensures ok ==> depth == old(depth) && fresh(item) && fresh(item.own) && fresh(item.below) && TrueIsOne(item)
      ensures ok ==> Listed(newHead, item, chain + [item]) && Parts(chain + [item]) && Distinct(chain + [item])
      ensures ok ==> heap.live == old(heap.live) + item.own
      ensures !ok ==> offset == EntryAt(content, old(offset) + 1, old(depth)).position
      ensures !ok ==> heap.live == old(heap.live) - OwnAll(chain)
      decreases |content| - offset, 2
    {
      hide Node.Valid, KeyAt, EntryAt, Listed, Parts, Distinct, OwnAll, Terminated, Unparsed;
      newHead, item := Attach(heap, head, current, chain);
      offset := offset + 1;
      ok := ParseMember(item);
      if ok {
        PartsSnoc(chain, item);
      } else {
        AbandonLast(heap, newHead, chain, item);
      }
    }

    /** A member from its name to its value, into a new child. */
    method ParseMember(item: Node) returns (ok: bool)
      requires Terminated(content) && offset < |content| && depth <= NESTING_LIMIT
      requires Unparsed(item) && item.key == null && item.own == {item} && item.own <= heap.live
      modifies this`offset, this`depth, heap, item`key, item`kind, item`child, item`valuestring, item`valueint
      modifies item`valuedouble
      modifies item`kids, item`below, item`own, item`val
      ensures ok == EntryAt(content, old(offset), old(depth)).Parsed?
      ensures ok ==> EntryAt(content, old(offset), old(depth)) == Parsed(item.val, offset)
      ensures ok ==> item.key != null && KeyAt(content, old(offset)).text == item.key.s
      ensures ok ==> depth == old(depth) && item.Valid() && TrueIsOne(item)
      ensures ok ==> fresh(item.below) && fresh(item.own - {item}) && item in item.own
      ensures ok ==> heap.live == old(heap.live) + item.own
      ensures !ok ==> offset == EntryAt(content, old(offset), old(depth)).position
      ensures !ok ==>
        Unparsed(item) && fresh(item.own - {item}) && item in item.own && heap.live == old(heap.live) + item.own
      decreases |content| - offset, 7
    {
      hide Node.Valid, ParseSpec.ParseValue, KeyAt, Skip, Terminated, Unparsed;
      ok := ParseKey(item);
      if ok {
        SkipWhitespace();
        ok := ParseValue(item);
      }
    }

    /** Swaps `valuestring` and `string`: what was parsed is a name. */
    method TakeName(item: Node)
      requires item.valuestring != null && item.key == null && !item.stringIsConst && !item.isReference
      requires item.child == null && item.kids == [] && item.below == {} && item.own == {item} + {item.valuestring}
        && item.valueint == 0
      modifies item`valuestring, item`key
      ensures item.key == old(item.valuestring) && item.valuestring == null && Unparsed(item)
    {
      item.key := item.valuestring;
      item.valuestring := null;
    }

    /** The name of a member and its colon. The name moves from `valuestring` to `string`. */
    method ParseKey(item: Node) returns (ok: bool)
      requires Terminated(content) && offset < |content| && depth <= NESTING_LIMIT
      requires Unparsed(item) && item.key == null && item.own <= heap.live
      modifies this`offset, heap, item`kind, item`valuestring, item`key, item`own, item`val
      ensures ok == KeyAt(content, old(offset)).Text?
      ensures ok ==>
        offset == KeyAt(content, old(offset)).next && item.key != null && item.key.s == KeyAt(content, old(offset)).text
      ensures !ok ==> offset == KeyAt(content, old(offset)).position
      ensures Unparsed(item) && item.own == {item} + item.KeyBlock() && fresh(item.KeyBlock())
      ensures heap.live == old(heap.live) + item.KeyBlock()
    {
      hide StringAt, Skip, Terminated;
      SkipWhitespace();
      ok := ParseString(item);
      if !ok {
        return;
      }
      NotLast(content, offset - 1);
      SkipWhitespace();
      TakeName(item);
      if content[offset] != COLON {
        return false;
      }
      NotLast(content, offset);
      offset := offset + 1;
    }

    /** `skip_utf8_bom` and the whitespace after it. */
    method Begin()
      requires Terminated(content) && offset == 0
      modifies this`offset
      ensures offset == Start(content)
    {
      hide Skip;
      if offset + 4 < |content| && content[0] == 0xEF && content[1] == 0xBB && content[2] == 0xBF {
        offset := offset + 3;
      }
      SkipWhitespace();
    }

    /**
     * The whole input into a new root; on failure `offset` is the position of the error, not yet
     * clipped to the buffer.
     */
    method ParseRoot(root: Node, requireNul: bool) returns (ok: bool)
      requires Terminated(content) && offset == 0 && depth == 0
      requires Unparsed(root) && root.own <= heap.live
      modifies this`offset, this`depth, heap, root`kind, root`child, root`valuestring, root`valueint, root`valuedouble
      modifies root`kids, root`below, root`own, root`val
      ensures ok == ParseDocument(content, requireNul).Parsed?
      ensures ok ==> ParseDocument(content, requireNul) == Parsed(root.val, offset)
      ensures !ok ==> ParseDocument(content, requireNul) == Failed(if offset < |content| then offset else |content| - 1)
      ensures ok ==> root.Valid()
      ensures ok ==> TruesAreOne(root)
      ensures !ok ==> root.Valid() || Unparsed(root)
      ensures fresh(root.below - old(root.below)) && fresh(root.own - old(root.own)) && old(root.own) <= root.own
      ensures heap.live == old(heap.live) + root.own
    {
      hide Node.Valid, Skip, ParseSpec.ParseValue, Start;
      Begin();
      ok := ParseValue(root);
      if ok && requireNul {
        SkipWhitespace();
        if offset >= |content| || content[offset] != NUL {
          ok := false;
        }
      }
    }
  }

  lemma NoLiteralHere(s: seq<byte>, i: nat)
    requires i < |s| && (s[i] == QUOTE || s[i] == MINUS || IsDigit(s[i]))
    ensures !At(s, i, NULL_TEXT) && !At(s, i, FALSE_TEXT) && !At(s, i, TRUE_TEXT)
  {
    if At(s, i, NULL_TEXT) { AtByte(s, i, NULL_TEXT, 0); }
    if At(s, i, FALSE_TEXT) { AtByte(s, i, FALSE_TEXT, 0); }
    if At(s, i, TRUE_TEXT) { AtByte(s, i, TRUE_TEXT, 0); }
  }

  lemma TooDeep(s: seq<byte>, i: nat, depth: nat)
    requires Terminated(s) && i < |s| && depth == NESTING_LIMIT
    ensures s[i] == OPEN_BRACKET ==> ParseSpec.ParseArray(s, i, depth) == Failed(i)
    ensures s[i] == OPEN_BRACE ==> ParseSpec.ParseObject(s, i, depth) == Failed(i)
  {
  }

  lemma NotLast(s: seq<byte>, i: nat)
    requires Terminated(s) && i < |s| && s[i] != NUL
    ensures i + 1 < |s|
  {
  }

  lemma NoHeight()
    ensures ItemsHeight([]) == 0 && MembersHeight([]) == 0
  {
  }

  lemma {:induction false} SkipIs(s: seq<byte>, i: nat, j: nat)
    requires i <= j < |s| && (forall k :: i <= k < j ==> s[k] <= 32) && (s[j] > 32 || j == |s| - 1)
    ensures Skip(s, i) == j
    decreases j - i
  {
    if i < j {
      SkipIs(s, i + 1, j);
    }
  }

  /** `allocation_length`: the distance between the quotes, less the hidden bytes. */
  method CountedLength(s: seq<byte>, start: nat, end: nat, skipped: nat) returns (n: nat)
    requires start <= end <= |s| && skipped == Count(Hiding(s, start, end), start, end)
    ensures n == end - (start - 1) - skipped
  {
    CountAtMost(Hiding(s, start, end), start, end);
    n := end - (start - 1) - skipped;
  }

  /**
   * `cJSON_ParseWithLengthOpts` on a NUL-terminated buffer: a tree that denotes the value and the end
   * of its text, or the error position, which lies inside the buffer, and nothing left allocated.
   */
  method ParseWithOpts(heap: Heap, content: seq<byte>, requireNul: bool) returns (item: Node?, end: nat)
    requires Terminated(content)
    modifies heap
    ensures item != null ==> ParseDocument(content, requireNul) == Parsed(item.val, end)
    ensures item != null ==> fresh(item) && item.Valid()
    ensures item != null ==> fresh(item.own) && fresh(item.below) && heap.live == old(heap.live) + item.own
    ensures item != null ==> item.key == null && item.next == null && TruesAreOne(item)
    ensures item == null ==> ParseDocument(content, requireNul) == Failed(end) && heap.live == old(heap.live)
  {
    hide Node.Valid, Unparsed, ParseDocument;
    var buffer := new ParseBuffer(content, heap);
    var root := heap.NewItem();
    BlankIsUnparsed(root);
    var ok := buffer.ParseRoot(root, requireNul);
    if ok {
      return root, buffer.offset;
    }
    Discard(heap, root);
    item := null;
    end := if buffer.offset < |content| then buffer.offset else |content| - 1;
  }

  /** `cJSON_Parse`: the C string and its terminator. */
  method Parse(heap: Heap, value: CString) returns (item: Node?, end: nat)
    modifies heap
    ensures item != null ==> ParseDocument(value + [NUL], false) == Parsed(item.val, end)
    ensures item != null ==> fresh(item) && item.Valid()
    ensures item != null ==> fresh(item.own) && fresh(item.below) && heap.live == old(heap.live) + item.own
    ensures item != null ==> item.key == null && item.next == null && TruesAreOne(item)
    ensures item == null ==> ParseDocument(value + [NUL], false) == Failed(end) && heap.live == old(heap.live)
  {
    item, end := ParseWithOpts(heap, value + [NUL], false);
  }
}
