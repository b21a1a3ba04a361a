/** `cJSON_GetObjectItemCaseSensitive` and `cJSON_Compare` on trees. */
module Comparing {
  import opened Bytes
  import opened JsonValue
  import opened Rendering
  import opened ParseSpec
  import opened RoundTrip
  import opened Tree
  import opened CompareSpec
  import Duplication

  lemma {:induction false} FindIs(members: seq<Member>, key: CString, i: nat)
    requires i <= |members| && (forall k :: 0 <= k < i ==> members[k].key != key)
    requires i == |members| || members[i].key == key
    ensures Find(members, key) == if i == |members| then -1 else i
  {
    if i > 0 {
      FindIs(members[1..], key, i - 1);
    }
  }

  /** `get_object_item`, case sensitive: the first child with the name. */
  method GetObjectItem(parent: Node, name: CString) returns (item: Node?)
    requires parent.Valid() && parent.kind == ObjectKind
    ensures parent.val.Object? && |parent.val.members| == |parent.kids|
    ensures var i := Find(parent.val.members, name); item == if i < 0 then null else parent.kids[i]
  {
    hide Node.Valid, Find;
    FirstChild(parent);
    ghost var members := parent.val.members;
    ghost var i := 0;
    item := parent.child;
    while item != null && item.key != null && item.key.s != name
      invariant 0 <= i <= |members| && item == if i < |members| then parent.kids[i] else null
      invariant forall k :: 0 <= k < i ==> members[k].key != name
      decreases |members| - i
    {
      ChildAt(parent, i);
      item := item.next;
      i := i + 1;
    }
    if i < |members| {
      ChildAt(parent, i);
    }
    FindIs(members, name, i);
  }

  /** No node belongs to both trees, or else no object in them repeats a name with different values. */
  ghost predicate Comparable(a: Node, b: Node)
    reads a`val, a`below, b`val, b`below
  {
    ({a} + a.below !! {b} + b.below) || (Consistent(a.val) && Consistent(b.val))
  }

  lemma ComparableChildren(a: Node, b: Node, i: nat, j: nat)
    requires a.Valid() && b.Valid() && (a.kind == ArrayKind || a.kind == ObjectKind)
      && (b.kind == ArrayKind || b.kind == ObjectKind)
    requires i < |a.kids| && j < |b.kids| && Comparable(a, b)
    ensures Comparable(a.kids[i], b.kids[j])
  {
    hide Consistent;
    assert a.kids[i] in a.kids && b.kids[j] in b.kids;
    if Consistent(a.val) && Consistent(b.val) {
      ConsistentChild(a, i);
      ConsistentChild(b, j);
    }
  }

  lemma ConsistentChild(n: Node, i: nat)
    requires n.Valid() && (n.kind == ArrayKind || n.kind == ObjectKind) && i < |n.kids| && Consistent(n.val)
    ensures Consistent(n.kids[i].val)
  {
    if n.kind == ArrayKind {
      assert n.kids[i].val in n.val.items;
    } else {
      assert n.val.members[i] in n.val.members;
    }
  }

  /**
   * `cJSON_Compare`, case sensitive. Missing trees are never equal, a tree is equal to itself, and
   * trees that mean different values are never equal.
   */
  method Compare(a: Node?, b: Node?) returns (equal: bool)
    requires a != null ==> a.Valid() && Printable(a.val)
    requires b != null ==> b.Valid() && Printable(b.val)
    ensures a == null || b == null ==> !equal
    ensures a != null && a == b ==> equal
    ensures a != null && b != null && equal ==> MeaningOf(a.val) == MeaningOf(b.val)
    ensures a != null && b != null && Comparable(a, b) ==> equal == CompareSpec.Compare(a.val, b.val)
    decreases (if a == null then 0 else Height(a.val)) + (if b == null then 0 else Height(b.val)), 2
  {
    hide Node.Valid, Printable, Consistent, Height, CompareDouble, MapOf;
    if a == null || b == null {
      return false;
    }
    Denotation(a);
    Denotation(b);
    if a.kind != b.kind {
      return false;
    }
    if a == b {
      CompareReflexiveIff(a.val);
      return true;
    }
    match a.kind {
      case FalseKind => equal := true;
      case TrueKind => equal := true;
      case NullKind => equal := true;
      case NumberKind =>
        equal := CompareDouble(a.valuedouble, b.valuedouble);
        CompareInts(a.valuedouble, b.valuedouble);
      case StringKind => equal := a.valuestring.s == b.valuestring.s;
      case ArrayKind => equal := CompareItems(a, b);
      case ObjectKind =>
        equal := MatchMembers(a, b);
        if equal {
          equal := MatchMembers(b, a);
        }
        if equal {
          WithinBoth(a.val.members, b.val.members);
        }
        ObjectsCompare(a.val, b.val);
    }
  }

  /** The array loop: both lists are walked in step. */
  method CompareItems(a: Node, b: Node) returns (equal: bool)
    requires a.Valid() && b.Valid() && Printable(a.val) && Printable(b.val)
    requires a.kind == ArrayKind && b.kind == ArrayKind
    ensures equal ==> MeaningOf(a.val) == MeaningOf(b.val)
    ensures Comparable(a, b) ==> equal == CompareSpec.Compare(a.val, b.val)
    decreases Height(a.val) + Height(b.val), 1
  {
    hide Node.Valid, Printable, Consistent, Comparable, Height, ItemsHeight, CompareSpec.Compare, MeaningOf;
    FirstChild(a);
    FirstChild(b);
    ArraysCompare(a.val, b.val);
    ghost var xs, ys, i := a.val.items, b.val.items, 0;
    var x, y := a.child, b.child;
    while x != null && y != null
      invariant 0 <= i <= |xs| && i <= |ys|
      invariant x == if i < |xs| then a.kids[i] else null
      invariant y == if i < |ys| then b.kids[i] else null
      invariant forall k :: 0 <= k < i ==> MeaningOf(xs[k]) == MeaningOf(ys[k])
      invariant Comparable(a, b) ==> forall k :: 0 <= k < i ==> CompareSpec.Compare(xs[k], ys[k])
      decreases |xs| - i
    {
      ChildAt(a, i);
      ChildAt(b, i);
      LowerItems(a.val, b.val, i, i);
      var same := Compare(x, y);
      if Comparable(a, b) {
        ComparableChildren(a, b, i, i);
      }
      if !same {
        return false;
      }
      x, y := x.next, y.next;
      i := i + 1;
    }
    equal := x == y;
    if equal {
      SameItems(xs, ys);
    }
  }

  lemma SameItems(xs: seq<Json>, ys: seq<Json>)
    requires |xs| == |ys| && forall k :: 0 <= k < |xs| ==> MeaningOf(xs[k]) == MeaningOf(ys[k])
    ensures MeaningOf(Array(xs)) == MeaningOf(Array(ys))
  {
  }

  lemma ArraysCompare(v: Json, w: Json)
    requires v.Array? && w.Array?
    ensures CompareSpec.Compare(v, w) <==>
      |v.items| == |w.items| && forall i :: 0 <= i < |v.items| ==> CompareSpec.Compare(v.items[i], w.items[i])
  {
  }

  /** Every member finds a partner of its name that means the same. */
  ghost predicate Within(ms: seq<Member>, ns: seq<Member>) {
    forall i :: 0 <= i < |ms| ==> PartnerMeans(ms, i, ns)
  }

  ghost predicate PartnerMeans(ms: seq<Member>, i: nat, ns: seq<Member>)
    requires i < |ms|
  {
    var j := Find(ns, ms[i].key);
    j >= 0 && MeaningOf(ms[i].value) == MeaningOf(ns[j].value)
  }

  lemma PartnerAt(ms: seq<Member>, i: nat, ns: seq<Member>)
    requires i < |ms|
    ensures var j := Find(ns, ms[i].key);
      if j < 0 then !MatchedIn(ms, i, ns)
      else
        && (MatchedIn(ms, i, ns) <==> CompareSpec.Compare(ms[i].value, ns[j].value))
        && (PartnerMeans(ms, i, ns) <==> MeaningOf(ms[i].value) == MeaningOf(ns[j].value))
  {
  }

  lemma WithinBoth(ms: seq<Member>, ns: seq<Member>)
    requires Within(ms, ns) && Within(ns, ms)
    ensures MapOf(ms) == MapOf(ns)
  {
    hide MapOf, Find, MeaningOf;
    forall key
      ensures key in MapOf(ms) <==> key in MapOf(ns)
      ensures key in MapOf(ms) ==> MapOf(ms)[key] == MapOf(ns)[key]
    {
      MapOfFind(ms, key);
      MapOfFind(ns, key);
      if Find(ms, key) >= 0 {
        assert PartnerMeans(ms, Find(ms, key), ns);
      }
      if Find(ns, key) >= 0 {
        assert PartnerMeans(ns, Find(ns, key), ms);
      }
    }
  }

  ghost predicate AllMatched(v: Json, w: Json)
    requires v.Object? && w.Object?
  {
    forall i :: 0 <= i < |v.members| ==> MatchedIn(v.members, i, w.members)
  }

  lemma ObjectsCompare(v: Json, w: Json)
    requires v.Object? && w.Object?
    ensures CompareSpec.Compare(v, w) <==> AllMatched(v, w) && AllMatched(w, v)
  {
    hide MatchedIn;
  }

  /** The object loop, in one direction: every child of `a` has an equal partner of the same name in `b`. */
  method MatchMembers(a: Node, b: Node) returns (matched: bool)
    requires a.Valid() && b.Valid() && Printable(a.val) && Printable(b.val)
    requires a.kind == ObjectKind && b.kind == ObjectKind
    ensures a.val.Object? && b.val.Object?
    ensures matched ==> Within(a.val.members, b.val.members)
    ensures Comparable(a, b) ==> matched == AllMatched(a.val, b.val)
    decreases Height(a.val) + Height(b.val), 1
  {
    hide Node.Valid, Printable, Consistent, Comparable, Find, Height, MembersHeight, CompareSpec.Compare, MeaningOf;
    hide MatchedIn, PartnerMeans;
    FirstChild(a);
    FirstChild(b);
    ghost var ms, ns, i := a.val.members, b.val.members, 0;
    var x := a.child;
    while x != null
      invariant 0 <= i <= |ms| && x == if i < |ms| then a.kids[i] else null
      invariant forall k :: 0 <= k < i ==> PartnerMeans(ms, k, ns)
      invariant Comparable(a, b) ==> forall k :: 0 <= k < i ==> MatchedIn(ms, k, ns)
      decreases |ms| - i
    {
      ChildAt(a, i);
      var y := GetObjectItem(b, x.key.s);
      ghost var j := Find(ns, ms[i].key);
      PartnerAt(ms, i, ns);
      if y == null {
        return false;
      }
      ChildAt(b, j);
      LowerMembers(a.val, b.val, i, j);
      var same := Compare(x, y);
      if Comparable(a, b) {
        ComparableChildren(a, b, i, j);
      }
      if !same {
        return false;
      }
      x := x.next;
      i := i + 1;
    }
    matched := true;
  }

  lemma LowerItems(a: Json, b: Json, i: nat, j: nat)
    requires a.Array? && b.Array? && i < |a.items| && j < |b.items|
    ensures Height(a.items[i]) + Height(b.items[j]) < Height(a) + Height(b)
  {
    HeightOfItem(a.items, i);
    HeightOfItem(b.items, j);
  }

  lemma LowerMembers(a: Json, b: Json, i: nat, j: nat)
    requires a.Object? && b.Object? && i < |a.members| && j < |b.members|
    ensures Height(a.members[i].value) + Height(b.members[j].value) < Height(a) + Height(b)
  {
    HeightOfMember(a.members, i);
    HeightOfMember(b.members, j);
  }

  /** A tree compares equal to its deep copy if and only if its repeated names agree. */
  method CompareWithCopy(heap: Heap, item: Node) returns (equal: bool)
    requires item.Valid() && Printable(item.val)
    modifies heap
    ensures equal <==> Consistent(item.val)
  {
    hide Node.Valid, Printable, Consistent;
    var copy := Duplication.Duplicate(heap, item, true);
    CompareReflexiveIff(item.val);
    equal := Compare(item, copy);
  }

  /**
   * An input for which they do not agree: an object that repeats a name with another value, and that
   * the parser accepts.
   */
  lemma RepeatedNameDiffersFromCopy(key: CString, requireNul: bool)
    ensures var v := Object([Member(key, Number(1.0)), Member(key, Number(2.0))]);
      && Printable(v) && !Consistent(v) && !CompareSpec.Compare(v, v)
      && ParseDocument(Buffer(Render(v, false, 0)), requireNul) == Parsed(v, |Render(v, false, 0)|)
  {
    hide Render, ParseDocument;
    var members := [Member(key, Number(1.0)), Member(key, Number(2.0))];
    var v := Object(members);
    assert Printable(v) by { IntOfInt(1); IntOfInt(2); }
    assert MembersHeight(members) == 0 by { assert members[1..] == [members[1]] && MembersHeight([members[1]]) == 0; }
    assert members[0].key == members[1].key && MeaningOf(members[0].value) != MeaningOf(members[1].value);
    CompareReflexiveIff(v);
    ParseUndoesPrint(v, false, 0, requireNul);
  }
}
