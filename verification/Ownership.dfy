/** Creating, naming, borrowing and deleting nodes: which blocks are live and who owns them. */
module Ownership {
  import opened Bytes
  import opened JsonValue
  import opened Tree
  import opened ChildList

  /** A list of well-formed nodes along `next`, none of which shares an owned block with another. */
  ghost predicate Chain(item: Node?, chain: seq<Node>)
    reads chain`next
  {
    && (chain == [] ==> item == null)
    && (chain != [] ==> item == chain[0] && chain[|chain| - 1].next == null)
    && (forall i {:trigger chain[i].next} :: 0 <= i < |chain| - 1 ==> chain[i].next == chain[i + 1])
  }

  ghost predicate Separate(chain: seq<Node>)
    reads chain`own
  {
    forall i, j :: 0 <= i < j < |chain| ==> chain[i].own !! chain[j].own
  }

  /**
   * `cJSON_Delete`: frees exactly the blocks that the chain owns, each once (a block must be live to
   * be freed), and nothing that is only borrowed.
   */
  method Delete(heap: Heap, item: Node?, ghost chain: seq<Node>)
    requires Chain(item, chain) && Separate(chain) && (forall n <- chain :: n.Shaped())
    requires OwnAll(chain) <= heap.live
    modifies heap
    ensures heap.live == old(heap.live) - OwnAll(chain)
    decreases OwnAll(chain), 1
  {
    hide Node.Shaped, OwnAll;
    var current := item;
    ghost var i := 0;
    OwnNone();
    while current != null
      invariant 0 <= i <= |chain|
      invariant current == if i < |chain| then chain[i] else null
      invariant heap.live == old(heap.live) - OwnAll(chain[..i])
      decreases |chain| - i
    {
      assert current.Shaped();
      var next := current.next;
      OwnSplit(chain, i);
      DeleteOne(heap, current);
      current := next;
      i := i + 1;
    }
    assert chain[..i] == chain;
  }

  lemma OwnNone()
    ensures OwnAll([]) == {}
  {
  }

  lemma OwnSplit(chain: seq<Node>, i: nat)
    requires i < |chain| && Separate(chain)
    ensures OwnAll(chain[..i + 1]) == OwnAll(chain[..i]) + chain[i].own
    ensures chain[i].own <= OwnAll(chain) && chain[i].own !! OwnAll(chain[..i])
  {
    assert chain[..i + 1] == chain[..i] + [chain[i]];
    assert chain[i] in chain;
  }

  /** One turn of the loop in `cJSON_Delete`. */
  method DeleteOne(heap: Heap, item: Node)
    requires item.Shaped() && item.own <= heap.live
    modifies heap
    ensures heap.live == old(heap.live) - item.own
    decreases item.own, 0
  {
    hide Node.Shaped, Node.MeansWith, Node.Ring, Node.NestedIn;
    KidsChain(item);
    if !item.isReference && item.child != null {
      Delete(heap, item.child, item.kids);
    }
    if !item.isReference && item.valuestring != null {
      heap.Free(item.valuestring);
    }
    if !item.stringIsConst && item.key != null {
      heap.Free(item.key);
    }
    heap.Free(item);
  }

  lemma KidsChain(item: Node)
    requires item.Shaped()
    ensures Chain(item.child, item.kids) && Separate(item.kids)
    ensures item.OwnsWith(item.kids, item.own)
    ensures item.child == null ==> OwnAll(item.kids) == {}
    ensures forall k <- item.kids :: k.Shaped()
  {
  }

  // Creating nodes.

  /** A node just created for the value, with no name, alone in its list. */
  ghost predicate Created(n: Node, v: Json)
    reads n, n.below
  {
    && n.Valid() && n.val == v && n.key == null && !n.isReference && n.next == null
    && n.kids == [] && n.below == {}
  }

  lemma Leaf(n: Node)
    requires n.kids == [] && n.below == {} && n.child == null && n.key == null && n.next == null && !n.isReference
    requires n.own == {n} + n.ValueBlock() && n.MeansWith([], n.val)
    ensures Created(n, n.val)
  {
  }

  method CreateNull(heap: Heap) returns (n: Node)
    modifies heap
    ensures fresh(n) && fresh(n.own) && Created(n, Null) && heap.live == old(heap.live) + n.own
  {
    hide Node.Valid, Node.OwnsWith, Node.Ring, Node.NestedIn, Created;
    n := heap.NewItem();
    n.kind := NullKind;
    Leaf(n);
  }

  method CreateBool(heap: Heap, b: bool) returns (n: Node)
    modifies heap
    ensures fresh(n) && fresh(n.own) && Created(n, Bool(b)) && heap.live == old(heap.live) + n.own
  {
    hide Node.Valid, Node.OwnsWith, Node.Ring, Node.NestedIn, Created;
    n := heap.NewItem();
    n.kind := if b then TrueKind else FalseKind;
    n.val := Bool(b);
    Leaf(n);
  }

  method CreateNumber(heap: Heap, number: real) returns (n: Node)
    modifies heap
    ensures fresh(n) && fresh(n.own) && Created(n, Number(number)) && heap.live == old(heap.live) + n.own
  {
    hide Node.Valid, Node.OwnsWith, Node.Ring, Node.NestedIn, Created;
    n := heap.NewItem();
    n.kind := NumberKind;
    StoreNumber(n, number);
    Leaf(n);
  }

  /** Sets both views of a number, the int one with saturation. */
  method StoreNumber(n: Node, number: real)
    modifies n`valueint, n`valuedouble, n`val
    ensures n.valuedouble == number && n.valueint == IntOf(number) && n.val == Number(number)
  {
    n.valuedouble := number;
    if number >= INT_MAX as real {
      n.valueint := INT_MAX;
    } else if number <= INT_MIN as real {
      n.valueint := INT_MIN;
    } else {
      n.valueint := Truncate(number);
    }
    n.val := Number(number);
  }

  method CreateString(heap: Heap, s: CString) returns (n: Node)
    modifies heap
    ensures fresh(n) && fresh(n.own) && Created(n, String(s)) && heap.live == old(heap.live) + n.own
  {
    hide Node.Valid, Node.OwnsWith, Node.Ring, Node.NestedIn, Created;
    n := heap.NewItem();
    n.kind := StringKind;
    n.valuestring := heap.NewText(s);
    n.val := String(s);
    n.own := {n, n.valuestring};
    Leaf(n);
  }

  method CreateArray(heap: Heap) returns (n: Node)
    modifies heap
    ensures fresh(n) && fresh(n.own) && Created(n, Array([])) && n.kind == ArrayKind
      && heap.live == old(heap.live) + n.own
  {
    hide Node.Valid, Node.OwnsWith, Node.Ring, Node.NestedIn, Created;
    n := heap.NewItem();
    n.kind := ArrayKind;
    n.val := Array([]);
    Leaf(n);
  }

  method CreateObject(heap: Heap) returns (n: Node)
    modifies heap
    ensures fresh(n) && fresh(n.own) && Created(n, Object([])) && n.kind == ObjectKind
      && heap.live == old(heap.live) + n.own
  {
    hide Node.Valid, Node.OwnsWith, Node.Ring, Node.NestedIn, Created;
    n := heap.NewItem();
    n.kind := ObjectKind;
    n.val := Object([]);
    Leaf(n);
  }

  /** `create_reference`: a shallow copy that shares the string and the children of `item` without owning them. */
  method CreateReference(heap: Heap, item: Node) returns (reference: Node)
    requires item.Valid()
    modifies heap
    ensures fresh(reference) && reference.Valid()
    ensures reference.isReference && reference.key == null && reference.next == null
    ensures reference.val == item.val && reference.kids == item.kids && reference.below == item.below
    ensures reference.own == {reference} && heap.live == old(heap.live) + {reference}
  {
    hide Node.Valid;
    NotBelowItself(item);
    reference := heap.NewItem();
    Borrow(reference, item);
    CopyValid(item, reference);
  }

  lemma NotBelowItself(item: Node)
    requires item.Valid()
    ensures item !in item.below
  {
  }

  /** The copying half of `create_reference`. */
  method Borrow(copy: Node, item: Node)
    requires copy != item && copy.own == {copy}
    modifies copy
    ensures copy.isReference && copy.key == null && copy.next == null && copy.prev == null && copy.own == {copy}
    ensures copy.child == item.child && copy.kind == item.kind && copy.valuestring == item.valuestring
    ensures copy.valueint == item.valueint && copy.valuedouble == item.valuedouble
    ensures copy.kids == item.kids && copy.below == item.below && copy.val == item.val
  {
    copy.child, copy.kind, copy.stringIsConst := item.child, item.kind, item.stringIsConst;
    copy.valuestring, copy.valueint, copy.valuedouble := item.valuestring, item.valueint, item.valuedouble;
    copy.key := null;
    copy.isReference := true;
    copy.next, copy.prev := null, null;
    copy.kids, copy.below, copy.val := item.kids, item.below, item.val;
  }

  lemma CopyValid(item: Node, copy: Node)
    requires item.Valid() && copy !in item.below && copy.isReference && copy.key == null && copy.own == {copy}
    requires copy.child == item.child && copy.kind == item.kind && copy.valuestring == item.valuestring
    requires copy.valueint == item.valueint && copy.valuedouble == item.valuedouble
    requires copy.kids == item.kids && copy.below == item.below && copy.val == item.val
    ensures copy.Valid()
  {
  }

  /** The renaming half of `add_item_to_object`: the old name is freed unless it is constant. */
  method Rename(heap: Heap, item: Node, name: CString)
    requires item.Valid() && item.KeyBlock() <= heap.live
    modifies heap, item`key, item`stringIsConst, item`own
    ensures item.Valid()
    ensures item.key != null && fresh(item.key) && item.key.s == name && !item.stringIsConst
    ensures item.own == old(item.own) - old(item.KeyBlock()) + {item.key}
    ensures heap.live == old(heap.live) - old(item.KeyBlock()) + {item.key}
  {
    hide Node.Valid;
    var text := heap.NewText(name);
    if !item.stringIsConst && item.key != null {
      heap.Free(item.key);
    }
    SetKey(item, text);
  }

  /** Writes the new name into the node. */
  method SetKey(item: Node, text: Text)
    requires item.Valid() && text !in item.own
    modifies item`key, item`stringIsConst, item`own
    ensures item.Valid()
    ensures item.key == text && !item.stringIsConst
    ensures item.own == old(item.own) - old(item.KeyBlock()) + {text}
  {
    hide Node.Valid, Node.MeansWith, Node.Ring, Node.NestedIn, Node.OwnsWith, OwnUnnamed, OwnsUnnamed;
    Unfold(item);
    ghost var own := item.own - item.KeyBlock() + {text};
    OwnWithoutKey(item, text);
    item.key := text;
    item.stringIsConst := false;
    item.own := own;
    OwnWithKey(item);
    Fold(item);
  }

  /** What a node owns besides its name. */
  ghost function OwnUnnamed(item: Node): set<object>
    reads item`valuestring, item`isReference, item`kids, item.kids`own
  {
    {item} + (if item.isReference then {} else item.ValueBlock() + OwnAll(item.kids))
  }

  ghost predicate OwnsUnnamed(item: Node)
    reads item`valuestring, item`isReference, item`kids, item.kids`own
  {
    && (forall i, j :: 0 <= i < j < |item.kids| ==> item.kids[i].own !! item.kids[j].own)
    && (!item.isReference ==> item !in OwnAll(item.kids) && item.ValueBlock() !! OwnAll(item.kids))
  }

  lemma OwnWithoutKey(item: Node, text: Text)
    requires item.OwnsWith(item.kids, item.own) && text !in item.own
    ensures OwnsUnnamed(item) && text !in OwnUnnamed(item)
    ensures item.own - item.KeyBlock() + {text} == OwnUnnamed(item) + {text}
  {
  }

  lemma OwnWithKey(item: Node)
    requires OwnsUnnamed(item) && item.key != null && !item.stringIsConst && item.key !in OwnUnnamed(item)
    requires item.own == OwnUnnamed(item) + {item.key}
    ensures item.OwnsWith(item.kids, item.own)
  {
  }

  /** The members of an object after adding one. */
  function WithMember(v: Json, key: CString, value: Json): Json {
    if v.Object? then Object(v.members + [Member(key, value)]) else v
  }

  ghost function NonNull(item: Node?): set<Node> { if item == null then {} else {item} }

  /** `cJSON_AddItemToObject`. A missing item is refused, and so is the object itself. */
  method AddItemToObject(heap: Heap, parent: Node, name: CString, item: Node?) returns (ok: bool)
    requires parent.Valid() && parent.kind == ObjectKind && !parent.isReference
    requires item != null && item != parent ==>
      item.Valid() && Apart(parent, item) && item.next == null && item.KeyBlock() <= heap.live
    modifies heap, parent`child, parent`kids, parent`below, parent`own, parent`val, parent.kids`next, parent.kids`prev
    modifies NonNull(item)`key, NonNull(item)`stringIsConst, NonNull(item)`own, NonNull(item)`next, NonNull(item)`prev
    ensures parent.Valid()
    ensures ok == (item != null && item != parent)
    ensures !ok ==>
      && parent.kids == old(parent.kids)
      && parent.below == old(parent.below)
      && parent.val == old(parent.val)
      && parent.own == old(parent.own)
      && heap.live == old(heap.live)
    ensures ok ==>
      && item.Valid() && item.key != null && fresh(item.key) && item.key.s == name
      && parent.kids == old(parent.kids) + [item]
      && parent.val == WithMember(old(parent.val), name, item.val)
      && parent.below == old(parent.below) + {item} + item.below
      && item.own == old(item.own) - old(item.KeyBlock()) + {item.key}
      && parent.own == old(parent.own) + item.own
      && heap.live == old(heap.live) - old(item.KeyBlock()) + {item.key}
  {
    hide Node.Valid, Node.MeansWith, Node.OwnsWith, Node.Ring, Node.NestedIn, ValueInserted, WithMember, Inserted;
    if item == null || item == parent {
      return false;
    }
    ghost var kids := parent.kids;
    ghost var val := parent.val;
    Shape(parent);
    Rename(heap, item, name);
    Append(parent, item);
    InsertedLast(kids, item);
    MemberInserted(val, |kids|, item.key, item.val);
    ok := true;
  }

  /** The value of an object has as many members as the node has children. */
  lemma Shape(n: Node)
    requires n.Valid() && n.kind == ObjectKind
    ensures n.val.Object? && |n.val.members| == |n.kids|
  {
  }

  lemma InsertedLast<T>(s: seq<T>, x: T)
    ensures Inserted(s, |s|, x) == s + [x]
  {
  }

  lemma MemberInserted(v: Json, n: nat, key: Text, value: Json)
    requires v.Object? && |v.members| == n
    ensures ValueInserted(ObjectKind, v, n, key, value) == WithMember(v, key.s, value)
  {
    InsertedLast(v.members, Member(key.s, value));
  }

  // Replacing a child.

  /** The value of a node after its child at `i` is replaced. */
  function ValueReplaced(kind: Kind, val: Json, i: nat, key: Text?, v: Json): Json {
    if kind == ArrayKind && val.Array? && i < |val.items| then Array(val.items[i := v])
    else if kind == ObjectKind && val.Object? && i < |val.members| && key != null then
      Object(val.members[i := Member(key.s, v)])
    else val
  }

  lemma ReplaceIsRemoveInsert<T>(s: seq<T>, i: nat, x: T)
    requires i < |s|
    ensures Inserted(Removed(s, i), i, x) == s[i := x]
  {
  }

  lemma ValueReplacedIs(parent: Node, kids: seq<Node>, i: nat, item: Node)
    requires parent.MeansWith(kids, parent.val) && i < |kids|
    requires parent.kind == ObjectKind ==> item.key != null
    ensures ValueInserted(parent.kind, ValueRemoved(parent.kind, parent.val, i), i, item.key, item.val)
         == ValueReplaced(parent.kind, parent.val, i, item.key, item.val)
  {
    match parent.val
    case Array(items) =>
      if parent.kind == ArrayKind { ReplaceIsRemoveInsert(items, i, item.val); }
    case Object(members) =>
      if parent.kind == ObjectKind && item.key != null {
        ReplaceIsRemoveInsert(members, i, Member(item.key.s, item.val));
      }
    case _ =>
  }

  /** After the pointers of a replacement are in place, the bookkeeping that makes the parent well-formed. */
  ghost method RecordReplace(parent: Node, kids: seq<Node>, i: nat, replacement: Node)
    requires i < |kids| && parent.kids == kids[i := replacement] && parent.Ring() && parent !in kids && Distinct(kids)
    requires parent.NestedIn(kids, parent.below) && parent.OwnsWith(kids, parent.own)
      && parent.MeansWith(kids, parent.val)
    requires forall k <- kids :: k.Valid() && parent !in k.below && k !in replacement.below
    requires replacement.Valid() && replacement !in parent.below && parent !in replacement.below
      && parent != replacement
    requires !parent.isReference && parent.own !! replacement.own
      && (parent.kind == ObjectKind ==> replacement.key != null)
    modifies parent`below, parent`own, parent`val
    ensures parent.Valid()
    ensures parent.val == ValueReplaced(parent.kind, old(parent.val), i, replacement.key, replacement.val)
    ensures kids[i].own <= old(parent.own) && parent.own == old(parent.own) - kids[i].own + replacement.own
  {
    hide Node.Valid, Node.MeansWith, Node.OwnsWith, Node.Ring, Node.NestedIn, OwnAll, Removed, Inserted, ValueInserted;
    hide ValueRemoved, BelowAll, ValueReplaced;
    Unfold(replacement);
    var rest := Removed(kids, i);
    ReplaceIsRemoveInsert(kids, i, replacement);
    ValueReplacedIs(parent, kids, i, replacement);
    RemoveNested(parent, kids, parent.below, i);
    RemoveOwns(parent, kids, parent.own, i);
    RemoveMeans(parent, kids, parent.val, i);
    InsertNested(parent, rest, BelowAll(rest), i, replacement);
    InsertOwns(parent, rest, parent.own - kids[i].own, i, replacement);
    InsertMeans(parent, rest, ValueRemoved(parent.kind, parent.val, i), i, replacement);
    parent.below := BelowAll(rest) + {replacement} + replacement.below;
    parent.own := parent.own - kids[i].own + replacement.own;
    parent.val := ValueReplaced(parent.kind, parent.val, i, replacement.key, replacement.val);
    Fold(parent);
  }

  /** Relinking moves no pointer inside the children's own trees. */
  method RelinkValid(parent: Node, ghost i: nat, item: Node, replacement: Node)
    requires parent.Valid() && replacement.Valid() && Apart(parent, replacement)
    requires i < |parent.kids| && parent.kids[i] == item
    modifies parent`child, parent`kids, parent.kids`next, parent.kids`prev, replacement`next, replacement`prev
    ensures parent.Ring() && parent.kids == old(parent.kids)[i := replacement]
    ensures item.next == null && item.prev == null
    ensures replacement.Valid()
    ensures forall k <- old(parent.kids) :: k.Valid()
  {
    hide Node.Valid, Node.MeansWith, Node.OwnsWith, Node.Ring, Node.NestedIn, OwnAll;
    ghost var before := parent.kids;
    Unfold(parent);
    Unfold(replacement);
    assert forall k, o :: k in before && o in k.below ==> o !in before && o != replacement && o != parent;
    Relink(parent, i, item, replacement);
    assert forall k <- before :: k.Valid();
  }

  /**
   * `cJSON_ReplaceItemViaPointer` on a child, with a node from outside: the old child is deleted.
   * Replacing it by itself does nothing.
   */
  method ReplaceItemViaPointer(heap: Heap, parent: Node, ghost i: nat, item: Node, replacement: Node) returns (ok: bool)
    requires parent.Valid() && !parent.isReference
    requires i < |parent.kids| && parent.kids[i] == item && item.own <= heap.live
    requires replacement != item ==>
      replacement.Valid() && Apart(parent, replacement) && (parent.kind == ObjectKind ==> replacement.key != null)
    modifies heap, parent`child, parent`kids, parent`below, parent`own, parent`val
    modifies parent.kids`next, parent.kids`prev, replacement`next, replacement`prev
    ensures ok && parent.Valid()
    ensures parent.kids == old(parent.kids)[i := replacement]
    ensures replacement != item ==>
      && parent.val == ValueReplaced(parent.kind, old(parent.val), i, replacement.key, replacement.val)
      && parent.own == old(parent.own) - item.own + replacement.own && heap.live == old(heap.live) - item.own
    ensures replacement == item ==>
      parent.val == old(parent.val) && parent.own == old(parent.own) && heap.live == old(heap.live)
  {
    hide Node.Valid, Node.MeansWith, Node.OwnsWith, Node.Ring, Node.NestedIn, OwnAll, ValueReplaced;
    if replacement == item {
      return true;
    }
    ReplaceByOther(heap, parent, i, item, replacement);
    ok := true;
  }

  /** Unlinks the child in favour of another node, and deletes it. */
  method ReplaceByOther(heap: Heap, parent: Node, ghost i: nat, item: Node, replacement: Node)
    requires parent.Valid() && replacement.Valid() && !parent.isReference && Apart(parent, replacement)
    requires i < |parent.kids| && parent.kids[i] == item
    requires parent.kind == ObjectKind ==> replacement.key != null
    requires item.own <= heap.live
    modifies heap, parent`child, parent`kids, parent`below, parent`own, parent`val
    modifies parent.kids`next, parent.kids`prev, replacement`next, replacement`prev
    ensures parent.Valid()
    ensures parent.kids == old(parent.kids)[i := replacement]
    ensures parent.val == ValueReplaced(parent.kind, old(parent.val), i, replacement.key, replacement.val)
    ensures parent.own == old(parent.own) - item.own + replacement.own
    ensures heap.live == old(heap.live) - item.own
  {
    hide Node.Valid, Node.MeansWith, Node.OwnsWith, Node.Ring, Node.NestedIn, OwnAll, ValueReplaced;
    ghost var before := parent.kids;
    Unfold(parent);
    assert item in before;
    RelinkValid(parent, i, item, replacement);
    RecordReplace(parent, before, i, replacement);
    OwnSingle(item);
    ValidIsShaped(item);
    Delete(heap, item, [item]);
  }

  lemma OwnSingle(item: Node)
    ensures OwnAll([item]) == item.own
  {
    assert item in [item];
  }
}
