/** Building a child list node by node, as the parser and `cJSON_Duplicate` do, and discarding it again. */
module ListBuilder {
  import opened JsonValue
  import opened Tree
  import opened Ownership

  /** A node without children that owns its name and its string. */
  ghost predicate Childless(n: Node)
    reads n`child, n`kids, n`below, n`isReference, n`stringIsConst, n`valuestring, n`own, n`key
  {
    && n.child == null && n.kids == [] && n.below == {} && !n.isReference
    && n.own == {n} + n.KeyBlock() + n.ValueBlock() && n.KeyBlock() !! n.ValueBlock()
  }

  /** A node without value or children: new, or left behind by a failed parse. It may carry a name. */
  ghost predicate Unparsed(n: Node)
    reads n`child, n`kids, n`below, n`isReference, n`stringIsConst, n`valuestring, n`own, n`key, n`valueint
  {
    Childless(n) && !n.stringIsConst && n.valuestring == null && n.valueint == 0
  }

  lemma UnparsedIsChildless(n: Node)
    requires Unparsed(n)
    ensures Childless(n)
  {
  }

  lemma UnparsedIsShaped(n: Node)
    requires Unparsed(n)
    ensures n.Shaped()
  {
  }

  // The list of children under construction.

  /** Forward and backward links of the list so far; the head's prev is set only when the list is complete. */
  ghost predicate Listed(head: Node?, current: Node?, chain: seq<Node>)
    reads chain`next, chain`prev
  {
    && Chain(head, chain)
    && current == (if chain == [] then null else chain[|chain| - 1])
    && (forall i {:trigger chain[i].prev} :: 0 < i < |chain| ==> chain[i].prev == chain[i - 1])
  }

  /** The children so far are well-formed and share nothing. */
  ghost predicate Parts(chain: seq<Node>)
    reads chain, set n, m | n in chain && m in n.below :: m
  {
    && (forall n <- chain :: n.Valid())
    && Separate(chain)
    && (forall n, o :: n in chain && o in n.below ==> o !in chain)
  }

  /** The parser leaves 1 in the int view of a literal `true`; a created one has 0 there. */
  ghost predicate TrueIsOne(n: Node)
    reads n`kind, n`valueint
  {
    n.kind == TrueKind ==> n.valueint == 1
  }

  /** The same, for the node and its children. */
  ghost predicate TruesAreOne(n: Node)
    reads n`kind, n`valueint, n`kids, n.kids`kind, n.kids`valueint
  {
    TrueIsOne(n) && forall k <- n.kids :: TrueIsOne(k)
  }

  /** The parsed children so far carry the values. */
  ghost predicate HaveValues(chain: seq<Node>, values: seq<Json>)
    reads chain`val, chain`kind, chain`valueint
  {
    |chain| == |values| && forall i :: 0 <= i < |chain| ==> chain[i].val == values[i] && TrueIsOne(chain[i])
  }

  /** A container of such children. */
  lemma ContainerTrues(n: Node, chain: seq<Node>, values: seq<Json>, members: seq<Member>)
    requires n.kids == chain && n.kind != TrueKind && (HaveValues(chain, values) || HaveMembers(chain, members))
    ensures TruesAreOne(n)
  {
  }

  lemma ArrayMeans(n: Node, chain: seq<Node>, values: seq<Json>)
    requires n.kind == ArrayKind && HaveValues(chain, values)
    ensures n.MeansWith(chain, Array(values))
  {
  }

  lemma ObjectMeans(n: Node, chain: seq<Node>, members: seq<Member>)
    requires n.kind == ObjectKind && HaveMembers(chain, members)
    ensures n.MeansWith(chain, Object(members))
  {
  }

  /** Links a node to the end of the list. */
  method LinkEnd(head: Node?, current: Node?, item: Node, ghost chain: seq<Node>) returns (newHead: Node)
    requires Listed(head, current, chain) && Distinct(chain)
    requires item !in chain && item.next == null
    modifies chain`next, item`prev
    ensures Listed(newHead, item, chain + [item]) && Distinct(chain + [item])
  {
    if head == null {
      newHead := item;
    } else {
      newHead := head;
      current.next := item;
      item.prev := current;
    }
    ghost var more := chain + [item];
    assert forall i :: 0 <= i < |chain| ==> more[i] == chain[i];
  }

  /** Linking a node leaves the children before it well-formed. */
  method LinkPart(head: Node?, current: Node?, item: Node, ghost chain: seq<Node>) returns (newHead: Node)
    requires Listed(head, current, chain) && Distinct(chain) && Parts(chain)
    requires item !in chain && item.next == null && (forall n <- chain :: item !in n.below)
    modifies chain`next, item`prev
    ensures Listed(newHead, item, chain + [item]) && Distinct(chain + [item]) && Parts(chain)
  {
    hide Node.Valid, Listed, Distinct;
    newHead := LinkEnd(head, current, item, chain);
    forall n | n in chain
      ensures n.Valid()
    {
      assert old(n.Valid()) && forall o <- n.below :: o !in chain;
    }
  }

  /** Completes the container: the head's prev becomes the tail, and the list becomes the children. */
  method Finish(item: Node, head: Node?, current: Node?, ghost chain: seq<Node>, ghost val: Json)
    requires Childless(item) && item.MeansWith(chain, val)
    requires Listed(head, current, chain) && Parts(chain) && Distinct(chain)
    requires item !in chain && (forall n <- chain :: item !in n.below)
    requires item.own !! OwnAll(chain)
    modifies item`child, item`kids, item`below, item`own, item`val, chain`prev
    ensures item.Valid()
    ensures item.val == val && item.kids == chain
    ensures item.below == BelowAll(chain) && item.own == old(item.own) + OwnAll(chain)
  {
    hide Node.Valid, Node.OwnsWith, Node.NestedIn, Node.MeansWith, BelowAll, OwnAll, Distinct, Listed, Parts;
    PartsValid(chain);
    assert forall n, o :: n in chain && o in n.below ==> o !in chain && o != item;
    Close(item, head, current, chain, val);
    forall n | n in chain
      ensures n.Valid()
    {
      assert old(n.Valid()) && n != item;
      assert forall o <- n.below :: o !in chain && o != item;
    }
    FinishShape(item, chain);
    Fold(item);
  }

  /** `success` of `parse_array`. */
  method FinishArray(item: Node, head: Node?, current: Node?, ghost chain: seq<Node>, ghost values: seq<Json>)
    requires Childless(item) && HaveValues(chain, values)
    requires Listed(head, current, chain) && Parts(chain) && Distinct(chain)
    requires item !in chain && (forall n <- chain :: item !in n.below) && item.own !! OwnAll(chain)
    modifies item`kind, item`child, item`kids, item`below, item`own, item`val, chain`prev
    ensures item.Valid()
    ensures item.val == Array(values) && TruesAreOne(item)
    ensures item.below == BelowAll(chain) && item.own == old(item.own) + OwnAll(chain)
  {
    hide Node.Valid, Listed, Parts, Distinct, OwnAll, BelowAll, HaveValues, Node.MeansWith;
    item.kind := ArrayKind;
    ArrayMeans(item, chain, values);
    Finish(item, head, current, chain, Array(values));
    ContainerTrues(item, chain, values, []);
  }

  /** `success` of `parse_object`. */
  method FinishObject(item: Node, head: Node?, current: Node?, ghost chain: seq<Node>, ghost members: seq<Member>)
    requires Childless(item) && HaveMembers(chain, members)
    requires Listed(head, current, chain) && Parts(chain) && Distinct(chain)
    requires item !in chain && (forall n <- chain :: item !in n.below) && item.own !! OwnAll(chain)
    modifies item`kind, item`child, item`kids, item`below, item`own, item`val, chain`prev
    ensures item.Valid()
    ensures item.val == Object(members) && TruesAreOne(item)
    ensures item.below == BelowAll(chain) && item.own == old(item.own) + OwnAll(chain)
  {
    hide Node.Valid, Listed, Parts, Distinct, OwnAll, BelowAll, HaveMembers, Node.MeansWith;
    item.kind := ObjectKind;
    ObjectMeans(item, chain, members);
    Finish(item, head, current, chain, Object(members));
    ContainerTrues(item, chain, [], members);
  }

  /** The assignments of `Finish`. */
  method Close(item: Node, head: Node?, current: Node?, ghost chain: seq<Node>, ghost val: Json)
    requires Listed(head, current, chain) && Distinct(chain) && item !in chain
    modifies item`child, item`kids, item`below, item`own, item`val, chain`prev
    ensures item.Ring() && item.kids == chain && item.val == val
    ensures item.below == BelowAll(chain) && item.own == old(item.own) + OwnAll(chain)
  {
    hide BelowAll, OwnAll, Separate;
    if head != null {
      head.prev := current;
    }
    SetChildren(item, head, chain, val);
  }

  method SetChildren(item: Node, head: Node?, ghost chain: seq<Node>, ghost val: Json)
    requires item !in chain
    modifies item`child, item`kids, item`below, item`own, item`val
    ensures item.child == head && item.kids == chain && item.val == val
    ensures item.below == BelowAll(chain) && item.own == old(item.own) + OwnAll(chain)
  {
    ghost var below, own := BelowAll(chain), item.own + OwnAll(chain);
    item.child := head;
    item.kids := chain;
    item.below := below;
    item.own := own;
    item.val := val;
  }

  ghost predicate HaveMembers(chain: seq<Node>, members: seq<Member>)
    reads chain`val, chain`key, chain`kind, chain`valueint
  {
    |chain| == |members|
    && forall i :: 0 <= i < |chain| ==>
      chain[i].key != null && members[i] == Member(chain[i].key.s, chain[i].val) && TrueIsOne(chain[i])
  }

  /** Allocates the next child and links it to the end of the list. */
  method Attach(heap: Heap, head: Node?, current: Node?, ghost chain: seq<Node>) returns (newHead: Node, item: Node)
    requires Listed(head, current, chain) && Distinct(chain) && Parts(chain)
    modifies heap, chain`next
    ensures fresh(item) && Unparsed(item) && item.key == null && item.own == {item}
    ensures Listed(newHead, item, chain + [item]) && Distinct(chain + [item]) && Parts(chain)
    ensures forall n <- chain :: item !in n.below
    ensures heap.live == old(heap.live) + {item}
  {
    hide Listed, Distinct, Parts;
    item := heap.NewItem();
    newHead := LinkPart(head, current, item, chain);
  }

  lemma WithinAll(chain: seq<Node>)
    ensures forall n <- chain :: n.own <= OwnAll(chain) && n in BelowAll(chain) && n.below <= BelowAll(chain)
  {
    forall k | k in chain
      ensures k in BelowAll(chain) && k.below <= BelowAll(chain)
    {
      assert k in {k} + k.below;
      assert forall m :: m in k.below ==> m in {k} + k.below;
    }
  }

  lemma AllSnoc(chain: seq<Node>, item: Node)
    ensures OwnAll(chain + [item]) == OwnAll(chain) + item.own
    ensures BelowAll(chain + [item]) == BelowAll(chain) + {item} + item.below
  {
    var more := chain + [item];
    assert item in more && forall n <- chain :: n in more;
    assert item in {item} + item.below && forall m :: m in item.below ==> m in {item} + item.below;
  }

  lemma PartsSnoc(chain: seq<Node>, item: Node)
    requires Parts(chain) && item.Valid() && item !in chain && item.own !! OwnAll(chain)
    requires forall n <- chain :: item !in n.below && n !in item.below
    ensures Parts(chain + [item])
  {
    hide Node.Valid;
    NotBelowItself(item);
    var more := chain + [item];
    assert forall n <- chain :: n in chain && n.own <= OwnAll(chain);
    assert forall i :: 0 <= i < |chain| ==> more[i] == chain[i] && chain[i] in chain;
  }

  /** Links a complete node, which becomes one more part. */
  method AddPart(head: Node?, current: Node?, item: Node, ghost chain: seq<Node>) returns (newHead: Node)
    requires Listed(head, current, chain) && Distinct(chain) && Parts(chain)
    requires item.Valid() && item !in chain && item.next == null && item.own !! OwnAll(chain)
    requires forall n <- chain :: item !in n.below && n !in item.below
    modifies chain`next, item`prev
    ensures Listed(newHead, item, chain + [item]) && Distinct(chain + [item]) && Parts(chain + [item])
  {
    hide Node.Valid, Listed, Distinct, Parts, OwnAll;
    NotBelowItself(item);
    newHead := LinkPart(head, current, item, chain);
    assert forall o <- item.below :: o !in chain && o != item;
    PartsSnoc(chain, item);
  }

  /** Frees the list of a failed container. */
  method Abandon(heap: Heap, head: Node?, current: Node?, ghost chain: seq<Node>)
    requires Listed(head, current, chain) && Parts(chain) && OwnAll(chain) <= heap.live
    modifies heap
    ensures heap.live == old(heap.live) - OwnAll(chain)
  {
    hide Node.Valid, Node.Shaped, OwnAll;
    forall n | n in chain
      ensures n.Shaped()
    {
      ValidIsShaped(n);
    }
    Delete(heap, head, chain);
  }

  /** The same, when the last child could not be parsed. */
  method AbandonLast(heap: Heap, head: Node?, ghost chain: seq<Node>, item: Node)
    requires Listed(head, item, chain + [item]) && Parts(chain) && Unparsed(item)
    requires item.own !! OwnAll(chain) && item.own + OwnAll(chain) <= heap.live
    modifies heap
    ensures heap.live == old(heap.live) - OwnAll(chain) - item.own
  {
    hide Node.Valid, Node.Shaped, OwnAll, BelowAll;
    forall n | n in chain
      ensures n.Shaped()
    {
      ValidIsShaped(n);
    }
    UnparsedIsShaped(item);
    AllSnoc(chain, item);
    SeparateSnoc(chain, item);
    Delete(heap, head, chain + [item]);
  }

  lemma SeparateSnoc(chain: seq<Node>, item: Node)
    requires Separate(chain) && item.own !! OwnAll(chain)
    ensures Separate(chain + [item])
  {
    var more := chain + [item];
    assert forall i :: 0 <= i < |chain| ==> more[i] == chain[i] && chain[i] in chain && chain[i].own <= OwnAll(chain);
  }

  lemma LeafValid(n: Node)
    requires Childless(n) && n.MeansWith([], n.val)
    ensures n.Valid()
  {
  }

  lemma EmptyList()
    ensures Listed(null, null, []) && Parts([]) && Distinct([]) && OwnAll([]) == {} && BelowAll([]) == {}
      && HaveValues([], []) && HaveMembers([], [])
  {
  }

  lemma ValuesSnoc(chain: seq<Node>, values: seq<Json>, item: Node)
    requires HaveValues(chain, values) && TrueIsOne(item)
    ensures HaveValues(chain + [item], values + [item.val])
  {
  }

  lemma MembersSnoc(chain: seq<Node>, members: seq<Member>, item: Node)
    requires HaveMembers(chain, members) && item.key != null && TrueIsOne(item)
    ensures HaveMembers(chain + [item], members + [Member(item.key.s, item.val)])
  {
  }

  lemma PartsValid(chain: seq<Node>)
    requires Parts(chain)
    ensures forall n <- chain :: n.Valid()
    ensures forall n, o :: n in chain && o in n.below ==> o !in chain
    ensures Separate(chain)
  {
  }

  lemma FinishShape(item: Node, chain: seq<Node>)
    requires item.kids == chain && item.below == BelowAll(chain) && !item.isReference
    requires item.own == {item} + item.KeyBlock() + item.ValueBlock() + OwnAll(chain)
    requires {item} + item.KeyBlock() + item.ValueBlock() !! OwnAll(chain) && item.KeyBlock() !! item.ValueBlock()
    requires item !in chain && (forall n <- chain :: item !in n.below)
    requires Separate(chain) && forall n, o :: n in chain && o in n.below ==> o !in chain
    ensures item.NestedIn(chain, item.below) && item.OwnsWith(chain, item.own)
  {
    forall k | k in chain
      ensures k in BelowAll(chain) && k.below <= BelowAll(chain)
    {
      assert k in {k} + k.below;
      assert forall m :: m in k.below ==> m in {k} + k.below;
    }
  }

  lemma NotBelowUnparsed(item: Node)
    requires Unparsed(item)
    ensures item.below == {}
  {
  }

  lemma BlankIsUnparsed(n: Node)
    requires n.Blank()
    ensures Unparsed(n) && n.own == {n}
  {
  }

  /** Deletes a root that may or may not have been parsed. */
  method Discard(heap: Heap, root: Node)
    requires root.Valid() || Unparsed(root)
    requires root.next == null && root.own <= heap.live
    modifies heap
    ensures heap.live == old(heap.live) - root.own
  {
    hide Node.Valid, Node.Shaped;
    if root.Valid() {
      ValidIsShaped(root);
    } else {
      UnparsedIsShaped(root);
    }
    OwnSingle(root);
    Delete(heap, root, [root]);
  }
}
