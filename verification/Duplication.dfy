/** `cJSON_Duplicate`: a deep copy that shares nothing with its source and borrows nothing. */
module Duplication {
  import opened JsonValue
  import opened Tree
  import opened ListBuilder

  /** Same name, by content. */
  ghost predicate SameName(a: Node, b: Node)
    reads a`key, b`key
  {
    SameText(a.key, b.key)
  }

  /** The copying of the fields: a new node with strings of its own and no children yet. */
  method CopyNode(heap: Heap, item: Node) returns (copy: Node)
    modifies heap
    ensures fresh(copy) && fresh(copy.own) && Childless(copy) && copy.next == null
    ensures copy.kind == item.kind && copy.valueint == item.valueint && copy.valuedouble == item.valuedouble
    ensures SameText(item.valuestring, copy.valuestring)
    ensures SameName(item, copy)
    ensures heap.live == old(heap.live) + copy.own
  {
    copy := heap.NewItem();
    copy.kind, copy.valueint, copy.valuedouble := item.kind, item.valueint, item.valuedouble;
    var text := CopyText(heap, item.valuestring);
    var name := item.key;
    if item.key != null && !item.stringIsConst {
      name := CopyText(heap, item.key);
    }
    SetStrings(copy, text, name, item.stringIsConst);
  }

  /** `cJSON_strdup`. */
  method CopyText(heap: Heap, text: Text?) returns (copy: Text?)
    modifies heap
    ensures SameText(text, copy)
    ensures copy != null ==> fresh(copy) && heap.live == old(heap.live) + {copy}
    ensures copy == null ==> heap.live == old(heap.live)
  {
    copy := null;
    if text != null {
      copy := heap.NewText(text.s);
    }
  }

  method SetStrings(copy: Node, text: Text?, name: Text?, nameIsConst: bool)
    requires copy.child == null && copy.kids == [] && copy.below == {} && !copy.isReference && copy.own == {copy}
    requires text != null && name != null && !nameIsConst ==> text != name
    modifies copy`valuestring, copy`key, copy`stringIsConst, copy`own
    ensures copy.valuestring == text && copy.key == name && copy.stringIsConst == nameIsConst
    ensures Childless(copy)
  {
    copy.valuestring, copy.key, copy.stringIsConst := text, name, nameIsConst;
    copy.own := {copy} + copy.KeyBlock() + copy.ValueBlock();
  }

  /** The same string, or both missing. */
  ghost predicate SameText(a: Text?, b: Text?) {
    if a == null then b == null else b != null && b.s == a.s
  }

  /** The copies so far carry the values and names of the first children. */
  ghost predicate Copies(chain: seq<Node>, kids: seq<Node>)
    reads chain`val, chain`key, kids`val, kids`key
  {
    |chain| <= |kids| && forall i :: 0 <= i < |chain| ==> chain[i].val == kids[i].val && SameName(kids[i], chain[i])
  }

  /** All the nodes are among the blocks. */
  ghost predicate Owned(nodes: set<Node>, blocks: set<object>) {
    forall n <- nodes :: n in blocks
  }

  lemma OwnedUnion(nodes: set<Node>, blocks: set<object>, n: Node)
    requires Owned(nodes, blocks) && Owned(n.below, n.own) && n in n.own
    ensures Owned(nodes + {n} + n.below, blocks + n.own)
  {
  }

  lemma OwnedMore(nodes: set<Node>, blocks: set<object>, more: set<object>)
    requires Owned(nodes, blocks) && blocks <= more
    ensures Owned(nodes, more)
  {
  }

  lemma MeansOf(n: Node)
    requires n.Valid()
    ensures n.MeansWith(n.kids, n.val)
  {
  }

  lemma OwnItself(n: Node)
    requires n.Valid()
    ensures n in n.own
  {
  }

  lemma NoCopies(kids: seq<Node>)
    ensures Copies([], kids) && Owned({}, {})
  {
  }

  lemma CopiesSnoc(chain: seq<Node>, kids: seq<Node>, copy: Node)
    requires Copies(chain, kids) && |chain| < |kids| && copy.val == kids[|chain|].val && SameName(kids[|chain|], copy)
    ensures Copies(chain + [copy], kids)
  {
  }

  lemma CopiesMean(item: Node, copy: Node, chain: seq<Node>)
    requires item.MeansWith(item.kids, item.val) && Copies(chain, item.kids) && |chain| == |item.kids|
    requires copy.kind == item.kind && copy.valueint == item.valueint && copy.valuedouble == item.valuedouble
    requires SameText(item.valuestring, copy.valuestring)
    ensures copy.MeansWith(chain, item.val)
  {
  }

  /** The value of a node without its children. */
  function Shallow(v: Json): Json {
    match v
    case Array(_) => Array([])
    case Object(_) => Object([])
    case _ => v
  }

  /** `cJSON_Duplicate`. */
  method Duplicate(heap: Heap, item: Node, recurse: bool) returns (copy: Node)
    requires item.Valid()
    modifies heap
    ensures fresh(copy) && fresh(copy.own) && fresh(copy.below)
    ensures copy.Valid()
    ensures copy.val == if recurse then item.val else Shallow(item.val)
    ensures SameName(item, copy) && copy.next == null
    ensures !copy.isReference && Owned(copy.below, copy.own)
    ensures heap.live == old(heap.live) + copy.own
    decreases item.below, 2
  {
    hide Node.Valid, Node.NestedIn, Node.OwnsWith, Node.MeansWith, Node.Ring, Listed, Parts, Distinct, Childless;
    hide OwnAll, BelowAll, Copies, SameName, SameText, Shallow, Owned;
    MeansOf(item);
    copy := CopyNode(heap, item);
    Unowned(copy);
    EmptyList();
    var head, current := null, null;
    ghost var chain, val := [], Shallow(item.val);
    ShallowMeans(item, copy);
    NoCopies(item.kids);
    if recurse {
      head, current, chain := DuplicateChildren(heap, item);
      CopiesMean(item, copy, chain);
      val := item.val;
    }
    WithinAll(chain);
    OwnedMore(BelowAll(chain), OwnAll(chain), copy.own + OwnAll(chain));
    Finish(copy, head, current, chain, val);
  }

  /** The loop over the children. */
  method DuplicateChildren(heap: Heap, item: Node) returns (head: Node?, current: Node?, ghost chain: seq<Node>)
    requires item.Valid()
    modifies heap
    ensures Listed(head, current, chain) && Parts(chain) && Distinct(chain)
    ensures fresh(chain) && fresh(OwnAll(chain)) && fresh(BelowAll(chain))
    ensures |chain| == |item.kids| && Copies(chain, item.kids)
    ensures Owned(BelowAll(chain), OwnAll(chain))
    ensures heap.live == old(heap.live) + OwnAll(chain)
    decreases item.below, 1
  {
    hide Node.Valid, Node.NestedIn, Node.OwnsWith, Node.MeansWith, Node.Ring, Listed, Parts, Distinct, OwnAll, BelowAll;
    hide SameName, SameText, Copies, Owned, HaveValues, HaveMembers;
    EmptyList();
    NoCopies(item.kids);
    FirstChild(item);
    head, current, chain := null, null, [];
    var child := item.child;
    ghost var i := 0;
    while child != null
      invariant 0 <= i <= |item.kids| && child == if i < |item.kids| then item.kids[i] else null
      invariant |chain| == i && Copies(chain, item.kids)
      invariant Listed(head, current, chain) && Parts(chain) && Distinct(chain)
      invariant fresh(chain) && fresh(OwnAll(chain)) && fresh(BelowAll(chain))
      invariant Owned(BelowAll(chain), OwnAll(chain))
      invariant heap.live == old(heap.live) + OwnAll(chain)
      decreases |item.kids| - i
    {
      NextChild(item, i);
      head, current := DuplicateNext(heap, item, i, child, head, current, chain);
      AllSnoc(chain, current);
      chain := chain + [current];
      child := child.next;
      i := i + 1;
    }
  }

  /** One turn of that loop: the copy of the child is linked to the copies before it. */
  method DuplicateNext(heap: Heap, ghost item: Node, ghost i: nat, child: Node, head: Node?, current: Node?,
      ghost chain: seq<Node>)
    returns (newHead: Node?, copy: Node)
    requires item.Valid() && i < |item.kids| && child == item.kids[i] && child.Valid() && child.below < item.below
    requires |chain| == i && Copies(chain, item.kids) && Owned(BelowAll(chain), OwnAll(chain))
    requires Listed(head, current, chain) && Parts(chain) && Distinct(chain) && OwnAll(chain) <= heap.live
    modifies heap, chain`next
    ensures fresh(copy) && fresh(copy.own) && fresh(copy.below)
    ensures Copies(chain + [copy], item.kids)
    ensures Listed(newHead, copy, chain + [copy]) && Parts(chain + [copy]) && Distinct(chain + [copy])
    ensures Owned(BelowAll(chain + [copy]), OwnAll(chain + [copy]))
    ensures heap.live == old(heap.live) + copy.own
    decreases item.below, 0
  {
    hide Node.Valid, Node.NestedIn, Node.OwnsWith, Node.MeansWith, Node.Ring, Listed, Parts, Distinct, OwnAll, BelowAll;
    hide SameName, SameText, Copies, Owned;
    copy := Duplicate(heap, child, true);
    WithinAll(chain);
    OwnItself(copy);
    OwnedUnion(BelowAll(chain), OwnAll(chain), copy);
    newHead := AddPart(head, current, copy, chain);
    AllSnoc(chain, copy);
    CopiesSnoc(chain, item.kids, copy);
  }

  lemma NextChild(item: Node, i: nat)
    requires item.Valid() && i < |item.kids|
    ensures item.kids[i].Valid() && item.kids[i].below < item.below
    ensures item.kids[i].next == if i + 1 < |item.kids| then item.kids[i + 1] else null
  {
    assert item.kids[i] in item.kids;
  }

  lemma Unowned(n: Node)
    requires Childless(n)
    ensures !n.isReference && n.below == {}
  {
  }

  lemma ShallowMeans(item: Node, copy: Node)
    requires item.MeansWith(item.kids, item.val)
    requires copy.kind == item.kind && copy.valueint == item.valueint && copy.valuedouble == item.valuedouble
    requires SameText(item.valuestring, copy.valuestring)
    ensures copy.MeansWith([], Shallow(item.val))
  {
  }
}
