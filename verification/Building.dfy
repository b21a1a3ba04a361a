/** Filling an object with freshly created items: `cJSON_AddItemToObject(root, name, cJSON_Create…)`. */
module Building {
  import opened Bytes
  import opened JsonValue
  import opened Tree
  import opened ChildList
  import opened Ownership

  /** An object under construction: everything in it has been made for it. */
  ghost predicate Open(heap: Heap, root: Node)
    reads heap, root, root.below
  {
    && root.Valid() && root.kind == ObjectKind && !root.isReference && root.val.Object? && root.next == null
    && root in root.own && root.own <= heap.live
  }

  lemma NewObject(heap: Heap, root: Node)
    requires Created(root, Object([])) && root.kind == ObjectKind && root.own <= heap.live
    ensures Open(heap, root) && root.val == Object([]) && root.kids == [] && root.below == {} && root.next == null
  {
  }

  /** Adds an item that has just been created. */
  method AddCreated(heap: Heap, root: Node, name: CString, item: Node, ghost v: Json)
    requires Open(heap, root)
    requires Created(item, v) && Apart(root, item) && item.own <= heap.live
    modifies heap, root`child, root`kids, root`below, root`own, root`val, root.kids`next, root.kids`prev
    modifies item`key, item`stringIsConst, item`own, item`next, item`prev
    ensures Open(heap, root)
    ensures root.val == WithMember(old(root.val), name, v)
    ensures root.kids == old(root.kids) + [item] && root.below == old(root.below) + {item}
    ensures item.key != null && fresh(item.key) && root.own == old(root.own) + old(item.own) + {item.key}
    ensures heap.live == old(heap.live) + {item.key}
  {
    hide Node.Valid, WithMember;
    KidsOwned(root);
    assert item.KeyBlock() == {};
    assert item.val == v && item.own - item.KeyBlock() == item.own;
    var _ := AddItemToObject(heap, root, name, item);
    MemberKind(root);
  }

  lemma MemberKind(n: Node)
    requires n.Valid() && n.kind == ObjectKind
    ensures n.val.Object?
  {
  }

  lemma KidsOwned(root: Node)
    requires root.Valid() && !root.isReference
    ensures root !in root.kids && forall i :: 0 <= i < |root.kids| ==> root.kids[i] in root.own
  {
    forall i | 0 <= i < |root.kids|
      ensures root.kids[i] in root.own
    {
      assert root.kids[i] in root.kids && root.kids[i].Valid();
      assert root.kids[i].own <= OwnAll(root.kids);
    }
  }

  /** A new item is apart from everything that existed before. */
  lemma NewIsApart(root: Node, item: Node, v: Json)
    requires Created(item, v) && item != root && item !in root.below && item.own !! root.own
    ensures Apart(root, item)
  {
  }

  method AddText(heap: Heap, root: Node, name: CString, s: CString)
    requires Open(heap, root)
    modifies heap, root.own
    ensures Open(heap, root)
    ensures root.val == WithMember(old(root.val), name, String(s))
    ensures root.prev == old(root.prev) && fresh(root.below - old(root.below))
    ensures old(root.own) <= root.own && fresh(root.own - old(root.own))
    ensures heap.live == old(heap.live) + (root.own - old(root.own))
  {
    hide Node.Valid, WithMember, Created, Apart;
    KidsOwned(root);
    var item := CreateString(heap, s);
    NewIsApart(root, item, String(s));
    AddCreated(heap, root, name, item, String(s));
  }

  /** `cJSON_CreateString` of a null string gives no item, and no item is added. */
  method AddString(heap: Heap, root: Node, name: CString, text: Text?)
    requires Open(heap, root)
    modifies heap, root.own
    ensures Open(heap, root)
    ensures root.val == if text == null then old(root.val) else WithMember(old(root.val), name, String(text.s))
    ensures root.prev == old(root.prev) && fresh(root.below - old(root.below))
    ensures old(root.own) <= root.own && fresh(root.own - old(root.own))
    ensures heap.live == old(heap.live) + (root.own - old(root.own))
  {
    hide Node.Valid, WithMember;
    if text != null {
      AddText(heap, root, name, text.s);
    } else {
      KidsOwned(root);
      var _ := AddItemToObject(heap, root, name, null);
    }
  }

  method AddNumber(heap: Heap, root: Node, name: CString, number: real)
    requires Open(heap, root)
    modifies heap, root.own
    ensures Open(heap, root)
    ensures root.val == WithMember(old(root.val), name, Number(number))
    ensures root.prev == old(root.prev) && fresh(root.below - old(root.below))
    ensures old(root.own) <= root.own && fresh(root.own - old(root.own))
    ensures heap.live == old(heap.live) + (root.own - old(root.own))
  {
    hide Node.Valid, WithMember, Created, Apart;
    KidsOwned(root);
    var item := CreateNumber(heap, number);
    NewIsApart(root, item, Number(number));
    AddCreated(heap, root, name, item, Number(number));
  }

  method AddBool(heap: Heap, root: Node, name: CString, b: bool)
    requires Open(heap, root)
    modifies heap, root.own
    ensures Open(heap, root)
    ensures root.val == WithMember(old(root.val), name, Bool(b))
    ensures root.prev == old(root.prev) && fresh(root.below - old(root.below))
    ensures old(root.own) <= root.own && fresh(root.own - old(root.own))
    ensures heap.live == old(heap.live) + (root.own - old(root.own))
  {
    hide Node.Valid, WithMember, Created, Apart;
    KidsOwned(root);
    var item := CreateBool(heap, b);
    NewIsApart(root, item, Bool(b));
    AddCreated(heap, root, name, item, Bool(b));
  }

  /** `cJSON_AddItemReferenceToObject`: the new child borrows everything below the item. */
  method AddReference(heap: Heap, root: Node, name: CString, item: Node?)
    requires Open(heap, root)
    requires item != null ==> item.Valid() && item !in root.own && forall o <- item.below :: o !in root.own
    modifies heap, root.own
    ensures Open(heap, root)
    ensures root.val == if item == null then old(root.val) else WithMember(old(root.val), name, old(item.val))
    ensures root.prev == old(root.prev)
      && fresh(root.below - old(root.below) - (if item == null then {} else old(item.below)))
    ensures old(root.own) <= root.own && fresh(root.own - old(root.own))
    ensures heap.live == old(heap.live) + (root.own - old(root.own))
  {
    hide Node.Valid, WithMember, Apart;
    KidsOwned(root);
    if item == null {
      var _ := AddItemToObject(heap, root, name, null);
      return;
    }
    var reference := CreateReference(heap, item);
    ReferenceIsApart(root, reference);
    var _ := AddItemToObject(heap, root, name, reference);
    MemberKind(root);
  }

  lemma ReferenceIsApart(root: Node, reference: Node)
    requires root !in reference.below && (forall i :: 0 <= i < |root.kids| ==> root.kids[i] !in reference.below)
    requires reference != root && reference !in root.below && reference.own == {reference} && reference !in root.own
    ensures Apart(root, reference)
  {
  }

  // Items that are added to their parent before they are filled.

  /** `item` is linked as the last child of `parent`, whose bookkeeping is still that of the children before. */
  ghost predicate Waiting(parent: Node, rest: seq<Node>, item: Node)
    reads parent, item, rest, parent.kids, parent.below
  {
    && parent.kids == rest + [item] && parent.Ring() && Distinct(parent.kids) && parent !in parent.kids
    && parent.NestedIn(rest, parent.below) && parent.OwnsWith(rest, parent.own) && parent.MeansWith(rest, parent.val)
    && (forall k <- rest :: k in parent.below && k.Valid() && parent !in k.below)
    && item !in parent.below && !parent.isReference
  }

  /** `add_item_to_array` on an item that is to grow later. */
  method Begin(parent: Node, item: Node)
    requires parent.Valid() && !parent.isReference && item.next == null
    requires parent != item && item !in parent.below
    modifies parent`child, parent`kids, item`next, item`prev, parent.kids`next, parent.kids`prev
    ensures Waiting(parent, old(parent.kids), item)
    ensures item.next == null
  {
    hide Node.Valid, Node.MeansWith, Node.OwnsWith, Node.NestedIn, OwnAll, Inserted;
    ghost var before := parent.kids;
    Unfold(parent);
    assert forall k, o :: k in before && o in k.below ==> o !in before && o != item && o != parent;
    LinkLast(parent, item);
    InsertedLast(before, item);
    forall k | k in before
      ensures k.Valid()
    {
      assert old(k.Valid()) && forall o <- k.below :: o !in before && o != item && o != parent;
    }
  }

  /** The bookkeeping, once the item is complete. */
  ghost method End(parent: Node, rest: seq<Node>, item: Node)
    requires Waiting(parent, rest, item) && item.Valid()
    requires parent !in item.below && (forall k <- rest :: k !in item.below) && parent.own !! item.own
    requires parent.kind == ArrayKind || (parent.kind == ObjectKind && item.key != null)
    modifies parent`below, parent`own, parent`val
    ensures parent.Valid()
    ensures parent.kind == ArrayKind ==>
      old(parent.val).Array? && parent.val == Array(old(parent.val).items + [item.val])
    ensures parent.kind == ObjectKind ==>
      item.key != null && old(parent.val).Object? && parent.val == WithMember(old(parent.val), item.key.s, item.val)
    ensures parent.below == old(parent.below) + {item} + item.below && parent.own == old(parent.own) + item.own
  {
    hide Node.Valid, Node.OwnsWith, Node.Ring, Node.NestedIn, Distinct;
    InsertedLast(rest, item);
    Extended(parent, rest, item);
    RecordInsert(parent, rest, |rest|, item);
  }

  lemma Extended(parent: Node, rest: seq<Node>, item: Node)
    requires parent.MeansWith(rest, parent.val)
    ensures parent.kind == ArrayKind ==>
      parent.val.Array?
      && ValueInserted(ArrayKind, parent.val, |rest|, item.key, item.val) == Array(parent.val.items + [item.val])
    ensures parent.kind == ObjectKind && item.key != null ==>
      parent.val.Object?
      && ValueInserted(ObjectKind, parent.val, |rest|, item.key, item.val)
        == WithMember(parent.val, item.key.s, item.val)
  {
    if parent.kind == ArrayKind {
      InsertedLast(parent.val.items, item.val);
    } else if parent.kind == ObjectKind && item.key != null {
      MemberInserted(parent.val, |rest|, item.key, item.val);
    }
  }
}
