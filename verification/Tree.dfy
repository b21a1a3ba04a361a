/** The mutable cJSON tree: nodes, the blocks they own, and the list surgery on children. */
module Tree {
  import opened Bytes
  import opened JsonValue

  /** `type & 0xFF`; the two flag bits are separate fields. cJSON_Raw is not part of this model. */
  datatype Kind = InvalidKind | FalseKind | TrueKind | NullKind | NumberKind | StringKind | ArrayKind | ObjectKind

  /** An allocated C string. */
  class Text {
    const s: CString

    constructor (s: CString)
      ensures this.s == s
    {
      this.s := s;
    }
  }

  /** The allocator hooks: `live` is the set of blocks handed out and not yet freed. */
  class Heap {
    var live: set<object>

    method NewText(s: CString) returns (t: Text)
      modifies this
      ensures fresh(t) && t.s == s && live == old(live) + {t}
    {
      t := new Text(s);
      live := live + {t};
    }

    /** `cJSON_New_Item`: a node with every field zero. */
    method NewItem() returns (n: Node)
      modifies this
      ensures fresh(n) && n.Blank() && live == old(live) + {n}
    {
      n := new Node();
      live := live + {n};
    }

    /** `deallocate`: only a live block may be freed, so no block is freed twice. */
    method Free(block: object)
      requires block in live
      modifies this
      ensures live == old(live) - {block}
    {
      live := live - {block};
    }
  }

  class Node {
    var next: Node?
    var prev: Node?
    var child: Node?
    var kind: Kind
    var isReference: bool
    var stringIsConst: bool
    var valuestring: Text?
    var valueint: int
    var valuedouble: real
    var key: Text?

    /** The child list, the nodes reachable through it, the blocks `cJSON_Delete` frees for this node, and its value. */
    ghost var kids: seq<Node>
    ghost var below: set<Node>
    ghost var own: set<object>
    ghost var val: Json

    constructor ()
      ensures Blank()
    {
      next, prev, child := null, null, null;
      kind, isReference, stringIsConst := InvalidKind, false, false;
      valuestring, valueint, valuedouble, key := null, 0, 0.0, null;
      kids, below, own, val := [], {}, {this}, Null;
    }

    ghost predicate Blank()
      reads this
    {
      && next == null && prev == null && child == null
      && kind == InvalidKind && !isReference && !stringIsConst
      && valuestring == null && valueint == 0 && key == null
      && kids == [] && below == {} && own == {this} && val == Null
    }

    /** Next and prev agree, the first child's prev is the last child, and the last child's next is null. */
    ghost predicate Ring()
      reads this`child, this`kids, kids`next, kids`prev
    {
      && (kids == [] ==> child == null)
      && (kids != [] ==> child == kids[0] && kids[0].prev == kids[|kids| - 1] && kids[|kids| - 1].next == null)
      && (forall i {:trigger kids[i].next} :: 0 <= i < |kids| - 1 ==> kids[i].next == kids[i + 1])
      && (forall i {:trigger kids[i].prev} :: 0 < i < |kids| ==> kids[i].prev == kids[i - 1])
    }

    /** Every node of the child lists lies in `below`; no child lies below this node's children. */
    ghost predicate NestedIn(kids: seq<Node>, below: set<Node>)
      reads kids`below
    {
      && this !in below
      && (forall k <- kids :: k in below && k.below <= below)
      && (forall k, o :: k in kids && o in k.below ==> o !in kids)
    }

    ghost function KeyBlock(): set<object>
      reads this`key, this`stringIsConst
    {
      if key == null || stringIsConst then {} else {key}
    }

    ghost function ValueBlock(): set<object>
      reads this`valuestring
    {
      if valuestring == null then {} else {valuestring}
    }

    /** A reference owns only itself and its key; any other node also owns its string and its children. */
    ghost predicate OwnsWith(kids: seq<Node>, own: set<object>)
      reads this`key, this`stringIsConst, this`valuestring, this`isReference, kids`own
    {
      && (forall i, j :: 0 <= i < j < |kids| ==> kids[i].own !! kids[j].own)
      && own == {this} + KeyBlock() + (if isReference then {} else ValueBlock() + OwnAll(kids))
      && (!isReference ==>
            this !in OwnAll(kids) && KeyBlock() !! ValueBlock() && KeyBlock() + ValueBlock() !! OwnAll(kids))
    }

    ghost predicate MeansWith(kids: seq<Node>, val: Json)
      reads this`kind, this`valuestring, this`valueint, this`valuedouble, kids`val, kids`key
    {
      match kind
      case InvalidKind => false
      case NullKind => val == Null
      case FalseKind => val == Bool(false) && valueint == 0
      case TrueKind => val == Bool(true)
      case NumberKind => val == Number(valuedouble) && valueint == IntOf(valuedouble)
      case StringKind => valuestring != null && val == String(valuestring.s)
      case ArrayKind =>
        val.Array? && |val.items| == |kids| && forall i :: 0 <= i < |kids| ==> val.items[i] == kids[i].val
      case ObjectKind =>
        && val.Object? && |val.members| == |kids|
        && forall i :: 0 <= i < |kids| ==> kids[i].key != null && val.members[i] == Member(kids[i].key.s, kids[i].val)
    }

    /** A tree whose links and ownership are in order, whatever its values. */
    ghost predicate Shaped()
      reads this`child, this`isReference, this`stringIsConst, this`valuestring, this`key, this`kids, this`below
      reads this`own, below
      decreases below
    {
      && (forall k <- kids :: k in below)
      && NestedIn(kids, below)
      && Ring()
      && OwnsWith(kids, own)
      && forall k <- kids :: k.Shaped()
    }

    /** A well-formed tree. Its own place in a list (`next` and `prev`) does not matter. */
    ghost predicate Valid()
      reads this`child, this`kind, this`isReference, this`stringIsConst, this`valuestring, this`valueint
      reads this`valuedouble
      reads this`key, this`kids, this`below, this`own, this`val, below
      decreases below
    {
      && (forall k <- kids :: k in below)
      && NestedIn(kids, below)
      && Ring()
      && OwnsWith(kids, own)
      && MeansWith(kids, val)
      && forall k <- kids :: k.Valid()
    }
  }

  lemma {:induction false} ValidIsShaped(n: Node)
    requires n.Valid()
    ensures n.Shaped()
    decreases n.below
  {
    forall k | k in n.kids
      ensures k.Shaped()
    {
      ValidIsShaped(k);
    }
  }

  ghost function OwnAll(ns: seq<Node>): set<object>
    reads ns`own
  {
    set n, o | n in ns && o in n.own :: o
  }

  /** `item` is not part of the tree of `parent`, nor the other way round. */
  ghost predicate Apart(parent: Node, item: Node)
    reads parent, item
  {
    && parent != item && item !in parent.below && parent !in item.below
    && parent.own !! item.own
    && forall k <- parent.kids :: k !in item.below
  }

  ghost predicate Distinct(ns: seq<Node>) {
    forall i, j :: 0 <= i < j < |ns| ==> ns[i] != ns[j]
  }

  lemma KidsDistinct(parent: Node)
    requires parent.Valid()
    ensures Distinct(parent.kids)
  {
    forall i, j | 0 <= i < j < |parent.kids|
      ensures parent.kids[i] != parent.kids[j]
    {
      assert parent.kids[i].Valid() && parent.kids[j].Valid();
    }
  }

  // Opening and closing the definition of a well-formed tree.

  lemma Unfold(n: Node)
    requires n.Valid()
    ensures n.NestedIn(n.kids, n.below) && n.Ring() && n.OwnsWith(n.kids, n.own) && n.MeansWith(n.kids, n.val)
    ensures n !in n.below && n in n.own && n !in n.kids && Distinct(n.kids)
    ensures forall k <- n.kids :: k.Valid() && k in n.below && k.below <= n.below && n !in k.below
    ensures forall k, o :: k in n.kids && o in k.below ==> o !in n.kids
  {
    KidsDistinct(n);
  }

  lemma RingOf(n: Node)
    requires n.Valid()
    ensures n.Ring()
  {
  }

  lemma Fold(n: Node)
    requires n.NestedIn(n.kids, n.below) && n.Ring() && n.OwnsWith(n.kids, n.own) && n.MeansWith(n.kids, n.val)
    requires forall k <- n.kids :: k.Valid()
    ensures n.Valid()
  {
  }

  /** The value of a node by its kind. */
  lemma Denotation(item: Node)
    requires item.Valid()
    ensures item.kind != InvalidKind
    ensures item.kind == NullKind ==> item.val == Null
    ensures item.kind == FalseKind ==> item.val == Bool(false) && item.valueint == 0
    ensures item.kind == TrueKind ==> item.val == Bool(true)
    ensures item.kind == NumberKind ==> item.val == Number(item.valuedouble) && item.valueint == IntOf(item.valuedouble)
    ensures item.kind == NumberKind && Printable(item.val) ==> IsInt(item.valuedouble)
    ensures item.kind == StringKind ==> item.valuestring != null && item.val == String(item.valuestring.s)
    ensures item.kind == ArrayKind ==> item.val.Array?
    ensures item.kind == ObjectKind ==> item.val.Object?
  {
  }

  /** The first child, and how many there are. */
  lemma FirstChild(item: Node)
    requires item.Valid()
    ensures item.child == if item.kids == [] then null else item.kids[0]
    ensures item.kind == ArrayKind ==> item.val.Array? && |item.val.items| == |item.kids|
    ensures item.kind == ObjectKind ==> item.val.Object? && |item.val.members| == |item.kids|
  {
  }

  /** The child at `i` carries the item or member at `i`, and leads to the next one. */
  lemma ChildAt(item: Node, i: nat)
    requires item.Valid() && i < |item.kids|
    ensures item.kids[i].Valid()
    ensures item.kids[i].next == if i + 1 < |item.kids| then item.kids[i + 1] else null
    ensures item.kind == ArrayKind ==>
      && item.val.Array? && i < |item.val.items| && item.kids[i].val == item.val.items[i]
      && (Printable(item.val) ==> Printable(item.kids[i].val))
    ensures item.kind == ObjectKind ==>
      && item.val.Object? && i < |item.val.members| && item.kids[i].key != null
      && item.val.members[i] == Member(item.kids[i].key.s, item.kids[i].val)
      && (Printable(item.val) ==> Printable(item.kids[i].val))
  {
    assert item.kids[i] in item.kids;
    if i + 1 < |item.kids| {
      assert item.kids[i].next == item.kids[i + 1];
    }
    if item.kind == ArrayKind {
      assert item.val.items[i] in item.val.items;
    }
    if item.kind == ObjectKind {
      assert item.val.members[i] in item.val.members;
    }
  }

  // Inserting a child.

  function Inserted<T>(s: seq<T>, i: nat, x: T): (r: seq<T>)
    requires i <= |s|
    ensures |r| == |s| + 1 && r[i] == x
    ensures forall j :: 0 <= j < i ==> r[j] == s[j]
    ensures forall j :: i < j < |r| ==> r[j] == s[j - 1]
    ensures (forall y <- r :: y in s || y == x) && (forall y <- s :: y in r)
  {
    assert forall j :: 0 <= j < |s| ==> s[j] == (s[..i] + [x] + s[i..])[if j < i then j else j + 1];
    s[..i] + [x] + s[i..]
  }

  /** The value of a node after a child with value `v` and name `key` is inserted. */
  function ValueInserted(kind: Kind, val: Json, i: nat, key: Text?, v: Json): Json {
    if kind == ArrayKind && val.Array? && i <= |val.items| then Array(Inserted(val.items, i, v))
    else if kind == ObjectKind && val.Object? && i <= |val.members| && key != null then
      Object(Inserted(val.members, i, Member(key.s, v)))
    else val
  }

  lemma InsertNested(parent: Node, kids: seq<Node>, below: set<Node>, i: nat, item: Node)
    requires parent.NestedIn(kids, below) && i <= |kids|
    requires item !in below && parent !in item.below && parent != item && item !in item.below
    requires forall k <- kids :: k !in item.below
    ensures parent.NestedIn(Inserted(kids, i, item), below + {item} + item.below)
  {
  }

  lemma InsertOwns(parent: Node, kids: seq<Node>, own: set<object>, i: nat, item: Node)
    requires parent.OwnsWith(kids, own) && !parent.isReference && i <= |kids| && own !! item.own
    ensures parent.OwnsWith(Inserted(kids, i, item), own + item.own)
  {
    var more := Inserted(kids, i, item);
    assert OwnAll(more) == OwnAll(kids) + item.own;
    forall x, y | 0 <= x < y < |more|
      ensures more[x].own !! more[y].own
    {
      assert x != i ==> more[x] in kids && more[x].own <= OwnAll(kids);
      assert y != i ==> more[y] in kids && more[y].own <= OwnAll(kids);
    }
  }

  lemma InsertMeans(parent: Node, kids: seq<Node>, val: Json, i: nat, item: Node)
    requires parent.MeansWith(kids, val) && i <= |kids|
    requires parent.kind == ObjectKind ==> item.key != null
    ensures parent.MeansWith(Inserted(kids, i, item), ValueInserted(parent.kind, val, i, item.key, item.val))
  {
  }

  /** After the pointers of an insertion are in place, the bookkeeping that makes the parent well-formed. */
  ghost method RecordInsert(parent: Node, kids: seq<Node>, i: nat, item: Node)
    requires i <= |kids| && parent.kids == Inserted(kids, i, item) && parent.Ring() && parent !in kids && parent != item
    requires parent.NestedIn(kids, parent.below) && parent.OwnsWith(kids, parent.own)
      && parent.MeansWith(kids, parent.val)
    requires forall k <- kids :: k.Valid() && parent !in k.below && k !in item.below
    requires item.Valid() && item !in parent.below && parent !in item.below
    requires !parent.isReference && parent.own !! item.own && (parent.kind == ObjectKind ==> item.key != null)
    modifies parent`below, parent`own, parent`val
    ensures parent.Valid()
    ensures item.Valid()
    ensures parent.val == ValueInserted(parent.kind, old(parent.val), i, item.key, item.val)
    ensures parent.below == old(parent.below) + {item} + item.below
    ensures parent.own == old(parent.own) + item.own
  {
    hide Node.Valid, Node.MeansWith, Node.OwnsWith, Node.Ring, Node.NestedIn, OwnAll, Inserted, ValueInserted;
    Unfold(item);
    InsertNested(parent, kids, parent.below, i, item);
    InsertOwns(parent, kids, parent.own, i, item);
    InsertMeans(parent, kids, parent.val, i, item);
    parent.below := parent.below + {item} + item.below;
    parent.own := parent.own + item.own;
    parent.val := ValueInserted(parent.kind, parent.val, i, item.key, item.val);
    Fold(parent);
  }

  // Removing a child.

  function Removed<T>(s: seq<T>, i: nat): (r: seq<T>)
    requires i < |s|
    ensures |r| == |s| - 1
    ensures forall j :: 0 <= j < i ==> r[j] == s[j]
    ensures forall j :: i <= j < |r| ==> r[j] == s[j + 1]
    ensures (forall y <- r :: y in s) && (forall y <- s :: y in r || y == s[i])
  {
    assert forall j :: 0 <= j < |s| && j != i ==> s[j] == (s[..i] + s[i + 1..])[if j < i then j else j - 1];
    s[..i] + s[i + 1..]
  }

  /** The value of a node after its child at `i` is removed. */
  function ValueRemoved(kind: Kind, val: Json, i: nat): Json {
    if kind == ArrayKind && val.Array? && i < |val.items| then Array(Removed(val.items, i))
    else if kind == ObjectKind && val.Object? && i < |val.members| then Object(Removed(val.members, i))
    else val
  }

  ghost function BelowAll(ns: seq<Node>): set<Node>
    reads ns`below
  {
    set n, m | n in ns && m in {n} + n.below :: m
  }

  lemma RemoveNested(parent: Node, kids: seq<Node>, below: set<Node>, i: nat)
    requires parent.NestedIn(kids, below) && i < |kids| && Distinct(kids)
    ensures parent.NestedIn(Removed(kids, i), BelowAll(Removed(kids, i)))
    ensures kids[i] !in BelowAll(Removed(kids, i)) && BelowAll(Removed(kids, i)) <= below
  {
    var less := Removed(kids, i);
    assert kids[i] in kids;
    forall k | k in less
      ensures k in kids && k != kids[i] && k in BelowAll(less) && k.below <= BelowAll(less)
    {
      var j :| 0 <= j < |less| && less[j] == k;
      assert k == kids[if j < i then j else j + 1];
      assert k in {k} + k.below;
      assert forall m :: m in k.below ==> m in {k} + k.below;
    }
  }

  lemma RemoveOwns(parent: Node, kids: seq<Node>, own: set<object>, i: nat)
    requires parent.OwnsWith(kids, own) && !parent.isReference && i < |kids|
    ensures kids[i].own <= own
    ensures parent.OwnsWith(Removed(kids, i), own - kids[i].own)
  {
    var less := Removed(kids, i);
    assert kids[i] in kids;
    assert OwnAll(kids) == OwnAll(less) + kids[i].own;
    forall j | 0 <= j < |less|
      ensures less[j].own !! kids[i].own
    {
      assert less[j] == kids[if j < i then j else j + 1];
    }
    assert OwnAll(less) !! kids[i].own;
  }

  lemma RemoveMeans(parent: Node, kids: seq<Node>, val: Json, i: nat)
    requires parent.MeansWith(kids, val) && i < |kids|
    ensures parent.MeansWith(Removed(kids, i), ValueRemoved(parent.kind, val, i))
  {
  }

  /** After the pointers of a removal are in place, the bookkeeping that makes the parent well-formed. */
  ghost method RecordRemove(parent: Node, kids: seq<Node>, i: nat, item: Node)
    requires i < |kids| && kids[i] == item && parent.kids == Removed(kids, i) && parent.Ring() && parent !in kids
      && Distinct(kids)
    requires parent.NestedIn(kids, parent.below) && parent.OwnsWith(kids, parent.own)
      && parent.MeansWith(kids, parent.val)
    requires forall k <- kids :: k.Valid() && parent !in k.below && k !in item.below
    requires !parent.isReference
    modifies parent`below, parent`own, parent`val
    ensures parent.Valid()
    ensures item.Valid()
    ensures parent.val == ValueRemoved(parent.kind, old(parent.val), i)
    ensures parent.below <= old(parent.below) && item !in parent.below
    ensures item.own <= old(parent.own) && parent.own == old(parent.own) - item.own
  {
    hide Node.Valid, Node.MeansWith, Node.OwnsWith, Node.Ring, Node.NestedIn, OwnAll, Removed, ValueRemoved, BelowAll;
    RemoveNested(parent, kids, parent.below, i);
    RemoveOwns(parent, kids, parent.own, i);
    RemoveMeans(parent, kids, parent.val, i);
    parent.below := BelowAll(parent.kids);
    parent.own := parent.own - item.own;
    parent.val := ValueRemoved(parent.kind, parent.val, i);
    Fold(parent);
  }
}
