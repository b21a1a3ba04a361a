/** Append, insert, detach, replace and look up in the doubly linked child list. */
module ChildList {
  import opened Tree

  /** The pointer half of `add_item_to_array`: constant time, through the head's prev. */
  method LinkLast(parent: Node, item: Node)
    requires parent.Ring() && Distinct(parent.kids) && item !in parent.kids && parent !in parent.kids && parent != item
    requires item.next == null
    modifies parent`child, parent`kids, item`next, item`prev, parent.kids`next, parent.kids`prev
    ensures parent.Ring() && parent.kids == Inserted(old(parent.kids), |old(parent.kids)|, item)
  {
    if parent.child == null {
      parent.child := item;
      item.prev := item;
      item.next := null;
    } else {
      if parent.child.prev != null {
        var last := parent.child.prev;
        last.next := item;
        item.prev := last;
        parent.child.prev := item;
      }
    }
    parent.kids := Inserted(parent.kids, |parent.kids|, item);
  }

  /** Linking at the end moves no pointer inside the children's own trees. */
  method LinkLastValid(parent: Node, item: Node)
    requires parent.Valid() && item.Valid() && Apart(parent, item) && item.next == null
    modifies parent`child, parent`kids, item`next, item`prev, parent.kids`next, parent.kids`prev
    ensures parent.Ring() && parent.kids == Inserted(old(parent.kids), |old(parent.kids)|, item)
    ensures item.Valid()
    ensures forall k <- old(parent.kids) :: k.Valid()
  {
    hide Node.Valid, Node.MeansWith, Node.OwnsWith, Node.Ring, Node.NestedIn, OwnAll, Inserted;
    ghost var before := parent.kids;
    Unfold(parent);
    Unfold(item);
    assert forall k, o :: k in before && o in k.below ==> o !in before && o != item && o != parent;
    LinkLast(parent, item);
    forall k | k in before
      ensures k.Valid()
    {
      assert old(k.Valid()) && forall o <- k.below :: o !in before && o != item && o != parent;
    }
  }

  /** `add_item_to_array` on non-null arguments. */
  method Append(parent: Node, item: Node)
    requires parent.Valid() && item.Valid() && !parent.isReference
    requires Apart(parent, item) && item.next == null
    requires parent.kind == ObjectKind ==> item.key != null
    modifies parent`child, parent`kids, parent`below, parent`own, parent`val
    modifies item`next, item`prev, parent.kids`next, parent.kids`prev
    ensures parent.Valid()
    ensures item.Valid()
    ensures parent.kids == Inserted(old(parent.kids), |old(parent.kids)|, item)
    ensures parent.val == ValueInserted(parent.kind, old(parent.val), |old(parent.kids)|, item.key, item.val)
    ensures parent.below == old(parent.below) + {item} + item.below
    ensures parent.own == old(parent.own) + item.own
  {
    hide Node.Valid, Node.MeansWith, Node.OwnsWith, Node.Ring, Node.NestedIn, OwnAll, Inserted, ValueInserted;
    ghost var before := parent.kids;
    Unfold(parent);
    Unfold(item);
    LinkLastValid(parent, item);
    RecordInsert(parent, before, |before|, item);
  }

  /** `get_array_item`: the child at the index, or null past the end. */
  method GetArrayItem(parent: Node, index: nat) returns (item: Node?)
    requires parent.Ring()
    ensures item == if index < |parent.kids| then parent.kids[index] else null
  {
    item := parent.child;
    var left := index;
    while item != null && left > 0
      invariant 0 <= left <= index
      invariant item == if index - left < |parent.kids| then parent.kids[index - left] else null
    {
      left := left - 1;
      item := item.next;
    }
  }

  /** The pointer half of `cJSON_InsertItemInArray`, before the child at `i`. */
  method LinkBefore(parent: Node, ghost i: nat, after: Node, item: Node)
    requires parent.Ring() && Distinct(parent.kids) && item !in parent.kids && parent !in parent.kids && parent != item
    requires i < |parent.kids| && parent.kids[i] == after
    modifies parent`child, parent`kids, item`next, item`prev, parent.kids`next, parent.kids`prev
    ensures parent.Ring() && parent.kids == Inserted(old(parent.kids), i, item)
  {
    assert i > 0 ==> parent.kids[i].prev == parent.kids[i - 1] && after != parent.kids[0];
    item.next := after;
    item.prev := after.prev;
    after.prev := item;
    if after == parent.child {
      parent.child := item;
    } else {
      item.prev.next := item;
    }
    parent.kids := Inserted(parent.kids, i, item);
  }

  /** Linking in the middle moves no pointer inside the children's own trees. */
  method LinkBeforeValid(parent: Node, ghost i: nat, after: Node, item: Node)
    requires parent.Valid() && item.Valid() && Apart(parent, item) && i < |parent.kids| && parent.kids[i] == after
    modifies parent`child, parent`kids, item`next, item`prev, parent.kids`next, parent.kids`prev
    ensures parent.Ring() && parent.kids == Inserted(old(parent.kids), i, item)
    ensures item.Valid()
    ensures forall k <- old(parent.kids) :: k.Valid()
  {
    hide Node.Valid, Node.MeansWith, Node.OwnsWith, Node.Ring, Node.NestedIn, OwnAll, Inserted;
    ghost var before := parent.kids;
    Unfold(parent);
    Unfold(item);
    assert forall k, o :: k in before && o in k.below ==> o !in before && o != item && o != parent;
    LinkBefore(parent, i, after, item);
    forall k | k in before
      ensures k.Valid()
    {
      assert old(k.Valid()) && forall o <- k.below :: o !in before && o != item && o != parent;
    }
  }

  method InsertBefore(parent: Node, ghost i: nat, after: Node, item: Node)
    requires parent.Valid() && item.Valid() && !parent.isReference
    requires Apart(parent, item) && i < |parent.kids| && parent.kids[i] == after
    requires parent.kind == ObjectKind ==> item.key != null
    modifies parent`child, parent`kids, parent`below, parent`own, parent`val
    modifies item`next, item`prev, parent.kids`next, parent.kids`prev
    ensures parent.Valid()
    ensures item.Valid()
    ensures parent.kids == Inserted(old(parent.kids), i, item)
    ensures parent.val == ValueInserted(parent.kind, old(parent.val), i, item.key, item.val)
    ensures parent.below == old(parent.below) + {item} + item.below
    ensures parent.own == old(parent.own) + item.own
  {
    hide Node.Valid, Node.MeansWith, Node.OwnsWith, Node.Ring, Node.NestedIn, OwnAll, Inserted, ValueInserted;
    ghost var before := parent.kids;
    Unfold(parent);
    Unfold(item);
    LinkBeforeValid(parent, i, after, item);
    RecordInsert(parent, before, i, item);
  }

  /** `cJSON_InsertItemInArray`: at the index, or at the end when there is no such child. */
  method InsertItemInArray(parent: Node, which: int, item: Node) returns (ok: bool)
    requires parent.Valid() && item.Valid() && !parent.isReference
    requires Apart(parent, item) && item.next == null
    requires parent.kind == ObjectKind ==> item.key != null
    modifies parent`child, parent`kids, parent`below, parent`own, parent`val
    modifies item`next, item`prev, parent.kids`next, parent.kids`prev
    ensures parent.Valid()
    ensures item.Valid()
    ensures ok == (which >= 0)
    ensures !ok ==> parent.kids == old(parent.kids) && parent.val == old(parent.val) && parent.own == old(parent.own)
    ensures ok ==>
      var i := if which < |old(parent.kids)| then which else |old(parent.kids)|;
      parent.kids == Inserted(old(parent.kids), i, item)
      && parent.val == ValueInserted(parent.kind, old(parent.val), i, item.key, item.val)
      && parent.below == old(parent.below) + {item} + item.below
      && parent.own == old(parent.own) + item.own
  {
    hide Node.Valid, Node.MeansWith, Node.OwnsWith, Node.Ring, Node.NestedIn, OwnAll, Inserted, ValueInserted;
    if which < 0 {
      return false;
    }
    RingOf(parent);
    var after := GetArrayItem(parent, which);
    if after == null {
      Append(parent, item);
    } else {
      InsertBefore(parent, which, after, item);
    }
    ok := true;
  }

  /** The pointer half of `cJSON_DetachItemViaPointer`. */
  method Unlink(parent: Node, ghost i: nat, item: Node)
    requires parent.Ring() && Distinct(parent.kids) && parent !in parent.kids
    requires i < |parent.kids| && parent.kids[i] == item
    modifies parent`child, parent`kids, parent.kids`next, parent.kids`prev
    ensures parent.Ring() && parent.kids == Removed(old(parent.kids), i)
    ensures item.next == null && item.prev == null
  {
    assert i > 0 ==> parent.kids[i].prev == parent.kids[i - 1] && item != parent.kids[0];
    assert i + 1 < |parent.kids| ==> parent.kids[i].next == parent.kids[i + 1];
    if item != parent.child {
      item.prev.next := item.next;
    }
    if item.next != null {
      item.next.prev := item.prev;
    }
    if item == parent.child {
      parent.child := item.next;
    } else if item.next == null {
      parent.child.prev := item.prev;
    }
    item.prev := null;
    item.next := null;
    parent.kids := Removed(parent.kids, i);
  }

  /** `cJSON_DetachItemViaPointer` on a child of the parent. */
  method DetachItemViaPointer(parent: Node, ghost i: nat, item: Node)
    requires parent.Valid() && !parent.isReference
    requires i < |parent.kids| && parent.kids[i] == item
    modifies parent`child, parent`kids, parent`below, parent`own, parent`val, parent.kids`next, parent.kids`prev
    ensures parent.Valid()
    ensures item.Valid()
    ensures item.next == null && item.prev == null
    ensures parent.kids == Removed(old(parent.kids), i)
    ensures parent.val == ValueRemoved(parent.kind, old(parent.val), i)
    ensures Apart(parent, item) && parent.own == old(parent.own) - item.own && item.own <= old(parent.own)
  {
    hide Node.Valid, Node.MeansWith, Node.OwnsWith, Node.Ring, Node.NestedIn, OwnAll, Removed, ValueRemoved;
    ghost var before := parent.kids;
    Unfold(parent);
    assert item in before;
    Unlink(parent, i, item);
    forall k | k in before
      ensures k.Valid()
    {
      assert old(k.Valid()) && forall o <- k.below :: o !in before && o != item && o != parent;
    }
    RecordRemove(parent, before, i, item);
  }

  /** The pointer half of `cJSON_ReplaceItemViaPointer`, with a node from outside. */
  method Relink(parent: Node, ghost i: nat, item: Node, replacement: Node)
    requires parent.Ring() && Distinct(parent.kids) && replacement !in parent.kids && parent !in parent.kids
      && parent != replacement
    requires i < |parent.kids| && parent.kids[i] == item
    modifies parent`child, parent`kids, parent.kids`next, parent.kids`prev, replacement`next, replacement`prev
    ensures parent.Ring() && parent.kids == old(parent.kids)[i := replacement]
    ensures item.next == null && item.prev == null
  {
    assert i > 0 ==> parent.kids[i].prev == parent.kids[i - 1] && item != parent.kids[0];
    assert i + 1 < |parent.kids| ==> parent.kids[i].next == parent.kids[i + 1];
    replacement.next := item.next;
    replacement.prev := item.prev;
    if replacement.next != null {
      replacement.next.prev := replacement;
    }
    if parent.child == item {
      if parent.child.prev == parent.child {
        replacement.prev := replacement;
      }
      parent.child := replacement;
    } else {
      if replacement.prev != null {
        replacement.prev.next := replacement;
      }
      if replacement.next == null {
        parent.child.prev := replacement;
      }
    }
    item.next := null;
    item.prev := null;
    parent.kids := parent.kids[i := replacement];
  }
}
