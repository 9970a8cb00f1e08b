/** The child list of a cJSON array or object: doubly linked, ending in null, and with the head's prev
    pointing at the tail. */
module JsonList {
  import opened Sequences

  /** What a node holds besides its links. */
  datatype Data = Data(kind: int, text: string, number: real, name: string)

  class Node {
    const data: Data
    var child: Node?
    var next: Node?
    var prev: Node?

    constructor (data: Data)
      ensures this.data == data && child == null && next == null && prev == null
    {
      this.data := data;
      child, next, prev := null, null, null;
    }
  }

  function Nth(ks: seq<Node>, i: int): Node? {
    if 0 <= i < |ks| then ks[i] else null
  }

  /** The pointers of child `i`. */
  ghost predicate Linked(ks: seq<Node>, i: nat)
    requires i < |ks|
    reads ks[i]
  {
    ks[i].next == Nth(ks, i + 1) && ks[i].prev == Nth(ks, if i == 0 then |ks| - 1 else i - 1)
  }

  /** `ks` are the children of `parent`, in order. */
  ghost predicate Children(parent: Node, ks: seq<Node>)
    reads parent, ks
  {
    && parent !in ks && Distinct(ks) && parent.child == Nth(ks, 0)
    && forall i :: 0 <= i < |ks| ==> Linked(ks, i)
  }

  /** add_item_to_array: the new item, detached, becomes the last. */
  method Append(owner: Node?, item: Node?, ghost ks: seq<Node>) returns (ok: bool)
    requires owner != null ==> Children(owner, ks)
    requires item != null ==> item !in ks && (item != owner ==> item.next == null)
    modifies owner, item, ks
    ensures ok <==> owner != null && item != null && owner != item
    ensures ok ==> Children(owner, ks + [item])
    ensures !ok ==> (owner != null ==> unchanged(owner)) && (item != null ==> unchanged(item)) && unchanged(ks)
    ensures forall k :: k in ks ==> k.child == old(k.child)
    ensures item != null && item != owner ==> item.child == old(item.child)
  {
    if item == null || owner == null || owner == item {
      return false;
    }
    ghost var all := ks + [item];
    var child := owner.child;
    if child == null {
      owner.child := item;
      item.prev := item;
      item.next := null;
    } else {
      assert Linked(ks, 0) && Linked(ks, |ks| - 1);
      var tail := child.prev;
      if tail != null {
        tail.next := item;
        item.prev := tail;
        child.prev := item;
      }
    }
    forall i | 0 <= i < |all|
      ensures Linked(all, i)
    {
      assert i < |ks| ==> old(Linked(ks, i)) && all[i] == ks[i];
    }
    return true;
  }

  /** get_array_item */
  method GetItem(owner: Node?, index: nat, ghost ks: seq<Node>) returns (item: Node?)
    requires owner != null ==> Children(owner, ks)
    ensures item == if owner == null then null else Nth(ks, index)
  {
    if owner == null {
      return null;
    }
    item := owner.child;
    var left := index;
    ghost var i := 0;
    while item != null && left > 0
      invariant 0 <= i <= |ks| && item == Nth(ks, i) && i + left == index
      decreases left
    {
      assert Linked(ks, i);
      item := item.next;
      left, i := left - 1, i + 1;
    }
  }

  /** cJSON_DetachItemViaPointer */
  method Detach(parent: Node?, item: Node?, ghost ks: seq<Node>, ghost i: nat) returns (r: Node?)
    requires parent != null && item != null ==> Children(parent, ks) && i < |ks| && ks[i] == item
    modifies parent, item, ks
    ensures r == if parent == null then null else item
    ensures parent != null && item != null ==>
              i < |ks| && Children(parent, RemoveAt(ks, i)) && item.next == null && item.prev == null
    ensures parent == null || item == null ==>
              (parent != null ==> unchanged(parent)) && (item != null ==> unchanged(item)) && unchanged(ks)
    ensures parent != null && item != null ==> forall k :: k in ks ==> k.child == old(k.child)
  {
    if parent == null || item == null {
      return null;
    }
    RemoveAtDistinct(ks, i);
    assert Linked(ks, i) && Linked(ks, 0) && Linked(ks, |ks| - 1);
    assert i > 0 ==> Linked(ks, i - 1);
    assert i + 1 < |ks| ==> Linked(ks, i + 1);
    if item != parent.child {
      item.prev.next := item.next;
    }
    if item.next != null {
      item.next.prev := item.prev;
    }
    if item == parent.child {
      parent.child := item.next;
    } else if item.next == null {
      parent.child.prev := item.prev;
    }
    item.prev := null;
    item.next := null;
    ghost var rest := RemoveAt(ks, i);
    forall j | 0 <= j < |rest|
      ensures Linked(rest, j)
    {
      ghost var j' := if j < i then j else j + 1;
      assert old(Linked(ks, j')) && rest[j] == ks[j'];
    }
    return item;
  }

  /** cJSON_InsertItemInArray: before child `which`, or last if there is none. */
  method Insert(owner: Node, which: int, item: Node, ghost ks: seq<Node>) returns (ok: bool)
    requires Children(owner, ks) && item !in ks && item != owner && item.next == null
    modifies owner, item, ks
    ensures ok <==> which >= 0
    ensures 0 <= which < |ks| ==> Children(owner, ks[..which] + [item] + ks[which..])
    ensures which >= |ks| ==> Children(owner, ks + [item])
    ensures which < 0 ==> unchanged(owner) && unchanged(item) && unchanged(ks)
    ensures item.child == old(item.child) && forall k :: k in ks ==> k.child == old(k.child)
  {
    if which < 0 {
      return false;
    }
    var after := GetItem(owner, which, ks);
    if after == null {
      ok := Append(owner, item, ks);
      return;
    }
    InsertBefore(owner, after, item, ks, which);
    return true;
  }

  /** The part of cJSON_InsertItemInArray that links the item in. */
  method InsertBefore(owner: Node, after: Node, item: Node, ghost ks: seq<Node>, ghost which: nat)
    requires Children(owner, ks) && which < |ks| && ks[which] == after && item !in ks && item != owner
    modifies owner, item, ks
    ensures Children(owner, ks[..which] + [item] + ks[which..])
    ensures item.child == old(item.child) && forall k :: k in ks ==> k.child == old(k.child)
  {
    InsertedDistinct(ks, which, item);
    assert Linked(ks, which) && Linked(ks, 0) && Linked(ks, |ks| - 1);
    assert which > 0 ==> Linked(ks, which - 1) && ks[which - 1] != after;
    assert which > 0 ==> ks[0] != after;
    item.next := after;
    item.prev := after.prev;
    after.prev := item;
    if after == owner.child {
      owner.child := item;
    } else {
      item.prev.next := item;
    }
    ghost var all := ks[..which] + [item] + ks[which..];
    forall j | 0 <= j < |all|
      ensures Linked(all, j)
    {
      assert j < which ==> old(Linked(ks, j)) && all[j] == ks[j];
      assert j > which ==> old(Linked(ks, j - 1)) && all[j] == ks[j - 1];
    }
  }

  lemma InsertedDistinct(ks: seq<Node>, i: nat, item: Node)
    requires i <= |ks| && Distinct(ks) && item !in ks
    ensures Distinct(ks[..i] + [item] + ks[i..])
    ensures forall x :: x in ks[..i] + [item] + ks[i..] ==> x == item || x in ks
  {
  }

  /** cJSON_ReplaceItemViaPointer: the replacement, detached, takes the item's place. */
  method Replace(parent: Node, item: Node, replacement: Node, ghost ks: seq<Node>, ghost i: nat) returns (ok: bool)
    requires Children(parent, ks) && i < |ks| && ks[i] == item
    requires replacement == item || (replacement !in ks && replacement != parent)
    modifies parent, item, replacement, ks
    ensures ok && Children(parent, ks[i := replacement])
    ensures replacement != item ==> item.next == null && item.prev == null
    ensures replacement == item ==> unchanged(parent) && unchanged(ks)
    ensures replacement.child == old(replacement.child) && forall k :: k in ks ==> k.child == old(k.child)
  {
    if replacement == item {
      assert ks[i := replacement] == ks;
      return true;
    }
    assert Linked(ks, i) && Linked(ks, 0) && Linked(ks, |ks| - 1);
    assert i > 0 ==> Linked(ks, i - 1);
    assert i + 1 < |ks| ==> Linked(ks, i + 1);
    replacement.next := item.next;
    replacement.prev := item.prev;
    if replacement.next != null {
      replacement.next.prev := replacement;
    }
    if parent.child == item {
      if parent.child.prev == parent.child {
        replacement.prev := replacement;
      }
      parent.child := replacement;
    } else {
      if replacement.prev != null {
        replacement.prev.next := replacement;
      }
      if replacement.next == null {
        parent.child.prev := replacement;
      }
    }
    item.next := null;
    item.prev := null;
    ghost var all := ks[i := replacement];
    forall j | 0 <= j < |all|
      ensures Linked(all, j)
    {
      assert j != i ==> old(Linked(ks, j)) && all[j] == ks[j];
    }
    return true;
  }
}
