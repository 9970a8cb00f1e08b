/** The in-memory resource tree: parent, child and sibling pointers, siblings in type order, and
    beside them each node's index of its subscriptions.

    A node is its address together with what never changes in it; what does change, its pointers
    and its subscription index, is in a memory that maps each live node to its links. */
module ResourceTree {
  import opened Sequences

  const RT_SUB := 23

  datatype RTNode = RTNode(address: nat, ty: int, rn: string, ri: string, pi: string)

  datatype Ptr = Null | To(node: RTNode)

  datatype Links = Links(parent: Ptr, child: Ptr, left: Ptr, right: Ptr, subs: seq<RTNode>, subCnt: int, uri: string)

  type Memory = map<RTNode, Links>

  /** A node as create_rtnode makes it: linked to nothing. */
  predicate Loose(l: Links) {
    l.child == Null && l.left == Null && l.right == Null && l.subs == [] && l.subCnt == 0
  }

  // ----- sequences of siblings

  /** The children that are subscriptions, in order. */
  function Subs(ks: seq<RTNode>): seq<RTNode> {
    if ks == [] then []
    else if ks[0].ty == RT_SUB then [ks[0]] + Subs(ks[1..])
    else Subs(ks[1..])
  }

  predicate Sorted(ks: seq<RTNode>) {
    forall i, j :: 0 <= i < j < |ks| ==> ks[i].ty <= ks[j].ty
  }

  /** Where a node of type `ty` goes: after every sibling of the same or a smaller type. */
  function Place(ks: seq<RTNode>, ty: int): (p: nat)
    ensures p <= |ks|
  {
    if ks == [] || ks[0].ty > ty then 0 else 1 + Place(ks[1..], ty)
  }

  function Inserted(ks: seq<RTNode>, c: RTNode): seq<RTNode> {
    ks[..Place(ks, c.ty)] + [c] + ks[Place(ks, c.ty)..]
  }

  function Without(ks: seq<RTNode>, c: RTNode): seq<RTNode> {
    if ks == [] then [] else if ks[0] == c then ks[1..] else [ks[0]] + Without(ks[1..], c)
  }

  lemma InsertedMembers(ks: seq<RTNode>, c: RTNode)
    ensures forall x :: x in Inserted(ks, c) <==> x == c || x in ks
  {
    var p := Place(ks, c.ty);
    assert ks == ks[..p] + ks[p..];
  }

  lemma {:induction false} SubsConcat(a: seq<RTNode>, b: seq<RTNode>)
    ensures Subs(a + b) == Subs(a) + Subs(b)
  {
    if a == [] {
      assert a + b == b;
    } else {
      var rest, all := a[1..], a + b;
      SubsConcat(rest, b);
      assert all[0] == a[0] && all[1..] == rest + b;
      if a[0].ty == RT_SUB {
        assert Subs(all) == [a[0]] + (Subs(rest) + Subs(b));
      } else {
        assert Subs(all) == Subs(rest) + Subs(b);
      }
    }
  }

  /** The place is the only one that keeps the order and puts the newcomer last of its type. */
  lemma {:induction false} PlaceSplits(ks: seq<RTNode>, ty: int)
    requires Sorted(ks)
    ensures var p := Place(ks, ty);
            (forall i :: 0 <= i < p ==> ks[i].ty <= ty) && (forall i :: p <= i < |ks| ==> ks[i].ty > ty)
  {
    if ks != [] && ks[0].ty <= ty {
      PlaceSplits(ks[1..], ty);
      var p := Place(ks[1..], ty);
      forall i | 0 <= i < 1 + p
        ensures ks[i].ty <= ty
      {
        assert i > 0 ==> ks[i] == ks[1..][i - 1];
      }
      forall i | 1 + p <= i < |ks|
        ensures ks[i].ty > ty
      {
        assert ks[i] == ks[1..][i - 1];
      }
    }
  }

  lemma PlaceUnique(ks: seq<RTNode>, ty: int, p: nat)
    requires Sorted(ks) && p <= |ks|
    requires (forall i :: 0 <= i < p ==> ks[i].ty <= ty) && (forall i :: p <= i < |ks| ==> ks[i].ty > ty)
    ensures p == Place(ks, ty)
  {
    PlaceSplits(ks, ty);
    var q := Place(ks, ty);
    assert p < |ks| ==> (p < q <==> ks[p].ty <= ty);
    assert q < |ks| ==> (q < p <==> ks[q].ty <= ty);
  }

  lemma InsertedInOrder(ks: seq<RTNode>, c: RTNode)
    requires Sorted(ks) && Distinct(ks) && c !in ks
    ensures Sorted(Inserted(ks, c)) && Distinct(Inserted(ks, c))
  {
    hide Place;
    PlaceSplits(ks, c.ty);
  }

  /** No subscription comes after the place of a new one, so the index just grows at its end. */
  lemma InsertedSubs(ks: seq<RTNode>, c: RTNode)
    requires Sorted(ks)
    ensures Subs(Inserted(ks, c)) == if c.ty == RT_SUB then Subs(ks) + [c] else Subs(ks)
  {
    hide Place, Sorted, Subs;
    var p := Place(ks, c.ty);
    PlaceSplits(ks, c.ty);
    var front, back := ks[..p], ks[p..];
    assert ks == front + back;
    SubsConcat(front, back);
    SubsConcat(front + [c], back);
    SubsConcat(front, [c]);
    SubsOfOne(c);
    if c.ty == RT_SUB {
      NoSubs(back);
    }
  }

  lemma SubsOfOne(c: RTNode)
    ensures Subs([c]) == if c.ty == RT_SUB then [c] else []
  {
  }

  lemma {:induction false} NoSubs(ks: seq<RTNode>)
    requires forall i :: 0 <= i < |ks| ==> ks[i].ty > RT_SUB
    ensures Subs(ks) == []
  {
    if ks != [] {
      NoSubs(ks[1..]);
    }
  }

  lemma DistinctTail(ks: seq<RTNode>)
    requires ks != [] && Distinct(ks)
    ensures Distinct(ks[1..])
  {
    var rest := ks[1..];
    forall a, b | 0 <= a < b < |rest|
      ensures rest[a] != rest[b]
    {
      assert rest[a] == ks[a + 1] && rest[b] == ks[b + 1];
    }
  }

  lemma WithoutAt(ks: seq<RTNode>, i: nat)
    requires i < |ks| && Distinct(ks)
    ensures Without(ks, ks[i]) == ks[..i] + ks[i + 1..]
  {
    WithoutFirst(ks, ks[i], i);
  }

  lemma {:induction false} WithoutFirst(ks: seq<RTNode>, c: RTNode, i: nat)
    requires i < |ks| && ks[i] == c && c !in ks[..i]
    ensures Without(ks, c) == ks[..i] + ks[i + 1..]
  {
    if i > 0 {
      var rest := ks[1..];
      assert ks[0] in ks[..i] && rest[..i - 1] == ks[..i][1..] && rest[i - 1] == c;
      WithoutFirst(rest, c, i - 1);
      assert [ks[0]] + rest[..i - 1] == ks[..i] && rest[i..] == ks[i + 1..];
      assert [ks[0]] + (rest[..i - 1] + rest[i..]) == [ks[0]] + rest[..i - 1] + rest[i..];
    }
  }

  lemma {:induction false} WithoutAbsent(ks: seq<RTNode>, c: RTNode)
    requires c !in ks
    ensures Without(ks, c) == ks
  {
    if ks != [] {
      WithoutAbsent(ks[1..], c);
    }
  }

  lemma WithoutInOrder(ks: seq<RTNode>, i: nat)
    requires i < |ks| && Distinct(ks) && Sorted(ks)
    ensures Sorted(Without(ks, ks[i])) && Distinct(Without(ks, ks[i])) && ks[i] !in Without(ks, ks[i])
  {
    hide Without;
    WithoutAt(ks, i);
  }

  lemma {:induction false} SubsMembers(ks: seq<RTNode>, x: RTNode)
    ensures x in Subs(ks) <==> x in ks && x.ty == RT_SUB
  {
    if ks != [] {
      SubsMembers(ks[1..], x);
      assert x in ks <==> x == ks[0] || x in ks[1..];
    }
  }

  lemma {:induction false} SubsWithout(ks: seq<RTNode>, i: nat)
    requires i < |ks| && Distinct(ks)
    ensures Subs(Without(ks, ks[i])) == if ks[i].ty == RT_SUB then Without(Subs(ks), ks[i]) else Subs(ks)
  {
    if i > 0 {
      var rest := ks[1..];
      assert rest[i - 1] == ks[i] && ks[0] != ks[i];
      DistinctTail(ks);
      SubsWithout(rest, i - 1);
      var gone := Without(ks, ks[i]);
      assert gone[0] == ks[0] && gone[1..] == Without(rest, ks[i]);
      if ks[0].ty == RT_SUB {
        assert Subs(ks)[1..] == Subs(rest);
      }
    } else if ks[0].ty == RT_SUB {
      assert Subs(ks)[1..] == Subs(ks[1..]);
    }
  }

  /** Neighbour `i` of a list of siblings, counted from 0; outside the list there is none. */
  function Nth(ks: seq<RTNode>, i: int): Ptr {
    if 0 <= i < |ks| then To(ks[i]) else Null
  }

  /** Place `i` of a doubly linked list of siblings. */
  predicate Slot(m: Memory, ks: seq<RTNode>, i: nat)
    requires i < |ks|
  {
    ks[i] in m && m[ks[i]].left == Nth(ks, i - 1) && m[ks[i]].right == Nth(ks, i + 1)
  }

  predicate Doubly(m: Memory, ks: seq<RTNode>) {
    forall i :: 0 <= i < |ks| ==> Slot(m, ks, i)
  }

  /** The tree the pointers stand for: each node's children in sibling order, how deep each node
      is, and the nodes that hang from no other (the CSE base, and a node while it is being freed). */
  datatype Forest = Forest(kids: map<RTNode, seq<RTNode>>, depth: map<RTNode, nat>, bound: nat, roots: set<RTNode>)

  /** Child `k` of `n` knows its parent, its name and its level. */
  predicate ChildOk(m: Memory, f: Forest, n: RTNode, k: RTNode) {
    && k in m && n in m && n in f.depth && k in f.depth && k in f.kids && k !in f.roots
    && m[k].parent == To(n) && m[k].uri == m[n].uri + "/" + k.rn && f.depth[k] == f.depth[n] + 1
  }

  predicate Family(m: Memory, f: Forest, n: RTNode)
    requires n in f.kids
  {
    var ks := f.kids[n];
    && n in m && m[n].child == Nth(ks, 0)
    && Doubly(m, ks) && Sorted(ks) && Distinct(ks)
    && (forall k :: k in ks ==> ChildOk(m, f, n, k))
  }

  /** A node hangs from its parent, unless it hangs from nothing. */
  predicate Home(m: Memory, f: Forest, n: RTNode)
    requires n in f.kids
  {
    n in f.roots ||
    (n in m && m[n].parent.To? && m[n].parent.node in f.kids && n in f.kids[m[n].parent.node])
  }

  /** The pointers of `m` stand for the tree `f`. */
  predicate Shape(m: Memory, f: Forest) {
    && f.roots <= f.kids.Keys && f.depth.Keys == f.kids.Keys
    && (forall n :: n in f.kids ==> Family(m, f, n) && Home(m, f, n) && f.depth[n] <= f.bound)
  }

  /** The subscription index of a node is exactly its subscription children. */
  predicate SubsOk(m: Memory, f: Forest, n: RTNode)
    requires n in f.kids
  {
    n in m && m[n].subs == Subs(f.kids[n]) && m[n].subCnt == |m[n].subs|
  }

  predicate Indexed(m: Memory, f: Forest) {
    forall n :: n in f.kids ==> SubsOk(m, f, n)
  }

  /** A parent's links once `sub` has joined its index. */
  function Subscribed(l: Links, sub: RTNode): Links {
    l.(subs := l.subs + [sub], subCnt := l.subCnt + 1)
  }

  /** A parent's links once `sub` has left its index. */
  function Unsubscribed(l: Links, sub: RTNode): Links {
    l.(subs := Without(l.subs, sub), subCnt := if sub in l.subs then l.subCnt - 1 else l.subCnt)
  }

  /** Equal but for the sibling pointers. */
  predicate SameBase(a: Links, b: Links) {
    a.parent == b.parent && a.child == b.child && a.subs == b.subs && a.subCnt == b.subCnt && a.uri == b.uri
  }

  /** `m'` differs from `m` only in the left and right pointers of the nodes of `ks`. */
  predicate Rewired(m: Memory, m': Memory, ks: seq<RTNode>) {
    && m'.Keys == m.Keys
    && (forall x :: x in m ==> SameBase(m'[x], m[x]))
    && (forall x :: x in m && x !in ks ==> m'[x] == m[x])
  }

  /** The node has no siblings. */
  predicate Solitary(m: Memory, n: RTNode) {
    n in m && m[n].left == Null && m[n].right == Null
  }

  // ----- adding a child

  /** The tree with `child` put in its place under `parent`. */
  function Grown(f: Forest, parent: RTNode, child: RTNode): Forest
    requires parent in f.kids && parent in f.depth
  {
    var d := f.depth[parent] + 1;
    Forest(f.kids[parent := Inserted(f.kids[parent], child)][child := []], f.depth[child := d],
           if f.bound < d then d else f.bound, f.roots)
  }

  /** What the pointer updates of add_child_resource_tree have to achieve. */
  predicate Attached(m: Memory, m': Memory, ks: seq<RTNode>, parent: RTNode, child: RTNode)
    requires parent in m
  {
    && m'.Keys == m.Keys && child in m' && Doubly(m', ks)
    && m'[parent].child == Nth(ks, 0)
    && m'[child].parent == To(parent) && m'[child].child == Null && m'[child].uri == m[parent].uri + "/" + child.rn
    && (forall x :: x in m && x != child ==>
          m'[x].parent == m[x].parent && m'[x].uri == m[x].uri && (x == parent || m'[x].child == m[x].child))
    && (forall x :: x in m && x !in ks ==> m'[x].left == m[x].left && m'[x].right == m[x].right)
  }

  lemma KidsLive(m: Memory, f: Forest, n: RTNode)
    requires Shape(m, f) && n in f.kids
    ensures forall k :: k in f.kids[n] ==>
              k in f.kids && k in m && m[k].parent == To(n) && k in f.depth && f.depth[k] == f.depth[n] + 1
    ensures n !in f.kids[n]
  {
    assert Family(m, f, n);
    forall k | k in f.kids[n]
      ensures k in f.kids && k in m && m[k].parent == To(n) && k in f.depth && f.depth[k] == f.depth[n] + 1
    {
      assert ChildOk(m, f, n, k);
    }
  }

  lemma DoublyKept(m: Memory, m': Memory, ks: seq<RTNode>)
    requires Doubly(m, ks)
    requires forall k :: k in ks && k in m ==> k in m' && m'[k].left == m[k].left && m'[k].right == m[k].right
    ensures Doubly(m', ks)
  {
    forall i | 0 <= i < |ks|
      ensures Slot(m', ks, i)
    {
      assert Slot(m, ks, i) && ks[i] in ks;
    }
  }

  lemma InsertedAlone(m: Memory, c: RTNode)
    requires c in m && m[c].left == Null && m[c].right == Null
    ensures Inserted([], c) == [c] && Doubly(m, [c])
  {
    assert Slot(m, [c], 0);
  }

  lemma InsertedWhere(ks: seq<RTNode>, c: RTNode)
    ensures Place(ks, c.ty) == 0 ==> Inserted(ks, c) == [c] + ks
    ensures Inserted(ks, c) == ks[..Place(ks, c.ty)] + [c] + ks[Place(ks, c.ty)..]
  {
  }

  /** The child told of its parent, the siblings rewired around it, the parent's first child set. */
  predicate Steps(m: Memory, told: Memory, wired: Memory, m': Memory, ks: seq<RTNode>, parent: RTNode, child: RTNode) {
    && parent in m && child in m && parent != child && Loose(m[child]) && parent !in ks && child in ks
    && told == m[child := m[child].(parent := To(parent), uri := m[parent].uri + "/" + child.rn)]
    && Rewired(told, wired, ks) && Doubly(wired, ks)
    && m' == wired[parent := wired[parent].(child := Nth(ks, 0))]
  }

  /** That attaches the child, and leaves indexes and other nodes alone. */
  lemma Attaches(m: Memory, told: Memory, wired: Memory, m': Memory, ks: seq<RTNode>, parent: RTNode, child: RTNode)
    requires Steps(m, told, wired, m', ks, parent, child)
    ensures Attached(m, m', ks, parent, child)
  {
    hide Doubly;
    DoublyKept(wired, m', ks);
    forall x | x in m
      ensures x != child ==>
                m'[x].parent == m[x].parent && m'[x].uri == m[x].uri && (x == parent || m'[x].child == m[x].child)
      ensures x !in ks ==> m'[x].left == m[x].left && m'[x].right == m[x].right
    {
      assert x in told && SameBase(wired[x], told[x]);
    }
  }

  lemma AttachesOnly(m: Memory, told: Memory, wired: Memory, m': Memory, ks: seq<RTNode>, parent: RTNode, child: RTNode)
    requires Steps(m, told, wired, m', ks, parent, child)
    ensures m'.Keys == m.Keys
    ensures forall x :: x in m ==> m'[x].subs == m[x].subs && m'[x].subCnt == m[x].subCnt
    ensures forall x :: x in m && x !in ks && x != parent ==> m'[x] == m[x]
  {
    hide Doubly;
    forall x | x in m
      ensures m'[x].subs == m[x].subs && m'[x].subCnt == m[x].subCnt && (x !in ks && x != parent ==> m'[x] == m[x])
    {
      assert x in told && SameBase(wired[x], told[x]);
    }
  }

  lemma AttachedFamily(m: Memory, m': Memory, f: Forest, parent: RTNode, child: RTNode, n: RTNode)
    requires Shape(m, f) && parent in f.kids && child !in f.kids && parent in m
    requires Attached(m, m', Inserted(f.kids[parent], child), parent, child)
    requires n in f.kids && n != parent
    ensures Family(m', Grown(f, parent, child), n)
  {
    hide Inserted, Sorted, Distinct;
    var g, ks := Grown(f, parent, child), f.kids[n];
    InsertedMembers(f.kids[parent], child);
    assert Family(m, f, n) && Family(m, f, parent) && g.kids[n] == ks;
    forall k | k in ks
      ensures ChildOk(m', g, n, k) && k !in Inserted(f.kids[parent], child)
    {
      assert ChildOk(m, f, n, k);
      assert k in f.kids[parent] ==> ChildOk(m, f, parent, k);
    }
    forall i | 0 <= i < |ks|
      ensures Slot(m', ks, i)
    {
      assert Slot(m, ks, i) && ks[i] in ks;
    }
  }

  lemma AttachedParent(m: Memory, m': Memory, f: Forest, parent: RTNode, child: RTNode)
    requires Shape(m, f) && parent in f.kids && child !in f.kids && parent in m
    requires Attached(m, m', Inserted(f.kids[parent], child), parent, child)
    ensures Family(m', Grown(f, parent, child), parent)
  {
    hide Inserted, Sorted, Distinct, Doubly;
    var g, ks := Grown(f, parent, child), f.kids[parent];
    assert Family(m, f, parent);
    InsertedMembers(ks, child);
    InsertedInOrder(ks, child) by {
      assert child in ks ==> ChildOk(m, f, parent, child);
    }
    forall k | k in Inserted(ks, child)
      ensures ChildOk(m', g, parent, k)
    {
      assert k != child ==> ChildOk(m, f, parent, k);
    }
  }

  lemma AttachedHome(m: Memory, m': Memory, f: Forest, parent: RTNode, child: RTNode, n: RTNode)
    requires Shape(m, f) && parent in f.kids && child !in f.kids && parent in m
    requires Attached(m, m', Inserted(f.kids[parent], child), parent, child)
    requires n in f.kids || n == child
    ensures Home(m', Grown(f, parent, child), n)
  {
    hide Inserted;
    InsertedMembers(f.kids[parent], child);
    if n != child {
      assert Home(m, f, n) && Family(m, f, n);
    }
  }

  /** Attaching a node keeps the shape. */
  lemma AttachedShape(m: Memory, m': Memory, f: Forest, parent: RTNode, child: RTNode)
    requires Shape(m, f) && parent in f.kids && child !in f.kids && parent in m
    requires Attached(m, m', Inserted(f.kids[parent], child), parent, child)
    ensures Shape(m', Grown(f, parent, child))
  {
    hide Inserted, Family, Home, Attached;
    var g := Grown(f, parent, child);
    NewbornFamily(m, m', f, parent, child);
    AttachedParent(m, m', f, parent, child);
    forall n | n in g.kids
      ensures Family(m', g, n) && Home(m', g, n)
    {
      AttachedHome(m, m', f, parent, child, n);
      if n != parent && n != child {
        AttachedFamily(m, m', f, parent, child, n);
      }
    }
  }

  lemma NewbornFamily(m: Memory, m': Memory, f: Forest, parent: RTNode, child: RTNode)
    requires Shape(m, f) && parent in f.kids && child !in f.kids && parent in m
    requires Attached(m, m', Inserted(f.kids[parent], child), parent, child)
    ensures Family(m', Grown(f, parent, child), child)
  {
    hide Inserted;
  }

  // ----- removing a node

  /** The tree with `n` unhooked from its parent, standing as a root of its own. */
  function Cut(f: Forest, parent: RTNode, n: RTNode): Forest
    requires parent in f.kids
  {
    f.(kids := f.kids[parent := Without(f.kids[parent], n)], roots := f.roots + {n})
  }

  /** The tree without a root that has no children. */
  function Dropped(f: Forest, n: RTNode): Forest {
    f.(kids := f.kids - {n}, depth := f.depth - {n}, roots := f.roots - {n})
  }

  /** What the unlinking half of free_rtnode has to achieve. */
  predicate Detached(m: Memory, m': Memory, ks: seq<RTNode>, parent: RTNode)
    requires parent in m
  {
    && m'.Keys == m.Keys && Doubly(m', ks) && m'[parent].child == Nth(ks, 0)
    && (forall x :: x in m ==>
          m'[x].parent == m[x].parent && m'[x].uri == m[x].uri && (x == parent || m'[x].child == m[x].child))
    && (forall x :: x in m && x !in ks ==> m'[x].left == m[x].left && m'[x].right == m[x].right)
  }

  lemma WithoutMembers(ks: seq<RTNode>, c: RTNode)
    requires c in ks && Distinct(ks)
    ensures forall x :: x in Without(ks, c) <==> x in ks && x != c
  {
    var i :| 0 <= i < |ks| && ks[i] == c;
    WithoutAt(ks, i);
    assert ks == ks[..i] + [c] + ks[i + 1..];
  }

  lemma CutFamily(m: Memory, m': Memory, f: Forest, parent: RTNode, n: RTNode, x: RTNode)
    requires Shape(m, f) && parent in f.kids && parent in m && n in f.kids[parent] && n in f.kids
    requires Detached(m, m', Without(f.kids[parent], n), parent)
    requires x in f.kids && x != parent
    ensures Family(m', Cut(f, parent, n), x)
  {
    hide Without, Sorted, Distinct;
    var g, ks := Cut(f, parent, n), f.kids[x];
    assert Family(m, f, x) && Family(m, f, parent);
    WithoutMembers(f.kids[parent], n);
    assert ChildOk(m, f, parent, n);
    forall k | k in ks
      ensures ChildOk(m', g, x, k) && k !in Without(f.kids[parent], n)
    {
      assert ChildOk(m, f, x, k);
      assert k in f.kids[parent] ==> ChildOk(m, f, parent, k);
    }
    forall i | 0 <= i < |ks|
      ensures Slot(m', ks, i)
    {
      assert Slot(m, ks, i) && ks[i] in ks;
    }
  }

  lemma CutParent(m: Memory, m': Memory, f: Forest, parent: RTNode, n: RTNode)
    requires Shape(m, f) && parent in f.kids && parent in m && n in f.kids[parent] && n in f.kids
    requires Detached(m, m', Without(f.kids[parent], n), parent)
    ensures Family(m', Cut(f, parent, n), parent)
  {
    hide Without, Sorted, Distinct, Doubly;
    var g, ks := Cut(f, parent, n), f.kids[parent];
    assert Family(m, f, parent);
    WithoutMembers(ks, n);
    var i :| 0 <= i < |ks| && ks[i] == n;
    WithoutInOrder(ks, i);
    forall k | k in Without(ks, n)
      ensures ChildOk(m', g, parent, k)
    {
      assert ChildOk(m, f, parent, k);
    }
  }

  lemma CutHome(m: Memory, m': Memory, f: Forest, parent: RTNode, n: RTNode, x: RTNode)
    requires Shape(m, f) && parent in f.kids && parent in m && n in f.kids[parent] && n in f.kids
    requires Detached(m, m', Without(f.kids[parent], n), parent)
    requires x in f.kids
    ensures Home(m', Cut(f, parent, n), x)
  {
    hide Without;
    assert Home(m, f, x) && Family(m, f, x) && Family(m, f, parent);
    WithoutMembers(f.kids[parent], n);
  }

  /** Unhooking a node keeps the shape. */
  lemma CutShape(m: Memory, m': Memory, f: Forest, parent: RTNode, n: RTNode)
    requires Shape(m, f) && parent in f.kids && parent in m && n in f.kids[parent] && n in f.kids
    requires Detached(m, m', Without(f.kids[parent], n), parent)
    ensures Shape(m', Cut(f, parent, n))
  {
    hide Without, Family, Home, Detached;
    var g := Cut(f, parent, n);
    CutParent(m, m', f, parent, n);
    forall x | x in g.kids
      ensures Family(m', g, x) && Home(m', g, x)
    {
      CutHome(m, m', f, parent, n, x);
      if x != parent {
        CutFamily(m, m', f, parent, n, x);
      }
    }
  }

  /** Freeing a childless root keeps the shape. */
  lemma DroppedShape(m: Memory, f: Forest, n: RTNode)
    requires Shape(m, f) && n in f.roots && n in f.kids && f.kids[n] == []
    ensures Shape(m - {n}, Dropped(f, n))
  {
    hide Sorted, Distinct;
    var m', g := m - {n}, Dropped(f, n);
    forall x | x in g.kids
      ensures Family(m', g, x) && Home(m', g, x)
    {
      assert Family(m, f, x) && Home(m, f, x);
      forall k | k in g.kids[x]
        ensures ChildOk(m', g, x, k)
      {
        assert ChildOk(m, f, x, k);
      }
      DoublyKept(m, m', f.kids[x]) by {
        assert forall k :: k in f.kids[x] ==> ChildOk(m, f, x, k);
      }
    }
  }

  // ----- what does not look at subscription indexes

  /** Equal but for the subscription index. */
  predicate SameLinks(a: Links, b: Links) {
    a.parent == b.parent && a.child == b.child && a.left == b.left && a.right == b.right && a.uri == b.uri
  }

  predicate SameTree(m: Memory, m': Memory) {
    m'.Keys == m.Keys && forall x :: x in m ==> SameLinks(m'[x], m[x])
  }

  lemma SameTreeShape(m: Memory, m': Memory, f: Forest)
    requires Shape(m, f) && SameTree(m, m')
    ensures Shape(m', f)
  {
    hide Sorted, Distinct;
    forall n | n in f.kids
      ensures Family(m', f, n) && Home(m', f, n)
    {
      assert Family(m, f, n) && Home(m, f, n);
      forall k | k in f.kids[n]
        ensures ChildOk(m', f, n, k)
      {
        assert ChildOk(m, f, n, k);
      }
      DoublyKept(m, m', f.kids[n]);
    }
  }

  // ----- descendants

  /** Whatever is in `d` has all its children there. */
  predicate Closed(f: Forest, d: set<RTNode>) {
    forall x, k :: x in d && x in f.kids && k in f.kids[x] ==> k in d
  }

  /** Whatever is in `d`, but for `n`, is a child of something in `d`. */
  predicate HangsFrom(m: Memory, d: set<RTNode>, n: RTNode) {
    forall x :: x in d && x != n ==> x in m && m[x].parent.To? && m[x].parent.node in d
  }

  /** `d` is `n` and all its descendants. */
  predicate Descendants(m: Memory, f: Forest, n: RTNode, d: set<RTNode>) {
    n in d && d <= f.kids.Keys && Closed(f, d) && HangsFrom(m, d, n)
  }

  /** There is only one such set. */
  lemma {:induction false} WithinClosed(m: Memory, f: Forest, n: RTNode, d: set<RTNode>, e: set<RTNode>, x: RTNode)
    requires Shape(m, f) && n in f.kids && d <= f.kids.Keys && HangsFrom(m, d, n) && x in d
    requires n in e && Closed(f, e)
    requires forall r :: r in d && r in f.roots ==> r == n
    ensures x in e
    decreases f.depth[x]
  {
    if x != n {
      assert Home(m, f, x);
      var p := m[x].parent.node;
      KidsLive(m, f, p);
      WithinClosed(m, f, n, d, e, p);
    }
  }

  lemma DescendantsUnique(m: Memory, f: Forest, n: RTNode, d: set<RTNode>, e: set<RTNode>)
    requires Shape(m, f) && Descendants(m, f, n, d) && Descendants(m, f, n, e)
    requires d !! (f.roots - {n}) && e !! (f.roots - {n})
    ensures d == e
  {
    forall x | x in d
      ensures x in e
    {
      WithinClosed(m, f, n, d, e, x);
    }
    forall x | x in e
      ensures x in d
    {
      WithinClosed(m, f, n, e, d, x);
    }
  }
}
