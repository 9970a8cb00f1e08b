/** Turning the flat list read from the database back into the tree (restruct_resource_tree). */
module ResourceTreeRebuild {
  import opened Sequences
  import opened ResourceTree
  import opened ResourceTreeOps

  /** A node fresh from the database: it may stand in a list, but nothing hangs from it. */
  predicate Bare(l: Links) {
    l.child == Null && l.subs == [] && l.subCnt == 0
  }

  /** `list` is the head of a doubly linked list of the nodes of `L`, none of them in the tree. */
  ghost predicate InList(m: Memory, f: Forest, list: Ptr, L: seq<RTNode>) {
    && list == Nth(L, 0) && Doubly(m, L) && Distinct(L)
    && forall x :: x in L ==> x in m && x !in f.kids && Bare(m[x])
  }

  /** The nodes of a list that are not in `s`, in order. */
  ghost function Outside(L: seq<RTNode>, s: set<RTNode>): seq<RTNode> {
    if L == [] then [] else if L[0] in s then Outside(L[1..], s) else [L[0]] + Outside(L[1..], s)
  }

  lemma {:induction false} OutsideMembers(L: seq<RTNode>, s: set<RTNode>)
    ensures forall x :: x in Outside(L, s) <==> x in L && x !in s
    ensures |Outside(L, s)| <= |L|
    ensures |Outside(L, s)| == |L| ==> Outside(L, s) == L
  {
    if L != [] {
      OutsideMembers(L[1..], s);
      assert L == [L[0]] + L[1..];
    }
  }

  lemma {:induction false} OutsideTwice(L: seq<RTNode>, s: set<RTNode>, s': set<RTNode>)
    requires s <= s'
    ensures Outside(Outside(L, s), s') == Outside(L, s')
  {
    if L != [] {
      OutsideTwice(L[1..], s, s');
      if L[0] !in s {
        assert Outside(L, s)[1..] == Outside(L[1..], s);
      }
    }
  }

  lemma {:induction false} OutsideConcat(a: seq<RTNode>, b: seq<RTNode>, s: set<RTNode>)
    ensures Outside(a + b, s) == Outside(a, s) + Outside(b, s)
  {
    if a == [] {
      assert a + b == b;
    } else {
      OutsideConcat(a[1..], b, s);
      assert (a + b)[0] == a[0] && (a + b)[1..] == a[1..] + b;
    }
  }

  // ----- the memory outside the tree

  /** The shape speaks only of the nodes of the tree. */
  lemma ShapeKept(m: Memory, m': Memory, f: Forest)
    requires Shape(m, f) && forall x :: x in f.kids && x in m ==> x in m' && m'[x] == m[x]
    ensures Shape(m', f)
    ensures Indexed(m, f) ==> Indexed(m', f)
  {
    hide Sorted, Distinct;
    forall n | n in f.kids
      ensures Family(m', f, n) && Home(m', f, n) && (Indexed(m, f) ==> SubsOk(m', f, n))
    {
      assert Family(m, f, n) && Home(m, f, n);
      assert Indexed(m, f) ==> SubsOk(m, f, n);
      forall k | k in f.kids[n]
        ensures ChildOk(m', f, n, k)
      {
        assert ChildOk(m, f, n, k);
      }
      KidsLive(m, f, n);
      DoublyKept(m, m', f.kids[n]);
    }
  }

  lemma SolitaryKept(m: Memory, m': Memory, f: Forest, root: RTNode)
    requires Solitary(m, root) && f.roots == {root} && Shape(m, f)
    requires forall x :: x in f.kids && x in m ==> x in m' && m'[x] == m[x]
    ensures Solitary(m', root)
  {
  }

  // ----- moving one node from the list to the tree

  /** restruct_resource_tree takes a node out of the list. */
  method Unhook(t: Tree, list: Ptr, node: RTNode, ghost L: seq<RTNode>, ghost i: nat) returns (head: Ptr)
    requires t.Valid() && InList(t.mem, t.f, list, L) && i < |L| && L[i] == node
    modifies t`mem
    ensures t.Valid() && InList(t.mem, t.f, head, RemoveAt(L, i))
    ensures t.mem.Keys == old(t.mem.Keys) && node in t.mem && Loose(t.mem[node])
    ensures forall x :: x in old(t.mem) && x !in L ==> t.mem[x] == old(t.mem[x])
  {
    hide Shape, Indexed, Doubly, Distinct, Bypass, Solitary;
    ghost var m := t.mem;
    ListPlace(m, t.f, list, L, i);
    head := list;
    var left, right := t.mem[node].left, t.mem[node].right;
    if left == Null {
      head := right;
    } else {
      t.mem := WithRight(t.mem, left, right);
    }
    if right.To? {
      t.mem := WithLeft(t.mem, right, left);
    }
    ghost var m' := t.mem;
    ListPassedOver(m, m', L, node, i);
    t.mem := t.mem[node := t.mem[node].(left := Null, right := Null)];
    UnhookedList(m, m', t.mem, t.f, L, node, i, head);
    ShapeKept(m, t.mem, t.f);
    SolitaryKept(m, t.mem, t.f, t.cb);
  }

  lemma ListPlace(m: Memory, f: Forest, list: Ptr, L: seq<RTNode>, i: nat)
    requires InList(m, f, list, L) && i < |L|
    ensures L[i] in m && m[L[i]].left == Nth(L, i - 1) && m[L[i]].right == Nth(L, i + 1)
    ensures i > 0 ==> L[i - 1] in m && L[i - 1] != L[i]
    ensures i + 1 < |L| ==> L[i + 1] in m && L[i + 1] != L[i]
    ensures 0 < i && i + 1 < |L| ==> L[i - 1] != L[i + 1]
    ensures forall x :: x in L ==> x !in f.kids && x in m
  {
    assert Slot(m, L, i);
    assert i > 0 ==> L[i - 1] in L;
    assert i + 1 < |L| ==> L[i + 1] in L;
  }

  /** As Bypass, for a list no node heads. */
  ghost predicate ListBypass(m: Memory, m': Memory, ks: seq<RTNode>, i: nat)
    requires i < |ks|
  {
    && m'.Keys == m.Keys
    && forall x :: x in m ==>
         && m'[x].parent == m[x].parent && m'[x].child == m[x].child && m'[x].uri == m[x].uri
         && m'[x].subs == m[x].subs && m'[x].subCnt == m[x].subCnt
         && m'[x].right == (if i > 0 && x == ks[i - 1] then Nth(ks, i + 1) else m[x].right)
         && m'[x].left == (if i + 1 < |ks| && x == ks[i + 1] then Nth(ks, i - 1) else m[x].left)
  }

  lemma ListPassedOver(m: Memory, m': Memory, L: seq<RTNode>, node: RTNode, i: nat)
    requires i < |L| && L[i] == node && node in m
    requires m[node].left == Nth(L, i - 1) && m[node].right == Nth(L, i + 1)
    requires i > 0 ==> L[i - 1] in m && L[i - 1] != node
    requires i + 1 < |L| ==> L[i + 1] in m && L[i + 1] != node
    requires 0 < i && i + 1 < |L| ==> L[i - 1] != L[i + 1]
    requires var a := if m[node].left.To? then WithRight(m, m[node].left, m[node].right) else m;
             m' == if m[node].right.To? then WithLeft(a, m[node].right, m[node].left) else a
    ensures ListBypass(m, m', L, i)
  {
    if i == 0 {
    } else if i + 1 == |L| {
    }
  }

  lemma UnhookedLinks(m: Memory, m': Memory, m'': Memory, L: seq<RTNode>, i: nat)
    requires i < |L| && Doubly(m, L) && Distinct(L) && ListBypass(m, m', L, i)
    requires L[i] in m' && m'' == m'[L[i] := m'[L[i]].(left := Null, right := Null)]
    ensures Doubly(m'', RemoveAt(L, i))
  {
    var rest := RemoveAt(L, i);
    forall j | 0 <= j < |rest|
      ensures Slot(m'', rest, j)
    {
      var j' := if j < i then j else j + 1;
      assert Slot(m, L, j') && rest[j] == L[j'];
    }
  }

  lemma UnhookedList(m: Memory, m': Memory, m'': Memory, f: Forest, L: seq<RTNode>, node: RTNode, i: nat, head: Ptr)
    requires i < |L| && L[i] == node && InList(m, f, Nth(L, 0), L) && ListBypass(m, m', L, i)
    requires node in m' && m'' == m'[node := m'[node].(left := Null, right := Null)]
    requires head == if i == 0 then Nth(L, 1) else Nth(L, 0)
    ensures InList(m'', f, head, RemoveAt(L, i)) && Loose(m''[node]) && m''.Keys == m.Keys
    ensures forall x :: x in m && x !in L ==> m''[x] == m[x]
  {
    UnhookedLinks(m, m', m'', L, i);
    RemoveAtDistinct(L, i);
    assert i > 0 ==> L[i - 1] in L;
    assert i + 1 < |L| ==> L[i + 1] in L;
    assert node in L;
    hide Doubly, Distinct;
    var rest := RemoveAt(L, i);
    assert head == Nth(rest, 0);
  }

  // ----- the first loop: the children of one parent

  /** The tree has gained exactly the nodes the list has lost, and the list kept its order. */
  ghost predicate MovedNodes(f: Forest, L: seq<RTNode>, f': Forest, L': seq<RTNode>) {
    && L' == Outside(L, f'.kids.Keys) && f'.roots == f.roots && f.kids.Keys <= f'.kids.Keys
    && (forall x :: x in f'.kids ==> x in f.kids || x in L)
    && (|L'| == |L| ==> f' == f)
    && (forall n :: n in f.depth ==> n in f'.depth && f'.depth[n] == f.depth[n])
  }

  /** No child has left its parent; a new child names its parent's id; a parent no node of the list
      names has the children it had. */
  ghost predicate MovedLists(f: Forest, L: seq<RTNode>, f': Forest) {
    && (forall n, k :: n in f.kids && n in f'.kids && k in f.kids[n] ==> k in f'.kids[n])
    && (forall n, k :: n in f'.kids && k in f'.kids[n] ==> (n in f.kids && k in f.kids[n]) || (k in L && k.pi == n.ri))
    && (forall n :: n in f.kids && n in f'.kids && (forall x :: x in L ==> x.pi != n.ri) ==> f'.kids[n] == f.kids[n])
  }

  /** `f'` is `f` with nodes of `L` added, each under a parent whose id it names. */
  ghost predicate Moved(f: Forest, L: seq<RTNode>, f': Forest, L': seq<RTNode>) {
    MovedNodes(f, L, f', L') && MovedLists(f, L, f')
  }

  lemma MovedNothing(f: Forest, L: seq<RTNode>)
    requires forall x :: x in L ==> x !in f.kids
    ensures Moved(f, L, f, L)
  {
    assert Outside(L, f.kids.Keys) == L by {
      OutsideNone(L, f.kids.Keys);
    }
  }

  lemma {:induction false} OutsideNone(L: seq<RTNode>, s: set<RTNode>)
    requires forall x :: x in L ==> x !in s
    ensures Outside(L, s) == L
  {
    if L != [] {
      assert L[0] in L && forall x :: x in L[1..] ==> x in L;
      OutsideNone(L[1..], s);
    }
  }

  lemma MovedNodesThen(f0: Forest, L0: seq<RTNode>, f1: Forest, L1: seq<RTNode>, f2: Forest, L2: seq<RTNode>)
    requires MovedNodes(f0, L0, f1, L1) && MovedNodes(f1, L1, f2, L2)
    ensures MovedNodes(f0, L0, f2, L2) && forall x :: x in L1 ==> x in L0
  {
    OutsideTwice(L0, f1.kids.Keys, f2.kids.Keys);
    OutsideMembers(L0, f1.kids.Keys);
    OutsideMembers(L1, f2.kids.Keys);
    hide Outside;
  }

  lemma MovedListsThen(f0: Forest, L0: seq<RTNode>, f1: Forest, L1: seq<RTNode>, f2: Forest)
    requires MovedLists(f0, L0, f1) && MovedLists(f1, L1, f2) && f0.kids.Keys <= f1.kids.Keys <= f2.kids.Keys
    requires forall x :: x in L1 ==> x in L0
    ensures MovedLists(f0, L0, f2)
  {
    forall n, k | n in f2.kids && k in f2.kids[n]
      ensures (n in f0.kids && k in f0.kids[n]) || (k in L0 && k.pi == n.ri)
    {
      assert (n in f1.kids && k in f1.kids[n]) || (k in L1 && k.pi == n.ri);
    }
    forall n, k | n in f0.kids && n in f2.kids && k in f0.kids[n]
      ensures k in f2.kids[n]
    {
      assert n in f1.kids && k in f1.kids[n];
    }
    forall n | n in f0.kids && n in f2.kids && forall x :: x in L0 ==> x.pi != n.ri
      ensures f2.kids[n] == f0.kids[n]
    {
      assert n in f1.kids;
    }
  }

  lemma MovedThen(f0: Forest, L0: seq<RTNode>, f1: Forest, L1: seq<RTNode>, f2: Forest, L2: seq<RTNode>)
    requires Moved(f0, L0, f1, L1) && Moved(f1, L1, f2, L2)
    ensures Moved(f0, L0, f2, L2)
  {
    hide MovedLists, Outside;
    MovedNodesThen(f0, L0, f1, L1, f2, L2);
    MovedListsThen(f0, L0, f1, L1, f2);
  }

  lemma OutsideOne(L: seq<RTNode>, s: set<RTNode>, i: nat)
    requires i < |L| && Distinct(L) && forall x :: x in L ==> x !in s
    ensures Outside(L, s + {L[i]}) == RemoveAt(L, i)
  {
    OthersOutside(L, s, i);
    var s', a, b := s + {L[i]}, L[..i], L[i + 1..];
    assert L == a + [L[i]] + b;
    assert Outside([L[i]], s') == [];
    OutsideNone(a, s');
    OutsideNone(b, s');
    hide Outside, Distinct;
    OutsideConcat(a + [L[i]], b, s');
    OutsideConcat(a, [L[i]], s');
  }

  lemma OthersOutside(L: seq<RTNode>, s: set<RTNode>, i: nat)
    requires i < |L| && Distinct(L) && forall x :: x in L ==> x !in s
    ensures forall x :: x in L[..i] || x in L[i + 1..] ==> x !in s + {L[i]}
  {
    forall x | x in L[..i] || x in L[i + 1..]
      ensures x in L && x != L[i]
    {
    }
  }

  /** Adding one node of the list under the parent it names. */
  lemma MovedOne(f: Forest, L: seq<RTNode>, parent: RTNode, i: nat)
    requires i < |L| && Distinct(L) && (forall x :: x in L ==> x !in f.kids) && f.depth.Keys == f.kids.Keys
    requires parent in f.kids && parent in f.depth && L[i].pi == parent.ri
    ensures Moved(f, L, Grown(f, parent, L[i]), RemoveAt(L, i))
  {
    var g := Grown(f, parent, L[i]);
    assert L[i] in L && L[i] !in f.kids;
    InsertedMembers(f.kids[parent], L[i]);
    RemoveAtDistinct(L, i);
    OutsideOne(L, f.kids.Keys, i);
    hide Outside, Inserted, RemoveAt, Distinct;
    assert g.kids.Keys == f.kids.Keys + {L[i]};
    assert |RemoveAt(L, i)| < |L| by {
      UnhookedShorter(L, i);
    }
  }

  lemma UnhookedShorter(L: seq<RTNode>, i: nat)
    requires i < |L|
    ensures |RemoveAt(L, i)| == |L| - 1
  {
  }

  /** The first loop of restruct_resource_tree: every node that names `parent` moves under it. */
  method TakeChildren(t: Tree, parent: RTNode, list: Ptr, ghost L: seq<RTNode>)
    returns (rest: Ptr, ghost L': seq<RTNode>)
    requires t.Valid() && parent in t.f.kids && InList(t.mem, t.f, list, L)
    modifies t
    ensures t.Valid() && InList(t.mem, t.f, rest, L') && Moved(old(t.f), L, t.f, L') && parent in t.f.kids
    ensures forall x :: x in L' ==> x.pi != parent.ri
  {
    hide Shape, Moved, Indexed, Doubly, Distinct;
    rest, L' := list, L;
    ListAlien(t.mem, t.f, list, L);
    MovedNothing(t.f, L);
    var node := list;
    ghost var i := 0;
    while node.To?
      invariant 0 <= i <= |L'| && node == Nth(L', i)
      invariant t.Valid() && InList(t.mem, t.f, rest, L') && Moved(old(t.f), L, t.f, L') && parent in t.f.kids
      invariant forall j :: 0 <= j < i ==> L'[j].pi != parent.ri
      decreases |L'| - i
    {
      ListPlace(t.mem, t.f, rest, L', i);
      var right := t.mem[node.node].right;
      if parent.ri == node.node.pi {
        ghost var f1 := t.f;
        rest := Unhook(t, rest, node.node, L', i);
        ListAlien(t.mem, t.f, rest, RemoveAt(L', i));
        TreeFacts(t.mem, t.f, parent);
        OneMoved(t.mem, t.f, L', parent, i);
        ghost var m1 := t.mem;
        t.AddChild(parent, node.node);
        ListKept(m1, f1, t.mem, t.f, rest, RemoveAt(L', i), parent, node.node);
        MovedThen(old(t.f), L, f1, L', t.f, RemoveAt(L', i));
        L' := RemoveAt(L', i);
      } else {
        i := i + 1;
      }
      node := right;
    }
  }

  lemma ListAlien(m: Memory, f: Forest, list: Ptr, L: seq<RTNode>)
    requires InList(m, f, list, L)
    ensures forall x :: x in L ==> x in m && x !in f.kids
    ensures Distinct(L)
  {
  }

  lemma TreeFacts(m: Memory, f: Forest, n: RTNode)
    requires Shape(m, f) && n in f.kids
    ensures n in f.depth && f.depth.Keys == f.kids.Keys && f.depth[n] <= f.bound
  {
  }

  lemma OneMoved(m: Memory, f: Forest, L: seq<RTNode>, parent: RTNode, i: nat)
    requires i < |L| && Distinct(L) && (forall x :: x in L ==> x !in f.kids) && Shape(m, f)
    requires parent in f.kids && parent in f.depth && L[i].pi == parent.ri
    ensures Moved(f, L, Grown(f, parent, L[i]), RemoveAt(L, i))
    ensures L[i] !in RemoveAt(L, i) && L[i] !in f.kids
  {
    hide Moved, Distinct, RemoveAt;
    MovedOne(f, L, parent, i);
    RemoveAtDistinct(L, i);
    assert L[i] in L;
  }

  /** AddChild does not touch the rest of the list. */
  lemma ListKept(m: Memory, f: Forest, m': Memory, f': Forest, list: Ptr, L: seq<RTNode>, parent: RTNode, child: RTNode)
    requires InList(m, f, list, L) && parent in f.kids && parent in f.depth && f' == Grown(f, parent, child) &&
             child !in L
    requires m'.Keys == m.Keys && forall x :: x in m && x !in f.kids && x != child ==> m'[x] == m[x]
    ensures InList(m', f', list, L) && parent in f'.kids
  {
    hide Doubly, Distinct, Inserted;
    DoublyKept(m, m', L);
  }

  // ----- the second loop: the children of the children

  /** `done` holds all below what it holds, and no node of the list belongs under any of it. */
  ghost predicate Settled(f: Forest, L: seq<RTNode>, done: set<RTNode>) {
    done <= f.kids.Keys && Closed(f, done) && forall x, n :: x in L && n in done ==> x.pi != n.ri
  }

  /** Levels left below `n`. */
  ghost function Room(f: Forest, n: RTNode): nat {
    if n in f.depth && f.depth[n] <= f.bound then f.bound - f.depth[n] else 0
  }

  lemma SettledKept(f: Forest, L: seq<RTNode>, f': Forest, L': seq<RTNode>, done: set<RTNode>)
    requires Settled(f, L, done) && Moved(f, L, f', L')
    ensures Settled(f', L', done)
  {
    OutsideMembers(L, f'.kids.Keys);
    hide Outside;
    forall n, k | n in done && n in f'.kids && k in f'.kids[n]
      ensures k in done
    {
      assert n in f.kids && f'.kids[n] == f.kids[n];
    }
  }

  lemma SettledBoth(f: Forest, L: seq<RTNode>, a: set<RTNode>, b: set<RTNode>)
    requires Settled(f, L, a) && Settled(f, L, b)
    ensures Settled(f, L, a + b)
  {
  }

  lemma SettledWith(f: Forest, L: seq<RTNode>, done: set<RTNode>, n: RTNode)
    requires Settled(f, L, done) && n in f.kids
    requires (forall x :: x in L ==> x.pi != n.ri) && forall i :: 0 <= i < |f.kids[n]| ==> f.kids[n][i] in done
    ensures Settled(f, L, done + {n})
  {
  }

  /** What a round of the second loop leaves as it was. */
  lemma RoundKeeps(f: Forest, L: seq<RTNode>, f': Forest, L': seq<RTNode>, n: RTNode)
    requires Moved(f, L, f', L') && n in f.kids && forall x :: x in L ==> x.pi != n.ri
    ensures n in f'.kids && f'.kids[n] == f.kids[n] && forall x :: x in L' ==> x in L
  {
    OutsideMembers(L, f'.kids.Keys);
  }

  /** Nothing moved, or the list is shorter. */
  lemma MovedShorter(f: Forest, L: seq<RTNode>, f': Forest, L': seq<RTNode>)
    requires Moved(f, L, f', L')
    ensures |L'| < |L| || (|L'| == |L| && f' == f)
  {
    OutsideMembers(L, f'.kids.Keys);
    hide Outside;
  }

  lemma ChildRoom(m: Memory, f: Forest, n: RTNode, i: nat)
    requires Shape(m, f) && n in f.kids && i < |f.kids[n]|
    ensures f.kids[n][i] in f.kids && Room(f, f.kids[n][i]) < Room(f, n)
  {
    assert Family(m, f, n) && f.kids[n][i] in f.kids[n];
    assert ChildOk(m, f, n, f.kids[n][i]);
    assert Family(m, f, f.kids[n][i]);
  }

  lemma FirstOf(m: Memory, f: Forest, n: RTNode)
    requires Shape(m, f) && n in f.kids
    ensures n in m && m[n].child == Nth(f.kids[n], 0)
  {
    assert Family(m, f, n);
  }

  /** restruct_resource_tree */
  method Rebuild(t: Tree, parent: RTNode, list: Ptr, ghost L: seq<RTNode>)
    returns (rest: Ptr, ghost L': seq<RTNode>, ghost done: set<RTNode>)
    requires t.Valid() && parent in t.f.kids && InList(t.mem, t.f, list, L)
    modifies t
    ensures t.Valid() && InList(t.mem, t.f, rest, L') && Moved(old(t.f), L, t.f, L')
    ensures Settled(t.f, L', done) && parent in done
    decreases |L|, Room(t.f, parent)
  {
    hide Shape, Moved, Indexed, InList, Settled, Room;
    rest, L' := TakeChildren(t, parent, list, L);
    FirstOf(t.mem, t.f, parent);
    var child := t.mem[parent].child;
    ghost var ks, i := t.f.kids[parent], 0;
    done := {};
    assert Settled(t.f, L', done) by {
      NothingSettled(t.f, L');
    }
    while child.To?
      invariant 0 <= i <= |ks| && child == Nth(ks, i)
      invariant t.Valid() && InList(t.mem, t.f, rest, L') && Moved(old(t.f), L, t.f, L')
      invariant parent in t.f.kids && t.f.kids[parent] == ks && forall x :: x in L' ==> x.pi != parent.ri
      invariant Settled(t.f, L', done) && forall j :: 0 <= j < i ==> ks[j] in done
      decreases |ks| - i
    {
      ghost var f1, L1 := t.f, L';
      ChildRoom(t.mem, t.f, parent, i);
      MovedShorter(old(t.f), L, f1, L1);
      ghost var more;
      rest, L', more := Rebuild(t, child.node, rest, L1);
      MovedThen(old(t.f), L, f1, L1, t.f, L');
      RoundKeeps(f1, L1, t.f, L', parent);
      SettledKept(f1, L1, t.f, L', done);
      SettledBoth(t.f, L', done, more);
      done := done + more;
      NextSibling(t.mem, t.f, parent, i);
      child, i := t.mem[child.node].right, i + 1;
    }
    SettledWith(t.f, L', done, parent);
    done := done + {parent};
  }

  lemma NothingSettled(f: Forest, L: seq<RTNode>)
    ensures Settled(f, L, {})
  {
  }

  // ----- the whole list

  /** `p` leads from a node of the tree to its last node, each step to a node of the list that names
      the one before as its parent. */
  ghost predicate Chain(f: Forest, L: seq<RTNode>, p: seq<RTNode>) {
    && p != [] && p[0] in f.kids
    && forall i :: 0 < i < |p| ==> p[i] in L && p[i].pi == p[i - 1].ri
  }

  /** The parent ids lead from `x` back to the tree. */
  ghost predicate Reaches(f: Forest, L: seq<RTNode>, x: RTNode) {
    exists p :: Chain(f, L, p) && p != [] && p[|p| - 1] == x
  }

  /** Once everything in the tree is settled, a chain leads nowhere else. */
  lemma {:induction false} ChainArrives(f: Forest, L: seq<RTNode>, f': Forest, L': seq<RTNode>, p: seq<RTNode>)
    requires Moved(f, L, f', L') && Settled(f', L', f'.kids.Keys) && Chain(f, L, p)
    ensures p[|p| - 1] in f'.kids
  {
    if |p| > 1 {
      var q := p[..|p| - 1];
      ChainArrives(f, L, f', L', q);
      OutsideMembers(L, f'.kids.Keys);
      assert q[|q| - 1] == p[|p| - 2];
    }
  }

  /** What the tree gained hangs from it by a chain. */
  lemma {:induction false} ArrivedByChain(m: Memory, f: Forest, L: seq<RTNode>, m': Memory, f': Forest,
                                          L': seq<RTNode>, x: RTNode)
    requires Shape(m, f) && Shape(m', f') && Moved(f, L, f', L') && x in f'.kids
    ensures Reaches(f, L, x)
    decreases if x in f'.depth then f'.depth[x] else 0
  {
    hide Shape, Moved, Reaches;
    assert f'.depth.Keys == f'.kids.Keys by {
      TreeFacts(m', f', x);
    }
    if x in f.kids {
      ChainStart(f, L, x);
    } else {
      NewNode(m, f, L, m', f', L', x);
      var n := m'[x].parent.node;
      ArrivedByChain(m, f, L, m', f', L', n);
      ChainStep(f, L, n, x);
    }
  }

  lemma ChainStart(f: Forest, L: seq<RTNode>, x: RTNode)
    requires x in f.kids
    ensures Reaches(f, L, x)
  {
    var p := [x];
    assert Chain(f, L, p) && p[|p| - 1] == x;
  }

  lemma ChainStep(f: Forest, L: seq<RTNode>, n: RTNode, x: RTNode)
    requires Reaches(f, L, n) && x in L && x.pi == n.ri
    ensures Reaches(f, L, x)
  {
    var p :| Chain(f, L, p) && p[|p| - 1] == n;
    var q := p + [x];
    assert Chain(f, L, q);
    assert q[|q| - 1] == x;
  }

  lemma NewNode(m: Memory, f: Forest, L: seq<RTNode>, m': Memory, f': Forest, L': seq<RTNode>, x: RTNode)
    requires Shape(m, f) && Shape(m', f') && Moved(f, L, f', L') && x in f'.kids && x !in f.kids
    ensures x in m' && m'[x].parent.To?
    ensures var n := m'[x].parent.node;
            n in f'.kids && x in f'.kids[n] && n in f'.depth && x in f'.depth && f'.depth[n] < f'.depth[x] &&
            x in L && x.pi == n.ri
  {
    hide Outside;
    ParentOf(m', f', x);
    var n := m'[x].parent.node;
    assert n in f'.depth;
    if n in f.kids && x in f.kids[n] {
      KidsLive(m, f, n);
    }
  }

  /** Nodes of the list and nodes of the tree after a rebuild are the ones there were before. */
  lemma NothingLost(f: Forest, L: seq<RTNode>, f': Forest, L': seq<RTNode>)
    requires Moved(f, L, f', L') && forall x :: x in L ==> x !in f.kids
    ensures forall x :: x in L' <==> x in L && x !in f'.kids
    ensures forall x :: x in f'.kids <==> x in f.kids || (x in L && x !in L')
  {
    OutsideMembers(L, f'.kids.Keys);
    hide Outside;
  }

  /** `f'` is the tree rebuilt from `f` and the list `L`, with `L'` left over. */
  ghost predicate Rebuilt(f: Forest, L: seq<RTNode>, f': Forest, L': seq<RTNode>) {
    && (forall x :: x in L ==> (x in f'.kids <==> Reaches(f, L, x)))
    && L' == Outside(L, f'.kids.Keys)
    && (forall x :: x in f'.kids <==> x in f.kids || (x in L && x !in L'))
    && MovedLists(f, L, f')
  }

  lemma RebuiltAll(m: Memory, f: Forest, L: seq<RTNode>, m': Memory, f': Forest, L': seq<RTNode>)
    requires Shape(m, f) && Shape(m', f') && Moved(f, L, f', L') && Settled(f', L', f'.kids.Keys)
    requires forall x :: x in L ==> x !in f.kids
    ensures Rebuilt(f, L, f', L')
  {
    hide Shape, Settled, Outside, Reaches, MovedLists;
    NothingLost(f, L, f', L');
    forall x | x in L
      ensures x in f'.kids <==> Reaches(f, L, x)
    {
      InTreeIffReaches(m, f, L, m', f', L', x);
    }
  }

  lemma InTreeIffReaches(m: Memory, f: Forest, L: seq<RTNode>, m': Memory, f': Forest, L': seq<RTNode>, x: RTNode)
    requires Shape(m, f) && Shape(m', f') && Moved(f, L, f', L') && Settled(f', L', f'.kids.Keys)
    ensures x in f'.kids <==> Reaches(f, L, x)
  {
    hide Shape, Moved, Settled, Chain;
    if x in f'.kids {
      ArrivedByChain(m, f, L, m', f', L', x);
    }
    if Reaches(f, L, x) {
      var p :| Chain(f, L, p) && p != [] && p[|p| - 1] == x;
      ChainArrives(f, L, f', L', p);
    }
  }

  /** The rebuild that init_resource_tree asks for: from any list, the nodes whose parent ids lead
      back to the tree end up in it, each under a parent it names; the others are returned, in the
      order they had. */
  method Restore(t: Tree, list: Ptr, ghost L: seq<RTNode>) returns (rest: Ptr, ghost L': seq<RTNode>)
    requires t.Valid() && InList(t.mem, t.f, list, L)
    modifies t
    ensures t.Valid() && InList(t.mem, t.f, rest, L') && Rebuilt(old(t.f), L, t.f, L')
  {
    hide Shape, Indexed, Moved, Doubly, Rebuilt, Closed, Reaches;
    rest, L' := list, L;
    RootLive(t.mem, t.f, t.cb);
    ListAlien(t.mem, t.f, list, L);
    ghost var done;
    rest, L', done := Rebuild(t, t.cb, list, L);
    AllBelowRoot(t.mem, t.f, t.cb, done);
    RebuiltAll(old(t.mem), old(t.f), L, t.mem, t.f, L');
  }
}
