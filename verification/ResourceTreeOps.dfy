/** The operations on the resource tree as they run, pointer by pointer. */
module ResourceTreeOps {
  import opened Sequences
  import opened ResourceTree

  class Tree {
    const cb: RTNode
    var mem: Memory
    ghost var f: Forest

    ghost predicate Valid()
      reads this
    {
      Shape(mem, f) && Indexed(mem, f) && f.roots == {cb} && Solitary(mem, cb)
    }

    constructor (cb: RTNode, mem: Memory)
      requires cb in mem && Loose(mem[cb])
      ensures Valid() && this.cb == cb && this.mem == mem && f.kids == map[cb := []] && f.roots == {cb}
    {
      this.cb := cb;
      this.mem := mem;
      f := Forest(map[cb := []], map[cb := 0], 0, {cb});
    }

    /** The search loop of add_child_resource_tree: the last sibling the new child goes after, or
        the first one if the child goes before it. */
    method FindPlace(parent: RTNode, ty: int, ghost ks: seq<RTNode>) returns (node: RTNode, ghost i: nat)
      requires ks != [] && Doubly(mem, ks) && Sorted(ks) && parent in mem && mem[parent].child == To(ks[0])
      ensures i < |ks| && node == ks[i]
      ensures Place(ks, ty) == if i == 0 && ty < node.ty then 0 else i + 1
    {
      hide Place;
      node, i := mem[parent].child.node, 0;
      assert Slot(mem, ks, 0);
      while mem[node].right.To? && mem[node].right.node.ty <= ty
        invariant i < |ks| && node == ks[i] && node in mem
        invariant forall j :: 1 <= j <= i ==> ks[j].ty <= ty
        decreases |ks| - i
      {
        assert Slot(mem, ks, i);
        node, i := mem[node].right.node, i + 1;
        assert Slot(mem, ks, i);
      }
      assert Slot(mem, ks, i);
      PlaceUnique(ks, ty, if i == 0 && ty < node.ty then 0 else i + 1);
    }

    /** Puts `child` before the first sibling. */
    method LinkFirst(ghost ks: seq<RTNode>, node: RTNode, child: RTNode)
      requires ks != [] && node == ks[0] && Doubly(mem, ks) && Distinct(ks)
      requires child !in ks && child in mem && mem[child].left == Null
      modifies this`mem
      ensures Doubly(mem, [child] + ks) && Rewired(old(mem), mem, [child] + ks)
    {
      ghost var all := [child] + ks;
      assert Slot(mem, ks, 0);
      mem := mem[child := mem[child].(right := To(node))];
      mem := mem[node := mem[node].(left := To(child))];
      forall j | 0 <= j < |all|
        ensures Slot(mem, all, j)
      {
        if j > 0 {
          assert Slot(old(mem), ks, j - 1) && all[j] == ks[j - 1];
        }
      }
    }

    /** Puts `child` after sibling `node`. */
    method LinkAfter(ghost ks: seq<RTNode>, ghost i: nat, node: RTNode, child: RTNode)
      requires i < |ks| && node == ks[i] && Doubly(mem, ks) && Distinct(ks)
      requires child !in ks && child in mem && mem[child].right == Null
      modifies this`mem
      ensures var all := ks[..i + 1] + [child] + ks[i + 1..]; Doubly(mem, all) && Rewired(old(mem), mem, all)
    {
      ghost var all := ks[..i + 1] + [child] + ks[i + 1..];
      assert Slot(mem, ks, i);
      if mem[node].right.To? {
        var next := mem[node].right.node;
        assert next == ks[i + 1] && Slot(mem, ks, i + 1);
        mem := mem[next := mem[next].(left := To(child))];
        mem := mem[child := mem[child].(right := To(next))];
      }
      mem := mem[node := mem[node].(right := To(child))];
      mem := mem[child := mem[child].(left := To(node))];
      forall j | 0 <= j < |all|
        ensures Slot(mem, all, j)
      {
        if j <= i {
          assert Slot(old(mem), ks, j) && all[j] == ks[j];
        } else if j > i + 1 {
          assert Slot(old(mem), ks, j - 1) && all[j] == ks[j - 1];
        }
      }
    }

    /** The pointer updates of add_child_resource_tree. */
    method Link(parent: RTNode, child: RTNode)
      requires Shape(mem, f) && parent in f.kids && child !in f.kids && child in mem && Loose(mem[child])
      modifies this`mem
      ensures mem.Keys == old(mem.Keys)
      ensures parent in old(mem) && Attached(old(mem), mem, Inserted(f.kids[parent], child), parent, child)
      ensures forall x :: x in old(mem) ==> mem[x].subs == old(mem[x].subs) && mem[x].subCnt == old(mem[x].subCnt)
      ensures forall x :: x in old(mem) && x !in f.kids && x != child ==> mem[x] == old(mem[x])
    {
      hide Place, Sorted, Doubly, Attached, Inserted;
      ghost var ks, all := f.kids[parent], Inserted(f.kids[parent], child);
      assert Family(mem, f, parent);
      KidsLive(mem, f, parent);
      InsertedMembers(ks, child);
      InsertedWhere(ks, child);
      hide Shape, Family;
      mem := mem[child := mem[child].(parent := To(parent), uri := mem[parent].uri + "/" + child.rn)];
      ghost var told := mem;
      if mem[parent].child == Null {
        InsertedAlone(mem, child);
        mem := mem[parent := mem[parent].(child := To(child))];
        Attaches(old(mem), told, told, mem, all, parent, child);
        AttachesOnly(old(mem), told, told, mem, all, parent, child);
      } else {
        DoublyKept(old(mem), mem, ks);
        var node;
        ghost var i;
        node, i := FindPlace(parent, child.ty, ks);
        if mem[parent].child == To(node) && child.ty < node.ty {
          LinkFirst(ks, node, child);
          ghost var wired := mem;
          mem := mem[parent := mem[parent].(child := To(child))];
          Attaches(old(mem), told, wired, mem, all, parent, child);
          AttachesOnly(old(mem), told, wired, mem, all, parent, child);
        } else {
          LinkAfter(ks, i, node, child);
          assert mem == mem[parent := mem[parent].(child := Nth(all, 0))];
          Attaches(old(mem), told, mem, mem, all, parent, child);
          AttachesOnly(old(mem), told, mem, mem, all, parent, child);
        }
      }
    }

    /** add_subs, as a step on the parent's links; SubscriptionIndex has the list it works on. */
    method AddSubs(parent: RTNode, sub: RTNode)
      requires parent in mem
      modifies this`mem
      ensures mem == old(mem)[parent := Subscribed(old(mem[parent]), sub)]
    {
      mem := mem[parent := Subscribed(mem[parent], sub)];
    }

    /** add_child_resource_tree */
    method AddChild(parent: RTNode, child: RTNode)
      requires Valid() && parent in f.kids && child !in f.kids && child in mem && Loose(mem[child])
      modifies this
      ensures Valid() && f == Grown(old(f), parent, child)
      ensures mem.Keys == old(mem.Keys)
      ensures forall x :: x in old(mem) && x !in old(f.kids) && x != child ==> mem[x] == old(mem[x])
    {
      hide Shape, Attached, Inserted, Subs;
      ParentLive(mem, f, parent);
      Link(parent, child);
      ghost var linked := mem;
      AttachedShape(old(mem), mem, f, parent, child);
      StillSolitary(old(mem), mem, f, parent, child, cb);
      if child.ty == RT_SUB {
        AddSubs(parent, child);
      }
      SameTreeShape(linked, mem, Grown(f, parent, child));
      GrownIndexed(old(mem), mem, f, parent, child);
      f := Grown(f, parent, child);
    }

    /** detach_subs, likewise. */
    method DetachSubs(parent: RTNode, sub: RTNode)
      requires parent in mem
      modifies this`mem
      ensures mem == old(mem)[parent := Unsubscribed(old(mem[parent]), sub)]
    {
      mem := mem[parent := Unsubscribed(mem[parent], sub)];
    }

    /** delete_process, for the part of it that edits the tree: every subscription below `n`, and
        `n` itself if it is one, leaves its parent's index.  `todo` is a closed part of the tree
        whose indexes are still complete. */
    method DeleteProcess(n: RTNode, ghost todo: set<RTNode>) returns (ghost seen: set<RTNode>)
      requires Shape(mem, f) && n in todo && todo <= f.kids.Keys && Closed(f, todo)
      requires forall x :: x in todo ==> SubsOk(mem, f, x)
      requires n.ty == RT_SUB ==> n !in f.roots
      modifies this`mem
      ensures SameTree(old(mem), mem) && Shape(mem, f)
      ensures Descendants(mem, f, n, seen) && seen <= todo && seen !! (f.roots - {n})
      ensures forall x :: x in seen ==> f.depth[x] >= f.depth[n]
      ensures forall x :: x in seen ==> mem[x].subs == [] && mem[x].subCnt == 0
      ensures forall x :: x in old(mem) && x !in seen ==>
                mem[x] == if n.ty == RT_SUB && old(mem[n].parent) == To(x) then Unsubscribed(old(mem[x]), n)
                          else old(mem[x])
      decreases f.bound - f.depth[n], 1
    {
      hide Shape, Unsubscribed, SameTree, Progress, Descendants, Closed, SubsOk;
      seen := DeleteChildren(n, todo);
      ProgressDone(mem, f, n, seen);
      if n.ty == RT_SUB {
        ghost var before := mem;
        ParentOf(mem, f, n);
        SameTreeParent(old(mem), mem, n);
        DetachSubs(mem[n].parent.node, n);
        UnsubscribedSame(before, mem, mem[n].parent.node, n);
        SameTreeThen(old(mem), before, mem);
        SameTreeShape(before, mem, f);
        ProgressKept(before, mem, f, n, |f.kids[n]|, seen);
        ProgressDone(mem, f, n, seen);
      }
    }

    /** The loop of delete_process over the children. */
    method DeleteChildren(n: RTNode, ghost todo: set<RTNode>) returns (ghost seen: set<RTNode>)
      requires Shape(mem, f) && n in todo && todo <= f.kids.Keys && Closed(f, todo)
      requires forall x :: x in todo ==> SubsOk(mem, f, x)
      modifies this`mem
      ensures SameTree(old(mem), mem) && Shape(mem, f)
      ensures Progress(mem, f, n, |f.kids[n]|, seen) && seen <= todo && seen <= mem.Keys && mem.Keys == old(mem.Keys)
      ensures forall x :: x in seen ==> mem[x].subs == [] && mem[x].subCnt == 0
      ensures forall x :: x in old(mem) && x !in seen ==> mem[x] == old(mem[x])
      decreases f.bound - f.depth[n], 0
    {
      hide Shape, Subs, Unsubscribed, SameTree, Progress, Descendants, Closed, SubsOk;
      ghost var ks := f.kids[n];
      NodeFacts(mem, f, n);
      SubsStart(mem, f, n);
      var ptr := mem[n].child;
      ghost var i := 0;
      seen := {n};
      SameTreeSelf(mem);
      while ptr.To?
        invariant 0 <= i <= |ks| && ptr == Nth(ks, i)
        invariant SameTree(old(mem), mem) && Shape(mem, f)
        invariant Progress(mem, f, n, i, seen) && seen <= todo
        invariant mem.Keys == old(mem.Keys) && seen <= mem.Keys
        invariant mem[n].subs == Subs(ks[i..]) && mem[n].subCnt == |mem[n].subs|
        invariant forall x :: x in seen && x != n ==> mem[x].subs == [] && mem[x].subCnt == 0
        invariant forall x :: x in old(mem) && x !in seen ==> mem[x] == old(mem[x])
        decreases |ks| - i
      {
        ghost var before, rest := mem, Remaining(f, n, todo, seen);
        RemainingClosed(mem, f, n, i, todo, seen);
        RemainingOk(old(mem), mem, f, rest);
        ghost var more := DeleteProcess(ptr.node, rest);
        SameTreeThen(old(mem), before, mem);
        ProgressKept(before, mem, f, n, i, seen);
        ProgressStep(mem, f, n, i, seen, more);
        SubsStep(ks, i, before[n]);
        NextSibling(mem, f, n, i);
        assert n !in more;
        seen := seen + more;
        ProgressLive(mem, f, n, i + 1, seen);
        ptr, i := mem[ptr.node].right, i + 1;
      }
      SubsEnd(ks);
    }

    /** The pointer updates of free_rtnode. */
    method Unlink(n: RTNode)
      requires Shape(mem, f) && n in f.kids && n !in f.roots
      modifies this`mem
      ensures n in old(mem) && old(mem[n].parent).To?
      ensures var p := old(mem[n].parent.node);
              p in f.kids && p in old(mem) && n in f.kids[p] && Detached(old(mem), mem, Without(f.kids[p], n), p)
      ensures forall x :: x in old(mem) ==>
              x in mem && mem[x].subs == old(mem[x].subs) && mem[x].subCnt == old(mem[x].subCnt)
      ensures mem.Keys == old(mem.Keys)
      ensures forall x :: x in old(mem) && x !in f.kids ==> mem[x] == old(mem[x])
    {
      hide Without, Detached, Doubly, Distinct, Bypass;
      ParentOf(mem, f, n);
      ghost var p := mem[n].parent.node;
      ghost var i := PlaceAmong(mem, f, p, n);
      hide Shape;
      if mem[n].parent.To? && mem[mem[n].parent.node].child == To(n) {
        mem := WithChild(mem, mem[n].parent, mem[n].right);
      }
      if mem[n].left.To? {
        mem := WithRight(mem, mem[n].left, mem[n].right);
      }
      if mem[n].right.To? {
        mem := WithLeft(mem, mem[n].right, mem[n].left);
      }
      PassedOver(old(mem), f.kids[p], p, n, i);
      Bypassed(old(mem), mem, f.kids[p], p, i);
    }

    /** free_rtnode: `n` is unhooked, then its children are freed one after the other, then `n`. */
    method FreeNode(n: RTNode) returns (ghost gone: set<RTNode>)
      requires Shape(mem, f) && n in f.kids && n !in f.roots
      modifies this
      ensures Freed(old(mem), old(f), n, gone, mem, f)
      decreases f.bound - f.depth[n]
    {
      assert f.depth.Keys == f.kids.Keys;
      hide Shape, Freed, Freeing, Detached;
      ParentOf(mem, f, n);
      ghost var p := mem[n].parent.node;
      Unlink(n);
      CutShape(old(mem), mem, f, p, n);
      SiblingsNotRoots(old(mem), f, p, n);
      FreeingStart(old(mem), f, p, n, mem);
      f := Cut(f, p, n);
      gone := {n};
      FreeingFacts(old(mem), old(f), n, gone, mem, f);
      while mem[n].child.To?
        invariant Freeing(old(mem), old(f), n, gone, mem, f)
        invariant Shape(mem, f) && n in mem && n in f.kids && mem[n].child == Nth(f.kids[n], 0)
        decreases |f.kids[n]|
      {
        FreeingChild(old(mem), old(f), n, gone, mem, f);
        ghost var m1, f1 := mem, f;
        ghost var more := FreeNode(mem[n].child.node);
        FreeingStep(old(mem), old(f), n, gone, m1, f1, more, mem, f);
        gone := gone + more;
        FreeingFacts(old(mem), old(f), n, gone, mem, f);
      }
      FreeingDone(old(mem), old(f), n, gone, mem, f);
      mem := mem - {n};
      f := Dropped(f, n);
    }

    /** A resource is deleted: delete_process, then free_rtnode.  Exactly the node and its
        descendants go, and every other index and list of siblings is right again. */
    method Delete(n: RTNode) returns (ghost gone: set<RTNode>)
      requires Valid() && n in f.kids && n !in f.roots
      modifies this
      ensures Valid() && Descendants(old(mem), old(f), n, gone) && n in old(mem)
      ensures KeptKids(old(f), n, old(mem[n].parent), f, gone) && KeptMemoryButSubs(old(mem), old(f), mem, gone)
      ensures f.roots == old(f.roots)
    {
      hide Shape, Freed, Descendants, Closed, SubsOk, SameTree;
      AllClosed(mem, f);
      ParentOf(mem, f, n);
      ghost var seen := DeleteProcess(n, f.kids.Keys);
      ghost var m1, f1 := mem, f;
      gone := FreeNode(n);
      SameGone(old(mem), m1, f1, n, seen, gone, mem, f);
      DeletedIndexed(old(mem), m1, f1, n, gone, mem, f);
      RootKept(old(mem), m1, f1, cb, n, gone, mem);
    }
  }

  /** As KeptMemory, for a deletion, which also edits the parent's subscription index. */
  ghost predicate KeptMemoryButSubs(m: Memory, f: Forest, m': Memory, cut: set<RTNode>) {
    m'.Keys == m.Keys - cut && forall x :: x in m' && x in m && x !in f.kids ==> m'[x] == m[x]
  }

  lemma AllClosed(m: Memory, f: Forest)
    requires Shape(m, f)
    ensures Closed(f, f.kids.Keys)
  {
    forall x, k | x in f.kids && k in f.kids[x]
      ensures k in f.kids
    {
      KidsLive(m, f, x);
    }
  }

  lemma SameGone(m: Memory, m1: Memory, f: Forest, n: RTNode, seen: set<RTNode>, gone: set<RTNode>, m': Memory,
                 f': Forest)
    requires Shape(m, f) && SameTree(m, m1) && Shape(m1, f) && n !in f.roots
    requires Descendants(m1, f, n, seen) && seen !! (f.roots - {n})
    requires Freed(m1, f, n, gone, m', f')
    ensures gone == seen && Descendants(m, f, n, gone) && n in gone && gone !! f.roots && m1.Keys == m.Keys
    ensures n in m && n in m1 && m[n].parent == m1[n].parent
    ensures Shape(m', f') && f'.roots == f.roots && KeptKids(f, n, m[n].parent, f', gone) && KeptMemory(m1, f, m', gone)
  {
    hide Shape, KeptKids, KeptMemory, Without;
    DescendantsUnique(m1, f, n, seen, gone);
    SameTreeParent(m, m1, n);
    forall x | x in gone && x != n
      ensures x in m && m[x].parent.To? && m[x].parent.node in gone
    {
      assert SameLinks(m1[x], m[x]);
    }
  }

  lemma RootKept(m: Memory, m1: Memory, f: Forest, root: RTNode, n: RTNode, gone: set<RTNode>, m': Memory)
    requires SameTree(m, m1) && Solitary(m, root) && f.roots == {root} && root !in gone && KeptMemory(m1, f, m', gone)
    ensures Solitary(m', root)
  {
    assert SameLinks(m1[root], m[root]);
  }

  lemma DeletedIndexed(m: Memory, m1: Memory, f: Forest, n: RTNode, gone: set<RTNode>, m': Memory, f': Forest)
    requires Shape(m, f) && Indexed(m, f) && n in m && m[n].parent.To? && m1.Keys == m.Keys && n in f.kids &&
             n !in f.roots
    requires m[n].parent.node in f.kids
    requires forall x :: x in m && x !in gone ==>
               m1[x] == if n.ty == RT_SUB && m[n].parent == To(x) then Unsubscribed(m[x], n) else m[x]
    requires KeptKids(f, n, m[n].parent, f', gone) && KeptMemory(m1, f, m', gone) && Shape(m', f') && n in gone
    ensures Indexed(m', f') && KeptMemoryButSubs(m, f, m', gone)
  {
    hide Without, Unsubscribed, Shape, KeptKids, KeptMemory, SubsOk;
    forall x | x in f'.kids
      ensures SubsOk(m', f', x)
    {
      DeletedIndex(m, m1, f, n, gone, m', f', x);
    }
    DeletedMemory(m, m1, f, n, gone, m');
  }

  lemma DeletedMemory(m: Memory, m1: Memory, f: Forest, n: RTNode, gone: set<RTNode>, m': Memory)
    requires n in m && m[n].parent.To? && m[n].parent.node in f.kids && m1.Keys == m.Keys && KeptMemory(m1, f, m', gone)
    requires forall x :: x in m && x !in gone ==>
               m1[x] == if n.ty == RT_SUB && m[n].parent == To(x) then Unsubscribed(m[x], n) else m[x]
    ensures KeptMemoryButSubs(m, f, m', gone)
  {
    hide Unsubscribed;
    forall x | x in m' && x in m && x !in f.kids
      ensures m'[x] == m[x]
    {
      assert x in m1;
    }
  }

  lemma DeletedIndex(m: Memory, m1: Memory, f: Forest, n: RTNode, gone: set<RTNode>, m': Memory, f': Forest, x: RTNode)
    requires Shape(m, f) && Indexed(m, f) && n in m && m[n].parent.To? && m1.Keys == m.Keys && n in f.kids &&
             n !in f.roots
    requires forall x :: x in m && x !in gone ==>
               m1[x] == if n.ty == RT_SUB && m[n].parent == To(x) then Unsubscribed(m[x], n) else m[x]
    requires KeptKids(f, n, m[n].parent, f', gone) && KeptMemory(m1, f, m', gone) && Shape(m', f') && n in gone
    requires x in f'.kids
    ensures SubsOk(m', f', x)
  {
    hide Without, Unsubscribed, Shape, Doubly;
    ParentLive(m', f', x);
    assert SubsOk(m, f, x);
    if To(x) == m[n].parent {
      ParentOf(m, f, n);
      ghost var i := PlaceAmong(m, f, x, n);
      IndexWithout(f.kids[x], i, m[x]);
    }
  }

  /** Taking a child out of the list and out of the index agree. */
  lemma IndexWithout(ks: seq<RTNode>, i: nat, l: Links)
    requires i < |ks| && Distinct(ks) && l.subs == Subs(ks) && l.subCnt == |l.subs|
    ensures var l' := if ks[i].ty == RT_SUB then Unsubscribed(l, ks[i]) else l;
            l'.subs == Subs(Without(ks, ks[i])) && l'.subCnt == |l'.subs|
  {
    SubsWithout(ks, i);
    SubsMembers(ks, ks[i]);
    if ks[i].ty == RT_SUB {
      var j :| 0 <= j < |l.subs| && l.subs[j] == ks[i];
      WithoutShorter(l.subs, ks[i]);
    }
  }

  lemma {:induction false} WithoutShorter(ks: seq<RTNode>, c: RTNode)
    requires c in ks
    ensures |Without(ks, c)| == |ks| - 1
  {
    if ks[0] != c {
      WithoutShorter(ks[1..], c);
    }
  }

  /** Place of a child among its siblings, and what its neighbours are. */
  lemma PlaceAmong(m: Memory, f: Forest, p: RTNode, n: RTNode) returns (i: nat)
    requires Shape(m, f) && p in f.kids && n in f.kids[p]
    ensures i < |f.kids[p]| && f.kids[p][i] == n && n in m && p in m && p !in f.kids[p]
    ensures Doubly(m, f.kids[p]) && Distinct(f.kids[p]) && m[p].child == Nth(f.kids[p], 0)
    ensures m[n].left == Nth(f.kids[p], i - 1) && m[n].right == Nth(f.kids[p], i + 1)
    ensures i > 0 ==> f.kids[p][i - 1] in m && f.kids[p][i - 1] != n && f.kids[p][i - 1] != p && f.kids[p][0] != n
    ensures i + 1 < |f.kids[p]| ==> f.kids[p][i + 1] in m && f.kids[p][i + 1] != n && f.kids[p][i + 1] != p
    ensures 0 < i && i + 1 < |f.kids[p]| ==> f.kids[p][i - 1] != f.kids[p][i + 1]
    ensures forall k :: k in f.kids[p] ==> k in f.kids
  {
    assert Family(m, f, p);
    KidsLive(m, f, p);
    i :| 0 <= i < |f.kids[p]| && f.kids[p][i] == n;
    var ks := f.kids[p];
    assert Slot(m, ks, i);
    assert i > 0 ==> ks[i - 1] in ks && ks[0] in ks;
    assert i + 1 < |ks| ==> ks[i + 1] in ks;
  }

  /** Sibling `i` is passed over: its left neighbour points right past it, its right neighbour
      points left past it, and the parent too if it was first. */
  predicate Bypass(m: Memory, m': Memory, ks: seq<RTNode>, p: RTNode, i: nat)
    requires i < |ks|
  {
    && m'.Keys == m.Keys
    && forall x :: x in m ==>
         && m'[x].parent == m[x].parent && m'[x].uri == m[x].uri && m'[x].subs == m[x].subs &&
            m'[x].subCnt == m[x].subCnt
         && m'[x].child == (if x == p && i == 0 then Nth(ks, 1) else m[x].child)
         && m'[x].right == (if i > 0 && x == ks[i - 1] then Nth(ks, i + 1) else m[x].right)
         && m'[x].left == (if i + 1 < |ks| && x == ks[i + 1] then Nth(ks, i - 1) else m[x].left)
  }

  function WithChild(m: Memory, at: Ptr, v: Ptr): Memory
    requires at.To? && at.node in m
  {
    m[at.node := m[at.node].(child := v)]
  }

  function WithRight(m: Memory, at: Ptr, v: Ptr): Memory
    requires at.To? && at.node in m
  {
    m[at.node := m[at.node].(right := v)]
  }

  function WithLeft(m: Memory, at: Ptr, v: Ptr): Memory
    requires at.To? && at.node in m
  {
    m[at.node := m[at.node].(left := v)]
  }

  /** The three updates of free_rtnode. */
  lemma PassedOver(m: Memory, ks: seq<RTNode>, p: RTNode, n: RTNode, i: nat)
    requires i < |ks| && ks[i] == n && n in m && p in m && p != n && m[n].parent == To(p) && m[p].child == Nth(ks, 0)
    requires m[n].left == Nth(ks, i - 1) && m[n].right == Nth(ks, i + 1)
    requires i > 0 ==> ks[i - 1] in m && ks[i - 1] != n && ks[i - 1] != p && ks[0] != n
    requires i + 1 < |ks| ==> ks[i + 1] in m && ks[i + 1] != n && ks[i + 1] != p
    requires 0 < i && i + 1 < |ks| ==> ks[i - 1] != ks[i + 1]
    ensures var a := if m[p].child == To(n) then WithChild(m, m[n].parent, m[n].right) else m;
            var b := if m[n].left.To? then WithRight(a, m[n].left, m[n].right) else a;
            var c := if m[n].right.To? then WithLeft(b, m[n].right, m[n].left) else b;
            Bypass(m, c, ks, p, i)
  {
    if i == 0 {
    } else if i + 1 == |ks| {
    }
  }

  lemma BypassedList(m: Memory, m': Memory, ks: seq<RTNode>, p: RTNode, i: nat)
    requires i < |ks| && Doubly(m, ks) && Distinct(ks) && Bypass(m, m', ks, p, i)
    ensures Doubly(m', ks[..i] + ks[i + 1..])
  {
    var rest := ks[..i] + ks[i + 1..];
    forall j | 0 <= j < |rest|
      ensures Slot(m', rest, j)
    {
      var j' := if j < i then j else j + 1;
      assert Slot(m, ks, j') && rest[j] == ks[j'];
    }
  }

  lemma Bypassed(m: Memory, m': Memory, ks: seq<RTNode>, p: RTNode, i: nat)
    requires i < |ks| && p in m && p !in ks && Doubly(m, ks) && Distinct(ks) && m[p].child == Nth(ks, 0)
    requires Bypass(m, m', ks, p, i) && ks[i] in m
    ensures Detached(m, m', Without(ks, ks[i]), p)
    ensures m'.Keys == m.Keys && forall x :: x in m && x !in ks && x != p ==> m'[x] == m[x]
  {
    hide Without, Doubly;
    WithoutAt(ks, i);
    BypassedList(m, m', ks, p, i);
    ListEnds(m, ks, i);
    WithoutMembers(ks, ks[i]);
  }

  /** The neighbours of sibling `i` when it is first or last. */
  lemma ListEnds(m: Memory, ks: seq<RTNode>, i: nat)
    requires i < |ks| && Doubly(m, ks)
    ensures ks[i] in m && m[ks[i]].left == Nth(ks, i - 1) && m[ks[i]].right == Nth(ks, i + 1)
  {
    assert Slot(m, ks, i);
  }

  /** The first `i` children of `n` and all below them are in `seen`; the others are not. */
  ghost predicate Progress(m: Memory, f: Forest, n: RTNode, i: nat, seen: set<RTNode>) {
    && n in f.kids && n in f.depth && n in seen && seen <= f.kids.Keys && seen <= f.depth.Keys && i <= |f.kids[n]|
    && Closed(f, seen - {n}) && HangsFrom(m, seen, n) && seen !! (f.roots - {n})
    && (forall x :: x in seen && x != n ==> f.depth[x] > f.depth[n])
    && (forall j :: 0 <= j < |f.kids[n]| ==> (f.kids[n][j] in seen <==> j < i))
  }

  function Remaining(f: Forest, n: RTNode, todo: set<RTNode>, seen: set<RTNode>): set<RTNode>
    requires n in f.depth
  {
    set x | x in todo && x !in seen && x in f.depth && f.depth[x] > f.depth[n]
  }

  lemma NodeFacts(m: Memory, f: Forest, n: RTNode)
    requires Shape(m, f) && n in f.kids
    ensures n in m && n in f.depth && m[n].child == Nth(f.kids[n], 0) && Progress(m, f, n, 0, {n})
  {
    assert Family(m, f, n);
    KidsLive(m, f, n);
  }

  lemma SubsStart(m: Memory, f: Forest, n: RTNode)
    requires n in f.kids && SubsOk(m, f, n)
    ensures n in m && m[n].subs == Subs(f.kids[n][0..]) && m[n].subCnt == |m[n].subs|
  {
    assert f.kids[n][0..] == f.kids[n];
  }

  lemma SameTreeThen(a: Memory, b: Memory, c: Memory)
    requires SameTree(a, b) && SameTree(b, c)
    ensures SameTree(a, c) && a.Keys == b.Keys == c.Keys
    ensures forall x :: x in a ==> c[x].parent == a[x].parent
  {
    forall x | x in a
      ensures SameLinks(c[x], a[x])
    {
      assert SameLinks(b[x], a[x]) && SameLinks(c[x], b[x]);
    }
  }

  lemma SameTreeParent(a: Memory, b: Memory, n: RTNode)
    requires SameTree(a, b) && n in a
    ensures n in b && b[n].parent == a[n].parent
  {
    assert SameLinks(b[n], a[n]);
  }

  lemma SubsEnd(ks: seq<RTNode>)
    ensures Subs(ks[|ks|..]) == []
  {
  }

  lemma SameTreeSelf(a: Memory)
    ensures SameTree(a, a)
  {
  }

  lemma UnsubscribedSame(m: Memory, m': Memory, parent: RTNode, sub: RTNode)
    requires parent in m && m' == m[parent := Unsubscribed(m[parent], sub)]
    ensures SameTree(m, m')
  {
  }

  lemma RemainingOk(m: Memory, m': Memory, f: Forest, rest: set<RTNode>)
    requires rest <= f.kids.Keys
    requires forall x :: x in rest ==> SubsOk(m, f, x)
    requires m'.Keys == m.Keys && forall x :: x in rest && x in m ==> m'[x] == m[x]
    ensures forall x :: x in rest ==> SubsOk(m', f, x)
  {
    forall x | x in rest
      ensures SubsOk(m', f, x)
    {
      assert SubsOk(m, f, x);
    }
  }

  lemma ProgressKept(m: Memory, m': Memory, f: Forest, n: RTNode, i: nat, seen: set<RTNode>)
    requires Progress(m, f, n, i, seen) && SameTree(m, m')
    ensures Progress(m', f, n, i, seen)
  {
    forall x | x in seen && x != n
      ensures x in m' && m'[x].parent.To? && m'[x].parent.node in seen
    {
      assert x in m && SameLinks(m'[x], m[x]);
    }
  }

  lemma ProgressLive(m: Memory, f: Forest, n: RTNode, i: nat, seen: set<RTNode>)
    requires Shape(m, f) && Progress(m, f, n, i, seen)
    ensures seen <= m.Keys
  {
    forall x | x in seen
      ensures x in m
    {
      assert Family(m, f, x);
    }
  }

  lemma NextSibling(m: Memory, f: Forest, n: RTNode, i: nat)
    requires Shape(m, f) && n in f.kids && i < |f.kids[n]|
    ensures f.kids[n][i] in m && m[f.kids[n][i]].right == Nth(f.kids[n], i + 1)
  {
    assert Family(m, f, n);
    assert Slot(m, f.kids[n], i);
  }

  lemma ParentOf(m: Memory, f: Forest, n: RTNode)
    requires Shape(m, f) && n in f.kids && n !in f.roots
    ensures n in m && m[n].parent.To? && m[n].parent.node in f.kids && m[n].parent.node in m
    ensures n in f.kids[m[n].parent.node] && n in f.depth && f.depth[n] == f.depth[m[n].parent.node] + 1
  {
    assert Home(m, f, n);
    assert Family(m, f, n) && Family(m, f, m[n].parent.node);
    KidsLive(m, f, m[n].parent.node);
  }

  lemma RemainingClosed(m: Memory, f: Forest, n: RTNode, i: nat, todo: set<RTNode>, seen: set<RTNode>)
    requires Shape(m, f) && Progress(m, f, n, i, seen) && i < |f.kids[n]|
    requires n in todo && todo <= f.kids.Keys && Closed(f, todo)
    ensures f.kids[n][i] in Remaining(f, n, todo, seen) && Closed(f, Remaining(f, n, todo, seen))
    ensures f.kids[n][i] !in f.roots && f.depth[f.kids[n][i]] == f.depth[n] + 1 <= f.bound
    ensures f.kids[n][i] in m && m[f.kids[n][i]].parent == To(n)
  {
    KidsLive(m, f, n);
    assert f.kids[n][i] in f.kids[n];
    assert Family(m, f, n);
    assert ChildOk(m, f, n, f.kids[n][i]);
    var rest := Remaining(f, n, todo, seen);
    forall x, k | x in rest && x in f.kids && k in f.kids[x]
      ensures k in rest
    {
      KidsLive(m, f, x);
    }
  }

  lemma ProgressStep(m: Memory, f: Forest, n: RTNode, i: nat, seen: set<RTNode>, more: set<RTNode>)
    requires Shape(m, f) && Progress(m, f, n, i, seen) && i < |f.kids[n]|
    requires Descendants(m, f, f.kids[n][i], more) && more !! (f.roots - {f.kids[n][i]}) && f.kids[n][i] !in f.roots
    requires forall x :: x in more ==> x in f.depth && f.depth[x] > f.depth[n]
    ensures Progress(m, f, n, i + 1, seen + more)
  {
    hide Closed, HangsFrom;
    var ks := f.kids[n];
    OnlyChildIn(m, f, n, i, more);
    StepClosed(f, n, seen, more);
    StepHangs(m, n, seen, ks[i], more);
    forall j | 0 <= j < |ks|
      ensures ks[j] in seen + more <==> j < i + 1
    {
      assert ks[j] in seen <==> j < i;
    }
  }

  /** Of the children of `n`, only child `i` is among its own descendants. */
  lemma OnlyChildIn(m: Memory, f: Forest, n: RTNode, i: nat, more: set<RTNode>)
    requires Shape(m, f) && n in f.kids && n in f.depth && i < |f.kids[n]| && HangsFrom(m, more, f.kids[n][i])
    requires f.kids[n][i] in more && forall x :: x in more ==> x in f.depth && f.depth[x] > f.depth[n]
    ensures forall j :: 0 <= j < |f.kids[n]| ==> (f.kids[n][j] in more <==> j == i)
    ensures f.kids[n][i] in m && m[f.kids[n][i]].parent == To(n)
  {
    var ks := f.kids[n];
    KidsLive(m, f, n);
    SortedKids(m, f, n);
    hide Shape;
    assert n !in more;
    assert forall x :: x in more && x in m && m[x].parent == To(n) ==> x == ks[i];
    forall j | 0 <= j < |ks|
      ensures ks[j] in more <==> j == i
    {
      assert ks[j] in ks;
    }
    assert ks[i] in ks;
  }

  lemma StepClosed(f: Forest, n: RTNode, seen: set<RTNode>, more: set<RTNode>)
    requires Closed(f, seen - {n}) && Closed(f, more) && n !in more
    ensures Closed(f, seen + more - {n})
  {
    forall x, k | x in seen + more - {n} && x in f.kids && k in f.kids[x]
      ensures k in seen + more - {n}
    {
      assert x in more ==> k in more;
      assert x in seen && x !in more ==> x in seen - {n} && k in seen - {n};
    }
  }

  lemma StepHangs(m: Memory, n: RTNode, seen: set<RTNode>, c: RTNode, more: set<RTNode>)
    requires HangsFrom(m, seen, n) && HangsFrom(m, more, c) && n in seen && c in m && m[c].parent == To(n)
    ensures HangsFrom(m, seen + more, n)
  {
  }

  lemma ProgressDone(m: Memory, f: Forest, n: RTNode, seen: set<RTNode>)
    requires n in f.kids && Progress(m, f, n, |f.kids[n]|, seen)
    ensures Descendants(m, f, n, seen) && seen !! (f.roots - {n}) && n in f.depth
    ensures forall x :: x in seen ==> x in f.depth && f.depth[x] >= f.depth[n]
  {
    forall k | k in f.kids[n]
      ensures k in seen
    {
      var j :| 0 <= j < |f.kids[n]| && f.kids[n][j] == k;
    }
    forall x, k | x in seen && x in f.kids && k in f.kids[x]
      ensures k in seen
    {
      assert x != n ==> x in seen - {n} && k in seen - {n};
    }
  }

  /** One more child looked at: if it is a subscription, the index loses its first entry. */
  lemma SubsStep(ks: seq<RTNode>, i: nat, l: Links)
    requires i < |ks| && l.subs == Subs(ks[i..]) && l.subCnt == |l.subs|
    ensures var l' := if ks[i].ty == RT_SUB then Unsubscribed(l, ks[i]) else l;
            l'.subs == Subs(ks[i + 1..]) && l'.subCnt == |l'.subs|
  {
    assert ks[i..][0] == ks[i] && ks[i..][1..] == ks[i + 1..];
  }

  lemma StillSolitary(m: Memory, m': Memory, f: Forest, parent: RTNode, child: RTNode, root: RTNode)
    requires Shape(m, f) && parent in f.kids && child !in f.kids && parent in m && root in f.roots && Solitary(m, root)
    requires Attached(m, m', Inserted(f.kids[parent], child), parent, child)
    ensures Solitary(m', root)
  {
    hide Inserted;
    InsertedMembers(f.kids[parent], child);
    assert Family(m, f, parent);
    assert root in f.kids[parent] ==> ChildOk(m, f, parent, root);
  }

  lemma ParentLive(m: Memory, f: Forest, n: RTNode)
    requires Shape(m, f) && n in f.kids
    ensures n in m && n in f.depth
  {
    assert Family(m, f, n);
  }

  lemma GrownIndexed(m: Memory, m': Memory, f: Forest, parent: RTNode, child: RTNode)
    requires Shape(m, f) && Indexed(m, f) && parent in f.kids && parent in f.depth && child !in f.kids && child in m
    requires Loose(m[child]) && m'.Keys == m.Keys
    requires forall x :: x in m && x != parent ==> m'[x].subs == m[x].subs && m'[x].subCnt == m[x].subCnt
    requires parent in m && if child.ty == RT_SUB
             then m'[parent].subs == m[parent].subs + [child] && m'[parent].subCnt == m[parent].subCnt + 1
             else m'[parent].subs == m[parent].subs && m'[parent].subCnt == m[parent].subCnt
    ensures Indexed(m', Grown(f, parent, child))
  {
    hide Inserted, Shape;
    var g := Grown(f, parent, child);
    SortedKids(m, f, parent);
    InsertedSubs(f.kids[parent], child);
    forall x | x in g.kids
      ensures SubsOk(m', g, x)
    {
      assert x != child ==> SubsOk(m, f, x);
    }
  }

  lemma SortedKids(m: Memory, f: Forest, n: RTNode)
    requires Shape(m, f) && n in f.kids
    ensures Sorted(f.kids[n]) && Distinct(f.kids[n])
  {
    assert Family(m, f, n);
  }

  /** `gone` is made of `n` and nodes below it. */
  ghost predicate Below(m: Memory, f: Forest, n: RTNode, gone: set<RTNode>) {
    && n in f.kids && n in f.depth && n in gone && gone <= f.kids.Keys && HangsFrom(m, gone, n) && gone !! f.roots
    && (forall x :: x in gone ==> x in f.depth && (x == n || f.depth[x] > f.depth[n]))
  }

  /** The tree has lost the nodes of `cut`, and the parent of `n` has lost `n`. */
  ghost predicate KeptKids(f: Forest, n: RTNode, parent: Ptr, f': Forest, cut: set<RTNode>) {
    && f'.kids.Keys == f.kids.Keys - cut && f'.bound == f.bound
    && (forall x :: x in f'.kids && x in f.kids && x != n ==>
          f'.kids[x] == if To(x) == parent then Without(f.kids[x], n) else f.kids[x])
    && (forall x :: x in f'.kids && x in f.depth && x in f'.depth ==> f'.depth[x] == f.depth[x])
  }

  /** The memory has lost the nodes of `cut`; nothing but tree links has changed in it. */
  ghost predicate KeptMemory(m: Memory, f: Forest, m': Memory, cut: set<RTNode>) {
    && m'.Keys == m.Keys - cut
    && (forall x :: x in m' && x in m ==>
          m'[x].parent == m[x].parent && m'[x].subs == m[x].subs && m'[x].subCnt == m[x].subCnt)
    && (forall x :: x in m' && x in m && x !in f.kids ==> m'[x] == m[x])
    && (forall x :: x in m' && x in m && x in f.roots ==> m'[x].left == m[x].left && m'[x].right == m[x].right)
  }

  /** What free_rtnode leaves: `gone` was `n` and its descendants; the parent has lost `n`; the rest
      of the tree, and the memory outside it, is as it was. */
  ghost predicate Freed(m: Memory, f: Forest, n: RTNode, gone: set<RTNode>, m': Memory, f': Forest) {
    && n in m && m[n].parent.To? && Below(m, f, n, gone) && Closed(f, gone)
    && Shape(m', f') && f'.roots == f.roots
    && KeptKids(f, n, m[n].parent, f', gone) && KeptMemory(m, f, m', gone)
  }

  /** Half way through free_rtnode: `n` is unhooked, and `gone` is `n` with some of its children and
      all below those. */
  ghost predicate Freeing(m: Memory, f: Forest, n: RTNode, gone: set<RTNode>, m': Memory, f': Forest) {
    && n in m && m[n].parent.To? && n in f'.kids && Below(m, f, n, gone) && Closed(f, gone - {n})
    && m[n].parent.node in f.depth && f.depth[n] == f.depth[m[n].parent.node] + 1
    && Shape(m', f') && f'.roots == f.roots + {n}
    && KeptKids(f, n, m[n].parent, f', gone - {n}) && KeptMemory(m, f, m', gone - {n})
    && (forall k :: k in f'.kids[n] ==> k in f.kids[n])
    && (forall k :: k in f.kids[n] ==> k in f'.kids[n] || k in gone)
  }

  lemma FreeingStart(m: Memory, f: Forest, p: RTNode, n: RTNode, m': Memory)
    requires n in f.kids && n !in f.roots && n in m && m[n].parent == To(p) && p in f.kids && p in m
    requires n in f.depth && p in f.depth && f.depth[n] == f.depth[p] + 1
    requires Detached(m, m', Without(f.kids[p], n), p) && Shape(m', Cut(f, p, n))
    requires forall x :: x in m && x in m' ==> m'[x].subs == m[x].subs && m'[x].subCnt == m[x].subCnt
    requires forall x :: x in m && x in m' && x !in f.kids ==> m'[x] == m[x]
    requires forall x :: x in Without(f.kids[p], n) ==> x !in f.roots
    ensures Freeing(m, f, n, {n}, m', Cut(f, p, n))
  {
    hide Without, Shape, Detached, KeptKids, KeptMemory, Below, Closed;
    StartKids(f, p, n);
    StartMemory(m, f, p, n, m');
    StartBelow(m, f, n);
    var none := {n} - {n};
    assert none == {};
  }

  lemma SiblingsNotRoots(m: Memory, f: Forest, p: RTNode, n: RTNode)
    requires Shape(m, f) && p in f.kids && n in f.kids[p]
    ensures forall x :: x in Without(f.kids[p], n) ==> x !in f.roots
  {
    assert Family(m, f, p);
    WithoutMembers(f.kids[p], n);
    forall x | x in Without(f.kids[p], n)
      ensures x !in f.roots
    {
      assert ChildOk(m, f, p, x);
    }
  }

  lemma StartBelow(m: Memory, f: Forest, n: RTNode)
    requires n in f.kids && n !in f.roots && n in f.depth
    ensures Below(m, f, n, {n}) && Closed(f, {})
  {
  }

  lemma StartKids(f: Forest, p: RTNode, n: RTNode)
    requires p in f.kids && n in f.kids && p != n
    ensures KeptKids(f, n, To(p), Cut(f, p, n), {})
  {
    hide Without;
  }

  lemma StartMemory(m: Memory, f: Forest, p: RTNode, n: RTNode, m': Memory)
    requires p in f.kids && p in m && Detached(m, m', Without(f.kids[p], n), p)
    requires forall x :: x in m && x in m' ==> m'[x].subs == m[x].subs && m'[x].subCnt == m[x].subCnt
    requires forall x :: x in m && x in m' && x !in f.kids ==> m'[x] == m[x]
    requires forall x :: x in Without(f.kids[p], n) ==> x !in f.roots
    ensures KeptMemory(m, f, m', {})
  {
    hide Without, Doubly;
    assert m.Keys - {} == m.Keys;
  }

  lemma FreeingFacts(m: Memory, f: Forest, n: RTNode, gone: set<RTNode>, m': Memory, f': Forest)
    requires Freeing(m, f, n, gone, m', f')
    ensures Shape(m', f') && n in m' && n in f'.kids && m'[n].child == Nth(f'.kids[n], 0)
  {
    assert Family(m', f', n);
  }

  lemma FirstChild(m: Memory, f: Forest, n: RTNode)
    requires Shape(m, f) && n in f.kids && f.kids[n] != []
    ensures var c := f.kids[n][0];
            && c in f.kids && c !in f.roots && c in f.depth && n in f.depth && f.depth[c] == f.depth[n] + 1 <= f.bound
            && c in m && m[c].parent == To(n)
  {
    assert Family(m, f, n) && f.kids[n][0] in f.kids[n];
    assert ChildOk(m, f, n, f.kids[n][0]);
  }

  lemma FreeingChild(m: Memory, f: Forest, n: RTNode, gone: set<RTNode>, m': Memory, f': Forest)
    requires Freeing(m, f, n, gone, m', f') && n in f'.kids && f'.kids[n] != [] && f.depth.Keys == f.kids.Keys
    ensures var c := f'.kids[n][0];
            && c in f'.kids && c !in f'.roots && c in f'.depth && c in f.depth && n in f.depth
            && f'.depth[c] == f.depth[c] == f.depth[n] + 1 <= f.bound == f'.bound
            && c in m' && m'[c].parent == To(n)
  {
    hide Without, Family, Home, Closed, HangsFrom, KeptMemory;
    FirstChild(m', f', n);
    hide Shape;
  }

  /** Nodes below the child `c` of `n` are below `n`; nothing about them has changed yet. */
  lemma MoreBelow(m: Memory, f: Forest, n: RTNode, gone: set<RTNode>, m1: Memory, f1: Forest, c: RTNode,
                  more: set<RTNode>)
    requires n in m && m[n].parent.To? && n in f.depth && n in gone && f.depth.Keys == f.kids.Keys
    requires m[n].parent.node in f.depth && f.depth[n] == f.depth[m[n].parent.node] + 1
    requires KeptKids(f, n, m[n].parent, f1, gone - {n}) && KeptMemory(m, f, m1, gone - {n})
    requires Below(m1, f1, c, more) && c in f.depth && f.depth[c] == f.depth[n] + 1
    ensures forall x :: x in more ==> x in f.depth && f.depth[x] > f.depth[n]
    ensures forall x :: x in more ==> x in f.kids && x in f1.kids && f1.kids[x] == f.kids[x] && x !in gone
    ensures forall x :: x in more && x != c ==> x in m && m[x].parent.To? && m[x].parent.node in more
    ensures n !in more
  {
    hide Without, Closed;
    forall x | x in more
      ensures x in f.depth && f.depth[x] > f.depth[n] && x in f.kids && x in f1.kids && f1.kids[x] == f.kids[x]
      ensures x !in gone
      ensures x != c ==> x in m && m[x].parent.To? && m[x].parent.node in more
    {
      assert x in f1.kids && x in f.kids && x in f1.depth;
      assert f1.depth[x] == f.depth[x];
    }
  }

  lemma StepBelow(m: Memory, f: Forest, n: RTNode, gone: set<RTNode>, m1: Memory, f1: Forest, c: RTNode,
                  more: set<RTNode>)
    requires Below(m, f, n, gone) && Closed(f, gone - {n}) && f1.roots == f.roots + {n}
    requires c in m && m[c].parent == To(n) && c in more && Closed(f1, more) && more !! f1.roots
    requires forall x :: x in more ==> x in f.depth && f.depth[x] > f.depth[n]
    requires forall x :: x in more ==> x in f.kids && x in f1.kids && f1.kids[x] == f.kids[x] && x !in gone
    requires forall x :: x in more && x != c ==> x in m && m[x].parent.To? && m[x].parent.node in more
    ensures Below(m, f, n, gone + more) && Closed(f, gone + more - {n})
  {
    forall x, k | x in gone + more - {n} && x in f.kids && k in f.kids[x]
      ensures k in gone + more - {n}
    {
      assert x in more ==> k in f1.kids[x] && k in more;
      assert x in gone ==> x in gone - {n} && k in gone - {n};
    }
  }

  lemma StepKids(f: Forest, n: RTNode, parent: Ptr, gone: set<RTNode>, f1: Forest, c: RTNode, more: set<RTNode>,
                 f2: Forest)
    requires KeptKids(f, n, parent, f1, gone - {n}) && KeptKids(f1, c, To(n), f2, more) && parent != To(n)
    requires f1.kids.Keys == f1.depth.Keys && f2.kids.Keys == f2.depth.Keys && f.kids.Keys == f.depth.Keys
    requires n in gone && n !in more && c in more && n in f1.kids
    ensures KeptKids(f, n, parent, f2, gone + more - {n}) && n in f2.kids && f2.kids[n] == Without(f1.kids[n], c)
  {
    hide Without;
    assert gone + more - {n} == (gone - {n}) + more;
    forall x | x in f2.kids && x in f.kids && x != n
      ensures f2.kids[x] == if To(x) == parent then Without(f.kids[x], n) else f.kids[x]
    {
      assert x in f1.kids && x != c;
    }
  }

  lemma StepMemory(m: Memory, f: Forest, n: RTNode, gone: set<RTNode>, m1: Memory, f1: Forest, more: set<RTNode>,
                   m2: Memory)
    requires KeptMemory(m, f, m1, gone - {n}) && KeptMemory(m1, f1, m2, more) && n in gone && n !in more
    requires f1.kids.Keys <= f.kids.Keys && f.roots <= f1.roots
    ensures KeptMemory(m, f, m2, gone + more - {n})
  {
    assert gone + more - {n} == (gone - {n}) + more;
    forall x | x in m2 && x in m
      ensures m2[x].parent == m[x].parent && m2[x].subs == m[x].subs && m2[x].subCnt == m[x].subCnt
      ensures x !in f.kids ==> m2[x] == m[x]
      ensures x in f.roots ==> m2[x].left == m[x].left && m2[x].right == m[x].right
    {
      assert x in m1;
    }
  }

  lemma FreeingStep(m: Memory, f: Forest, n: RTNode, gone: set<RTNode>, m1: Memory, f1: Forest,
                    more: set<RTNode>, m2: Memory, f2: Forest)
    requires Freeing(m, f, n, gone, m1, f1) && n in f1.kids && f1.kids[n] != [] && f.depth.Keys == f.kids.Keys
    requires Freed(m1, f1, f1.kids[n][0], more, m2, f2)
    ensures Freeing(m, f, n, gone + more, m2, f2) && n in f2.kids && |f2.kids[n]| < |f1.kids[n]|
  {
    hide Without, Family, Home, Closed, HangsFrom;
    var c := f1.kids[n][0];
    FreeingChild(m, f, n, gone, m1, f1);
    MoreBelow(m, f, n, gone, m1, f1, c, more);
    assert c in m && m[c].parent == To(n);
    StepBelow(m, f, n, gone, m1, f1, c, more);
    hide Below;
    StepKids(f, n, m[n].parent, gone, f1, c, more, f2);
    StepMemory(m, f, n, gone, m1, f1, more, m2);
    WithoutHead(f1.kids[n]);
    assert f1.roots == f.roots + {n};
  }

  lemma WithoutHead(ks: seq<RTNode>)
    requires ks != []
    ensures Without(ks, ks[0]) == ks[1..]
    ensures forall k :: k in ks <==> k == ks[0] || k in ks[1..]
  {
  }

  lemma FreeingDone(m: Memory, f: Forest, n: RTNode, gone: set<RTNode>, m': Memory, f': Forest)
    requires Freeing(m, f, n, gone, m', f') && n in m' && n in f'.kids && m'[n].child == Null
    requires m'[n].child == Nth(f'.kids[n], 0)
    ensures Freed(m, f, n, gone, m' - {n}, Dropped(f', n))
  {
    hide Without, Shape, HangsFrom;
    DroppedShape(m', f', n);
    DoneKids(f, n, m[n].parent, gone, f');
    DoneMemory(m, f, n, gone, m');
    hide KeptKids, KeptMemory;
    assert n !in f.roots;
    assert f'.roots - {n} == f.roots;
    forall x, k | x in gone && x in f.kids && k in f.kids[x]
      ensures k in gone
    {
      assert x != n ==> x in gone - {n} && k in gone - {n};
    }
  }

  lemma DoneKids(f: Forest, n: RTNode, parent: Ptr, gone: set<RTNode>, f': Forest)
    requires KeptKids(f, n, parent, f', gone - {n}) && n in gone
    ensures KeptKids(f, n, parent, Dropped(f', n), gone)
  {
    hide Without;
    assert gone == (gone - {n}) + {n};
  }

  lemma DoneMemory(m: Memory, f: Forest, n: RTNode, gone: set<RTNode>, m': Memory)
    requires KeptMemory(m, f, m', gone - {n}) && n in gone
    ensures KeptMemory(m, f, m' - {n}, gone)
  {
    assert gone == (gone - {n}) + {n};
  }

  /** All of a tree with one root is below that root. */
  lemma {:induction false} AllBelowRoot(m: Memory, f: Forest, root: RTNode, done: set<RTNode>)
    requires Shape(m, f) && f.roots == {root} && root in done && done <= f.kids.Keys && Closed(f, done)
    ensures done == f.kids.Keys
  {
    forall x | x in f.kids.Keys
      ensures x in done
    {
      assert HangsFrom(m, f.kids.Keys, root) by {
        forall y | y in f.kids.Keys && y != root
          ensures y in m && m[y].parent.To? && m[y].parent.node in f.kids.Keys
        {
          ParentOf(m, f, y);
        }
      }
      WithinClosed(m, f, root, f.kids.Keys, done, x);
    }
  }

  lemma RootLive(m: Memory, f: Forest, root: RTNode)
    requires Shape(m, f) && root in f.roots
    ensures root in f.kids
  {
  }
}
