/** cJSON_Duplicate on the nodes themselves: fresh nodes, linked as the originals are. */
module JsonCopy {
  import opened Sequences
  import opened JsonList

  /** Nodes that are siblings, each with the siblings below it. */
  datatype Forest = End | Tree(node: Node, kids: Forest, rest: Forest)

  function Roots(f: Forest): seq<Node> {
    match f case End => [] case Tree(n, _, rest) => [n] + Roots(rest)
  }

  ghost function AllNodes(f: Forest): set<Node> {
    match f case End => {} case Tree(n, kids, rest) => {n} + AllNodes(kids) + AllNodes(rest)
  }

  /** The nodes below the roots. */
  ghost function Inner(f: Forest): set<Node> {
    match f case End => {} case Tree(_, kids, rest) => AllNodes(kids) + Inner(rest)
  }

  ghost function Size(f: Forest): nat {
    match f case End => 0 case Tree(_, kids, rest) => 1 + Size(kids) + Size(rest)
  }

  /** The child list of every node is that of the forest. */
  ghost predicate WellLinked(f: Forest)
    reads AllNodes(f)
  {
    match f
    case End => true
    case Tree(n, kids, rest) =>
      RootsAreNodes(kids);
      Children(n, Roots(kids)) && WellLinked(kids) && WellLinked(rest)
  }

  lemma {:induction false} RootsAreNodes(f: Forest)
    ensures forall n :: n in Roots(f) ==> n in AllNodes(f)
  {
    if f.Tree? {
      RootsAreNodes(f.rest);
    }
  }

  /** The same tree with the same contents. */
  predicate Alike(f: Forest, g: Forest) {
    match (f, g)
    case (End, End) => true
    case (Tree(n, kids, rest), Tree(n', kids', rest')) => n.data == n'.data && Alike(kids, kids') && Alike(rest, rest')
    case _ => false
  }

  function Append(f: Forest, g: Forest): Forest {
    match f case End => g case Tree(n, kids, rest) => Tree(n, kids, Append(rest, g))
  }

  lemma {:induction false} AppendParts(f: Forest, g: Forest)
    ensures Roots(Append(f, g)) == Roots(f) + Roots(g)
    ensures AllNodes(Append(f, g)) == AllNodes(f) + AllNodes(g) && Inner(Append(f, g)) == Inner(f) + Inner(g)
    ensures Size(Append(f, g)) == Size(f) + Size(g)
  {
    if f.Tree? {
      AppendParts(f.rest, g);
    }
  }

  lemma {:induction false} AppendLinked(f: Forest, g: Forest)
    ensures WellLinked(Append(f, g)) <==> WellLinked(f) && WellLinked(g)
  {
    if f.Tree? {
      AppendLinked(f.rest, g);
    }
  }

  lemma {:induction false} AppendAlike(f: Forest, g: Forest, f': Forest, g': Forest)
    requires Alike(f, f') && Alike(g, g')
    ensures Alike(Append(f, g), Append(f', g'))
  {
    if f.Tree? {
      AppendAlike(f.rest, g, f'.rest, g');
    }
  }

  lemma {:induction false} InnerAreNodes(f: Forest)
    ensures Inner(f) <= AllNodes(f)
  {
    if f.Tree? {
      InnerAreNodes(f.rest);
    }
  }

  // ----- the links at a moment

  datatype Ptrs = Ptrs(child: Node?, next: Node?, prev: Node?)

  /** The links of some nodes. */
  ghost function Links(ns: set<Node>): map<Node, Ptrs>
    reads ns
  {
    map n | n in ns :: Ptrs(n.child, n.next, n.prev)
  }

  predicate LinkedAt(h: map<Node, Ptrs>, ks: seq<Node>, i: nat)
    requires i < |ks|
  {
    ks[i] in h && h[ks[i]].next == Nth(ks, i + 1) && h[ks[i]].prev == Nth(ks, if i == 0 then |ks| - 1 else i - 1)
  }

  predicate ChildrenIn(h: map<Node, Ptrs>, n: Node, ks: seq<Node>) {
    && n in h && n !in ks && Distinct(ks) && h[n].child == Nth(ks, 0)
    && forall i :: 0 <= i < |ks| ==> LinkedAt(h, ks, i)
  }

  predicate LinkedIn(h: map<Node, Ptrs>, f: Forest) {
    match f
    case End => true
    case Tree(n, kids, rest) => ChildrenIn(h, n, Roots(kids)) && LinkedIn(h, kids) && LinkedIn(h, rest)
  }

  lemma SameChildren(h: map<Node, Ptrs>, n: Node, ks: seq<Node>)
    requires n in h && h[n] == Ptrs(n.child, n.next, n.prev)
    requires forall k :: k in ks ==> k in h && h[k] == Ptrs(k.child, k.next, k.prev)
    ensures Children(n, ks) <==> ChildrenIn(h, n, ks)
  {
    hide Distinct;
    forall i | 0 <= i < |ks|
      ensures Linked(ks, i) <==> LinkedAt(h, ks, i)
    {
      assert ks[i] in ks;
    }
    hide LinkedAt;
  }

  lemma {:induction false} SameLinks(h: map<Node, Ptrs>, f: Forest)
    requires forall n :: n in AllNodes(f) ==> n in h && h[n] == Ptrs(n.child, n.next, n.prev)
    ensures WellLinked(f) <==> LinkedIn(h, f)
  {
    if f.Tree? {
      RootsAreNodes(f.kids);
      SameChildren(h, f.node, Roots(f.kids));
      SameLinks(h, f.kids);
      SameLinks(h, f.rest);
    }
  }

  /** Links below the roots stand if the roots keep their children and all below them is as it was. */
  lemma {:induction false} LinksKept(h: map<Node, Ptrs>, h': map<Node, Ptrs>, f: Forest)
    requires LinkedIn(h, f)
    requires forall n :: n in AllNodes(f) && n in h ==> n in h' && h'[n].child == h[n].child
    requires forall n :: n in Inner(f) && n in h ==> n in h' && h'[n] == h[n]
    ensures LinkedIn(h', f)
  {
    if f.Tree? {
      RootsAreNodes(f.kids);
      InnerAreNodes(f.kids);
      SameKids(h, h', f.node, Roots(f.kids));
      LinksKept(h, h', f.kids);
      LinksKept(h, h', f.rest);
    }
  }

  // ----- copying

  /** Sibling `i` of some that are linked both ways and open at both ends. */
  predicate Placed(h: map<Node, Ptrs>, ks: seq<Node>, i: nat)
    requires i < |ks|
  {
    ks[i] in h && h[ks[i]].next == Nth(ks, i + 1) && h[ks[i]].prev == Nth(ks, i - 1)
  }

  predicate Strung(h: map<Node, Ptrs>, ks: seq<Node>) {
    Distinct(ks) && forall i :: 0 <= i < |ks| ==> Placed(h, ks, i)
  }

  /** The copies so far hang from `newitem` by their first, and `next` is their last. */
  ghost predicate Hanging(h: map<Node, Ptrs>, newitem: Node, next: Node?, copies: Forest) {
    var ks := Roots(copies);
    && newitem in h && newitem !in AllNodes(copies) && AllNodes(copies) <= h.Keys
    && h[newitem].child == Nth(ks, 0) && next == Nth(ks, |ks| - 1)
    && Strung(h, ks) && LinkedIn(h, copies) && forall n :: n in ks ==> n !in Inner(copies)
  }

  /** The links once one more copy is hung behind the last: crosswired with it, or made the first child. */
  function Hooked(h: map<Node, Ptrs>, newitem: Node, next: Node?, newchild: Node): map<Node, Ptrs>
    requires newitem in h && newchild in h && (next != null ==> next in h)
  {
    if next == null then h[newitem := h[newitem].(child := newchild)]
    else h[next := h[next].(next := newchild)][newchild := h[newchild].(prev := next)]
  }

  method Hook(newitem: Node, next: Node?, newchild: Node, ghost ns: set<Node>)
    requires newitem in ns && newchild in ns && (next != null ==> next in ns)
    requires next != newchild && newitem != newchild && next != newitem
    modifies newitem, next, newchild
    ensures Links(ns) == Hooked(old(Links(ns)), newitem, next, newchild)
    ensures newitem.next == old(newitem.next) && newitem.prev == old(newitem.prev)
  {
    if next != null {
      next.next := newchild;
      newchild.prev := next;
    } else {
      newitem.child := newchild;
    }
  }

  lemma StrungMore(h: map<Node, Ptrs>, newitem: Node, next: Node?, newchild: Node, ks: seq<Node>)
    requires newitem in h && newchild in h && newitem !in ks && newchild !in ks && newitem != newchild
    requires Strung(h, ks) && next == Nth(ks, |ks| - 1) && (next != null ==> next in h)
    requires h[newchild].next == null && h[newchild].prev == null
    ensures Strung(Hooked(h, newitem, next, newchild), ks + [newchild])
  {
    var h', all := Hooked(h, newitem, next, newchild), ks + [newchild];
    forall i | 0 <= i < |all|
      ensures Placed(h', all, i)
    {
      assert i < |ks| ==> Placed(h, ks, i) && all[i] == ks[i] && ks[i] in ks;
    }
  }

  /** That keeps the copies hanging, with the new one behind them. */
  lemma HookedHangs(h: map<Node, Ptrs>, newitem: Node, next: Node?, newchild: Node, copies: Forest, below: Forest)
    requires Hanging(h, newitem, next, copies) && newchild in h && (next != null ==> next in h)
    requires h[newchild].next == null && h[newchild].prev == null
    requires ChildrenIn(h, newchild, Roots(below)) && LinkedIn(h, below) && AllNodes(below) <= h.Keys
    requires newchild != newitem && newchild !in AllNodes(copies) && newchild !in AllNodes(below)
    requires newitem !in AllNodes(below) && AllNodes(below) !! AllNodes(copies)
    ensures Hanging(Hooked(h, newitem, next, newchild), newitem, newchild, Append(copies, Tree(newchild, below, End)))
  {
    var h', one := Hooked(h, newitem, next, newchild), Tree(newchild, below, End);
    var ks := Roots(copies);
    AppendParts(copies, one);
    OneNodes(newchild, below);
    RootsAreNodes(copies);
    InnerAreNodes(copies);
    hide LinkedIn, ChildrenIn, Distinct, Append, AllNodes, Inner, Roots;
    assert next != null ==> next == ks[|ks| - 1] && next in ks;
    StrungMore(h, newitem, next, newchild, ks);
    HookedSame(h, newitem, next, newchild);
    HookedLinked(h, newitem, next, newchild, copies, below);
    hide Strung, Hooked;
  }

  lemma HookedLinked(h: map<Node, Ptrs>, newitem: Node, next: Node?, newchild: Node, copies: Forest, below: Forest)
    requires newitem in h && newchild in h && newchild != newitem && (next != null ==> next in h && next != newitem)
    requires LinkedIn(h, copies) && ChildrenIn(h, newchild, Roots(below)) && LinkedIn(h, below)
    requires newitem !in AllNodes(copies) && newchild !in AllNodes(copies) && (next != null ==> next !in Inner(copies))
    requires newitem !in AllNodes(below) && newchild !in AllNodes(below) && (next != null ==> next !in AllNodes(below))
    ensures LinkedIn(Hooked(h, newitem, next, newchild), Append(copies, Tree(newchild, below, End)))
  {
    var h' := Hooked(h, newitem, next, newchild);
    RootsAreNodes(below);
    InnerAreNodes(copies);
    InnerAreNodes(below);
    HookedSame(h, newitem, next, newchild);
    hide LinkedIn, ChildrenIn, Append, AllNodes, Inner, Roots, Hooked;
    LinksKept(h, h', copies);
    LinksKept(h, h', below);
    SameKids(h, h', newchild, Roots(below));
    OneLinkedIn(h', newchild, below);
    AppendLinkedIn(h', copies, Tree(newchild, below, End));
  }

  /** What hooking leaves alone. */
  lemma HookedSame(h: map<Node, Ptrs>, newitem: Node, next: Node?, newchild: Node)
    requires newitem in h && newchild in h && newitem != newchild && (next != null ==> next in h && next != newitem)
    ensures var h' := Hooked(h, newitem, next, newchild);
            && h'.Keys == h.Keys
            && (forall n :: n in h && n != newitem && n != newchild && n != next ==> h'[n] == h[n])
            && (forall n :: n in h && n != newitem ==> h'[n].child == h[n].child)
            && h'[newitem].child == if next == null then newchild else h[newitem].child
  {
  }

  lemma OneLinkedIn(h: map<Node, Ptrs>, n: Node, below: Forest)
    requires ChildrenIn(h, n, Roots(below)) && LinkedIn(h, below)
    ensures LinkedIn(h, Tree(n, below, End))
  {
  }

  lemma SameKids(h: map<Node, Ptrs>, h': map<Node, Ptrs>, n: Node, ks: seq<Node>)
    requires ChildrenIn(h, n, ks) && n in h' && h'[n].child == h[n].child
    requires forall k :: k in ks && k in h ==> k in h' && h'[k] == h[k]
    ensures ChildrenIn(h', n, ks)
  {
    hide Distinct;
    forall i | 0 <= i < |ks|
      ensures LinkedAt(h', ks, i)
    {
      assert LinkedAt(h, ks, i) && ks[i] in ks;
    }
  }

  lemma {:induction false} AppendLinkedIn(h: map<Node, Ptrs>, f: Forest, g: Forest)
    ensures LinkedIn(h, Append(f, g)) <==> LinkedIn(h, f) && LinkedIn(h, g)
  {
    if f.Tree? {
      AppendLinkedIn(h, f.rest, g);
    }
  }

  /** The first copy made to point back at the last, the copies are a child list. */
  lemma ClosedChildren(h: map<Node, Ptrs>, newitem: Node, next: Node?, copies: Forest)
    requires Hanging(h, newitem, next, copies)
    ensures var first := h[newitem].child;
            var h' := if first != null && first in h then h[first := h[first].(prev := next)] else h;
            ChildrenIn(h', newitem, Roots(copies)) && LinkedIn(h', copies)
  {
    hide LinkedIn;
    var first, ks := h[newitem].child, Roots(copies);
    RootsAreNodes(copies);
    InnerAreNodes(copies);
    assert forall i :: 0 <= i < |ks| ==> Placed(h, ks, i);
    if first != null {
      assert first == ks[0] && first in ks;
      var h' := h[first := h[first].(prev := next)];
      LinksKept(h, h', copies);
      ClosedRing(h, newitem, next, ks);
    }
  }

  lemma ClosedRing(h: map<Node, Ptrs>, newitem: Node, next: Node?, ks: seq<Node>)
    requires ks != [] && Strung(h, ks) && next == ks[|ks| - 1] && newitem in h && newitem !in ks &&
             h[newitem].child == ks[0]
    requires ks[0] in h
    ensures ChildrenIn(h[ks[0] := h[ks[0]].(prev := next)], newitem, ks)
  {
    var h' := h[ks[0] := h[ks[0]].(prev := next)];
    forall i | 0 <= i < |ks|
      ensures LinkedAt(h', ks, i)
    {
      assert Placed(h, ks, i);
    }
    assert ks[0] in ks;
  }

  lemma {:induction false} AppendTree(f: Forest, g: Forest)
    requires g.Tree?
    ensures Append(Append(f, Tree(g.node, g.kids, End)), g.rest) == Append(f, g)
  {
    if f.Tree? {
      AppendTree(f.rest, g);
    }
  }

  lemma {:induction false} AppendEnd(f: Forest)
    ensures Append(f, End) == f
  {
    if f.Tree? {
      AppendEnd(f.rest);
    }
  }

  /** Trees that are there before a new node are made of other nodes. */
  lemma {:induction false} AlreadyThere(f: Forest)
    ensures forall n :: n in AllNodes(f) ==> allocated(n)
  {
    if f.Tree? {
      AlreadyThere(f.kids);
      AlreadyThere(f.rest);
    }
  }

  /** A turn of the loop: one child is copied, and its copy hung behind the others. */
  method CopyOne(newitem: Node, next: Node?, child: Node, ghost copies: Forest, ghost kids: Forest)
    returns (newchild: Node, ghost below: Forest)
    requires Children(child, Roots(kids)) && WellLinked(kids)
    requires Hanging(Links({newitem} + AllNodes(copies)), newitem, next, copies)
    modifies newitem, next
    ensures fresh(newchild) && newchild.data == child.data && (forall n :: n in AllNodes(below) ==> fresh(n))
    ensures newitem.next == old(newitem.next) && newitem.prev == old(newitem.prev) && Alike(kids, below)
    ensures var all := Append(copies, Tree(newchild, below, End));
            Hanging(Links({newitem} + AllNodes(all)), newitem, newchild, all)
    decreases Size(kids), 1
  {
    hide Hanging, LinkedIn, ChildrenIn, WellLinked, Hooked, AllNodes, Roots, Append, Alike, Children;
    AlreadyThere(copies);
    ghost var ms := {newitem} + AllNodes(copies);
    ghost var h0 := Links(ms);
    HangingFacts(h0, newitem, next, copies);
    newchild, below := Duplicate(child, kids);
    assert Links(ms) == h0;
    ghost var ns := ms + {newchild} + AllNodes(below);
    ghost var h := Links(ns);
    HangingIn(h0, h, newitem, next, copies);
    RootsAreNodes(below);
    SameLinks(h, below);
    SameChildren(h, newchild, Roots(below));
    HookedHangs(h, newitem, next, newchild, copies, below);
    Hook(newitem, next, newchild, ns);
    AppendParts(copies, Tree(newchild, below, End));
    OneNodes(newchild, below);
    assert ns == {newitem} + AllNodes(Append(copies, Tree(newchild, below, End)));
  }

  lemma OneNodes(n: Node, below: Forest)
    ensures AllNodes(Tree(n, below, End)) == {n} + AllNodes(below) && Inner(Tree(n, below, End)) == AllNodes(below)
    ensures Roots(Tree(n, below, End)) == [n]
  {
  }

  lemma FirstRoot(f: Forest)
    requires Roots(f) != []
    ensures f.Tree? && Roots(f)[0] == f.node && Roots(f)[1..] == Roots(f.rest)
  {
  }

  lemma HangingFacts(h: map<Node, Ptrs>, newitem: Node, next: Node?, copies: Forest)
    requires Hanging(h, newitem, next, copies)
    ensures newitem in h && newitem !in AllNodes(copies) && (next != null ==> next in AllNodes(copies))
    ensures h[newitem].child != null ==> h[newitem].child in AllNodes(copies)
  {
    RootsAreNodes(copies);
    var ks := Roots(copies);
    assert ks != [] ==> ks[0] in ks && ks[|ks| - 1] in ks;
  }

  /** More links do not matter. */
  lemma HangingIn(h: map<Node, Ptrs>, h': map<Node, Ptrs>, newitem: Node, next: Node?, copies: Forest)
    requires Hanging(h, newitem, next, copies) && forall n :: n in h ==> n in h' && h'[n] == h[n]
    ensures Hanging(h', newitem, next, copies)
  {
    LinksKept(h, h', copies);
    var ks := Roots(copies);
    forall i | 0 <= i < |ks|
      ensures Placed(h', ks, i)
    {
      assert Placed(h, ks, i);
    }
  }

  /** cJSON_Duplicate with recurse.  `kids` are the trees below `item`; the copy is made of fresh nodes and
      linked as a child list is, down to the leaves. */
  method Duplicate(item: Node, ghost kids: Forest) returns (newitem: Node, ghost copies: Forest)
    requires Children(item, Roots(kids)) && WellLinked(kids)
    ensures fresh(newitem) && newitem.data == item.data && newitem.next == null && newitem.prev == null
    ensures (forall n :: n in AllNodes(copies) ==> fresh(n)) && newitem !in AllNodes(copies)
    ensures Children(newitem, Roots(copies)) && WellLinked(copies) && Alike(kids, copies)
    decreases Size(kids), 0
  {
    hide Hanging, LinkedIn, ChildrenIn, Roots, Append, Alike, AllNodes, Links, Distinct;
    AlreadyThere(kids);
    RootsAreNodes(kids);
    ghost var ks, i := Roots(kids), 0;
    RootsThere(kids);
    var child, next: Node? := item.child, null;
    newitem := new Node(item.data);
    copies := End;
    ghost var done, todo := End, kids;
    NoCopies(kids);
    NothingHangs(Links({newitem} + AllNodes(copies)), newitem) by {
      assert newitem in {newitem} + AllNodes(copies);
      LinksOf({newitem} + AllNodes(copies), newitem);
    }
    while child != null
      invariant 0 <= i <= |ks| && Append(done, todo) == kids && Roots(todo) == ks[i..] && child == Nth(ks, i)
      invariant Children(item, ks) && WellLinked(kids)
      invariant fresh(newitem) && newitem.next == null && newitem.prev == null
      invariant next != null ==> fresh(next)
      invariant forall n :: n in AllNodes(copies) ==> fresh(n)
      invariant Hanging(Links({newitem} + AllNodes(copies)), newitem, next, copies) && Alike(done, copies)
      decreases Size(todo)
    {
      FirstRoot(todo);
      AppendLinked(done, todo);
      assert Linked(ks, i);
      ghost var below;
      next, below := CopyOne(newitem, next, child, copies, todo.kids);
      AppendTree(done, todo);
      AppendParts(copies, Tree(next, below, End));
      OneNodes(next, below);
      OneAlike(todo, next, below);
      AppendAlike(done, Tree(todo.node, todo.kids, End), copies, Tree(next, below, End));
      copies := Append(copies, Tree(next, below, End));
      done, todo, i := Append(done, Tree(todo.node, todo.kids, End)), todo.rest, i + 1;
      child := child.next;
    }
    NoRoots(todo);
    AppendEnd(done);
    LinksOf({newitem} + AllNodes(copies), newitem);
    HangingFacts(Links({newitem} + AllNodes(copies)), newitem, next, copies);
    Close(newitem, next, copies);
  }

  lemma NoRoots(f: Forest)
    requires Roots(f) == []
    ensures f == End
  {
  }

  lemma OneAlike(f: Forest, n: Node, below: Forest)
    requires f.Tree? && n.data == f.node.data && Alike(f.kids, below)
    ensures Alike(Tree(f.node, f.kids, End), Tree(n, below, End))
  {
  }

  lemma {:induction false} RootsThere(f: Forest)
    ensures forall j :: 0 <= j < |Roots(f)| ==> allocated(Roots(f)[j])
  {
    if f.Tree? {
      RootsThere(f.rest);
    }
  }

  lemma NoCopies(f: Forest)
    ensures AllNodes(End) == {} && Append(End, f) == f && Alike(End, End)
  {
  }

  lemma LinksOf(ns: set<Node>, n: Node)
    requires n in ns
    ensures n in Links(ns) && Links(ns)[n] == Ptrs(n.child, n.next, n.prev)
  {
  }

  lemma NothingHangs(h: map<Node, Ptrs>, newitem: Node)
    requires newitem in h && h[newitem].child == null
    ensures Hanging(h, newitem, null, End)
  {
  }

  method Close(newitem: Node, next: Node?, ghost copies: Forest)
    requires Hanging(Links({newitem} + AllNodes(copies)), newitem, next, copies)
    modifies newitem.child
    ensures Children(newitem, Roots(copies)) && WellLinked(copies) && newitem !in AllNodes(copies)
    ensures newitem.next == old(newitem.next) && newitem.prev == old(newitem.prev)
  {
    ghost var ns := {newitem} + AllNodes(copies);
    ghost var h := Links(ns);
    RootsAreNodes(copies);
    ClosedChildren(h, newitem, next, copies);
    assert newitem.child != null ==> newitem.child in Roots(copies);
    if newitem.child != null {
      newitem.child.prev := next;
    }
    ghost var h' := Links(ns);
    assert h' == if h[newitem].child != null && h[newitem].child in h
                 then h[h[newitem].child := h[h[newitem].child].(prev := next)] else h;
    SameChildren(h', newitem, Roots(copies));
    SameLinks(h', copies);
  }
}
