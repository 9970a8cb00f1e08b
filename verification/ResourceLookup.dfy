/** Finding a node of the resource tree, by resource id and by path. */
module ResourceLookup {
  import opened ResourceTree
  import opened ResourceTreeOps

  // ----- by id

  /** The nodes that hang from the siblings `ks`, those included. */
  ghost predicate Under(f: Forest, ks: seq<RTNode>, d: set<RTNode>) {
    (forall k :: k in ks ==> k in d) && d <= f.kids.Keys && Closed(f, d)
  }

  /** rt_search_ri from sibling `i` of `ks` on.  An id that is found is the id of a node of the tree; one that
      is not found is held by no node that hangs from those siblings. */
  method SearchRi(t: Tree, node: Ptr, ri: string, ghost n: RTNode, ghost ks: seq<RTNode>)
    returns (ret: Ptr, ghost seen: set<RTNode>)
    requires Shape(t.mem, t.f) && node == Nth(ks, 0) && Doubly(t.mem, ks) && n in t.f.kids
    requires ks == t.f.kids[n] || (ks == [n] && n in t.f.roots)
    ensures ret.To? ==> ret.node in t.f.kids && ret.node.ri == ri
    ensures ret == Null ==> Under(t.f, ks, seen) && forall x :: x in seen ==> x.ri != ri
    decreases t.f.bound - t.f.depth[n], ks == [n]
  {
    hide Shape, Doubly;
    var rtnode := node;
    ghost var i := 0;
    ret, seen := Null, {};
    while ret == Null && rtnode.To?
      invariant 0 <= i <= |ks| && (ret == Null ==> rtnode == Nth(ks, i))
      invariant ret.To? ==> ret.node in t.f.kids && ret.node.ri == ri
      invariant ret == Null ==> Under(t.f, ks[..i], seen) && forall x :: x in seen ==> x.ri != ri
      decreases |ks| - i, ret == Null
    {
      SiblingFacts(t.mem, t.f, n, ks, i);
      if rtnode.node.ri == ri {
        ret := rtnode;
        break;
      }
      ghost var more := {};
      if t.mem[rtnode.node].child.To? {
        ret, more := SearchRi(t, t.mem[rtnode.node].child, ri, rtnode.node, t.f.kids[rtnode.node]);
      }
      if ret == Null {
        MoreUnder(t.f, ks, i, seen, more);
        seen := seen + more + {rtnode.node};
      }
      rtnode, i := t.mem[rtnode.node].right, i + 1;
    }
    if ret == Null {
      assert ks[..i] == ks;
    }
  }

  lemma SiblingFacts(m: Memory, f: Forest, n: RTNode, ks: seq<RTNode>, i: nat)
    requires Shape(m, f) && Doubly(m, ks) && n in f.kids && i < |ks|
    requires ks == f.kids[n] || (ks == [n] && n in f.roots)
    ensures ks[i] in m && ks[i] in f.kids && m[ks[i]].right == Nth(ks, i + 1)
    ensures Doubly(m, f.kids[ks[i]]) && m[ks[i]].child == Nth(f.kids[ks[i]], 0)
    ensures n in f.depth && ks[i] in f.depth && f.depth[n] <= f.depth[ks[i]] <= f.bound
    ensures ks == f.kids[n] ==> f.depth[n] < f.depth[ks[i]]
    ensures f.kids[ks[i]] != [ks[i]] || ks[i] !in f.kids[ks[i]]
  {
    assert Slot(m, ks, i) && ks[i] in ks;
    KidsLive(m, f, n);
    assert Family(m, f, ks[i]);
    KidsLive(m, f, ks[i]);
  }

  lemma MoreUnder(f: Forest, ks: seq<RTNode>, i: nat, seen: set<RTNode>, more: set<RTNode>)
    requires i < |ks| && ks[i] in f.kids && Under(f, ks[..i], seen) && Under(f, f.kids[ks[i]], more)
    ensures Under(f, ks[..i + 1], seen + more + {ks[i]})
  {
    assert ks[..i + 1] == ks[..i] + [ks[i]];
  }

  /** Where a lookup ends: with a node of the tree or none, or outside the tree. */
  datatype Answer = Node(node: Ptr) | InDatabase | ByHybrid

  /** find_rtnode_by_ri: an id of a content instance is looked up in the database.  For any other, an id
      that no node of the tree has is not found, and one that some node has gives a node that has it. */
  method FindByRi(t: Tree, ri: string) returns (ret: Answer)
    requires t.Valid()
    ensures if "4-" <= ri then ret == InDatabase else ret.Node?
    ensures ret.Node? && ret.node.To? ==> ret.node.node in t.f.kids && ret.node.node.ri == ri
    ensures ret.Node? ==> (ret.node == Null <==> forall x :: x in t.f.kids ==> x.ri != ri)
    ensures ret.Node? ==>
            forall x :: x in t.f.kids && x.ri == ri && (forall y :: y in t.f.kids && y.ri == ri ==> y == x) ==>
            ret.node == To(x)
  {
    hide Shape, Indexed;
    if "4-" <= ri {
      return InDatabase;
    }
    RootList(t.mem, t.f, t.cb);
    var node;
    ghost var seen;
    node, seen := SearchRi(t, To(t.cb), ri, t.cb, [t.cb]);
    if node == Null {
      assert t.cb in [t.cb];
      AllBelowRoot(t.mem, t.f, t.cb, seen);
    }
    ret := Node(node);
  }

  lemma RootList(m: Memory, f: Forest, root: RTNode)
    requires Shape(m, f) && root in f.roots && Solitary(m, root)
    ensures root in f.kids && Doubly(m, [root]) && Nth([root], 0) == To(root)
  {
    assert Slot(m, [root], 0);
  }

  // ----- by path

  /** A name as a path can hold it. */
  predicate Proper(name: string) {
    name != [] && '/' !in name
  }

  function SlashAt(s: string): (k: nat)
    ensures k <= |s| && '/' !in s[..k] && (k < |s| ==> s[k] == '/')
  {
    if s == [] || s[0] == '/' then 0 else 1 + SlashAt(s[1..])
  }

  /** The tokens strtok_r finds between slashes: never an empty one. */
  function Tokens(s: string): seq<string>
    decreases |s|
  {
    if s == [] then []
    else if s[0] == '/' then Tokens(s[1..])
    else [s[..SlashAt(s)]] + Tokens(s[SlashAt(s)..])
  }

  datatype Token = NoToken | Token(text: string)

  /** strtok_r with "/": the next token, and where to go on. */
  method NextToken(s: string) returns (tok: Token, save: string)
    ensures tok == NoToken <==> Tokens(s) == []
    ensures tok.Token? ==> Tokens(s) == [tok.text] + Tokens(save)
  {
    var i := 0;
    while i < |s| && s[i] == '/'
      invariant 0 <= i <= |s| && Tokens(s[i..]) == Tokens(s)
    {
      assert s[i..][1..] == s[i + 1..];
      i := i + 1;
    }
    if i == |s| {
      return NoToken, [];
    }
    var j := i;
    while j < |s| && s[j] != '/'
      invariant i <= j <= |s| && i < |s| && SlashAt(s[i..]) == j - i + SlashAt(s[j..])
    {
      assert s[j..][1..] == s[j + 1..];
      j := j + 1;
    }
    assert s[i..][..j - i] == s[i..j] && s[i..][j - i..] == s[j..];
    return Token(s[i..j]), s[j..];
  }

  lemma {:induction false} SlashAtKept(a: string, b: string)
    requires b != [] && b[0] == '/'
    ensures SlashAt(a + b) == SlashAt(a)
  {
    if a == [] {
      assert a + b == b;
    } else if a[0] != '/' {
      SlashAtKept(a[1..], b);
      assert (a + b)[1..] == a[1..] + b;
    }
  }

  lemma {:induction false} NameIsToken(name: string)
    requires Proper(name)
    ensures Tokens(name) == [name] && Tokens("/" + name) == [name]
  {
    var k := SlashAt(name);
    assert k == |name|;
    assert name[..k] == name && name[k..] == [];
    assert ("/" + name)[1..] == name;
  }

  /** A path grows by one token when a name is added to it. */
  lemma {:induction false} TokensGrow(path: string, name: string)
    requires Proper(name)
    ensures Tokens(path + "/" + name) == Tokens(path) + [name]
    decreases |path|
  {
    var end := "/" + name;
    assert path + "/" + name == path + end;
    if path == [] {
      NameIsToken(name);
      assert path + end == end;
    } else if path[0] == '/' {
      TokensGrow(path[1..], name);
      assert (path + end)[1..] == path[1..] + "/" + name;
    } else {
      var k := SlashAt(path);
      SlashAtKept(path, end);
      TokensGrow(path[k..], name);
      assert (path + end)[..k] == path[..k] && (path + end)[k..] == path[k..] + "/" + name;
    }
  }

  /** The first of the siblings with the name. */
  function FindName(ks: seq<RTNode>, name: string): Ptr {
    if ks == [] then Null else if ks[0].rn == name then To(ks[0]) else FindName(ks[1..], name)
  }

  /** Where a path leads from the siblings `ks`. */
  function Walk(f: Forest, ks: seq<RTNode>, toks: seq<string>): Ptr
    requires toks != []
    decreases |toks|
  {
    var n := FindName(ks, toks[0]);
    if n == Null || |toks| == 1 then n
    else if n.node in f.kids then Walk(f, f.kids[n.node], toks[1..])
    else Null
  }

  /** Where find_rtnode_by_rn goes, with "-" for the CSE base. */
  function Looked(f: Forest, cb: RTNode, toks: seq<string>): Ptr {
    if toks == [] then Null
    else if toks[0] != "-" then Walk(f, [cb], toks)
    else if |toks| == 1 then Nth(KidsOf(f, cb), 0)
    else Walk(f, KidsOf(f, cb), toks[1..])
  }

  function KidsOf(f: Forest, n: RTNode): seq<RTNode> {
    if n in f.kids then f.kids[n] else []
  }

  /** The inner loop: along the siblings to the first one with the name. */
  method AlongSiblings(t: Tree, first: Ptr, name: string, ghost ks: seq<RTNode>) returns (node: Ptr)
    requires first == Nth(ks, 0) && Doubly(t.mem, ks)
    ensures node == FindName(ks, name)
    ensures node.To? ==> node.node in ks
  {
    node := first;
    ghost var i := 0;
    assert ks[0..] == ks;
    while node.To? && node.node.rn != name
      invariant 0 <= i <= |ks| && node == Nth(ks, i) && FindName(ks[i..], name) == FindName(ks, name)
      decreases |ks| - i
    {
      assert Slot(t.mem, ks, i);
      assert ks[i..][1..] == ks[i + 1..];
      node, i := t.mem[node.node].right, i + 1;
    }
  }

  /** The walk of find_rtnode_by_rn through the memory. */
  method FindByRn(t: Tree, rn: string) returns (rtnode: Ptr)
    requires t.Valid()
    ensures rtnode == Looked(t.f, t.cb, Tokens(rn))
    ensures Named(t.mem, t.f, t.cb) && SiblingsDiffer(t.f) && Tokens(rn) != ["-"] ==>
              Leads(t.mem, t.f, t.cb, Tokens(rn), rtnode)
  {
    hide Shape, Indexed, Doubly, Tokens, FindName, Named, SiblingsDiffer, Leads;
    if Named(t.mem, t.f, t.cb) && SiblingsDiffer(t.f) && Tokens(rn) != ["-"] {
      PathExact(t.mem, t.f, t.cb, Tokens(rn));
    }
    var ptr, save := NextToken(rn);
    if ptr == NoToken {
      return Null;
    }
    RootList(t.mem, t.f, t.cb);
    rtnode := To(t.cb);
    ghost var ks := [t.cb];
    if ptr.text == "-" {
      ListOf(t.mem, t.f, t.cb);
      rtnode, ks := t.mem[t.cb].child, t.f.kids[t.cb];
      ptr, save := NextToken(save);
    }
    ghost var toks := if ptr == NoToken then [] else [ptr.text] + Tokens(save);
    ghost var goal := Looked(t.f, t.cb, Tokens(rn));
    assert ptr.Token? ==> Walk(t.f, ks, toks) == goal;
    while ptr.Token?
      invariant ptr.Token? ==> toks == [ptr.text] + Tokens(save) && rtnode == Nth(ks, 0) && Doubly(t.mem, ks)
      invariant ptr.Token? ==> Walk(t.f, ks, toks) == goal && forall k :: k in ks ==> k in t.f.kids
      invariant ptr == NoToken ==> rtnode == goal
      decreases |toks|, ptr.Token?
    {
      rtnode := AlongSiblings(t, rtnode, ptr.text, ks);
      if rtnode == Null {
        break;
      }
      assert toks[1..] == Tokens(save);
      ptr, save := NextToken(save);
      if ptr.Token? {
        ListOf(t.mem, t.f, rtnode.node);
        toks, ks := toks[1..], t.f.kids[rtnode.node];
        rtnode := t.mem[rtnode.node].child;
      }
    }
  }

  lemma ListOf(m: Memory, f: Forest, n: RTNode)
    requires Shape(m, f) && n in f.kids
    ensures n in m && Doubly(m, f.kids[n]) && m[n].child == Nth(f.kids[n], 0)
    ensures forall k :: k in f.kids[n] ==> k in f.kids
  {
    assert Family(m, f, n);
    KidsLive(m, f, n);
  }

  // ----- every node is found by the path it was given

  /** The last step of a path. */
  lemma {:induction false} WalkOn(f: Forest, ks: seq<RTNode>, toks: seq<string>, name: string)
    requires toks != []
    ensures Walk(f, ks, toks + [name]) ==
            match Walk(f, ks, toks)
            case Null => Null
            case To(n) => if n in f.kids then FindName(f.kids[n], name) else Null
    decreases |toks|
  {
    hide FindName;
    var all := toks + [name];
    var n := FindName(ks, toks[0]);
    assert all[0] == toks[0] && all[1..] == toks[1..] + [name];
    if n.To? && n.node in f.kids && |toks| > 1 {
      WalkOn(f, f.kids[n.node], toks[1..], name);
    } else if |toks| == 1 {
      assert all[1..] == [name];
    }
  }

  predicate NamesDiffer(ks: seq<RTNode>) {
    forall i, j :: 0 <= i < j < |ks| ==> ks[i].rn != ks[j].rn
  }

  lemma {:induction false} FindNameAt(ks: seq<RTNode>, i: nat)
    requires i < |ks| && NamesDiffer(ks)
    ensures FindName(ks, ks[i].rn) == To(ks[i])
  {
    if i > 0 {
      assert NamesDiffer(ks[1..]);
      FindNameAt(ks[1..], i - 1);
    }
  }

  /** Names are proper; the base answers to its own name and has it for path. */
  ghost predicate Named(m: Memory, f: Forest, cb: RTNode) {
    && cb in m && m[cb].uri == cb.rn && Proper(cb.rn) && cb.rn != "-"
    && forall n, k :: n in f.kids && k in f.kids[n] ==> Proper(k.rn)
  }

  ghost predicate SiblingsDiffer(f: Forest) {
    forall n :: n in f.kids ==> NamesDiffer(f.kids[n])
  }

  lemma PathOfChild(m: Memory, f: Forest, n: RTNode, k: RTNode)
    requires Shape(m, f) && n in f.kids && k in f.kids[n] && Proper(k.rn)
    ensures n in m && k in m && k in f.kids && Tokens(m[k].uri) == Tokens(m[n].uri) + [k.rn]
  {
    assert Family(m, f, n);
    assert ChildOk(m, f, n, k);
    TokensGrow(m[n].uri, k.rn);
  }

  /** The path of a node, walked from the base, and below the base from the base's children. */
  lemma {:induction false} WalkArrives(m: Memory, f: Forest, cb: RTNode, n: RTNode)
    requires Shape(m, f) && f.roots == {cb} && Named(m, f, cb) && SiblingsDiffer(f) && n in f.kids
    ensures n in m && cb in f.kids
    ensures var toks := Tokens(m[n].uri);
            && toks != [] && toks[0] == cb.rn && Walk(f, [cb], toks) == To(n)
            && (n != cb ==> |toks| > 1 && Walk(f, f.kids[cb], toks[1..]) == To(n))
    decreases if n in f.depth then f.depth[n] else 0
  {
    hide Tokens, FindName;
    RootLive(m, f, cb);
    if n == cb {
      NameIsToken(cb.rn);
      FindNameAt([cb], 0);
    } else {
      ParentOf(m, f, n);
      var p := m[n].parent.node;
      ParentLive(m, f, p);
      WalkArrives(m, f, cb, p);
      PathOfChild(m, f, p, n);
      var toks := Tokens(m[p].uri);
      WalkOn(f, [cb], toks, n.rn);
      var i :| 0 <= i < |f.kids[p]| && f.kids[p][i] == n;
      FindNameAt(f.kids[p], i);
      assert (toks + [n.rn])[1..] == toks[1..] + [n.rn];
      if p == cb {
        NameIsToken(cb.rn);
        assert toks[1..] + [n.rn] == [n.rn];
      } else {
        WalkOn(f, f.kids[cb], toks[1..], n.rn);
      }
    }
  }

  // ----- and what is found by a path has that path

  /** A walk from the base ends at a node whose path is the one walked. */
  lemma {:induction false} WalkSound(m: Memory, f: Forest, cb: RTNode, toks: seq<string>)
    requires Shape(m, f) && f.roots == {cb} && Named(m, f, cb) && toks != []
    ensures var r := Walk(f, [cb], toks);
            r.To? ==> r.node in f.kids && r.node in m && Tokens(m[r.node].uri) == toks
    decreases |toks|
  {
    hide Tokens, FindName;
    RootLive(m, f, cb);
    if |toks| == 1 {
      FoundAmong([cb], toks[0]);
      NameIsToken(cb.rn);
    } else {
      var front, name := toks[..|toks| - 1], toks[|toks| - 1];
      assert toks == front + [name];
      WalkSound(m, f, cb, front);
      WalkOn(f, [cb], front, name);
      var p := Walk(f, [cb], front);
      if p.To? {
        FoundAmong(f.kids[p.node], name);
        var n := FindName(f.kids[p.node], name);
        if n.To? {
          PathOfChild(m, f, p.node, n.node);
        }
      }
    }
  }

  /** The path that names stand for: "-" is the base. */
  function Meant(cb: RTNode, toks: seq<string>): seq<string> {
    if toks != [] && toks[0] == "-" then [cb.rn] + toks[1..] else toks
  }

  /** From the base, and from its children, it is the same walk. */
  lemma LookedWalks(f: Forest, cb: RTNode, toks: seq<string>)
    requires cb in f.kids && cb.rn != "-" && toks != [] && toks != ["-"]
    ensures Looked(f, cb, toks) == Walk(f, [cb], Meant(cb, toks))
  {
    if toks[0] == "-" {
      var all := Meant(cb, toks);
      assert |toks| > 1 && all[1..] == toks[1..];
    }
  }

  /** Names other than "-" alone lead to `n` exactly if they are the names on the path of `n`, and nowhere
      exactly if no node of the tree has them. */
  ghost predicate Leads(m: Memory, f: Forest, cb: RTNode, toks: seq<string>, r: Ptr) {
    && (forall n :: n in f.kids ==> n in m)
    && (forall n :: r == To(n) <==> n in f.kids && Tokens(m[n].uri) == Meant(cb, toks))
    && (r == Null <==> forall n :: n in f.kids ==> Tokens(m[n].uri) != Meant(cb, toks))
  }

  /** What a path finds has the names asked for, whether or not siblings share names. */
  lemma PathSound(m: Memory, f: Forest, cb: RTNode, toks: seq<string>)
    requires Shape(m, f) && f.roots == {cb} && Named(m, f, cb) && toks != ["-"]
    ensures var r := Looked(f, cb, toks);
            r.To? ==> r.node in f.kids && r.node in m && Tokens(m[r.node].uri) == Meant(cb, toks)
  {
    hide Tokens, Walk;
    RootLive(m, f, cb);
    if toks != [] {
      LookedWalks(f, cb, toks);
      WalkSound(m, f, cb, Meant(cb, toks));
    }
  }

  /** With distinct sibling names a path finds a node exactly if the node has it. */
  lemma PathExact(m: Memory, f: Forest, cb: RTNode, toks: seq<string>)
    requires Shape(m, f) && f.roots == {cb} && Named(m, f, cb) && SiblingsDiffer(f) && toks != ["-"]
    ensures Leads(m, f, cb, toks, Looked(f, cb, toks))
  {
    hide Tokens, Walk, Named, SiblingsDiffer;
    var r := Looked(f, cb, toks);
    RootLive(m, f, cb);
    PathSound(m, f, cb, toks);
    forall n | n in f.kids
      ensures n in m && (Tokens(m[n].uri) == Meant(cb, toks) ==> r == To(n))
    {
      WalkArrives(m, f, cb, n);
      if Tokens(m[n].uri) == Meant(cb, toks) {
        assert toks != [];
        BaseNotDash(m, f, cb);
        LookedWalks(f, cb, toks);
      }
    }
  }

  lemma BaseNotDash(m: Memory, f: Forest, cb: RTNode)
    requires Named(m, f, cb)
    ensures cb.rn != "-"
  {
  }

  /** Every node is found under its path exactly when no two siblings share a name. */
  lemma FoundByPath(m: Memory, f: Forest, cb: RTNode)
    requires Shape(m, f) && f.roots == {cb} && Named(m, f, cb)
    ensures (forall n :: n in f.kids ==> n in m && Looked(f, cb, Tokens(m[n].uri)) == To(n)) <==> SiblingsDiffer(f)
  {
    hide Shape, Tokens, Walk;
    if SiblingsDiffer(f) {
      forall n | n in f.kids
        ensures n in m && Looked(f, cb, Tokens(m[n].uri)) == To(n)
      {
        WalkArrives(m, f, cb, n);
      }
    } else {
      var n, i, j :| n in f.kids && 0 <= i < j < |f.kids[n]| && f.kids[n][i].rn == f.kids[n][j].rn;
      var a, b := f.kids[n][i], f.kids[n][j];
      SortedKids(m, f, n);
      PathOfChild(m, f, n, a);
      PathOfChild(m, f, n, b);
      assert a != b && Tokens(m[a].uri) == Tokens(m[b].uri);
    }
  }

  /** The same node is found with "-" in place of the base's name. */
  lemma FoundByShortcut(m: Memory, f: Forest, cb: RTNode, n: RTNode)
    requires Shape(m, f) && f.roots == {cb} && Named(m, f, cb) && SiblingsDiffer(f) && n in f.kids && n != cb
    ensures n in m && Tokens(m[n].uri) != [] && Looked(f, cb, ["-"] + Tokens(m[n].uri)[1..]) == To(n)
  {
    hide Tokens, Walk;
    WalkArrives(m, f, cb, n);
    var toks := ["-"] + Tokens(m[n].uri)[1..];
    assert toks[1..] == Tokens(m[n].uri)[1..];
  }

  // ----- by address

  /** Where "/fopt" begins in an address, or its end. */
  function FoptAt(s: string): (k: nat)
    ensures k <= |s| && (k < |s| ==> s[k] == '/')
  {
    if s == [] || "/fopt" <= s then 0 else 1 + FoptAt(s[1..])
  }

  function CutFopt(s: string): string {
    s[..FoptAt(s)]
  }

  /** An address that starts with the base's name, or "-", and a slash. */
  predicate Structured(base: string, addr: string) {
    base + "/" <= addr || "-/" <= addr
  }

  /** find_rtnode, up to the expiry of what it finds: which way an address is looked up. */
  method FindRtnode(t: Tree, base: string, addr: string) returns (r: Answer)
    requires t.Valid()
    ensures addr == base || addr == "-" ==> r == Node(To(t.cb))
    ensures addr != base && addr != "-" && Structured(base, addr) ==>
            r == Node(Looked(t.f, t.cb, Tokens(CutFopt(addr))))
    ensures addr != base && addr != "-" && !Structured(base, addr) && '/' in addr ==> r == ByHybrid
    ensures addr != base && addr != "-" && '/' !in addr ==>
              && (if "4-" <= addr then r == InDatabase else r.Node?)
              && (r.Node? && r.node.To? ==> r.node.node in t.f.kids && r.node.node.ri == addr)
              && (r.Node? ==> (r.node == Null <==> forall x :: x in t.f.kids ==> x.ri != addr))
  {
    hide Shape, Indexed, Tokens, FoptAt;
    if addr == base || addr == "-" {
      return Node(To(t.cb));
    }
    if base + "/" <= addr || "-/" <= addr {
      assert '/' in addr by {
        assert base + "/" <= addr ==> addr[|base|] == '/';
        assert "-/" <= addr ==> addr[1] == '/';
      }
      var node := FindByRn(t, CutFopt(addr));
      return Node(node);
    }
    if '/' in addr {
      return ByHybrid;
    }
    r := FindByRi(t, addr);
  }

  /** What find_rtnode answers for the base's name, "-" and structured addresses. */
  function Resolved(f: Forest, cb: RTNode, base: string, addr: string): Ptr {
    if addr == base || addr == "-" then To(cb) else Looked(f, cb, Tokens(CutFopt(addr)))
  }

  lemma {:induction false} FoptBehind(a: string, s: string)
    requires '/' !in a
    ensures FoptAt(a + s) == |a| + FoptAt(s)
  {
    if a == [] {
      assert a + s == s;
    } else {
      assert (a + s)[0] == a[0] != '/' && (a + s)[1..] == a[1..] + s;
      FoptBehind(a[1..], s);
    }
  }

  lemma FirstToken(a: string, s: string)
    requires Proper(a) && (s == [] || s[0] == '/')
    ensures Tokens(a + s) == [a] + Tokens(s)
  {
    NoSlashBefore(a, s);
    assert (a + s)[0] == a[0] && a[0] in a;
    assert (a + s)[..|a|] == a && (a + s)[|a|..] == s;
  }

  lemma {:induction false} NoSlashBefore(a: string, s: string)
    requires '/' !in a && (s == [] || s[0] == '/')
    ensures SlashAt(a + s) == |a|
  {
    if a == [] {
      assert a + s == s;
    } else {
      assert (a + s)[1..] == a[1..] + s;
      NoSlashBefore(a[1..], s);
    }
  }

  /** The names of an address that starts with a name and a slash. */
  lemma NamesFrom(a: string, addr: string)
    requires Proper(a) && a + "/" <= addr
    ensures Tokens(CutFopt(addr)) != [] && Tokens(CutFopt(addr))[0] == a
  {
    var s := addr[|a|..];
    assert addr == a + s && s[0] == '/';
    FoptBehind(a, s);
    hide FoptAt;
    assert CutFopt(addr) == a + CutFopt(s);
    FirstToken(a, CutFopt(s));
  }

  /** Nothing on the way down is a root. */
  lemma {:induction false} WalkBelow(m: Memory, f: Forest, ks: seq<RTNode>, toks: seq<string>)
    requires Shape(m, f) && toks != [] && forall k :: k in ks ==> k !in f.roots
    ensures Walk(f, ks, toks).To? ==> Walk(f, ks, toks).node !in f.roots
    decreases |toks|
  {
    FoundAmong(ks, toks[0]);
    hide FindName;
    var n := FindName(ks, toks[0]);
    if n.To? && |toks| > 1 && n.node in f.kids {
      KidsNotRoots(m, f, n.node);
      WalkBelow(m, f, f.kids[n.node], toks[1..]);
    }
  }

  lemma {:induction false} FoundAmong(ks: seq<RTNode>, name: string)
    ensures FindName(ks, name).To? ==> FindName(ks, name).node in ks && FindName(ks, name).node.rn == name
    ensures FindName(ks, name) == Null <==> forall k :: k in ks ==> k.rn != name
  {
    if ks != [] {
      FoundAmong(ks[1..], name);
      assert forall k :: k in ks <==> k == ks[0] || k in ks[1..];
    }
  }

  lemma KidsNotRoots(m: Memory, f: Forest, n: RTNode)
    requires Shape(m, f) && n in f.kids
    ensures forall k :: k in f.kids[n] ==> k !in f.roots
  {
    assert Family(m, f, n);
    forall k | k in f.kids[n]
      ensures k !in f.roots
    {
      assert ChildOk(m, f, n, k);
    }
  }

  /** The base is found by its name or by "-" alone, and by its name with nothing but slashes or a fopt
      behind it; never by "-" with a slash behind it. */
  lemma BaseFound(m: Memory, f: Forest, cb: RTNode, addr: string)
    requires Shape(m, f) && f.roots == {cb} && Named(m, f, cb)
    requires addr == cb.rn || addr == "-" || Structured(cb.rn, addr)
    ensures Resolved(f, cb, cb.rn, addr) == To(cb) <==>
            addr == cb.rn || addr == "-" || (cb.rn + "/" <= addr && Tokens(CutFopt(addr)) == [cb.rn])
  {
    if addr != cb.rn && addr != "-" {
      RootLive(m, f, cb);
      KidsNotRoots(m, f, cb);
      var toks := Tokens(CutFopt(addr));
      if cb.rn + "/" <= addr {
        NamesFrom(cb.rn, addr);
        hide Tokens, CutFopt, Shape;
        OnlyOne(cb);
        if |toks| > 1 {
          WalkBelow(m, f, f.kids[cb], toks[1..]);
        }
      } else {
        NamesFrom("-", addr);
        hide Tokens, CutFopt, Shape;
        if |toks| > 1 {
          WalkBelow(m, f, f.kids[cb], toks[1..]);
        } else {
          assert f.kids[cb] != [] ==> f.kids[cb][0] in f.kids[cb];
        }
      }
    }
  }

  lemma OnlyOne(n: RTNode)
    ensures FindName([n], n.rn) == To(n)
  {
  }

  /** "-/" and "-/fopt" mean the base and lead to its first child. */
  lemma DashSlash(f: Forest, cb: RTNode, base: string, addr: string)
    requires cb in f.kids && base != addr && (addr == "-/" || addr == "-/fopt")
    ensures Structured(base, addr) && Resolved(f, cb, base, addr) == Nth(f.kids[cb], 0)
  {
    var s := addr[1..];
    assert addr == "-" + s && "-/" <= addr;
    FoptBehind("-", s);
    if addr == "-/" {
      assert s == "/" && s[1..] == "" && FoptAt("") == 0 && FoptAt(s) == 1;
      assert CutFopt(addr) == "-" + "/";
      FirstToken("-", "/");
      assert Tokens("/") == Tokens("") == [];
    } else {
      assert s == "/fopt" && FoptAt(s) == 0;
      assert CutFopt(addr) == "-" + "";
      FirstToken("-", "");
    }
  }

  /** A structured address other than those two leads to a node exactly if the names in front of a fopt are
      those on the node's path, and nowhere exactly if no node of the tree has them. */
  lemma AddressExact(m: Memory, f: Forest, cb: RTNode, addr: string)
    requires Shape(m, f) && f.roots == {cb} && Named(m, f, cb) && SiblingsDiffer(f) && Structured(cb.rn, addr)
    requires Tokens(CutFopt(addr)) != ["-"]
    ensures Leads(m, f, cb, Tokens(CutFopt(addr)), Resolved(f, cb, cb.rn, addr))
  {
    hide Tokens, CutFopt, Walk, Shape, SiblingsDiffer, Leads;
    assert addr != cb.rn && addr != "-" by {
      if cb.rn + "/" <= addr {
        assert addr[|cb.rn|] == '/';
      } else {
        assert addr[1] == '/';
      }
    }
    PathExact(m, f, cb, Tokens(CutFopt(addr)));
  }

  // ----- every node by its own uri, as an address

  /** A name that find_rtnode takes for the beginning of a fopt. */
  predicate FoptName(name: string) {
    "fopt" <= name
  }

  /** No name behind the first is such a name. */
  predicate NoFopt(toks: seq<string>) {
    forall i :: 1 <= i < |toks| ==> !FoptName(toks[i])
  }

  /** Adding a name to a path adds a fopt exactly if the name begins like one. */
  lemma {:induction false} FoptGrows(u: string, name: string)
    requires '/' !in name
    ensures FoptAt(u + "/" + name) ==
            if FoptAt(u) < |u| then FoptAt(u) else if FoptName(name) then |u| else |u| + 1 + |name|
  {
    var s := u + "/" + name;
    if u == [] {
      assert s == "/" + name && s[1..] == name;
      FoptStarts(name);
      FoptBehind(name, "");
      assert name + "" == name;
    } else {
      assert s[1..] == u[1..] + "/" + name;
      FoptNotAcross(u, name);
      FoptGrows(u[1..], name);
    }
  }

  lemma FoptStarts(name: string)
    ensures "/fopt" <= "/" + name <==> FoptName(name)
  {
    var s := "/" + name;
    assert s[1..] == name && "/fopt"[1..] == "fopt";
    if FoptName(name) {
      assert s[..5] == "/" + name[..4];
    }
    if "/fopt" <= s {
      assert s[..5][1..] == name[..4];
    }
  }

  /** A fopt does not reach over a slash. */
  lemma FoptNotAcross(u: string, name: string)
    requires u != []
    ensures "/fopt" <= u + "/" + name <==> "/fopt" <= u
  {
    var s := u + "/" + name;
    if |u| >= 5 {
      assert s[..5] == u[..5];
    } else {
      assert s[|u|] == '/' && "/fopt"[|u|] != '/';
    }
  }

  /** The node whose uri is left when the uri of `n` is cut: `n` itself exactly if no name behind the base's
      begins like a fopt. */
  lemma {:induction false} CutUri(m: Memory, f: Forest, cb: RTNode, n: RTNode) returns (a: RTNode)
    requires Shape(m, f) && f.roots == {cb} && Named(m, f, cb) && n in f.kids
    ensures n in m && a in f.kids && a in m && CutFopt(m[n].uri) == m[a].uri
    ensures a == n <==> NoFopt(Tokens(m[n].uri))
    ensures a == n <==> FoptAt(m[n].uri) == |m[n].uri|
    ensures Tokens(m[n].uri) != [] && n in f.depth && a in f.depth && (a == n || f.depth[a] < f.depth[n])
    decreases if n in f.depth then f.depth[n] else 0
  {
    hide Tokens, FoptAt;
    ParentLive(m, f, n);
    if n == cb {
      a := cb;
      NameIsToken(cb.rn);
      FoptBehind(cb.rn, "");
      NoFoptInNothing();
      assert cb.rn + "" == cb.rn && m[n].uri[..|cb.rn|] == cb.rn;
    } else {
      ParentOf(m, f, n);
      var p := m[n].parent.node;
      ParentLive(m, f, p);
      var b := CutUri(m, f, cb, p);
      PathOfChild(m, f, p, n);
      ChildUri(m, f, p, n);
      hide Shape;
      var u := m[p].uri;
      FoptGrows(u, n.rn);
      NoFoptMore(Tokens(u), n.rn);
      CutGrown(u, n.rn);
      a := if FoptAt(u) < |u| then b else if FoptName(n.rn) then p else n;
    }
  }

  lemma NoFoptInNothing()
    ensures FoptAt("") == 0
  {
  }

  lemma NoFoptMore(toks: seq<string>, name: string)
    requires toks != []
    ensures NoFopt(toks + [name]) <==> NoFopt(toks) && !FoptName(name)
  {
    var all := toks + [name];
    assert all[|toks|] == name && forall i :: 0 <= i < |toks| ==> all[i] == toks[i];
  }

  lemma CutGrown(u: string, name: string)
    requires '/' !in name
    ensures CutFopt(u + "/" + name) ==
            if FoptAt(u) < |u| then CutFopt(u) else if FoptName(name) then u else u + "/" + name
  {
    FoptGrows(u, name);
    hide FoptAt;
  }

  lemma ChildUri(m: Memory, f: Forest, n: RTNode, k: RTNode)
    requires Shape(m, f) && n in f.kids && k in f.kids[n]
    ensures n in m && k in m && m[k].uri == m[n].uri + "/" + k.rn
  {
    assert Family(m, f, n);
    assert ChildOk(m, f, n, k);
  }

  /** A uri is the base's name and, below the base, a slash and more. */
  lemma {:induction false} UriBegins(m: Memory, f: Forest, cb: RTNode, n: RTNode)
    requires Shape(m, f) && f.roots == {cb} && Named(m, f, cb) && n in f.kids
    ensures n in m && cb.rn <= m[n].uri && (n != cb ==> cb.rn + "/" <= m[n].uri)
    decreases if n in f.depth then f.depth[n] else 0
  {
    ParentLive(m, f, n);
    if n != cb {
      ParentOf(m, f, n);
      var p := m[n].parent.node;
      ParentLive(m, f, p);
      UriBegins(m, f, cb, p);
      ChildUri(m, f, p, n);
    }
  }

  /** With distinct sibling names, find_rtnode finds a node under its own uri if and only if no name behind
      the base's begins with "fopt". */
  lemma FoundByUri(m: Memory, f: Forest, cb: RTNode, n: RTNode)
    requires Shape(m, f) && f.roots == {cb} && Named(m, f, cb) && SiblingsDiffer(f) && n in f.kids
    ensures n in m && (Resolved(f, cb, cb.rn, m[n].uri) == To(n) <==> NoFopt(Tokens(m[n].uri)))
  {
    var a := CutUri(m, f, cb, n);
    UriBegins(m, f, cb, n);
    WalkArrives(m, f, cb, a);
    hide Shape, Tokens, CutFopt, Walk;
    if n == cb {
      NameIsToken(cb.rn);
    } else {
      assert m[n].uri[|cb.rn|] == '/';
      assert m[n].uri != cb.rn && m[n].uri != "-";
    }
  }

  /** With "-" for the base's name it is the same, but for the base's first child, which such an address
      may reach by chance. */
  lemma FoundByDashUri(m: Memory, f: Forest, cb: RTNode, n: RTNode)
    requires Shape(m, f) && f.roots == {cb} && Named(m, f, cb) && SiblingsDiffer(f) && n in f.kids && n != cb
    ensures n in m && cb in f.kids && cb.rn <= m[n].uri
    ensures Resolved(f, cb, cb.rn, "-" + m[n].uri[|cb.rn|..]) == To(n) <==>
            NoFopt(Tokens(m[n].uri)) || To(n) == Nth(f.kids[cb], 0)
  {
    hide Shape, Tokens, CutFopt, Walk, NoFopt, Named, SiblingsDiffer;
    var a := CutUri(m, f, cb, n);
    UriBegins(m, f, cb, n);
    UriBegins(m, f, cb, a);
    RootLive(m, f, cb);
    WalkArrives(m, f, cb, a);
    FirstChildDepth(m, f, cb, n);
    DeeperThanBase(m, f, cb, a);
    BaseProper(m, f, cb);
    var rest := m[a].uri[|cb.rn|..];
    DashCut(cb.rn, m[n].uri, m[a].uri);
    DashAddress(cb.rn, m[n].uri);
    DashTokens(cb.rn, m[a].uri, rest);
  }

  lemma BaseProper(m: Memory, f: Forest, cb: RTNode)
    requires Named(m, f, cb)
    ensures Proper(cb.rn) && cb in m && m[cb].uri == cb.rn
  {
  }

  lemma DashAddress(base: string, uri: string)
    requires Proper(base) && base + "/" <= uri
    ensures var addr := "-" + uri[|base|..]; addr != base && addr != "-"
  {
    var addr := "-" + uri[|base|..];
    assert uri[|base|] == '/' && addr[1] == '/';
    assert addr[1] in addr;
  }

  lemma DashTokens(base: string, uri: string, rest: string)
    requires Proper(base) && base <= uri && rest == uri[|base|..] && (uri == base || base + "/" <= uri)
    ensures Tokens(uri) == [base] + Tokens(rest) && Tokens("-" + rest) == ["-"] + Tokens(rest)
    ensures Tokens(uri)[1..] == Tokens(rest) == Tokens("-" + rest)[1..] && (uri == base ==> Tokens(rest) == [])
  {
    assert uri == base + rest && (rest == [] || rest[0] == '/');
    FirstToken(base, rest);
    FirstToken("-", rest);
    hide Tokens;
    assert ([base] + Tokens(rest))[1..] == Tokens(rest) && (["-"] + Tokens(rest))[1..] == Tokens(rest);
  }

  lemma FirstChildDepth(m: Memory, f: Forest, cb: RTNode, n: RTNode)
    requires Shape(m, f) && cb in f.kids
    ensures cb in f.depth && (Nth(f.kids[cb], 0) == To(n) ==> n in f.depth && f.depth[n] == f.depth[cb] + 1)
  {
    KidsLive(m, f, cb);
    assert f.kids[cb] != [] ==> f.kids[cb][0] in f.kids[cb];
  }

  lemma {:induction false} DeeperThanBase(m: Memory, f: Forest, cb: RTNode, n: RTNode)
    requires Shape(m, f) && f.roots == {cb} && n in f.kids && cb in f.kids
    ensures n in f.depth && cb in f.depth && (n != cb ==> f.depth[n] > f.depth[cb])
    decreases if n in f.depth then f.depth[n] else 0
  {
    if n != cb {
      ParentOf(m, f, n);
      DeeperThanBase(m, f, cb, m[n].parent.node);
    }
  }

  /** Cutting does not touch the base's name. */
  lemma DashCut(base: string, uri: string, cut: string)
    requires Proper(base) && base <= uri && base <= cut && CutFopt(uri) == cut
    ensures CutFopt("-" + uri[|base|..]) == "-" + cut[|base|..]
  {
    var tail := uri[|base|..];
    assert uri == base + tail;
    FoptBehind(base, tail);
    FoptBehind("-", tail);
    hide FoptAt;
    assert CutFopt("-" + tail) == "-" + CutFopt(tail);
    assert cut == base + CutFopt(tail);
  }

  /** The address of a resource called "foptical", below the base, leads to the base. */
  lemma FopticalHidden(f: Forest, cb: RTNode, base: string)
    requires base == cb.rn && Proper(base) && base != "-"
    ensures Resolved(f, cb, base, base + "/foptical") == To(cb)
  {
    var addr := base + "/foptical";
    assert addr == base + "/" + "foptical";
    FoptBehind(base, "");
    NoFoptInNothing();
    assert base + "" == base;
    CutGrown(base, "foptical");
    NameIsToken(base);
    OnlyOne(cb);
    assert addr[|base|] == '/' && '/' !in base;
  }
}
