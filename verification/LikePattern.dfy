/** LIKE as SQLite evaluates it, and which uris the scope and level patterns of a discovery select. */
module LikePattern {
  import opened ResourceTree
  import ResourceTreeOps

  function Lower(c: char): char {
    if 'A' <= c <= 'Z' then c - 'A' + 'a' else c
  }

  /** `%` is any text, `_` any character, and letters match in either case. */
  predicate Like(p: string, s: string)
    decreases |p| + |s|
  {
    if p == [] then s == []
    else if p[0] == '%' then Like(p[1..], s) || (s != [] && Like(p, s[1..]))
    else s != [] && (p[0] == '_' || Lower(p[0]) == Lower(s[0])) && Like(p[1..], s[1..])
  }

  predicate Wild(c: char) {
    c == '%' || c == '_'
  }

  predicate Letter(c: char) {
    'A' <= c <= 'Z' || 'a' <= c <= 'z'
  }

  /** No character of the uri is a wildcard. */
  predicate Plain(t: string) {
    forall i :: 0 <= i < |t| ==> !Wild(t[i])
  }

  predicate SameLetters(a: string, b: string) {
    |a| == |b| && forall i :: 0 <= i < |a| ==> Lower(a[i]) == Lower(b[i])
  }

  lemma {:induction false} LikePrefix(t: string, p: string, s: string)
    requires Plain(t)
    ensures Like(t + p, s) <==> |s| >= |t| && SameLetters(t, s[..|t|]) && Like(p, s[|t|..])
  {
    if t == [] {
      assert t + p == p && s[0..] == s;
    } else {
      assert (t + p)[1..] == t[1..] + p && (t + p)[0] == t[0];
      if s != [] {
        LikePrefix(t[1..], p, s[1..]);
        if |s| >= |t| {
          assert s[1..][|t| - 1..] == s[|t|..];
          SameLettersTail(t, s[..|t|]);
          assert s[..|t|][1..] == s[1..][..|t| - 1];
        }
      }
    }
  }

  lemma SameLettersTail(a: string, b: string)
    requires |a| == |b| && a != []
    ensures SameLetters(a, b) <==> Lower(a[0]) == Lower(b[0]) && SameLetters(a[1..], b[1..])
  {
    if Lower(a[0]) == Lower(b[0]) && SameLetters(a[1..], b[1..]) {
      forall i | 0 <= i < |a|
        ensures Lower(a[i]) == Lower(b[i])
      {
        assert i > 0 ==> a[i] == a[1..][i - 1] && b[i] == b[1..][i - 1];
      }
    }
  }

  /** The exclusion pattern's end: a slash and anything, `k` times. */
  function Levels(k: int): string
    decreases if k > 0 then k else 0
  {
    if k <= 0 then "" else "/%" + Levels(k - 1)
  }

  function Slashes(s: string): nat {
    if s == [] then 0 else (if s[0] == '/' then 1 else 0) + Slashes(s[1..])
  }

  /** Anything followed by `k` slashes with anything after each: at least `k` slashes. */
  lemma {:induction false} LikeLevels(k: int, s: string)
    ensures Like("%" + Levels(k), s) <==> Slashes(s) >= k
    decreases |s|, if k > 0 then k else 0
  {
    var p := "%" + Levels(k);
    assert p[1..] == Levels(k);
    if k > 0 {
      assert Levels(k)[1..] == "%" + Levels(k - 1);
    }
    if s != [] {
      LikeLevels(k, s[1..]);
      if k > 0 {
        LikeLevels(k - 1, s[1..]);
      }
    }
  }

  /** `s` is a path below `t`, up to the case of the letters of `t`. */
  predicate Beneath(t: string, s: string) {
    |s| > |t| && SameLetters(t, s[..|t|]) && s[|t|] == '/'
  }

  /** How many names `s` has after `t`. */
  function Depth(t: string, s: string): nat
    requires |s| > |t|
  {
    1 + Slashes(s[|t| + 1..])
  }

  lemma LikeBeneath(t: string, k: int, s: string)
    requires Plain(t)
    ensures Like(t + "/%" + Levels(k), s) <==> Beneath(t, s) && Depth(t, s) > k
  {
    var end := "/%" + Levels(k);
    assert t + "/%" + Levels(k) == t + end && end[1..] == "%" + Levels(k);
    LikePrefix(t, end, s);
    if |s| > |t| {
      assert s[|t|..][1..] == s[|t| + 1..];
      LikeLevels(k, s[|t| + 1..]);
    }
  }

  /** The scope pattern keeps what is below the target, and the level pattern takes away what is more
      than `lvl` levels below it. */
  lemma LevelKeeps(t: string, lvl: int, s: string)
    requires Plain(t)
    ensures Like(t + "/%", s) <==> Beneath(t, s)
    ensures Like(t + "/%", s) && !Like(t + "/%" + Levels(lvl), s) <==> Beneath(t, s) && 1 <= Depth(t, s) <= lvl
  {
    LikeBeneath(t, 0, s);
    LikeBeneath(t, lvl, s);
    assert t + "/%" + Levels(0) == t + "/%";
  }

  // ----- exactly when the scope pattern means "below the target"

  predicate Descendant(t: string, s: string) {
    |s| > |t| && s[..|t|] == t && s[|t|] == '/'
  }

  function Swapped(c: char): (d: char)
    ensures d != c && ((Letter(c) && Lower(d) == Lower(c)) || !Letter(c))
  {
    if 'A' <= c <= 'Z' then c - 'A' + 'a'
    else if 'a' <= c <= 'z' then c - 'a' + 'A'
    else 'x'
  }

  lemma {:induction false} LikeStandIn(t: string, u: string, p: string, s: string)
    requires |t| == |u| && forall i :: 0 <= i < |t| ==> Wild(t[i]) || Lower(t[i]) == Lower(u[i])
    requires Like(p, s)
    ensures Like(t + p, u + s)
  {
    if t == [] {
      assert t + p == p && u + s == s;
    } else {
      LikeStandIn(t[1..], u[1..], p, s);
      var a, b := t + p, u + s;
      assert a[0] == t[0] && a[1..] == t[1..] + p && b[0] == u[0] && b[1..] == u[1..] + s;
      if a[0] == '%' {
        assert Like(a, b[1..]);
      }
    }
  }

  /** A wildcard or a letter in the target lets in a uri that is not below it, with any name at its end. */
  lemma StrangerLetIn(t: string, i: nat, name: string)
    requires i < |t| && (Wild(t[i]) || Letter(t[i]))
    ensures var s := t[..i] + [Swapped(t[i])] + t[i + 1..] + "/" + name; Like(t + "/%", s) && !Descendant(t, s)
  {
    hide Like, Wild, Letter, Lower, Swapped;
    var u, end := t[..i] + [Swapped(t[i])] + t[i + 1..], "/" + name;
    NameMatches(name);
    assert Wild(t[i]) || Lower(t[i]) == Lower(u[i]);
    LikeStandIn(t, u, "/%", end);
    assert u + "/" + name == u + end;
    assert u[i] != t[i] && (u + end)[..|t|] == u;
  }

  lemma NameMatches(name: string)
    ensures Like("/%", "/" + name)
  {
    LikeLevels(0, name);
    var s := "/" + name;
    assert "/%"[1..] == "%" == "%" + Levels(0) && s[0] == '/' && s[1..] == name;
  }

  /** The scope pattern selects exactly the descendants if and only if the target's uri has neither
      wildcards nor letters. */
  lemma ScopeExact(t: string)
    ensures (forall s :: Like(t + "/%", s) <==> Descendant(t, s))
       <==> forall i :: 0 <= i < |t| ==> !Wild(t[i]) && !Letter(t[i])
  {
    if forall i :: 0 <= i < |t| ==> !Wild(t[i]) && !Letter(t[i]) {
      forall s
        ensures Like(t + "/%", s) <==> Descendant(t, s)
      {
        LevelKeeps(t, 0, s);
        if Beneath(t, s) {
          Uncased(t, s[..|t|]);
        }
      }
    } else {
      var i :| 0 <= i < |t| && (Wild(t[i]) || Letter(t[i]));
      StrangerLetIn(t, i, "x");
    }
  }

  lemma Uncased(a: string, b: string)
    requires SameLetters(a, b) && forall i :: 0 <= i < |a| ==> !Letter(a[i])
    ensures a == b
  {
    forall i | 0 <= i < |a|
      ensures a[i] == b[i]
    {
      assert Lower(a[i]) == Lower(b[i]);
    }
  }

  // ----- levels of uris are levels of the tree

  lemma {:induction false} SlashesConcat(a: string, b: string)
    ensures Slashes(a + b) == Slashes(a) + Slashes(b)
  {
    if a == [] {
      assert a + b == b;
    } else {
      SlashesConcat(a[1..], b);
      assert (a + b)[1..] == a[1..] + b;
    }
  }

  lemma {:induction false} NoSlashes(name: string)
    requires '/' !in name
    ensures Slashes(name) == 0
  {
    if name != [] {
      NoSlashes(name[1..]);
    }
  }

  /** One more name on a path is one level more. */
  lemma DepthGrows(t: string, s: string, name: string)
    requires '/' !in name && (s == t || Descendant(t, s))
    ensures Descendant(t, s + "/" + name)
    ensures Depth(t, s + "/" + name) == if s == t then 1 else Depth(t, s) + 1
  {
    var u := s + "/" + name;
    assert u[..|t|] == s[..|t|];
    NoSlashes(name);
    if s == t {
      assert u[|t| + 1..] == name;
    } else {
      assert u[|t| + 1..] == s[|t| + 1..] + ("/" + name);
      SlashesConcat(s[|t| + 1..], "/" + name);
      assert ("/" + name)[1..] == name;
    }
  }

  /** The uri of every node below `n` in the tree is below the uri of `n`, by as many names as there
      are levels between them. */
  lemma {:induction false} UriLevels(m: Memory, f: Forest, n: RTNode, d: set<RTNode>, x: RTNode)
    requires Shape(m, f) && Descendants(m, f, n, d) && d !! (f.roots - {n}) && x in d && x != n
    requires forall y :: y in d && y != n ==> '/' !in y.rn
    ensures n in m && x in m && Descendant(m[n].uri, m[x].uri) && f.depth[x] > f.depth[n]
    ensures Depth(m[n].uri, m[x].uri) == f.depth[x] - f.depth[n]
    decreases if x in f.depth then f.depth[x] else 0
  {
    hide Closed;
    ResourceTreeOps.ParentOf(m, f, x);
    var p := m[x].parent.node;
    ChildUri(m, f, p, x);
    ResourceTreeOps.ParentLive(m, f, n);
    if p != n {
      UriLevels(m, f, n, d, p);
    }
    DepthGrows(m[n].uri, m[p].uri, x.rn);
  }

  lemma ChildUri(m: Memory, f: Forest, n: RTNode, k: RTNode)
    requires Shape(m, f) && n in f.kids && k in f.kids[n]
    ensures n in m && k in m && m[k].uri == m[n].uri + "/" + k.rn
  {
    assert Family(m, f, n);
    assert ChildOk(m, f, n, k);
  }
}
