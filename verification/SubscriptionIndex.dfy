/** The subscription index of a node as it is kept: a list of its own, linked by `next`, and a count. */
module SubscriptionIndex {
  import opened Sequences
  import opened ResourceTree

  class NodeList {
    const rtnode: RTNode
    const uri: string
    var next: NodeList?

    constructor (rtnode: RTNode, uri: string)
      ensures this.rtnode == rtnode && this.uri == uri && next == null
    {
      this.rtnode, this.uri, next := rtnode, uri, null;
    }
  }

  function EntryAt(nodes: seq<NodeList>, i: int): NodeList? {
    if 0 <= i < |nodes| then nodes[i] else null
  }

  ghost predicate NextOk(nodes: seq<NodeList>, i: nat)
    requires i < |nodes|
    reads nodes[i]
  {
    nodes[i].next == EntryAt(nodes, i + 1)
  }

  /** Entry `j` points at the entry after it, past entry `i`. */
  ghost predicate NextPast(nodes: seq<NodeList>, i: nat, j: nat)
    requires j < |nodes|
    reads nodes[j]
  {
    nodes[j].next == EntryAt(nodes, if j + 1 == i then i + 1 else j + 1)
  }

  /** The subscriptions on the list, in order. */
  ghost function Members(nodes: seq<NodeList>): (subs: seq<RTNode>)
    ensures |subs| == |nodes| && forall i :: 0 <= i < |nodes| ==> subs[i] == nodes[i].rtnode
  {
    seq(|nodes|, i requires 0 <= i < |nodes| => nodes[i].rtnode)
  }

  /** Passing over the first entry of a subscription takes it out of the index. */
  lemma MembersWithout(nodes: seq<NodeList>, sub: RTNode, i: nat)
    requires i < |nodes| && nodes[i].rtnode == sub && forall j :: 0 <= j < i ==> nodes[j].rtnode != sub
    ensures Members(RemoveAt(nodes, i)) == Without(Members(nodes), sub) && sub in Members(nodes)
  {
    var subs := Members(nodes);
    assert subs[i] == sub && sub !in subs[..i];
    WithoutFirst(subs, sub, i);
    hide ResourceTree.Without;
    assert Members(RemoveAt(nodes, i)) == subs[..i] + subs[i + 1..];
  }

  class Index {
    var subs: NodeList?
    var subCnt: int
    ghost var nodes: seq<NodeList>

    ghost predicate Valid()
      reads this, nodes
    {
      subs == EntryAt(nodes, 0) && Distinct(nodes) && forall i :: 0 <= i < |nodes| ==> NextOk(nodes, i)
    }

    /** The list and the count are the index in a node's links. */
    ghost predicate Holds(l: Links)
      reads this, nodes
    {
      Valid() && l.subs == Members(nodes) && l.subCnt == subCnt
    }

    constructor ()
      ensures forall l: Links :: l.subs == [] && l.subCnt == 0 ==> Holds(l)
    {
      subs, subCnt, nodes := null, 0, [];
    }

    /** add_subs: a walk to the last entry, and a new one behind it. */
    method AddSubs(sub: RTNode, uri: string, ghost l: Links)
      requires Holds(l)
      modifies this, nodes
      ensures Holds(Subscribed(l, sub)) && |nodes| > 0 && nodes[|nodes| - 1].uri == uri
      ensures forall i :: 0 <= i < |nodes| ==> nodes[i] in old(nodes) || fresh(nodes[i])
    {
      var entry := new NodeList(sub, uri);
      ghost var before := nodes;
      if subs == null {
        subs := entry;
      } else {
        var psub: NodeList := subs;
        ghost var i := 0;
        assert NextOk(nodes, 0);
        while psub.next != null
          invariant 0 <= i < |nodes| && psub == nodes[i] && nodes == before && Valid() && entry !in nodes
          decreases |nodes| - i
        {
          assert NextOk(nodes, i);
          psub, i := psub.next, i + 1;
        }
        assert NextOk(nodes, i);
        psub.next := entry;
      }
      subCnt := subCnt + 1;
      nodes := nodes + [entry];
      forall j | 0 <= j < |nodes|
        ensures NextOk(nodes, j)
      {
        assert j < |before| ==> old(NextOk(before, j)) && nodes[j] == before[j];
      }
    }

    /** detach_subs: the first entry of the subscription is passed over, at the head or behind it. */
    method DetachSubs(sub: RTNode, ghost l: Links)
      requires Holds(l)
      modifies this, nodes
      ensures Holds(Unsubscribed(l, sub)) && forall n :: n in nodes ==> n in old(nodes)
    {
      hide ResourceTree.Without;
      var psub := subs;
      if psub == null {
        WithoutAbsent(l.subs, sub);
        return;
      }
      assert NextOk(nodes, 0);
      if psub.rtnode == sub {
        subs := psub.next;
        forall j | 0 <= j < |nodes| && j != 0
          ensures NextPast(nodes, 0, j)
        {
          assert old(NextOk(nodes, j));
        }
        PassOver(l, sub, 0);
        return;
      }
      ghost var i := 0;
      while psub.next != null
        invariant 0 <= i < |nodes| && psub == nodes[i] && Holds(l) && nodes == old(nodes) && unchanged(this) &&
                  unchanged(nodes)
        invariant forall j :: 0 <= j <= i ==> nodes[j].rtnode != sub
        decreases |nodes| - i
      {
        assert NextOk(nodes, i) && NextOk(nodes, i + 1);
        if psub.next.rtnode == sub {
          psub.next := psub.next.next;
          ghost var past := i + 1;
          forall j | 0 <= j < |nodes| && j != past
            ensures NextPast(nodes, past, j)
          {
            assert old(NextOk(nodes, j));
          }
          PassOver(l, sub, past);
          return;
        }
        psub, i := psub.next, i + 1;
      }
      assert NextOk(nodes, i);
      WithoutAbsent(l.subs, sub);
    }

    /** With entry `i` passed over, the count follows. */
    method PassOver(ghost l: Links, sub: RTNode, ghost i: nat)
      requires i < |nodes| && nodes[i].rtnode == sub && (forall j :: 0 <= j < i ==> nodes[j].rtnode != sub)
      requires Distinct(nodes) && l.subs == Members(nodes) && l.subCnt == subCnt
      requires subs == EntryAt(nodes, if i == 0 then 1 else 0)
      requires forall j :: 0 <= j < |nodes| && j != i ==> NextPast(nodes, i, j)
      modifies this
      ensures Holds(Unsubscribed(l, sub)) && forall n :: n in nodes ==> n in old(nodes)
    {
      hide ResourceTree.Without;
      MembersWithout(nodes, sub, i);
      subCnt := subCnt - 1;
      ghost var before := nodes;
      nodes := RemoveAt(nodes, i);
      forall j | 0 <= j < |nodes|
        ensures NextOk(nodes, j)
      {
        ghost var j' := if j < i then j else j + 1;
        assert NextPast(before, i, j') && nodes[j] == before[j'];
      }
    }
  }
}
