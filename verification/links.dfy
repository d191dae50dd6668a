/**
 * The three links every tree node carries, kept arena-style: a node is a handle
 * into a map of live nodes, and each link is either Null or the handle of
 * another node. The ghost child lists `kids` are the abstract view of the
 * sibling chains; `Valid` ties the two together.
 */
module Links {

  type Id = nat

  datatype Link = Null | Ptr(id: Id)

  /** The links of one node: its parent, its first child and its next sibling. */
  datatype Node = Node(parent: Link, child: Link, sibling: Link)

  /**
   * A snapshot of the arena: the live nodes, the child list each of them
   * encodes, and the next handle to be handed out.
   */
  datatype Arena = Arena(nodes: map<Id, Node>, kids: map<Id, seq<Id>>, bound: nat)

  predicate NoDup(s: seq<Id>) {
    forall i, j :: 0 <= i < j < |s| ==> s[i] != s[j]
  }

  /** The sibling chain that starts at `head` lists exactly `cs`, in order, and ends in Null. */
  ghost predicate Chain(nodes: map<Id, Node>, head: Link, cs: seq<Id>) {
    && (if cs == [] then head == Null else head == Ptr(cs[0]))
    && (forall i, j :: 0 <= i && j == i + 1 && j < |cs| ==>
          cs[i] in nodes && nodes[cs[i]].sibling == Ptr(cs[j]))
    && (cs != [] ==> cs[|cs| - 1] in nodes && nodes[cs[|cs| - 1]].sibling == Null)
  }

  /** The child link of p heads a chain that lists p's children, each once. */
  ghost predicate ChildChain(a: Arena, p: Id) {
    p in a.nodes && p in a.kids && Chain(a.nodes, a.nodes[p].child, a.kids[p]) && NoDup(a.kids[p])
  }

  /** Handles and parent links: every handle is below the bound, every parent is older than its child. */
  ghost predicate Shape(a: Arena) {
    && a.kids.Keys == a.nodes.Keys
    && (forall x :: x in a.nodes ==> x < a.bound)
    // a node is only ever linked under a parent that already existed
    && (forall x {:trigger a.nodes[x]} :: x in a.nodes && a.nodes[x].parent.Ptr? ==>
          a.nodes[x].parent.id in a.nodes && a.nodes[x].parent.id < x)
    // a root is in no sibling chain, so its own sibling link stays null
    && (forall x {:trigger a.nodes[x]} :: x in a.nodes && a.nodes[x].parent.Null? ==> a.nodes[x].sibling == Null)
  }

  /**
   * Every child link heads a well-formed chain; stated through ChildChain so
   * that a proof brings in the chain of p only where it mentions ChildChain(a, p).
   */
  ghost predicate Chains(a: Arena) {
    forall p {:trigger ChildChain(a, p)} :: p in a.nodes ==> ChildChain(a, p)
  }

  /** The child list of p names exactly the nodes whose parent link is p. */
  ghost predicate Listed(a: Arena) {
    && (forall p, c {:trigger c in a.kids[p]} :: p in a.kids && c in a.kids[p] ==> c in a.nodes && a.nodes[c].parent == Ptr(p))
    && (forall c {:trigger a.nodes[c]} :: c in a.nodes && a.nodes[c].parent.Ptr? && a.nodes[c].parent.id in a.kids ==>
          c in a.kids[a.nodes[c].parent.id])
  }

  /** Every member of a chain is a live node. */
  lemma {:induction false} ChainLive(nodes: map<Id, Node>, head: Link, cs: seq<Id>)
    requires Chain(nodes, head, cs)
    ensures forall k :: 0 <= k < |cs| ==> cs[k] in nodes
  {
    forall k | 0 <= k < |cs|
      ensures cs[k] in nodes
    {
      if k + 1 < |cs| {
        var after := cs[k + 1];
        assert nodes[cs[k]].sibling == Ptr(after);
      }
    }
  }

  /** The link invariant that construction establishes and every correct unlinking keeps. */
  ghost predicate Valid(a: Arena) {
    Shape(a) && Chains(a) && Listed(a)
  }

  /** x lies in the subtree of o: following parent links from x reaches o. */
  ghost predicate InSubtree(a: Arena, o: Id, x: Id)
    decreases x
  {
    && x in a.nodes
    && (x == o ||
        (a.nodes[x].parent.Ptr? && a.nodes[x].parent.id < x && InSubtree(a, o, a.nodes[x].parent.id)))
  }

  /** The nodes of the subtree of o, o included. */
  ghost function Subtree(a: Arena, o: Id): set<Id> {
    set x: Id | x in a.nodes && InSubtree(a, o, x)
  }

  /** First position of x in cs. */
  function IndexOf(cs: seq<Id>, x: Id): (i: nat)
    requires x in cs
    ensures i < |cs| && cs[i] == x && x !in cs[..i]
  {
    if cs[0] == x then 0
    else
      var j := IndexOf(cs[1..], x);
      assert cs[..j + 1] == [cs[0]] + cs[1..][..j];
      j + 1
  }

  /** Pre-order of the subtree of n: n first, then each child's subtree in chain order. */
  ghost function PreOrder(a: Arena, n: Id): seq<Id>
    requires Valid(a) && n in a.nodes
    decreases a.bound - n, 1
  {
    [n] + Flatten(a, n, a.kids[n])
  }

  /** The pre-orders of the children cs of p, one after the other. */
  ghost function Flatten(a: Arena, p: Id, cs: seq<Id>): seq<Id>
    requires Valid(a) && p in a.nodes
    requires forall c :: c in cs ==> c in a.kids[p]
    decreases a.bound - p, 0, |cs|
  {
    if cs == [] then []
    else
      assert cs[0] in a.kids[p];
      PreOrder(a, cs[0]) + Flatten(a, p, cs[1..])
  }

  lemma {:induction false} IndexOfDistinct(cs: seq<Id>, k: nat)
    requires NoDup(cs) && k < |cs|
    ensures IndexOf(cs, cs[k]) == k
  {
  }

  /** An ancestor always has a smaller handle than its descendants. */
  lemma {:induction false} SubtreeOrdered(a: Arena, o: Id, x: Id)
    requires InSubtree(a, o, x)
    ensures o <= x && o in a.nodes
    decreases x
  {
    if x != o {
      SubtreeOrdered(a, o, a.nodes[x].parent.id);
    }
  }

  lemma {:induction false} SubtreeTransitive(a: Arena, o: Id, m: Id, x: Id)
    requires InSubtree(a, o, m) && InSubtree(a, m, x)
    ensures InSubtree(a, o, x)
    decreases x
  {
    if x != m {
      SubtreeTransitive(a, o, m, a.nodes[x].parent.id);
    }
  }

  /** Two ancestors of the same node are themselves related. */
  lemma {:induction false} AncestorsComparable(a: Arena, u: Id, v: Id, x: Id)
    requires InSubtree(a, u, x) && InSubtree(a, v, x)
    ensures InSubtree(a, u, v) || InSubtree(a, v, u)
    decreases x
  {
    if x != u && x != v {
      AncestorsComparable(a, u, v, a.nodes[x].parent.id);
    }
  }

  /** A proper descendant of o lies below exactly one child of o on its way up. */
  lemma {:induction false} ChildOnPath(a: Arena, o: Id, x: Id)
    requires Valid(a) && o in a.nodes && InSubtree(a, o, x) && x != o
    ensures exists c :: c in a.kids[o] && InSubtree(a, c, x)
    decreases x
  {
    var p := a.nodes[x].parent.id;
    if p == o {
      assert x in a.kids[o] && InSubtree(a, x, x);
    } else {
      ChildOnPath(a, o, p);
      var c :| c in a.kids[o] && InSubtree(a, c, p);
      SubtreeTransitive(a, c, p, x);
    }
  }

  /** Two different children of one parent have disjoint subtrees. */
  lemma SiblingsUnrelated(a: Arena, p: Id, u: Id, v: Id)
    requires Valid(a) && p in a.nodes && u in a.kids[p] && v in a.kids[p] && u != v
    ensures !InSubtree(a, u, v)
  {
    if InSubtree(a, u, v) {
      SubtreeOrdered(a, u, a.nodes[v].parent.id);
    }
  }

  /** The pre-order of n lists exactly the nodes of n's subtree. */
  lemma {:induction false} PreOrderMembers(a: Arena, n: Id, x: Id)
    requires Valid(a) && n in a.nodes
    ensures x in PreOrder(a, n) <==> InSubtree(a, n, x)
    decreases a.bound - n, 1
  {
    FlattenMembers(a, n, a.kids[n], x);
    if x != n && InSubtree(a, n, x) {
      ChildOnPath(a, n, x);
    }
    if x in Flatten(a, n, a.kids[n]) {
      var c :| c in a.kids[n] && InSubtree(a, c, x);
      assert InSubtree(a, n, c);
      SubtreeTransitive(a, n, c, x);
    }
  }

  lemma {:induction false} FlattenMembers(a: Arena, p: Id, cs: seq<Id>, x: Id)
    requires Valid(a) && p in a.nodes
    requires forall c :: c in cs ==> c in a.kids[p]
    ensures x in Flatten(a, p, cs) <==> exists c :: c in cs && InSubtree(a, c, x)
    decreases a.bound - p, 0, |cs|
  {
    if cs != [] {
      assert cs[0] in a.kids[p];
      PreOrderMembers(a, cs[0], x);
      FlattenMembers(a, p, cs[1..], x);
      assert forall c :: c in cs <==> c == cs[0] || c in cs[1..];
    }
  }

  lemma NoDupConcat(s: seq<Id>, t: seq<Id>)
    requires NoDup(s) && NoDup(t)
    requires forall y :: y in s ==> y !in t
    ensures NoDup(s + t)
  {
    forall i, j | 0 <= i < j < |s + t|
      ensures (s + t)[i] != (s + t)[j]
    {
      if i < |s| && |s| <= j {
        assert (s + t)[i] in s && (s + t)[j] in t;
      }
    }
  }

  /** No node appears twice in a pre-order. */
  lemma {:induction false} PreOrderDistinct(a: Arena, n: Id)
    requires Valid(a) && n in a.nodes
    ensures NoDup(PreOrder(a, n))
    decreases a.bound - n, 1
  {
    assert ChildChain(a, n);
    FlattenDistinct(a, n, a.kids[n]);
    FlattenMembers(a, n, a.kids[n], n);
    if n in Flatten(a, n, a.kids[n]) {
      var c :| c in a.kids[n] && InSubtree(a, c, n);
      SubtreeOrdered(a, c, n);
    }
    NoDupConcat([n], Flatten(a, n, a.kids[n]));
  }

  lemma {:induction false} FlattenDistinct(a: Arena, p: Id, cs: seq<Id>)
    requires Valid(a) && p in a.nodes
    requires forall c :: c in cs ==> c in a.kids[p]
    requires NoDup(cs)
    ensures NoDup(Flatten(a, p, cs))
    decreases a.bound - p, 0, |cs|
  {
    if cs != [] {
      var c0, rest := cs[0], cs[1..];
      assert c0 in a.kids[p];
      PreOrderDistinct(a, c0);
      FlattenDistinct(a, p, rest);
      forall y | y in PreOrder(a, c0)
        ensures y !in Flatten(a, p, rest)
      {
        PreOrderMembers(a, c0, y);
        FlattenMembers(a, p, rest, y);
        if y in Flatten(a, p, rest) {
          var c :| c in rest && InSubtree(a, c, y);
          assert c != c0;
          AncestorsComparable(a, c0, c, y);
          SiblingsUnrelated(a, p, c0, c);
          SiblingsUnrelated(a, p, c, c0);
        }
      }
      NoDupConcat(PreOrder(a, c0), Flatten(a, p, rest));
    }
  }

  lemma {:induction false} DistinctCount(s: seq<Id>)
    requires NoDup(s)
    ensures |set x: Id | x in s| == |s|
  {
    if s != [] {
      DistinctCount(s[1..]);
      var rest := set x: Id | x in s[1..];
      assert s[0] !in rest;
      assert (set x: Id | x in s) == {s[0]} + rest;
    } else {
      assert (set x: Id | x in s) == {};
    }
  }

  /** The pre-order of o has exactly as many entries as o's subtree has nodes. */
  lemma SubtreeSize(a: Arena, o: Id)
    requires Valid(a) && o in a.nodes
    ensures |Subtree(a, o)| == |PreOrder(a, o)|
  {
    var p := PreOrder(a, o);
    forall x ensures x in p <==> x in Subtree(a, o) {
      PreOrderMembers(a, o, x);
    }
    assert Subtree(a, o) == set x: Id | x in p;
    PreOrderDistinct(a, o);
    DistinctCount(p);
  }

  /** Two different trees never share a node. */
  lemma RootsDisjoint(a: Arena, r1: Id, r2: Id)
    requires Valid(a) && r1 in a.nodes && r2 in a.nodes && r1 != r2
    requires a.nodes[r1].parent == Null && a.nodes[r2].parent == Null
    ensures Subtree(a, r1) * Subtree(a, r2) == {}
  {
    forall x | x in Subtree(a, r1) && x in Subtree(a, r2)
      ensures false
    {
      AncestorsComparable(a, r1, r2, x);
    }
  }
}
