/**
 * What constructing and destroying a node does to the links, as functions
 * from one arena snapshot to the next. The constructor appends the new node
 * at the end of its parent's child chain; the destructor unlinks a childless
 * node, and as written skips the unlinking when the node is a last child
 * that is not also the first one. `DetachSpliced` is the destructor with that
 * case closed.
 */
module Lifecycle {
  import opened Links
  import DepthFirst

  /** The arena after constructing the next handle under `parent`. */
  ghost function Attach(a: Arena, parent: Link): Arena
    requires Valid(a) && (parent.Ptr? ==> parent.id in a.nodes)
  {
    var n := a.bound;
    var nodes := a.nodes[n := Node(parent, Null, Null)];
    match parent
    case Null => Arena(nodes, a.kids[n := []], n + 1)
    case Ptr(p) =>
      var cs := a.kids[p];
      assert ChildChain(a, p);
      var linked :=
        if nodes[p].child.Null? then nodes[p := nodes[p].(child := Ptr(n))]
        else nodes[cs[|cs| - 1] := nodes[cs[|cs| - 1]].(sibling := Ptr(n))];
      Arena(linked, a.kids[n := []][p := cs + [n]], n + 1)
  }

  /**
   * The arena after destroying the childless node n, as the destructor is
   * written: a root only goes away; a first child hands the parent's head to
   * its next sibling; a later child with a next sibling has its left sibling
   * re-pointed past it; a later child without one is left in the chain.
   */
  ghost function Detach(a: Arena, n: Id): Arena
    requires Valid(a) && n in a.nodes && a.kids[n] == []
  {
    var node := a.nodes[n];
    match node.parent
    case Null => Arena(a.nodes - {n}, a.kids - {n}, a.bound)
    case Ptr(p) =>
      var cs := a.kids[p];
      assert n in cs;
      var i := IndexOf(cs, n);
      var kids := a.kids[p := cs[..i] + cs[i + 1..]] - {n};
      if a.nodes[p].child == Ptr(n) then
        Arena(a.nodes[p := a.nodes[p].(child := node.sibling)] - {n}, kids, a.bound)
      else if node.sibling.Ptr? then
        assert ChildChain(a, p);
        var left := cs[i - 1];
        Arena(a.nodes[left := a.nodes[left].(sibling := node.sibling)] - {n}, kids, a.bound)
      else
        Arena(a.nodes - {n}, kids, a.bound)
  }

  /** The destructor with the left sibling re-pointed whether or not n has a next sibling. */
  ghost function DetachSpliced(a: Arena, n: Id): Arena
    requires Valid(a) && n in a.nodes && a.kids[n] == []
  {
    var node := a.nodes[n];
    match node.parent
    case Null => Arena(a.nodes - {n}, a.kids - {n}, a.bound)
    case Ptr(p) =>
      var cs := a.kids[p];
      assert n in cs;
      var i := IndexOf(cs, n);
      var kids := a.kids[p := cs[..i] + cs[i + 1..]] - {n};
      if a.nodes[p].child == Ptr(n) then
        Arena(a.nodes[p := a.nodes[p].(child := node.sibling)] - {n}, kids, a.bound)
      else
        assert ChildChain(a, p);
        var left := cs[i - 1];
        Arena(a.nodes[left := a.nodes[left].(sibling := node.sibling)] - {n}, kids, a.bound)
  }

  /** A chain survives any update that keeps its members live and their sibling links as they were. */
  lemma {:induction false} ChainFrame(nodes: map<Id, Node>, nodes': map<Id, Node>, h: Link, cs: seq<Id>)
    requires Chain(nodes, h, cs)
    requires forall c :: c in cs ==> c in nodes && c in nodes' && nodes'[c].sibling == nodes[c].sibling
    ensures Chain(nodes', h, cs)
  {
    forall i, j | 0 <= i && j == i + 1 && j < |cs|
      ensures cs[i] in nodes' && nodes'[cs[i]].sibling == Ptr(cs[j])
    {
      assert cs[i] in cs;
    }
    if cs != [] {
      assert cs[|cs| - 1] in cs;
    }
  }

  /** Appending n to a chain that ends at its last member's null link. */
  lemma {:induction false} ChainSnoc(nodes: map<Id, Node>, nodes': map<Id, Node>, h: Link, h': Link, cs: seq<Id>, n: Id)
    requires Chain(nodes, h, cs) && n !in cs
    requires forall c :: c in cs ==> c in nodes && c in nodes'
    requires forall c :: c in cs && (cs == [] || c != cs[|cs| - 1]) ==> nodes'[c].sibling == nodes[c].sibling
    requires cs == [] ==> h' == Ptr(n)
    requires cs != [] ==> h' == h && nodes'[cs[|cs| - 1]].sibling == Ptr(n)
    requires n in nodes' && nodes'[n].sibling == Null
    ensures Chain(nodes', h', cs + [n])
  {
    var ds := cs + [n];
    forall i, j | 0 <= i && j == i + 1 && j < |ds|
      ensures ds[i] in nodes' && nodes'[ds[i]].sibling == Ptr(ds[j])
    {
      assert ds[i] == cs[i] && cs[i] in cs;
      if j < |cs| {
        assert ds[j] == cs[j];
      }
    }
  }

  /**
   * Constructing a node changes no other node's parent link, and no sibling
   * link other than that of one child of the new node's parent.
   */
  lemma {:induction false} AttachKeeps(a: Arena, parent: Link)
    requires Valid(a) && (parent.Ptr? ==> parent.id in a.nodes)
    ensures var r := Attach(a, parent);
      && r.bound == a.bound + 1 && a.bound !in a.nodes
      && r.nodes.Keys == a.nodes.Keys + {a.bound}
      && r.nodes[a.bound] == Node(parent, Null, Null)
      && forall x :: x in a.nodes ==>
           && r.nodes[x].parent == a.nodes[x].parent
           && (r.nodes[x].child == a.nodes[x].child || Ptr(x) == parent)
           && (r.nodes[x].sibling == a.nodes[x].sibling || (parent.Ptr? && a.nodes[x].parent == parent))
  {
    var n := a.bound;
    assert n !in a.nodes;
    if parent.Ptr? && a.nodes[parent.id].child.Ptr? {
      var cs := a.kids[parent.id];
      assert ChildChain(a, parent.id);
      assert cs[|cs| - 1] in a.kids[parent.id];
    }
  }

  /** After construction every child chain lists its node's children; the parent's has the new node last. */
  lemma {:induction false} AttachChains(a: Arena, parent: Link)
    requires Valid(a) && (parent.Ptr? ==> parent.id in a.nodes)
    ensures Chains(Attach(a, parent))
  {
    var r := Attach(a, parent);
    var n := a.bound;
    AttachKeeps(a, parent);
    forall q | q in r.nodes
      ensures ChildChain(r, q)
    {
      if q == n {
      } else if parent.Ptr? && q == parent.id {
        var cs := a.kids[q];
        assert ChildChain(a, q);
        assert n !in cs;
        ChainSnoc(a.nodes, r.nodes, a.nodes[q].child, r.nodes[q].child, cs, n);
        NoDupConcat(cs, [n]);
      } else {
        var cs := a.kids[q];
        assert ChildChain(a, q);
        forall c | c in cs ensures c in r.nodes && r.nodes[c].sibling == a.nodes[c].sibling {
          assert c in a.kids[q];
        }
        ChainFrame(a.nodes, r.nodes, a.nodes[q].child, cs);
      }
    }
  }

  /** Construction gives the new node an empty child list and appends it to its parent's. */
  lemma {:induction false} AttachLists(a: Arena, parent: Link)
    requires Valid(a) && (parent.Ptr? ==> parent.id in a.nodes)
    ensures var r := Attach(a, parent);
      && r.kids.Keys == a.kids.Keys + {a.bound}
      && r.kids[a.bound] == []
      && forall q :: q in a.kids ==>
           r.kids[q] == if Ptr(q) == parent then a.kids[q] + [a.bound] else a.kids[q]
  {
    assert a.bound !in a.nodes;
  }

  /**
   * The new node is in exactly the child list of its parent: in none when it
   * is constructed without one, which is what makes it a root.
   */
  lemma {:induction false} AttachListsNew(a: Arena, parent: Link)
    requires Valid(a) && (parent.Ptr? ==> parent.id in a.nodes)
    ensures var r := Attach(a, parent);
      forall q :: q in r.kids ==> (a.bound in r.kids[q] <==> Ptr(q) == parent)
  {
    var r := Attach(a, parent);
    AttachLists(a, parent);
    forall q | q in r.kids
      ensures a.bound in r.kids[q] <==> Ptr(q) == parent
    {
      assert a.bound !in a.nodes;
    }
  }

  /** Handles and parent links of an arena that extends a valid one by one node. */
  lemma {:induction false} ShapeAfterAppend(a: Arena, r: Arena, parent: Link)
    requires Shape(a) && (parent.Ptr? ==> parent.id in a.nodes)
    requires r.bound == a.bound + 1 && a.bound !in a.nodes
    requires r.nodes.Keys == a.nodes.Keys + {a.bound} && r.nodes[a.bound] == Node(parent, Null, Null)
    requires forall x :: x in a.nodes ==>
      && r.nodes[x].parent == a.nodes[x].parent
      && (r.nodes[x].sibling == a.nodes[x].sibling || (parent.Ptr? && a.nodes[x].parent == parent))
    requires r.kids.Keys == a.kids.Keys + {a.bound}
    ensures Shape(r)
  {
    var n := a.bound;
    forall x | x in r.nodes
      ensures x < r.bound
      ensures r.nodes[x].parent.Ptr? ==> r.nodes[x].parent.id in r.nodes && r.nodes[x].parent.id < x
      ensures r.nodes[x].parent.Null? ==> r.nodes[x].sibling == Null
    {
      if x != n {
        assert x in a.nodes;
        assert a.nodes[x].parent == r.nodes[x].parent;
      }
    }
  }

  /** Child lists of an arena that extends a valid one by one node. */
  lemma {:induction false} ListedAfterAppend(a: Arena, r: Arena, parent: Link)
    requires Shape(a) && Listed(a) && (parent.Ptr? ==> parent.id in a.nodes)
    requires r.bound == a.bound + 1 && a.bound !in a.nodes
    requires r.nodes.Keys == a.nodes.Keys + {a.bound} && r.nodes[a.bound] == Node(parent, Null, Null)
    requires forall x :: x in a.nodes ==> r.nodes[x].parent == a.nodes[x].parent
    requires r.kids.Keys == a.kids.Keys + {a.bound} && r.kids[a.bound] == []
    requires forall q, c :: q in a.kids ==>
      (c in r.kids[q] <==> c in a.kids[q] || (c == a.bound && Ptr(q) == parent))
    ensures Listed(r)
  {
    var n := a.bound;
    forall q, c | q in r.kids && c in r.kids[q]
      ensures c in r.nodes && r.nodes[c].parent == Ptr(q)
    {
      if q != n && c != n {
        assert c in a.kids[q];
      }
    }
    forall c | c in r.nodes && r.nodes[c].parent.Ptr? && r.nodes[c].parent.id in r.kids
      ensures c in r.kids[r.nodes[c].parent.id]
    {
      if c != n {
        assert c in a.kids[a.nodes[c].parent.id];
      }
    }
  }

  /** Constructing a node keeps the links consistent and lists it last among its parent's children. */
  lemma {:induction false} AttachValid(a: Arena, parent: Link)
    requires Valid(a) && (parent.Ptr? ==> parent.id in a.nodes)
    ensures Valid(Attach(a, parent))
  {
    AttachKeeps(a, parent);
    AttachLists(a, parent);
    AttachChains(a, parent);
    var r := Attach(a, parent);
    forall q, c | q in a.kids
      ensures c in r.kids[q] <==> c in a.kids[q] || (c == a.bound && Ptr(q) == parent)
    {
    }
    ShapeAfterAppend(a, r, parent);
    ListedAfterAppend(a, r, parent);
  }

  /** Removing one entry keeps the others distinct. */
  lemma {:induction false} NoDupRemove(cs: seq<Id>, i: nat)
    requires NoDup(cs) && i < |cs|
    ensures NoDup(cs[..i] + cs[i + 1..])
  {
    var ds := cs[..i] + cs[i + 1..];
    forall k, l | 0 <= k < l < |ds|
      ensures ds[k] != ds[l]
    {
      var k', l' := if k < i then k else k + 1, if l < i then l else l + 1;
      assert ds[k] == cs[k'] && ds[l] == cs[l'];
    }
  }

  /**
   * Unlinking the i-th member of a chain: the head or the left neighbour takes
   * over the member's sibling link, and the chain then lists the others.
   */
  lemma {:induction false} ChainRemove(nodes: map<Id, Node>, nodes': map<Id, Node>, h: Link, h': Link, cs: seq<Id>, i: nat)
    requires Chain(nodes, h, cs) && i < |cs|
    requires forall k :: 0 <= k < |cs| ==> cs[k] in nodes
    requires forall k :: 0 <= k < |cs| && k != i ==> cs[k] in nodes'
    requires forall k :: 0 <= k < |cs| && k != i && k + 1 != i ==>
      cs[k] in nodes' && nodes'[cs[k]].sibling == nodes[cs[k]].sibling
    requires i == 0 ==> h' == nodes[cs[i]].sibling
    requires i > 0 ==> h' == h && cs[i - 1] in nodes' && nodes'[cs[i - 1]].sibling == nodes[cs[i]].sibling
    ensures Chain(nodes', h', cs[..i] + cs[i + 1..])
  {
    var ds := cs[..i] + cs[i + 1..];
    assert |ds| == |cs| - 1;
    assert forall k :: 0 <= k < |ds| ==> ds[k] == if k < i then cs[k] else cs[k + 1];
    if i + 1 < |cs| {
      assert nodes[cs[i]].sibling == Ptr(cs[i + 1]);
    }
    forall k, l | 0 <= k && l == k + 1 && l < |ds|
      ensures ds[k] in nodes' && nodes'[ds[k]].sibling == Ptr(ds[l])
    {
      if k + 1 < i {
        assert nodes[cs[k]].sibling == Ptr(cs[k + 1]);
      } else if k + 1 == i {
      } else {
        assert nodes[cs[k + 1]].sibling == Ptr(cs[k + 2]);
      }
    }
  }

  /** Whether destroying n hits the case the destructor skips: a last child that is not the first. */
  ghost predicate SkipsUnlink(a: Arena, n: Id)
    requires n in a.nodes
  {
    var node := a.nodes[n];
    node.parent.Ptr? && node.parent.id in a.nodes
    && a.nodes[node.parent.id].child != Ptr(n) && node.sibling.Null?
  }

  /** Removing the i-th entry of a list without repeats drops exactly that value. */
  lemma {:induction false} RemoveMembers(cs: seq<Id>, i: nat)
    requires NoDup(cs) && i < |cs|
    ensures forall c :: c in cs[..i] + cs[i + 1..] <==> c in cs && c != cs[i]
  {
    forall c
      ensures c in cs[..i] + cs[i + 1..] <==> c in cs && c != cs[i]
    {
      if c in cs && c != cs[i] {
        var k := IndexOf(cs, c);
        if k < i {
          assert cs[..i][k] == c;
        } else {
          assert cs[i + 1..][k - i - 1] == c;
        }
      }
      if c in cs[..i] {
        var k :| 0 <= k < i && cs[..i][k] == c;
        assert cs[k] == c;
      }
      if c in cs[i + 1..] {
        var k :| 0 <= k < |cs[i + 1..]| && cs[i + 1..][k] == c;
        assert cs[i + 1 + k] == c;
      }
    }
  }

  /**
   * The spliced destructor removes n, changes no parent link, and changes only
   * the parent's child link or a sibling link in the parent's chain.
   */
  lemma {:induction false} SplicedKeeps(a: Arena, n: Id)
    requires Valid(a) && n in a.nodes && a.kids[n] == []
    ensures var r := DetachSpliced(a, n);
      && r.bound == a.bound
      && r.nodes.Keys == a.nodes.Keys - {n}
      && r.kids.Keys == a.kids.Keys - {n}
      && (forall x :: x in r.nodes ==> r.nodes[x].parent == a.nodes[x].parent)
      && (forall x :: x in r.nodes && a.nodes[x].parent != a.nodes[n].parent ==> r.nodes[x].sibling == a.nodes[x].sibling)
      && (forall x :: x in r.nodes && Ptr(x) != a.nodes[n].parent ==> r.nodes[x].child == a.nodes[x].child)
      && (forall x :: x in r.nodes && a.nodes[x].parent.Null? ==> r.nodes[x].sibling == a.nodes[x].sibling)
  {
    var node := a.nodes[n];
    if node.parent.Ptr? {
      var p := node.parent.id;
      var cs := a.kids[p];
      assert n in cs;
      var i := IndexOf(cs, n);
      assert ChildChain(a, p);
      if a.nodes[p].child != Ptr(n) {
        assert cs[i - 1] in a.kids[p];
      }
    }
  }

  /** The spliced destructor takes n out of every child list and changes nothing else in them. */
  lemma {:induction false} SplicedLists(a: Arena, n: Id)
    requires Valid(a) && n in a.nodes && a.kids[n] == []
    ensures var r := DetachSpliced(a, n);
      forall q, c :: q in r.kids ==> (c in r.kids[q] <==> c in a.kids[q] && c != n)
  {
    var r := DetachSpliced(a, n);
    var node := a.nodes[n];
    forall q, c | q in r.kids
      ensures c in r.kids[q] <==> c in a.kids[q] && c != n
    {
      if node.parent == Ptr(q) {
        var cs := a.kids[q];
        assert n in cs && ChildChain(a, q);
        RemoveMembers(cs, IndexOf(cs, n));
      } else {
        assert n !in a.kids[q];
      }
    }
  }

  /** After the spliced destructor, the parent's chain lists its remaining children. */
  lemma {:induction false} SplicedParentChain(a: Arena, n: Id)
    requires Valid(a) && n in a.nodes && a.kids[n] == [] && a.nodes[n].parent.Ptr?
    ensures ChildChain(DetachSpliced(a, n), a.nodes[n].parent.id)
  {
    var r := DetachSpliced(a, n);
    var p := a.nodes[n].parent.id;
    var cs := a.kids[p];
    assert n in cs && ChildChain(a, p);
    var i := IndexOf(cs, n);
    ChainLive(a.nodes, a.nodes[p].child, cs);
    assert r.kids[p] == cs[..i] + cs[i + 1..];
    assert i == 0 <==> a.nodes[p].child == Ptr(n);
    forall k | 0 <= k < |cs| && k != i
      ensures cs[k] in r.nodes
      ensures k + 1 != i ==> r.nodes[cs[k]].sibling == a.nodes[cs[k]].sibling
    {
      assert cs[k] != n;
      if i > 0 && k + 1 != i {
        assert cs[k] != cs[i - 1];
      }
      if cs[k] == p {
        assert cs[k] in a.kids[p];
      }
    }
    ChainRemove(a.nodes, r.nodes, a.nodes[p].child, r.nodes[p].child, cs, i);
    NoDupRemove(cs, i);
  }

  /** After the spliced destructor, every child chain lists its node's children. */
  lemma {:induction false} SplicedChains(a: Arena, n: Id)
    requires Valid(a) && n in a.nodes && a.kids[n] == []
    ensures Chains(DetachSpliced(a, n))
  {
    var r := DetachSpliced(a, n);
    var node := a.nodes[n];
    SplicedKeeps(a, n);
    forall q | q in r.nodes
      ensures ChildChain(r, q)
    {
      if node.parent == Ptr(q) {
        SplicedParentChain(a, n);
      } else {
        var cs := a.kids[q];
        assert ChildChain(a, q);
        forall c | c in cs
          ensures c in a.nodes && c in r.nodes && r.nodes[c].sibling == a.nodes[c].sibling
        {
          assert c in a.kids[q];
        }
        ChainFrame(a.nodes, r.nodes, a.nodes[q].child, cs);
      }
    }
  }

  /** Handles and parent links of an arena that drops the childless node n from a valid one. */
  lemma {:induction false} ShapeAfterRemove(a: Arena, r: Arena, n: Id)
    requires Shape(a) && Listed(a) && n in a.nodes && a.kids[n] == []
    requires r.bound == a.bound && r.nodes.Keys == a.nodes.Keys - {n} && r.kids.Keys == a.kids.Keys - {n}
    requires forall x :: x in r.nodes ==> r.nodes[x].parent == a.nodes[x].parent
    requires forall x :: x in r.nodes && a.nodes[x].parent.Null? ==> r.nodes[x].sibling == a.nodes[x].sibling
    ensures Shape(r)
  {
    forall x | x in r.nodes && r.nodes[x].parent.Ptr?
      ensures r.nodes[x].parent.id in r.nodes && r.nodes[x].parent.id < x
    {
      var q := a.nodes[x].parent.id;
      assert x in a.kids[q];
    }
  }

  /** Child lists of an arena that drops the childless node n from a valid one. */
  lemma {:induction false} ListedAfterRemove(a: Arena, r: Arena, n: Id)
    requires Shape(a) && Listed(a) && n in a.nodes && a.kids[n] == []
    requires r.nodes.Keys == a.nodes.Keys - {n} && r.kids.Keys == a.kids.Keys - {n}
    requires forall x :: x in r.nodes ==> r.nodes[x].parent == a.nodes[x].parent
    requires forall q, c :: q in r.kids ==> (c in r.kids[q] <==> c in a.kids[q] && c != n)
    ensures Listed(r)
  {
    forall q, c | q in r.kids && c in r.kids[q]
      ensures c in r.nodes && r.nodes[c].parent == Ptr(q)
    {
      assert c in a.kids[q];
    }
    forall c | c in r.nodes && r.nodes[c].parent.Ptr? && r.nodes[c].parent.id in r.kids
      ensures c in r.kids[r.nodes[c].parent.id]
    {
      assert c in a.kids[a.nodes[c].parent.id];
    }
  }

  /** The spliced destructor keeps the links consistent. */
  lemma {:induction false} DetachSplicedValid(a: Arena, n: Id)
    requires Valid(a) && n in a.nodes && a.kids[n] == []
    ensures Valid(DetachSpliced(a, n))
  {
    var r := DetachSpliced(a, n);
    SplicedKeeps(a, n);
    SplicedLists(a, n);
    SplicedChains(a, n);
    ShapeAfterRemove(a, r, n);
    ListedAfterRemove(a, r, n);
  }

  /** Outside the skipped case, the destructor as written does what the spliced one does. */
  lemma {:induction false} DetachAgrees(a: Arena, n: Id)
    requires Valid(a) && n in a.nodes && a.kids[n] == [] && !SkipsUnlink(a, n)
    ensures Detach(a, n) == DetachSpliced(a, n)
  {
  }

  /** Outside the skipped case, the destructor as written keeps the links consistent. */
  lemma {:induction false} DetachValid(a: Arena, n: Id)
    requires Valid(a) && n in a.nodes && a.kids[n] == [] && !SkipsUnlink(a, n)
    ensures Valid(Detach(a, n))
  {
    DetachAgrees(a, n);
    DetachSplicedValid(a, n);
  }

  /**
   * In the skipped case the destructor as written leaves the left sibling's
   * link on the destroyed node, so the links are no longer consistent.
   */
  lemma {:induction false} DetachDangles(a: Arena, n: Id)
    requires Valid(a) && n in a.nodes && a.kids[n] == [] && SkipsUnlink(a, n)
    ensures var r := Detach(a, n);
      && n !in r.nodes
      && (exists left :: left in r.nodes && r.nodes[left].sibling == Ptr(n))
      && !Valid(r)
  {
    var r := Detach(a, n);
    var p := a.nodes[n].parent.id;
    var cs := a.kids[p];
    assert n in cs && ChildChain(a, p);
    var i := IndexOf(cs, n);
    assert i > 0;
    var left := cs[i - 1];
    assert left in a.kids[p];
    assert a.nodes[left].sibling == Ptr(n);
    assert left in r.nodes && r.nodes[left].sibling == Ptr(n);
    if Valid(r) {
      DepthFirst.SiblingIsLive(r, left);
    }
  }

  /** The destructor as written changes no parent link of a node that survives it. */
  lemma {:induction false} DetachKeepsParents(a: Arena, n: Id)
    requires Valid(a) && n in a.nodes && a.kids[n] == []
    ensures var r := Detach(a, n);
      forall x :: x in r.nodes ==> x in a.nodes && x != n && r.nodes[x].parent == a.nodes[x].parent
  {
    if !SkipsUnlink(a, n) {
      DetachAgrees(a, n);
      SplicedKeeps(a, n);
    }
  }

  /**
   * Subtree membership follows parent links only, so it agrees between an
   * arena and a smaller one that keeps the parent links of its nodes.
   */
  lemma {:induction false} InSubtreeShared(big: Arena, small: Arena, o: Id, x: Id)
    requires Shape(small) && x in small.nodes
    requires forall y :: y in small.nodes ==> y in big.nodes && big.nodes[y].parent == small.nodes[y].parent
    ensures InSubtree(small, o, x) <==> InSubtree(big, o, x)
    decreases x
  {
    if x != o && small.nodes[x].parent.Ptr? {
      InSubtreeShared(big, small, o, small.nodes[x].parent.id);
    }
  }

  /** Constructing a node under p adds it to the subtree of every ancestor of p, and to no other. */
  lemma {:induction false} AttachSubtree(a: Arena, parent: Link, o: Id)
    requires Valid(a) && (parent.Ptr? ==> parent.id in a.nodes) && o in a.nodes
    ensures Subtree(Attach(a, parent), o) ==
      Subtree(a, o) + (if parent.Ptr? && InSubtree(a, o, parent.id) then {a.bound} else {})
  {
    var r := Attach(a, parent);
    var n := a.bound;
    AttachKeeps(a, parent);
    forall x | x in a.nodes
      ensures InSubtree(r, o, x) <==> InSubtree(a, o, x)
    {
      InSubtreeShared(r, a, o, x);
    }
    assert InSubtree(r, o, n) <==> parent.Ptr? && InSubtree(a, o, parent.id) by {
      assert n != o;
      if parent.Ptr? {
        assert parent.id in a.nodes;
      }
    }
  }

  /** Destroying n takes it out of the subtree of every other node and changes nothing else there. */
  lemma {:induction false} DetachSubtree(a: Arena, n: Id, o: Id)
    requires Valid(a) && n in a.nodes && a.kids[n] == [] && o in a.nodes && o != n
    ensures Subtree(Detach(a, n), o) == Subtree(a, o) - {n}
  {
    var r := Detach(a, n);
    SplicedKeeps(a, n);
    if !SkipsUnlink(a, n) {
      DetachAgrees(a, n);
    }
    ShapeAfterRemove(a, r, n);
    forall x | x in r.nodes
      ensures InSubtree(r, o, x) <==> InSubtree(a, o, x)
    {
      InSubtreeShared(a, r, o, x);
    }
  }
}
