/**
 * The node objects and the iterator object. A `Forest` holds every live node
 * by handle together with its three links; constructing a node hands out the
 * next handle and links it in, destroying one unlinks it and drops it. A
 * `DepthFirstIt` is the cursor the iterator keeps and moves in place.
 */
module TreeNode {
  import opened Links
  import opened DepthFirst
  import opened Lifecycle

  class Forest {
    /** The live nodes and their links. */
    var nodes: map<Id, Node>
    /** The handle the next constructed node receives. */
    var next: nat
    /** The child lists the sibling chains encode. */
    ghost var kids: map<Id, seq<Id>>

    ghost function Snapshot(): Arena
      reads this
    {
      Arena(nodes, kids, next)
    }

    ghost predicate Valid()
      reads this
    {
      Links.Valid(Snapshot())
    }

    /** No node exists yet. */
    constructor ()
      ensures Valid() && nodes == map[] && next == 0
    {
      nodes := map[];
      next := 0;
      kids := map[];
    }

    /**
     * The constructor TreeNode(parent): the new node starts with null child and
     * sibling links and, under a parent, becomes the parent's first child or
     * the next sibling of its last one.
     */
    method AddNode(parent: Link) returns (n: Id)
      requires Valid() && (parent.Ptr? ==> parent.id in nodes)
      modifies this
      ensures n == old(next) && n !in old(nodes)
      ensures Snapshot() == Attach(old(Snapshot()), parent)
      ensures Valid()
    {
      ghost var a := Snapshot();
      AttachValid(a, parent);
      n := next;
      var last := n;
      if parent.Ptr? && nodes[parent.id].child.Ptr? {
        last := LastChild(parent.id);
      }
      nodes := nodes[n := Node(parent, Null, Null)];
      if parent.Ptr? {
        var p := parent.id;
        if nodes[p].child == Null {
          nodes := nodes[p := nodes[p].(child := Ptr(n))];
        } else {
          nodes := nodes[last := nodes[last].(sibling := Ptr(n))];
        }
        kids := kids[n := []][p := kids[p] + [n]];
      } else {
        kids := kids[n := []];
      }
      next := next + 1;
    }

    /** The walk along p's sibling chain to its last node, whose sibling link is null. */
    method LastChild(p: Id) returns (last: Id)
      requires Valid() && p in nodes && nodes[p].child.Ptr?
      ensures kids[p] != [] && last == kids[p][|kids[p]| - 1]
      ensures last in nodes && nodes[last].sibling == Null && nodes[last].parent == Ptr(p)
    {
      ghost var cs := kids[p];
      assert ChildChain(Snapshot(), p);
      ChainLive(nodes, nodes[p].child, cs);
      last := nodes[p].child.id;
      ghost var j := 0;
      while nodes[last].sibling.Ptr?
        invariant 0 <= j < |cs| && last == cs[j]
        invariant j + 1 < |cs| ==> nodes[cs[j]].sibling == Ptr(cs[j + 1])
        decreases |cs| - j
      {
        last := nodes[last].sibling.id;
        j := j + 1;
      }
      assert last in kids[p];
    }

    /**
     * The destructor as written, on a node whose children are gone: a first
     * child hands the parent's head to its sibling, a later child with a
     * sibling has its left sibling re-pointed, and then the node is dropped.
     */
    method RemoveNode(n: Id)
      requires Valid() && n in nodes && kids[n] == []
      modifies this
      ensures Snapshot() == Detach(old(Snapshot()), n)
      ensures !SkipsUnlink(old(Snapshot()), n) ==> Valid()
    {
      ghost var a := Snapshot();
      if !SkipsUnlink(a, n) {
        DetachValid(a, n);
      }
      var node := nodes[n];
      if node.parent.Ptr? {
        var p := node.parent.id;
        ghost var cs := kids[p];
        assert n in cs;
        ghost var i := IndexOf(cs, n);
        if nodes[p].child == Ptr(n) {
          nodes := nodes[p := nodes[p].(child := node.sibling)];
        } else if node.sibling != Null {
          var left := LeftSibling(p, n);
          nodes := nodes[left := nodes[left].(sibling := node.sibling)];
        }
        kids := kids[p := cs[..i] + cs[i + 1..]];
      }
      nodes := nodes - {n};
      kids := kids - {n};
    }

    /** The destructor with the left sibling re-pointed whether or not the node has a next sibling. */
    method RemoveNodeSpliced(n: Id)
      requires Valid() && n in nodes && kids[n] == []
      modifies this
      ensures Snapshot() == DetachSpliced(old(Snapshot()), n)
      ensures Valid()
    {
      ghost var a := Snapshot();
      DetachSplicedValid(a, n);
      var node := nodes[n];
      if node.parent.Ptr? {
        var p := node.parent.id;
        ghost var cs := kids[p];
        assert n in cs;
        ghost var i := IndexOf(cs, n);
        if nodes[p].child == Ptr(n) {
          nodes := nodes[p := nodes[p].(child := node.sibling)];
        } else {
          var left := LeftSibling(p, n);
          nodes := nodes[left := nodes[left].(sibling := node.sibling)];
        }
        kids := kids[p := cs[..i] + cs[i + 1..]];
      }
      nodes := nodes - {n};
      kids := kids - {n};
    }

    /** The walk from p's first child to the node whose sibling link is n. */
    method LeftSibling(p: Id, n: Id) returns (left: Id)
      requires Valid() && p in nodes && n in kids[p] && nodes[p].child != Ptr(n)
      ensures var cs := kids[p]; var i := IndexOf(cs, n); 0 < i && left == cs[i - 1]
      ensures left in nodes && nodes[left].sibling == Ptr(n)
    {
      ghost var cs := kids[p];
      ghost var i := IndexOf(cs, n);
      assert ChildChain(Snapshot(), p);
      ChainLive(nodes, nodes[p].child, cs);
      left := nodes[p].child.id;
      ghost var j := 0;
      while nodes[left].sibling != Ptr(n)
        invariant 0 <= j < i && left == cs[j]
        invariant nodes[cs[j]].sibling == Ptr(cs[j + 1])
        decreases i - j
      {
        IndexOfDistinct(cs, j + 1);
        left := nodes[left].sibling.id;
        j := j + 1;
      }
      IndexOfDistinct(cs, j + 1);
    }

    /** isRoot(): the node is in no child list, that is, it has no parent. */
    function IsRoot(n: Id): (b: bool)
      reads this
      requires Valid() && n in nodes
      ensures b <==> forall p :: p in kids ==> n !in kids[p]
    {
      if nodes[n].parent.Ptr? then
        assert n in kids[nodes[n].parent.id];
        false
      else
        true
    }

    /** begin(): a cursor on n with n as origin, not finished. */
    method Begin(n: Id) returns (it: DepthFirstIt)
      ensures fresh(it) && it.Value() == DepthFirst.Begin(n)
    {
      it := new DepthFirstIt(n, false);
    }

    /** end(): a cursor on n with n as origin, finished. */
    method End(n: Id) returns (it: DepthFirstIt)
      ensures fresh(it) && it.Value() == DepthFirst.End(n)
    {
      it := new DepthFirstIt(n, true);
    }

    /**
     * size(): runs the iterator from begin() until it equals end() and counts
     * the increments. On an origin that has a child or no next sibling this is
     * the number of nodes of its subtree.
     */
    method Size(o: Id) returns (count: nat)
      requires Valid() && o in nodes && OriginOk(Snapshot(), o)
      ensures count == |Subtree(Snapshot(), o)|
    {
      count := Count(o, false);
    }

    /** size() over the increment that tests the origin first: correct for every node. */
    method SizeChecked(o: Id) returns (count: nat)
      requires Valid() && o in nodes
      ensures count == |Subtree(Snapshot(), o)|
    {
      count := Count(o, true);
    }

    /** The counting loop of size(), over either increment. */
    method Count(o: Id, checked: bool) returns (count: nat)
      requires Valid() && o in nodes && (checked || OriginOk(Snapshot(), o))
      ensures count == |Subtree(Snapshot(), o)|
    {
      ghost var a := Snapshot();
      ghost var order := PreOrder(a, o);
      count := 0;
      var it := Begin(o);
      var last := End(o);
      IterationIsPreOrder(a, o, 0, checked);
      while !it.Equals(last)
        invariant fresh(it) && fresh(last) && it != last
        invariant last.Value() == DepthFirst.End(o)
        invariant count <= |order|
        invariant AdvanceN(a, DepthFirst.Begin(o), count, checked) == Moved(it.Value())
        decreases |order| - count
      {
        WalkContinues(a, o, count, checked);
        var fault := it.Increment(this, checked);
        count := count + 1;
      }
      IterationIsPreOrder(a, o, count, checked);
      SubtreeSize(a, o);
    }

    /**
     * A range-for over begin()..end(): the nodes the iterator yields, in
     * order. Under the origin condition, or with the checked increment, that
     * is the pre-order of the subtree, so every node of the subtree exactly once.
     */
    method Visit(o: Id, checked: bool) returns (visited: seq<Id>)
      requires Valid() && o in nodes && (checked || OriginOk(Snapshot(), o))
      ensures visited == PreOrder(Snapshot(), o)
    {
      ghost var a := Snapshot();
      ghost var order := PreOrder(a, o);
      visited := [];
      var it := Begin(o);
      var last := End(o);
      IterationIsPreOrder(a, o, 0, checked);
      while !it.Equals(last)
        invariant fresh(it) && fresh(last) && it != last
        invariant last.Value() == DepthFirst.End(o)
        invariant |visited| <= |order| && visited == order[..|visited|]
        invariant AdvanceN(a, DepthFirst.Begin(o), |visited|, checked) == Moved(it.Value())
        decreases |order| - |visited|
      {
        WalkContinues(a, o, |visited|, checked);
        visited := visited + [it.node];
        var fault := it.Increment(this, checked);
      }
      IterationIsPreOrder(a, o, |visited|, checked);
    }
  }

  /** depthFirstIt: the current node, the origin of the walk and the finished flag. */
  class DepthFirstIt {
    var node: Id
    var root: Id
    var isEnd: bool

    function Value(): It
      reads this
    {
      It(node, root, isEnd)
    }

    /** The private constructor behind begin() and end(). */
    constructor (n: Id, finished: bool)
      ensures Value() == It(n, n, finished)
    {
      node := n;
      root := n;
      isEnd := finished;
    }

    /** operator== compares all three fields; operator!= is its negation. */
    function Equals(other: DepthFirstIt): (b: bool)
      reads this, other
      ensures b <==> Value() == other.Value()
    {
      Equal(Value(), other.Value())
    }

    /**
     * Prefix operator++ on the nodes of `f`, as written or, when `checked`,
     * with the origin tested before the sibling. `fault` reports the climb
     * reaching a null parent, which the code would dereference.
     */
    method Increment(f: Forest, checked: bool) returns (fault: bool)
      requires f.Valid() && node in f.nodes
      modifies this
      ensures Next(f.Snapshot(), old(Value()), checked) == if fault then NullParent else Moved(Value())
    {
      ghost var a := f.Snapshot();
      ghost var start := Value();
      var links := f.nodes[node];
      fault := false;
      if links.child.Ptr? {
        node := links.child.id;
        return;
      }
      if checked && node == root {
        isEnd := true;
        return;
      }
      if links.sibling.Ptr? {
        node := links.sibling.id;
        return;
      }
      if node == root {
        isEnd := true;
        return;
      }
      while true
        invariant node in f.nodes && root == start.root && isEnd == start.isEnd
        invariant Climb(a, start, node) == Next(a, start, checked)
        decreases node
      {
        var up := f.nodes[node].parent;
        if up.Null? {
          fault := true;
          return;
        }
        node := up.id;
        if node == root {
          isEnd := true;
          return;
        }
        if f.nodes[node].sibling.Ptr? {
          node := f.nodes[node].sibling.id;
          return;
        }
      }
    }

    /** Postfix operator++: a copy of the cursor as it was, then the prefix increment. */
    method PostIncrement(f: Forest, checked: bool) returns (copy: DepthFirstIt, fault: bool)
      requires f.Valid() && node in f.nodes
      modifies this
      ensures fresh(copy) && copy.Value() == old(Value())
      ensures Next(f.Snapshot(), old(Value()), checked) == if fault then NullParent else Moved(Value())
    {
      copy := new DepthFirstIt(node, false);
      copy.root := root;
      copy.isEnd := isEnd;
      fault := Increment(f, checked);
    }
  }
}
