/**
 * The two trees of the repository's unit tests, and the inputs that show
 * where the destructor and the increment go wrong, built through the same
 * methods a program would call.
 */
module Scenarios {
  import opened Links
  import opened DepthFirst
  import opened Lifecycle
  import opened TreeNode

  /**
   * Constructing a node under p, described by what changes: one more child
   * at the end of p's list and no child or sibling link touched outside p and
   * p's children.
   */
  method Grow(f: Forest, p: Id) returns (n: Id)
    requires f.Valid() && p in f.nodes
    modifies f
    ensures f.Valid() && n == old(f.next) && f.next == n + 1
    ensures n in f.nodes && n in f.kids && forall x :: x in old(f.nodes) ==> x in f.nodes
    ensures f.kids[n] == [] && f.kids[p] == old(f.kids[p]) + [n]
    ensures forall q :: q in old(f.kids) && q != p ==> f.kids[q] == old(f.kids[q])
    ensures f.nodes[n] == Node(Ptr(p), Null, Null) && f.nodes[p].child.Ptr?
    ensures forall x :: x in old(f.nodes) && x != p ==> f.nodes[x].child == old(f.nodes[x].child)
    ensures forall x :: x in old(f.nodes) && old(f.nodes[x].parent) != Ptr(p) ==>
              f.nodes[x].sibling == old(f.nodes[x].sibling)
  {
    ghost var a := f.Snapshot();
    AttachKeeps(a, Ptr(p));
    AttachLists(a, Ptr(p));
    n := f.AddNode(Ptr(p));
  }

  /** A root (0) and its first child (1). */
  method BuildPair() returns (f: Forest)
    ensures fresh(f) && f.Valid() && f.next == 2
    ensures 0 in f.nodes && 1 in f.nodes
    ensures f.kids[0] == [1] && f.kids[1] == []
    ensures f.nodes[0].child.Ptr? && f.nodes[1] == Node(Ptr(0), Null, Null)
  {
    f := new Forest();
    var root := f.AddNode(Null);
    var child1 := Grow(f, root);
    assert f.kids[0] == [] + [1];
  }

  /** The tree of the Instantiation test: root (0), child1 (1), subChild1 (2) under child1, child2 (3). */
  method BuildFirstTree() returns (f: Forest)
    ensures fresh(f) && f.Valid()
    ensures 0 in f.nodes && 1 in f.nodes && 2 in f.nodes && 3 in f.nodes
    ensures f.kids[0] == [1, 3] && f.kids[1] == [2] && f.kids[2] == [] && f.kids[3] == []
    ensures f.nodes[0].child.Ptr? && f.nodes[1].child.Ptr? && f.nodes[2].sibling.Null?
  {
    f := BuildPair();
    var sub1 := Grow(f, 1);
    assert f.kids[1] == [] + [2];
    var child2 := Grow(f, 0);
    assert f.kids[0] == [1] + [3];
  }

  /** The pre-orders of the first test tree. */
  lemma {:induction false} FirstTreeOrder(a: Arena)
    requires Valid(a) && 0 in a.nodes && 1 in a.nodes && 2 in a.nodes && 3 in a.nodes
    requires a.kids[0] == [1, 3] && a.kids[1] == [2] && a.kids[2] == [] && a.kids[3] == []
    ensures PreOrder(a, 0) == [0, 1, 2, 3] && PreOrder(a, 1) == [1, 2] && PreOrder(a, 2) == [2]
  {
    assert PreOrder(a, 2) == [2];
    assert PreOrder(a, 3) == [3];
    assert PreOrder(a, 1) == [1, 2] by {
      assert Flatten(a, 1, [2]) == PreOrder(a, 2) + Flatten(a, 1, []);
    }
    assert Flatten(a, 0, [3]) == PreOrder(a, 3) + Flatten(a, 0, []);
    assert Flatten(a, 0, [1, 3]) == PreOrder(a, 1) + Flatten(a, 0, [3]);
  }

  /** The Instantiation test: the sizes are 4, 2 and 1 and only root is a root. */
  method Instantiation() returns (rootSize: nat, child1Size: nat, subSize: nat,
                                  rootIsRoot: bool, child1IsRoot: bool, child2IsRoot: bool)
    ensures rootSize == 4 && child1Size == 2 && subSize == 1
    ensures rootIsRoot && !child1IsRoot && !child2IsRoot
  {
    var f := BuildFirstTree();
    FirstTreeOrder(f.Snapshot());
    SubtreeSize(f.Snapshot(), 0);
    SubtreeSize(f.Snapshot(), 1);
    SubtreeSize(f.Snapshot(), 2);
    rootSize := f.Size(0);
    child1Size := f.Size(1);
    subSize := f.Size(2);
    rootIsRoot := f.IsRoot(0);
    child1IsRoot := f.IsRoot(1);
    assert 3 in f.kids[0];
    child2IsRoot := f.IsRoot(3);
  }

  /** root (0), child1 (1), child2 (2) under root, subChild1 (3) under child1. */
  method BuildSecondTop() returns (f: Forest)
    ensures fresh(f) && f.Valid() && f.next == 4
    ensures 0 in f.nodes && 1 in f.nodes && 2 in f.nodes && 3 in f.nodes
    ensures f.kids[0] == [1, 2] && f.kids[1] == [3] && f.kids[2] == [] && f.kids[3] == []
    ensures f.nodes[0].child.Ptr? && f.nodes[1].child.Ptr?
  {
    f := BuildPair();
    var child2 := Grow(f, 0);
    assert f.kids[0] == [1] + [2];
    var sub1 := Grow(f, 1);
    assert f.kids[1] == [] + [3];
  }

  /** The tree of the Iterator test: BuildSecondTop, then subChild2 (4) under child1 and subChild3 (5) under child2. */
  method BuildSecondTree() returns (f: Forest)
    ensures fresh(f) && f.Valid()
    ensures 0 in f.nodes && 1 in f.nodes && 2 in f.nodes && 3 in f.nodes && 4 in f.nodes && 5 in f.nodes
    ensures f.kids[0] == [1, 2] && f.kids[1] == [3, 4] && f.kids[2] == [5]
    ensures f.kids[3] == [] && f.kids[4] == [] && f.kids[5] == []
    ensures f.nodes[0].child.Ptr? && f.nodes[1].child.Ptr?
  {
    f := BuildSecondTop();
    var sub2 := Grow(f, 1);
    assert f.kids[1] == [3] + [4];
    var sub3 := Grow(f, 2);
    assert f.kids[2] == [] + [5];
  }

  /** The pre-orders of the second test tree. */
  lemma {:induction false} SecondTreeOrder(a: Arena)
    requires Valid(a) && 0 in a.nodes && 1 in a.nodes && 2 in a.nodes
    requires 3 in a.nodes && 4 in a.nodes && 5 in a.nodes
    requires a.kids[0] == [1, 2] && a.kids[1] == [3, 4] && a.kids[2] == [5]
    requires a.kids[3] == [] && a.kids[4] == [] && a.kids[5] == []
    ensures PreOrder(a, 0) == [0, 1, 3, 4, 2, 5] && PreOrder(a, 1) == [1, 3, 4]
  {
    assert PreOrder(a, 3) == [3];
    assert PreOrder(a, 4) == [4];
    assert PreOrder(a, 5) == [5];
    assert PreOrder(a, 1) == [1, 3, 4] by {
      assert Flatten(a, 1, [4]) == PreOrder(a, 4) + Flatten(a, 1, []);
      assert Flatten(a, 1, [3, 4]) == PreOrder(a, 3) + Flatten(a, 1, [4]);
    }
    assert PreOrder(a, 2) == [2, 5] by {
      assert Flatten(a, 2, [5]) == PreOrder(a, 5) + Flatten(a, 2, []);
    }
    assert Flatten(a, 0, [2]) == PreOrder(a, 2) + Flatten(a, 0, []);
    assert Flatten(a, 0, [1, 2]) == PreOrder(a, 1) + Flatten(a, 0, [2]);
  }

  /**
   * The Iterator test: from root the loop yields root, child1, subChild1,
   * subChild2, child2, subChild3; from child1 it yields child1 and its two
   * children.
   */
  method Iterator() returns (fromRoot: seq<Id>, fromChild1: seq<Id>)
    ensures fromRoot == [0, 1, 3, 4, 2, 5] && fromChild1 == [1, 3, 4]
  {
    var f := BuildSecondTree();
    SecondTreeOrder(f.Snapshot());
    fromRoot := f.Visit(0, false);
    fromChild1 := f.Visit(1, false);
  }

  /**
   * Tearing down the Instantiation tree starts with child2 (3), a last child
   * that is not the first: the destructor as written leaves child1's sibling
   * link on the destroyed node.
   */
  method DanglingSibling() returns (link: Link, live: bool)
    ensures link == Ptr(3) && !live
  {
    var f := BuildFirstTree();
    assert ChildChain(f.Snapshot(), 0);
    f.RemoveNode(3);
    link := f.nodes[1].sibling;
    live := 3 in f.nodes;
  }

  /** The same destruction with the left sibling re-pointed: child1 becomes the last child. */
  method SplicedSibling() returns (link: Link, live: bool)
    ensures link == Null && !live
  {
    var f := BuildFirstTree();
    assert ChildChain(f.Snapshot(), 0);
    assert f.nodes[0].child == Ptr(1) && f.nodes[3].sibling == Null;
    assert IndexOf(f.kids[0], 3) == 1;
    f.RemoveNodeSpliced(3);
    link := f.nodes[1].sibling;
    live := 3 in f.nodes;
  }

  /**
   * root (0) with children a (1) and b (2): the iterator started on the leaf
   * a steps to b, outside a's subtree, and the next increment climbs past the
   * root to its null parent. The checked increment counts a alone.
   */
  method LeafWithSibling() returns (first: Id, firstFault: bool, secondFault: bool, checkedSize: nat)
    ensures first == 2 && !firstFault && secondFault && checkedSize == 1
  {
    var f := BuildPair();
    var b := Grow(f, 0);
    assert f.kids[0] == [1] + [2];
    ghost var a := f.Snapshot();
    assert ChildChain(a, 0);
    var it := f.Begin(1);
    firstFault := it.Increment(f, false);
    first := it.node;
    secondFault := it.Increment(f, false);
    assert PreOrder(a, 1) == [1];
    SubtreeSize(a, 1);
    checkedSize := f.SizeChecked(1);
  }
}
