/**
 * The depth-first iterator: a cursor (current node, origin of the iteration,
 * finished flag) and the step `operator++` performs on it, stated over an
 * arena snapshot. The proofs show that, started on an origin that has a child
 * or no next sibling, the steps list the origin's subtree in pre-order and
 * then land on the end iterator.
 */
module DepthFirst {
  import opened Links

  /** The iterator's state: current node, origin of the iteration, finished flag. */
  datatype It = It(node: Id, root: Id, isEnd: bool)

  /**
   * What one increment does: it moves the cursor, or it reaches the top of the
   * origin's tree without meeting the origin and would read through a null parent.
   */
  datatype Outcome = Moved(it: It) | NullParent

  /**
   * begin(): a cursor on o with o as origin. It differs from end() of the same
   * origin, so a loop from begin() to end() runs at least once.
   */
  function Begin(o: Id): (r: It)
    ensures r.node == o && r.root == o && r != End(o)
  {
    It(o, o, false)
  }

  /** end(): the marker a finished walk reaches, finished and back on its origin. */
  function End(o: Id): (r: It)
    ensures r.isEnd && r.node == r.root == o
  {
    It(o, o, true)
  }

  /** Iterator comparison: current node, origin and finished flag must all match. */
  function Equal(x: It, y: It): (b: bool)
    ensures b <==> x == y
  {
    x.node == y.node && x.root == y.root && x.isEnd == y.isEnd
  }

  /** The iterator never reads past its origin when it starts there. */
  predicate OriginOk(a: Arena, o: Id)
    requires o in a.nodes
  {
    a.nodes[o].child.Ptr? || a.nodes[o].sibling.Null?
  }

  /**
   * One increment, as the code does it: first child, else next sibling, else
   * finished if the cursor is the origin, else climb.
   */
  ghost function Step(a: Arena, it: It): (r: Outcome)
    requires Valid(a) && it.node in a.nodes
    ensures r.Moved? ==> r.it.node in a.nodes && r.it.root == it.root
    ensures r.Moved? && r.it.isEnd ==> it.isEnd || r.it.node == it.root
    ensures r.Moved? && it.isEnd ==> r.it.isEnd
  {
    var n := a.nodes[it.node];
    if n.child.Ptr? then
      assert ChildChain(a, it.node);
      assert n.child.id in a.kids[it.node];
      Moved(it.(node := n.child.id))
    else if n.sibling.Ptr? then
      SiblingIsLive(a, it.node);
      Moved(it.(node := n.sibling.id))
    else if it.node == it.root then Moved(it.(isEnd := true))
    else Climb(a, it, it.node)
  }

  /**
   * The climb: go to the parent; stop finished if it is the origin, move to its
   * next sibling if it has one, climb again otherwise.
   */
  ghost function Climb(a: Arena, it: It, x: Id): (r: Outcome)
    requires Valid(a) && x in a.nodes
    ensures r.Moved? ==> r.it.node in a.nodes && r.it.root == it.root
    ensures r.Moved? && r.it.isEnd ==> it.isEnd || r.it.node == it.root
    ensures r.Moved? && it.isEnd ==> r.it.isEnd
    decreases x
  {
    match a.nodes[x].parent
    case Null => NullParent
    case Ptr(p) =>
      if p == it.root then Moved(It(p, it.root, true))
      else if a.nodes[p].sibling.Ptr? then
        SiblingIsLive(a, p);
        Moved(It(a.nodes[p].sibling.id, it.root, it.isEnd))
      else Climb(a, it, p)
  }

  /** The increment with the origin test moved ahead of the sibling test. */
  ghost function StepChecked(a: Arena, it: It): (r: Outcome)
    requires Valid(a) && it.node in a.nodes
    ensures r.Moved? ==> r.it.node in a.nodes && r.it.root == it.root
    ensures r.Moved? && r.it.isEnd ==> it.isEnd || r.it.node == it.root
    ensures r.Moved? && it.isEnd ==> r.it.isEnd
  {
    var n := a.nodes[it.node];
    if n.child.Ptr? then
      assert ChildChain(a, it.node);
      assert n.child.id in a.kids[it.node];
      Moved(it.(node := n.child.id))
    else if it.node == it.root then Moved(it.(isEnd := true))
    else if n.sibling.Ptr? then
      SiblingIsLive(a, it.node);
      Moved(it.(node := n.sibling.id))
    else Climb(a, it, it.node)
  }

  /** One increment: as written, or with the origin tested first when `checked`. */
  ghost function Next(a: Arena, it: It, checked: bool): (r: Outcome)
    requires Valid(a) && it.node in a.nodes
    ensures r.Moved? ==> r.it.node in a.nodes && r.it.root == it.root
    ensures r.Moved? && r.it.isEnd ==> it.isEnd || r.it.node == it.root
    ensures r.Moved? && it.isEnd ==> r.it.isEnd
  {
    if checked then StepChecked(a, it) else Step(a, it)
  }

  /** Applying the increment k times. */
  ghost function AdvanceN(a: Arena, it: It, k: nat, checked: bool): (r: Outcome)
    requires Valid(a) && it.node in a.nodes
    ensures r.Moved? ==> r.it.node in a.nodes && r.it.root == it.root
    decreases k
  {
    if k == 0 then Moved(it)
    else
      match Next(a, it, checked)
      case NullParent => NullParent
      case Moved(next) => AdvanceN(a, next, k - 1, checked)
  }

  /** The siblings that follow x in its parent's child list. */
  ghost function SibsAfter(a: Arena, x: Id): (r: seq<Id>)
    requires Valid(a) && x in a.nodes && a.nodes[x].parent.Ptr?
    ensures forall c :: c in r ==> c in a.kids[a.nodes[x].parent.id]
  {
    var cs := a.kids[a.nodes[x].parent.id];
    cs[IndexOf(cs, x) + 1..]
  }

  /**
   * What the pre-order of o still has to list once x's own subtree is done:
   * the later siblings of x and of each ancestor of x strictly below o.
   */
  ghost function Rest(a: Arena, o: Id, x: Id): seq<Id>
    requires Valid(a) && InSubtree(a, o, x)
    decreases x
  {
    if x == o then []
    else
      var p := a.nodes[x].parent.id;
      Flatten(a, p, SibsAfter(a, x)) + Rest(a, o, p)
  }

  /** The tail of the pre-order of o that starts at x. */
  ghost function PreOrderFrom(a: Arena, o: Id, x: Id): (r: seq<Id>)
    requires Valid(a) && InSubtree(a, o, x)
    ensures |r| > 0 && r[0] == x
  {
    PreOrder(a, x) + Rest(a, o, x)
  }

  /** Where the iterator should go next when `rest` is what remains to list. */
  function Successor(o: Id, isEnd: bool, rest: seq<Id>): Outcome {
    if rest == [] then Moved(End(o)) else Moved(It(rest[0], o, isEnd))
  }

  lemma {:induction false} SiblingIsLive(a: Arena, x: Id)
    requires Valid(a) && x in a.nodes && a.nodes[x].sibling.Ptr?
    ensures a.nodes[x].parent.Ptr? && a.nodes[x].sibling.id in a.nodes
    ensures a.nodes[a.nodes[x].sibling.id].parent == a.nodes[x].parent
  {
    var p := a.nodes[x].parent.id;
    var cs := a.kids[p];
    assert ChildChain(a, p);
    var i := IndexOf(cs, x);
    if i + 1 < |cs| {
      assert a.nodes[cs[i]].sibling == Ptr(cs[i + 1]);
      assert cs[i + 1] in a.kids[p];
    }
  }

  /** x's sibling link names the first of the siblings after it, and that one's are the rest. */
  lemma {:induction false} SiblingLink(a: Arena, x: Id)
    requires Valid(a) && x in a.nodes && a.nodes[x].parent.Ptr?
    ensures var r := SibsAfter(a, x);
      && a.nodes[x].sibling == (if r == [] then Null else Ptr(r[0]))
      && (r != [] ==> r[0] in a.nodes && a.nodes[r[0]].parent == a.nodes[x].parent
                      && SibsAfter(a, r[0]) == r[1..])
  {
    var p := a.nodes[x].parent.id;
    var cs := a.kids[p];
    assert ChildChain(a, p);
    var i := IndexOf(cs, x);
    if i + 1 < |cs| {
      assert a.nodes[cs[i]].sibling == Ptr(cs[i + 1]);
      assert cs[i + 1] in a.kids[p];
      IndexOfDistinct(cs, i + 1);
    }
  }

  /** x's child link names the first of its children, and that one's later siblings are the rest. */
  lemma {:induction false} ChildLink(a: Arena, x: Id)
    requires Valid(a) && x in a.nodes
    ensures var cs := a.kids[x];
      && a.nodes[x].child == (if cs == [] then Null else Ptr(cs[0]))
      && (cs != [] ==> cs[0] in a.nodes && a.nodes[cs[0]].parent == Ptr(x) && SibsAfter(a, cs[0]) == cs[1..])
  {
    var cs := a.kids[x];
    assert ChildChain(a, x);
    if cs != [] {
      assert cs[0] in a.kids[x];
      IndexOfDistinct(cs, 0);
    }
  }

  /** After x's subtree, when x has a later sibling s, the pre-order goes on from s. */
  lemma {:induction false} RestAtSibling(a: Arena, o: Id, y: Id)
    requires Valid(a) && InSubtree(a, o, y) && y != o && SibsAfter(a, y) != []
    ensures var s0 := SibsAfter(a, y)[0];
      && a.nodes[y].sibling == Ptr(s0)
      && InSubtree(a, o, s0) && s0 != o
      && Rest(a, o, y) == PreOrderFrom(a, o, s0)
  {
    var p := a.nodes[y].parent.id;
    var sibs := SibsAfter(a, y);
    var s0 := sibs[0];
    SiblingLink(a, y);
    assert s0 in a.kids[p];
    SubtreeOrdered(a, o, p);
    var front, later, above := PreOrder(a, s0), Flatten(a, p, sibs[1..]), Rest(a, o, p);
    assert Rest(a, o, s0) == later + above;
    assert Flatten(a, p, sibs) == front + later;
    assert Rest(a, o, y) == (front + later) + above;
    assert (front + later) + above == front + (later + above);
  }

  /** After x's subtree, when x is the last child, the pre-order goes on as after its parent's. */
  lemma {:induction false} RestAtLast(a: Arena, o: Id, y: Id)
    requires Valid(a) && InSubtree(a, o, y) && y != o && SibsAfter(a, y) == []
    ensures a.nodes[y].sibling == Null
    ensures Rest(a, o, y) == Rest(a, o, a.nodes[y].parent.id)
  {
    SiblingLink(a, y);
    assert Flatten(a, a.nodes[y].parent.id, []) == [];
  }

  /**
   * Whatever remains after x's subtree starts with a node of o's subtree other
   * than o, and is exactly the pre-order tail from that node.
   */
  lemma {:induction false} RestUnfolds(a: Arena, o: Id, y: Id)
    requires Valid(a) && InSubtree(a, o, y)
    ensures var r := Rest(a, o, y);
      r != [] ==> InSubtree(a, o, r[0]) && r[0] != o && r == PreOrderFrom(a, o, r[0])
    decreases y
  {
    if y != o {
      if SibsAfter(a, y) == [] {
        RestAtLast(a, o, y);
        RestUnfolds(a, o, a.nodes[y].parent.id);
      } else {
        RestAtSibling(a, o, y);
        assert PreOrderFrom(a, o, SibsAfter(a, y)[0])[0] == SibsAfter(a, y)[0];
      }
    }
  }

  /** The climb lands on what remains to be listed after the parent's subtree. */
  lemma {:induction false} ClimbFollowsRest(a: Arena, it: It, x: Id)
    requires Valid(a) && InSubtree(a, it.root, x) && x != it.root
    ensures Climb(a, it, x) == Successor(it.root, it.isEnd, Rest(a, it.root, a.nodes[x].parent.id))
    decreases x
  {
    var o, p := it.root, a.nodes[x].parent.id;
    if p != o {
      if SibsAfter(a, p) == [] {
        RestAtLast(a, o, p);
        ClimbFollowsRest(a, it, p);
      } else {
        RestAtSibling(a, o, p);
        assert PreOrderFrom(a, o, SibsAfter(a, p)[0])[0] == SibsAfter(a, p)[0];
      }
    }
  }

  /**
   * One increment from a node x of o's subtree moves to the next node of o's
   * pre-order after x, or to end() when x is the last one; the node it moves to
   * is again in the subtree and is not the origin.
   */
  lemma {:induction false} StepFollowsPreOrder(a: Arena, o: Id, x: Id, e: bool)
    requires Valid(a) && o in a.nodes && InSubtree(a, o, x)
    requires x != o || OriginOk(a, o)
    ensures var pf := PreOrderFrom(a, o, x);
      && Step(a, It(x, o, e)) == Successor(o, e, pf[1..])
      && (|pf| > 1 ==> InSubtree(a, o, pf[1]) && pf[1] != o && pf[1..] == PreOrderFrom(a, o, pf[1]))
  {
    ChildLink(a, x);
    if a.kids[x] != [] {
      TailAtChild(a, o, x);
    } else {
      TailAtLeaf(a, o, x);
      if x != o {
        if SibsAfter(a, x) == [] {
          RestAtLast(a, o, x);
          ClimbFollowsRest(a, It(x, o, e), x);
        } else {
          RestAtSibling(a, o, x);
        }
      }
    }
  }

  /** Below a node with children, the pre-order tail goes on from its first child. */
  lemma {:induction false} TailAtChild(a: Arena, o: Id, x: Id)
    requires Valid(a) && InSubtree(a, o, x) && a.kids[x] != []
    ensures var pf, c := PreOrderFrom(a, o, x), a.kids[x][0];
      && |pf| > 1 && pf[1] == c
      && InSubtree(a, o, c) && c != o && pf[1..] == PreOrderFrom(a, o, c)
  {
    var c := a.kids[x][0];
    FirstChildTail(a, o, x);
    var q := PreOrderFrom(a, o, c);
    assert ([x] + q)[1..] == q;
  }

  lemma {:induction false} FirstChildTail(a: Arena, o: Id, x: Id)
    requires Valid(a) && InSubtree(a, o, x) && a.kids[x] != []
    ensures var c := a.kids[x][0];
      && InSubtree(a, o, c) && c != o
      && PreOrderFrom(a, o, x) == [x] + PreOrderFrom(a, o, c)
  {
    var cs := a.kids[x];
    var c := cs[0];
    assert InSubtree(a, o, c) && c != o by {
      assert c in a.kids[x];
      SubtreeOrdered(a, o, x);
    }
    var tail := Flatten(a, x, cs[1..]) + Rest(a, o, x);
    assert PreOrderFrom(a, o, c) == PreOrder(a, c) + tail by {
      ChildLink(a, x);
      assert Rest(a, o, c) == tail;
    }
    assert Flatten(a, x, cs) == PreOrder(a, c) + Flatten(a, x, cs[1..]);
  }

  /** At a childless node, the pre-order tail is the node followed by what remains. */
  lemma {:induction false} TailAtLeaf(a: Arena, o: Id, x: Id)
    requires Valid(a) && InSubtree(a, o, x) && a.kids[x] == []
    ensures var pf, r := PreOrderFrom(a, o, x), Rest(a, o, x);
      && pf[1..] == r
      && (r != [] ==> InSubtree(a, o, r[0]) && r[0] != o && r == PreOrderFrom(a, o, r[0]))
  {
    assert Flatten(a, x, a.kids[x]) == [];
    RestUnfolds(a, o, x);
  }

  /** With the origin tested first, every increment follows the pre-order, whatever the origin. */
  lemma {:induction false} StepCheckedFollowsPreOrder(a: Arena, o: Id, x: Id, e: bool)
    requires Valid(a) && o in a.nodes && InSubtree(a, o, x)
    ensures var pf := PreOrderFrom(a, o, x);
      && StepChecked(a, It(x, o, e)) == Successor(o, e, pf[1..])
      && (|pf| > 1 ==> InSubtree(a, o, pf[1]) && pf[1] != o && pf[1..] == PreOrderFrom(a, o, pf[1]))
  {
    ChildLink(a, x);
    if x == o && a.kids[x] == [] {
      assert Flatten(a, x, a.kids[x]) == [];
      assert PreOrderFrom(a, o, x) == [x];
    } else {
      StepFollowsPreOrder(a, o, x, e);
    }
  }

  /**
   * From a childless origin whose sibling link is not null, the iterator
   * first walks out of the subtree: its first increment lands on the next
   * sibling, which is not in the subtree.
   */
  lemma {:induction false} LeafOriginEscapes(a: Arena, o: Id)
    requires Valid(a) && o in a.nodes && !OriginOk(a, o)
    ensures a.nodes[o].sibling.id in a.nodes
    ensures Step(a, Begin(o)) == Moved(It(a.nodes[o].sibling.id, o, false))
    ensures !InSubtree(a, o, a.nodes[o].sibling.id)
  {
    var t := a.nodes[o].sibling.id;
    SiblingIsLive(a, o);
    SiblingLink(a, o);
    if InSubtree(a, o, t) {
      var sibs := SibsAfter(a, o);
      assert t in a.kids[a.nodes[o].parent.id];
      var cs := a.kids[a.nodes[o].parent.id];
      assert ChildChain(a, a.nodes[o].parent.id);
      IndexOfDistinct(cs, IndexOf(cs, o) + 1);
      SubtreeOrdered(a, o, a.nodes[t].parent.id);
    }
  }

  /** Increments applied from a node of the subtree walk its pre-order tail, then end(). */
  lemma {:induction false} IterateFrom(a: Arena, o: Id, x: Id, k: nat, checked: bool)
    requires Valid(a) && o in a.nodes && (checked || OriginOk(a, o)) && InSubtree(a, o, x)
    requires k <= |PreOrderFrom(a, o, x)|
    ensures var pf := PreOrderFrom(a, o, x);
      AdvanceN(a, It(x, o, false), k, checked) == if k < |pf| then Moved(It(pf[k], o, false)) else Moved(End(o))
    decreases k
  {
    if k > 0 {
      var pf := PreOrderFrom(a, o, x);
      if checked {
        StepCheckedFollowsPreOrder(a, o, x, false);
      } else {
        StepFollowsPreOrder(a, o, x, false);
      }
      if |pf| > 1 {
        var y := pf[1];
        IterateFrom(a, o, y, k - 1, checked);
        AdvanceNFirst(a, It(x, o, false), It(y, o, false), k, checked);
        assert k - 1 < |pf| - 1 ==> pf[1..][k - 1] == pf[k];
      } else {
        AdvanceNFirst(a, It(x, o, false), End(o), k, checked);
      }
    }
  }

  /** k increments are the first one followed by k - 1 more. */
  lemma {:induction false} AdvanceNFirst(a: Arena, it: It, next: It, k: nat, checked: bool)
    requires Valid(a) && it.node in a.nodes && k > 0 && Next(a, it, checked) == Moved(next)
    ensures AdvanceN(a, it, k, checked) == AdvanceN(a, next, k - 1, checked)
  {
  }

  /**
   * Iterating from begin(): after k < n increments the cursor is on the k-th
   * node of the pre-order and not finished; after exactly n it equals end(),
   * where n is the number of nodes of the subtree.
   */
  lemma {:induction false} IterationIsPreOrder(a: Arena, o: Id, k: nat, checked: bool)
    requires Valid(a) && o in a.nodes && (checked || OriginOk(a, o))
    requires k <= |PreOrder(a, o)|
    ensures var p := PreOrder(a, o);
      AdvanceN(a, Begin(o), k, checked) == if k < |p| then Moved(It(p[k], o, false)) else Moved(End(o))
  {
    assert PreOrderFrom(a, o, o) == PreOrder(a, o);
    IterateFrom(a, o, o, k, checked);
  }

  /** One more increment after k of them. */
  lemma {:induction false} AdvanceNLast(a: Arena, it: It, k: nat, checked: bool)
    requires Valid(a) && it.node in a.nodes
    ensures AdvanceN(a, it, k + 1, checked) ==
      match AdvanceN(a, it, k, checked)
      case NullParent => NullParent
      case Moved(cur) => Next(a, cur, checked)
    decreases k
  {
    if k > 0 {
      match Next(a, it, checked)
      case NullParent =>
      case Moved(next) => AdvanceNLast(a, next, k - 1, checked);
    }
  }

  /**
   * A walk from begin() that has not reached end() after k increments is on
   * the k-th node of the pre-order, and the next increment does not fault.
   */
  lemma {:induction false} WalkContinues(a: Arena, o: Id, k: nat, checked: bool)
    requires Valid(a) && o in a.nodes && (checked || OriginOk(a, o))
    requires k <= |PreOrder(a, o)|
    requires AdvanceN(a, Begin(o), k, checked) != Moved(End(o))
    ensures k < |PreOrder(a, o)|
    ensures var cur := It(PreOrder(a, o)[k], o, false);
      && cur.node in a.nodes
      && AdvanceN(a, Begin(o), k, checked) == Moved(cur)
      && Next(a, cur, checked).Moved?
      && AdvanceN(a, Begin(o), k + 1, checked) == Next(a, cur, checked)
  {
    IterationIsPreOrder(a, o, k, checked);
    IterationIsPreOrder(a, o, k + 1, checked);
    AdvanceNLast(a, Begin(o), k, checked);
  }
}
