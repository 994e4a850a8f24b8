/**
 * The red-black rules on tree values: every path from a node down to an empty
 * subtree meets the same number of black nodes, no red node has a red child, and
 * the root is black.  The second half holds the facts the two fix-up loops of
 * RedBlackTree.cpp rely on, stated on the subtree around the node being fixed.
 */
module Coloring {
  import opened TreeModel

  /** The colour of a subtree's root; an empty subtree counts as black. */
  function RootColor<N>(t: Tree<N>): Color
  {
    if t.Nil? then Black else t.color
  }

  /** The black nodes on the leftmost path down to an empty subtree. */
  ghost function BlackHeight<N>(t: Tree<N>): nat
  {
    match t
    case Nil => 0
    case Node(l, _, _, c, _) => BlackHeight(l) + (if c == Black then 1 else 0)
  }

  /** At every node both subtrees have the same black height. */
  ghost predicate Balanced<N>(t: Tree<N>)
  {
    match t
    case Nil => true
    case Node(l, _, _, _, r) => Balanced(l) && Balanced(r) && BlackHeight(l) == BlackHeight(r)
  }

  /** No red node has a red child. */
  ghost predicate RedRedFree<N>(t: Tree<N>)
  {
    match t
    case Nil => true
    case Node(l, _, _, c, r) =>
      RedRedFree(l) && RedRedFree(r) && (c == Red ==> RootColor(l) == Black && RootColor(r) == Black)
  }

  ghost predicate IsRedBlack<N>(t: Tree<N>)
  {
    Balanced(t) && RedRedFree(t) && RootColor(t) == Black
  }

  // ----- black height along every path -----

  /** The black nodes met when following the steps of p from the root. */
  ghost function BlackOnPath<N>(t: Tree<N>, p: Path): nat
    requires Reaches(t, p)
    decreases |p|
  {
    if p == [] then 0
    else (if t.color == Black then 1 else 0) + BlackOnPath(Child(t, p[0]), p[1..])
  }

  /** Every path from the root down to an empty subtree meets exactly k black nodes. */
  ghost predicate UniformBlack<N>(t: Tree<N>, k: nat)
  {
    forall p: Path :: Reaches(t, p) && Subtree(t, p).Nil? ==> BlackOnPath(t, p) == k
  }

  /** The path that always goes left, down to an empty subtree. */
  ghost function LeftSpine<N>(t: Tree<N>): (p: Path)
    ensures Reaches(t, p) && Subtree(t, p).Nil? && BlackOnPath(t, p) == BlackHeight(t)
  {
    match t
    case Nil => []
    case Node(l, _, _, _, _) =>
      var q := LeftSpine(l);
      assert ([L] + q)[0] == L && ([L] + q)[1..] == q;
      [L] + q
  }

  /** Balanced is the textbook rule: all paths to an empty subtree meet the same number of black nodes. */
  lemma {:induction false} BalancedIffUniform<N>(t: Tree<N>)
    ensures Balanced(t) <==> UniformBlack(t, BlackHeight(t))
  {
    match t
    case Nil =>
      forall p: Path | Reaches(t, p) && Subtree(t, p).Nil?
        ensures BlackOnPath(t, p) == 0
      {
      }
    case Node(l, _, _, c, r) =>
      var b := if c == Black then 1 else 0;
      BalancedIffUniform(l);
      BalancedIffUniform(r);
      if Balanced(t) {
        forall p: Path | Reaches(t, p) && Subtree(t, p).Nil?
          ensures BlackOnPath(t, p) == BlackHeight(t)
        {
          var ch := Child(t, p[0]);
          assert Reaches(ch, p[1..]) && Subtree(ch, p[1..]).Nil?;
        }
      }
      if UniformBlack(t, BlackHeight(t)) {
        forall q: Path | Reaches(l, q) && Subtree(l, q).Nil?
          ensures BlackOnPath(l, q) == BlackHeight(l)
        {
          assert ([L] + q)[0] == L && ([L] + q)[1..] == q;
          assert BlackOnPath(t, [L] + q) == b + BlackOnPath(l, q);
        }
        forall q: Path | Reaches(r, q) && Subtree(r, q).Nil?
          ensures BlackOnPath(r, q) == BlackHeight(l)
        {
          assert ([R] + q)[0] == R && ([R] + q)[1..] == q;
          assert BlackOnPath(t, [R] + q) == b + BlackOnPath(r, q);
        }
        var s := LeftSpine(r);
        assert BlackHeight(r) == BlackHeight(l);
      }
  }

  // ----- balance under replacement -----

  lemma {:induction false} BalancedSubtree<N>(t: Tree<N>, p: Path)
    requires Balanced(t) && Reaches(t, p)
    ensures Balanced(Subtree(t, p))
    decreases |p|
  {
    if p != [] {
      BalancedSubtree(Child(t, p[0]), p[1..]);
    }
  }

  /** Swapping a subtree for a balanced one of the same black height keeps the tree balanced. */
  lemma {:induction false} BalancedReplace<N>(t: Tree<N>, p: Path, s: Tree<N>)
    requires Balanced(t) && Reaches(t, p)
    requires Balanced(s) && BlackHeight(s) == BlackHeight(Subtree(t, p))
    ensures Balanced(ReplaceAt(t, p, s)) && BlackHeight(ReplaceAt(t, p, s)) == BlackHeight(t)
    decreases |p|
  {
    if p != [] {
      BalancedReplace(Child(t, p[0]), p[1..], s);
    }
  }

  /**
   * In a balanced tree the sibling of a black node is a node, and when that sibling is
   * red both of its children are nodes.
   */
  lemma SiblingPresent<N>(g: Tree<N>, d: Dir)
    requires g.Node? && Balanced(g)
    requires Child(g, d).Node? && Child(g, d).color == Black
    ensures Child(g, Opposite(d)).Node?
    ensures Child(g, Opposite(d)).color == Red ==>
      Child(g, Opposite(d)).left.Node? && Child(g, Opposite(d)).right.Node?
  {
  }

  // ----- a single red-red edge -----

  /**
   * No red node has a red child, except that the node at p may be red below a red
   * parent.  This is the state insertFixup keeps while it walks up the tree.
   */
  ghost predicate RedRedOnlyAt<N>(t: Tree<N>, p: Path)
    decreases |p|
  {
    if p == [] then RedRedFree(t)
    else
      t.Node? &&
      var c := Child(t, p[0]);
      var o := Child(t, Opposite(p[0]));
      RedRedOnlyAt(c, p[1..]) && RedRedFree(o) &&
      (t.color == Red ==> RootColor(o) == Black && (|p| > 1 ==> RootColor(c) == Black))
  }

  lemma {:induction false} RedRedFreeAt<N>(t: Tree<N>, p: Path)
    requires RedRedFree(t) && Reaches(t, p)
    ensures RedRedOnlyAt(t, p)
    decreases |p|
  {
    if p != [] {
      RedRedFreeAt(Child(t, p[0]), p[1..]);
    }
  }

  lemma {:induction false} RedRedOnlyAtSubtree<N>(t: Tree<N>, gp: Path, q: Path)
    requires Reaches(t, gp) && RedRedOnlyAt(t, gp + q)
    ensures RedRedOnlyAt(Subtree(t, gp), q)
    decreases |gp|
  {
    if gp == [] {
      assert gp + q == q;
    } else {
      assert (gp + q)[0] == gp[0] && (gp + q)[1..] == gp[1..] + q;
      RedRedOnlyAtSubtree(Child(t, gp[0]), gp[1..], q);
    }
  }

  /**
   * Replacing the subtree at gp, strictly above the one exception, by a tree without
   * red-red edges leaves at most one exception: the new subtree's root under its parent.
   */
  lemma {:induction false} RedRedOnlyAtLift<N>(t: Tree<N>, gp: Path, q: Path, s: Tree<N>)
    requires Reaches(t, gp) && q != [] && RedRedOnlyAt(t, gp + q) && RedRedFree(s)
    ensures RedRedOnlyAt(ReplaceAt(t, gp, s), gp)
    decreases |gp|
  {
    if gp != [] {
      assert (gp + q)[0] == gp[0] && (gp + q)[1..] == gp[1..] + q;
      RedRedOnlyAtLift(Child(t, gp[0]), gp[1..], q, s);
      var c := Child(t, gp[0]);
      if |gp| > 1 {
        ReplaceReaches(c, gp[1..], s, []);
      }
    }
  }

  /** A new subtree without red-red edges, placed in a tree without them, is the only possible exception. */
  lemma {:induction false} RedRedOnlyAtReplace<N>(t: Tree<N>, p: Path, s: Tree<N>)
    requires RedRedFree(t) && Reaches(t, p) && RedRedFree(s)
    ensures RedRedOnlyAt(ReplaceAt(t, p, s), p)
    decreases |p|
  {
    if p != [] {
      RedRedOnlyAtReplace(Child(t, p[0]), p[1..], s);
      if |p| > 1 {
        ReplaceReaches(Child(t, p[0]), p[1..], s, []);
      }
    }
  }

  /** When the node at the exception is black there is no exception. */
  lemma {:induction false} RedRedOnlyAtBlackNode<N>(t: Tree<N>, p: Path)
    requires IsNode(t, p) && RedRedOnlyAt(t, p) && Subtree(t, p).color == Black
    ensures RedRedFree(t)
    decreases |p|
  {
    if p != [] {
      RedRedOnlyAtBlackNode(Child(t, p[0]), p[1..]);
    }
  }

  /** When the parent of the exception is black there is no exception. */
  lemma {:induction false} RedRedOnlyAtBlackParent<N>(t: Tree<N>, pp: Path, d: Dir)
    requires IsNode(t, pp) && Reaches(t, pp + [d]) && RedRedOnlyAt(t, pp + [d])
    requires Subtree(t, pp).color == Black
    ensures RedRedFree(t)
    decreases |pp|
  {
    if pp == [] {
      assert pp + [d] == [d] && [d][1..] == [];
    } else {
      assert (pp + [d])[0] == pp[0] && (pp + [d])[1..] == pp[1..] + [d];
      RedRedOnlyAtBlackParent(Child(t, pp[0]), pp[1..], d);
    }
  }

  // ----- the three repairs of insertFixup, on the grandparent's subtree -----

  /**
   * g is the grandparent's subtree; the parent, on side d, is red, and so is its child
   * on side e, the node being fixed; that is the only red-red edge.
   */
  ghost predicate RedUnderRed<N>(g: Tree<N>, d: Dir, e: Dir)
  {
    g.Node? && Child(g, d).Node? && Child(g, d).color == Red &&
    Child(Child(g, d), e).Node? && Child(Child(g, d), e).color == Red &&
    RedRedOnlyAt(g, [d, e]) && Balanced(g)
  }

  /** Red uncle: parent and uncle turn black, the grandparent turns red. */
  ghost function RecolorUp<N>(g: Tree<N>, d: Dir): Tree<N>
    requires g.Node? && Child(g, d).Node? && Child(g, Opposite(d)).Node?
  {
    PaintChild(g, d, Black);
    var g1 := PaintAt(g, [d], Black);
    PaintChild(g1, Opposite(d), Black);
    var g2 := PaintAt(g1, [Opposite(d)], Black);
    PaintAt(g2, [], Red)
  }

  /** Black uncle, node on the same side as its parent: parent black, grandparent red, rotate the parent up. */
  ghost function RotateUp<N>(g: Tree<N>, d: Dir): Tree<N>
    requires g.Node? && Child(g, d).Node?
  {
    PaintChild(g, d, Black);
    var g1 := PaintAt(g, [d], Black);
    var g2 := PaintAt(g1, [], Red);
    PromoteRoot(g2, d);
    PromoteAt(g2, [], d)
  }

  /** Black uncle, node on the inner side: rotate the node above its parent, then as RotateUp. */
  ghost function ZigZag<N>(g: Tree<N>, d: Dir): Tree<N>
    requires g.Node? && Child(g, d).Node? && Child(Child(g, d), Opposite(d)).Node?
  {
    PromoteChild(g, d, Opposite(d));
    var g1 := PromoteAt(g, [d], Opposite(d));
    RotateUp(g1, d)
  }

  /** The grandparent of a red-red edge is black. */
  lemma GrandparentBlack<N>(g: Tree<N>, d: Dir, e: Dir)
    requires RedUnderRed(g, d, e)
    ensures g.color == Black
    ensures RedRedFree(Child(g, Opposite(d)))
    ensures RedRedFree(Child(g, d).left) && RedRedFree(Child(g, d).right)
    ensures RootColor(Child(Child(g, d), Opposite(e))) == Black
  {
    var p: Path := [d, e];
    assert p[0] == d && p[1..] == [e] && [e][0] == e && [e][1..] == [];
    var c := Child(g, d);
    assert RedRedOnlyAt(c, [e]);
    assert RedRedOnlyAt(Child(c, e), []);
    if e == L {
      assert RedRedFree(c.left) && RedRedFree(c.right);
    } else {
      assert RedRedFree(c.left) && RedRedFree(c.right);
    }
  }

  lemma RecolorUpRepairs<N>(g: Tree<N>, d: Dir, e: Dir)
    requires RedUnderRed(g, d, e) && RootColor(Child(g, Opposite(d))) == Red
    ensures var g' := RecolorUp(g, d);
      Balanced(g') && BlackHeight(g') == BlackHeight(g) && RedRedFree(g') &&
      g'.Node? && g'.color == Red && g'.id == g.id
  {
    GrandparentBlack(g, d, e);
    var g' := RecolorUp(g, d);
    PaintChild(g, d, Black);
    var g1 := PaintAt(g, [d], Black);
    PaintChild(g1, Opposite(d), Black);
    PaintRoot(PaintAt(g1, [Opposite(d)], Black), Red);
    var pt := Child(g, d);
    var u := Child(g, Opposite(d));
    var pt' := pt.(color := Black);
    var u' := u.(color := Black);
    assert Balanced(g);
    assert Balanced(pt) && Balanced(u) && BlackHeight(pt) == BlackHeight(u);
    assert RedRedFree(u.left) && RedRedFree(u.right);
    assert RedRedFree(pt') && RedRedFree(u');
    assert Balanced(pt') && Balanced(u');
    assert BlackHeight(pt') == BlackHeight(pt) + 1 == BlackHeight(u) + 1 == BlackHeight(u');
    if d == L {
      assert g' == g.(left := pt', right := u', color := Red);
    } else {
      assert g' == g.(right := pt', left := u', color := Red);
    }
  }

  lemma RotateUpRepairs<N>(g: Tree<N>, d: Dir)
    requires RedUnderRed(g, d, d) && RootColor(Child(g, Opposite(d))) == Black
    ensures var g' := RotateUp(g, d);
      Balanced(g') && BlackHeight(g') == BlackHeight(g) && RedRedFree(g') &&
      g'.Node? && g'.color == Black && g'.id == Child(g, d).id &&
      Child(g', d).Node? && Child(g', d).color == Red && Child(g', d).id == Child(Child(g, d), d).id
  {
    GrandparentBlack(g, d, d);
    var g' := RotateUp(g, d);
    PaintChild(g, d, Black);
    var g1 := PaintAt(g, [d], Black);
    PaintRoot(g1, Red);
    PromoteRoot(PaintAt(g1, [], Red), d);
    if d == L {
      var Node(Node(z, pn, pk, _, b), gn, gk, _, u) := g;
      assert Balanced(g);
      assert Balanced(g.left) && BlackHeight(g.left) == BlackHeight(u);
      assert BlackHeight(z) == BlackHeight(b) == BlackHeight(u);
      var h := Node(b, gn, gk, Red, u);
      assert Balanced(h) && RedRedFree(h) && BlackHeight(h) == BlackHeight(b);
      assert g' == Node(z, pn, pk, Black, h);
    } else {
      var Node(u, gn, gk, _, Node(b, pn, pk, _, z)) := g;
      assert Balanced(g);
      assert Balanced(g.right) && BlackHeight(g.right) == BlackHeight(u);
      assert BlackHeight(z) == BlackHeight(b) == BlackHeight(u);
      var h := Node(u, gn, gk, Red, b);
      assert Balanced(h) && RedRedFree(h) && BlackHeight(h) == BlackHeight(u);
      assert g' == Node(h, pn, pk, Black, z);
    }
  }

  lemma ZigZagRepairs<N>(g: Tree<N>, d: Dir)
    requires RedUnderRed(g, d, Opposite(d)) && RootColor(Child(g, Opposite(d))) == Black
    ensures var g' := ZigZag(g, d);
      Balanced(g') && BlackHeight(g') == BlackHeight(g) && RedRedFree(g') &&
      g'.Node? && g'.color == Black &&
      Child(g', d).Node? && Child(g', d).color == Red && Child(g', d).id == Child(g, d).id
  {
    GrandparentBlack(g, d, Opposite(d));
    PromoteChild(g, d, Opposite(d));
    var g1 := PromoteAt(g, [d], Opposite(d));
    var q: Path := [d, d];
    assert q[0] == d && q[1..] == [d] && [d][0] == d && [d][1..] == [];
    var pt1 := Child(g1, d);
    if d == L {
      var Node(Node(a, pn, pk, _, Node(b, zn, zk, _, c)), gn, gk, gc, u) := g;
      var inner := Node(a, pn, pk, Red, b);
      assert Balanced(g);
      assert Balanced(g.left) && BlackHeight(g.left) == BlackHeight(u);
      assert Balanced(g.left.right) && BlackHeight(a) == BlackHeight(g.left.right);
      assert BlackHeight(a) == BlackHeight(b) == BlackHeight(c) == BlackHeight(u);
      assert g1 == Node(Node(inner, zn, zk, Red, c), gn, gk, gc, u);
      assert RedRedFree(inner) && Balanced(inner) && BlackHeight(inner) == BlackHeight(a);
      assert Balanced(g1.left) && BlackHeight(g1.left) == BlackHeight(u);
      assert Balanced(g1);
      assert RedRedOnlyAt(pt1, [d]);
    } else {
      var Node(u, gn, gk, gc, Node(Node(c, zn, zk, _, b), pn, pk, _, a)) := g;
      var inner := Node(b, pn, pk, Red, a);
      assert Balanced(g);
      assert Balanced(g.right) && BlackHeight(g.right) == BlackHeight(u);
      assert Balanced(g.right.left) && BlackHeight(a) == BlackHeight(g.right.left);
      assert BlackHeight(a) == BlackHeight(b) == BlackHeight(c) == BlackHeight(u);
      assert g1 == Node(u, gn, gk, gc, Node(c, zn, zk, Red, inner));
      assert RedRedFree(inner) && Balanced(inner) && BlackHeight(inner) == BlackHeight(a);
      assert Balanced(g1.right) && BlackHeight(g1.right) == BlackHeight(u);
      assert Balanced(g1);
      assert RedRedOnlyAt(pt1, [d]);
    }
    assert RedUnderRed(g1, d, d);
    RotateUpRepairs(g1, d);
  }
}
