/**
 * The two fix-up loops of RedBlackTree.cpp on tree values: the state each loop keeps
 * between iterations and, for every branch of the loop body, the tree the branch's
 * colour writes and rotations produce and the proof that the state is kept.
 */
module Fixups {
  import opened TreeModel
  import opened Coloring

  // ----- insertFixup -----

  /**
   * The state of insertFixup with the node being fixed at zp: the tree is balanced,
   * the node is red, the only red-red edge is the one above it and the root is black
   * unless the node is the root.
   */
  ghost predicate InsertFixing<N>(t: Tree<N>, zp: Path)
  {
    Balanced(t) && IsNode(t, zp) && Subtree(t, zp).color == Red && RedRedOnlyAt(t, zp) &&
    (zp != [] ==> t.color == Black)
  }

  /** A red leaf placed at an empty position of a red-black tree starts insertFixup's state. */
  lemma InsertStarts<N>(t: Tree<N>, p: Path, leaf: Tree<N>)
    requires IsRedBlack(t) && Reaches(t, p) && Subtree(t, p).Nil?
    requires leaf.Node? && leaf.left.Nil? && leaf.right.Nil? && leaf.color == Red
    ensures InsertFixing(ReplaceAt(t, p, leaf), p)
  {
    var t' := ReplaceAt(t, p, leaf);
    BalancedReplace(t, p, leaf);
    SubtreeOfReplace(t, p, leaf);
    RedRedOnlyAtReplace(t, p, leaf);
    if p != [] {
      ReplaceReaches(t, p, leaf, []);
    }
  }

  /** The parent of the node being fixed, when red, is not the root: the grandparent exists. */
  lemma GrandparentExists<N>(t: Tree<N>, zp: Path)
    requires InsertFixing(t, zp) && zp != []
    requires IsNode(t, zp[..|zp| - 1]) && Subtree(t, zp[..|zp| - 1]).color == Red
    ensures |zp| >= 2
  {
    assert |zp[..|zp| - 1]| == |zp| - 1;
  }

  /** The three colour writes of the red-uncle branch, one position at a time. */
  lemma RecolorUpAt<N>(t: Tree<N>, gp: Path, d: Dir)
    requires IsNode(t, gp)
    requires Child(Subtree(t, gp), d).Node? && Child(Subtree(t, gp), Opposite(d)).Node?
    ensures var g := Subtree(t, gp);
      IsNode(t, gp + [d]) && Subtree(t, gp + [d]).id == Child(g, d).id &&
      var t1 := PaintAt(t, gp + [d], Black);
      IsNode(t1, gp + [Opposite(d)]) && Subtree(t1, gp + [Opposite(d)]).id == Child(g, Opposite(d)).id &&
      var t2 := PaintAt(t1, gp + [Opposite(d)], Black);
      IsNode(t2, gp) && Subtree(t2, gp).id == g.id &&
      PaintAt(t2, gp, Red) == ReplaceAt(t, gp, RecolorUp(g, d))
  {
    var g := Subtree(t, gp);
    var o := Opposite(d);
    assert [d][0] == d && [d][1..] == [] && [o][0] == o && [o][1..] == [];
    ReplaceSame(t, gp);
    PaintChild(g, d, Black);
    LocalView(t, gp, g, [d]);
    LocalPaint(t, gp, g, [d], Black);
    var g1 := PaintAt(g, [d], Black);
    PaintChild(g1, o, Black);
    LocalView(t, gp, g1, [o]);
    LocalPaint(t, gp, g1, [o], Black);
    var g2 := PaintAt(g1, [o], Black);
    assert gp + [] == gp;
    LocalView(t, gp, g2, []);
    LocalPaint(t, gp, g2, [], Red);
  }

  /** The two colour writes and the rotation of the black-uncle branch, one position at a time. */
  lemma RotateUpAt<N>(t: Tree<N>, gp: Path, d: Dir)
    requires IsNode(t, gp) && Child(Subtree(t, gp), d).Node?
    ensures var g := Subtree(t, gp);
      IsNode(t, gp + [d]) && Subtree(t, gp + [d]).id == Child(g, d).id &&
      var t1 := PaintAt(t, gp + [d], Black);
      IsNode(t1, gp) && Subtree(t1, gp).id == g.id &&
      var t2 := PaintAt(t1, gp, Red);
      CanPromote(t2, gp, d) && Subtree(t2, gp).id == g.id &&
      PromoteAt(t2, gp, d) == ReplaceAt(t, gp, RotateUp(g, d))
  {
    var g := Subtree(t, gp);
    assert [d][0] == d && [d][1..] == [];
    ReplaceSame(t, gp);
    PaintChild(g, d, Black);
    LocalView(t, gp, g, [d]);
    LocalPaint(t, gp, g, [d], Black);
    var g1 := PaintAt(g, [d], Black);
    assert gp + [] == gp;
    LocalView(t, gp, g1, []);
    LocalPaint(t, gp, g1, [], Red);
    var g2 := PaintAt(g1, [], Red);
    PromoteRoot(g2, d);
    LocalView(t, gp, g2, []);
    LocalPromote(t, gp, g2, [], d);
  }

  /** The inner-child branch: the rotation at the parent, after which the branch continues as RotateUpAt. */
  lemma ZigZagAt<N>(t: Tree<N>, gp: Path, d: Dir)
    requires IsNode(t, gp) && Child(Subtree(t, gp), d).Node?
    requires Child(Child(Subtree(t, gp), d), Opposite(d)).Node?
    ensures var g := Subtree(t, gp);
      CanPromote(t, gp + [d], Opposite(d)) && Subtree(t, gp + [d]).id == Child(g, d).id &&
      var t1 := PromoteAt(t, gp + [d], Opposite(d));
      IsNode(t1, gp) && Child(Subtree(t1, gp), d).Node? &&
      Child(Child(Subtree(t1, gp), d), d).Node? && Child(Child(Subtree(t1, gp), d), d).id == Child(g, d).id &&
      ReplaceAt(t1, gp, RotateUp(Subtree(t1, gp), d)) == ReplaceAt(t, gp, ZigZag(g, d))
  {
    var g := Subtree(t, gp);
    assert [d][0] == d && [d][1..] == [];
    ReplaceSame(t, gp);
    PromoteChild(g, d, Opposite(d));
    LocalView(t, gp, g, [d]);
    LocalPromote(t, gp, g, [d], Opposite(d));
    var g1 := PromoteAt(g, [d], Opposite(d));
    SubtreeOfReplace(t, gp, g1);
    ReplaceTwice(t, gp, g1, RotateUp(g1, d));
  }

  /** The red-uncle branch keeps the state, with the grandparent as the node being fixed. */
  lemma RecolorFixes<N>(t: Tree<N>, gp: Path, d: Dir, e: Dir)
    requires IsNode(t, gp) && InsertFixing(t, gp + [d, e])
    requires Child(Subtree(t, gp), d).Node? && Child(Subtree(t, gp), d).color == Red
    requires Child(Subtree(t, gp), Opposite(d)).Node? && Child(Subtree(t, gp), Opposite(d)).color == Red
    ensures InsertFixing(ReplaceAt(t, gp, RecolorUp(Subtree(t, gp), d)), gp)
    ensures Subtree(ReplaceAt(t, gp, RecolorUp(Subtree(t, gp), d)), gp).id == Subtree(t, gp).id
  {
    var g := Subtree(t, gp);
    var g' := RecolorUp(g, d);
    var t' := ReplaceAt(t, gp, g');
    FixingLocal(t, gp, d, e);
    RecolorUpRepairs(g, d, e);
    BalancedReplace(t, gp, g');
    RedRedOnlyAtLift(t, gp, [d, e], g');
    SubtreeOfReplace(t, gp, g');
    if gp != [] {
      ReplaceReaches(t, gp, g', []);
    }
  }

  /**
   * The black-uncle branch (with the extra rotation when the node is an inner child)
   * leaves no red-red edge, a black node at the grandparent's position and the node
   * being fixed, red, just below it.
   */
  lemma RotateFixes<N>(t: Tree<N>, gp: Path, d: Dir, e: Dir)
    requires IsNode(t, gp) && InsertFixing(t, gp + [d, e])
    requires Child(Subtree(t, gp), d).Node? && Child(Subtree(t, gp), d).color == Red
    requires Child(Child(Subtree(t, gp), d), e).Node?
    requires RootColor(Child(Subtree(t, gp), Opposite(d))) == Black
    ensures var g := Subtree(t, gp);
      var g' := if e == d then RotateUp(g, d) else ZigZag(g, d);
      var t' := ReplaceAt(t, gp, g');
      InsertFixing(t', gp + [d]) && RedRedFree(t') &&
      IsNode(t', gp) && Subtree(t', gp).color == Black &&
      Subtree(t', gp + [d]).id == (if e == d then Child(Child(g, d), d).id else Child(g, d).id)
  {
    var g := Subtree(t, gp);
    var g' := if e == d then RotateUp(g, d) else ZigZag(g, d);
    var t' := ReplaceAt(t, gp, g');
    FixingLocal(t, gp, d, e);
    if e == d {
      RotateUpRepairs(g, d);
    } else {
      assert e == Opposite(d) by {
        if d == L { assert e == R; } else { assert e == L; }
      }
      ZigZagRepairs(g, d);
    }
    BalancedReplace(t, gp, g');
    RedRedOnlyAtLift(t, gp, [d, e], g');
    SubtreeOfReplace(t, gp, g');
    RedRedOnlyAtBlackNode(t', gp);
    assert [d][0] == d && [d][1..] == [];
    LocalView(t, gp, g', [d]);
    RedRedFreeAt(t', gp + [d]);
    if gp != [] {
      ReplaceReaches(t, gp, g', []);
    }
  }

  /** Around the grandparent of the node being fixed, the state is RedUnderRed. */
  lemma FixingLocal<N>(t: Tree<N>, gp: Path, d: Dir, e: Dir)
    requires IsNode(t, gp) && InsertFixing(t, gp + [d, e])
    requires Child(Subtree(t, gp), d).Node? && Child(Subtree(t, gp), d).color == Red
    ensures RedUnderRed(Subtree(t, gp), d, e)
  {
    var g := Subtree(t, gp);
    RedRedOnlyAtSubtree(t, gp, [d, e]);
    BalancedSubtree(t, gp);
    ReachesAppend(t, gp, [d, e]);
    assert [d, e][0] == d && [d, e][1..] == [e] && [e][0] == e && [e][1..] == [];
    assert Subtree(g, [d, e]) == Subtree(Child(g, d), [e]);
    assert Subtree(Child(g, d), [e]) == Child(Child(g, d), e);
  }

  /**
   * When the loop stops (the node is the root or its parent is black) no red-red edge
   * is left, and blackening the root gives a red-black tree.
   */
  lemma InsertFixed<N>(t: Tree<N>, zp: Path)
    requires InsertFixing(t, zp)
    requires zp != [] ==> IsNode(t, zp[..|zp| - 1]) && Subtree(t, zp[..|zp| - 1]).color == Black
    ensures t.Node? && IsRedBlack(PaintAt(t, [], Black))
  {
    if zp != [] {
      var pp := zp[..|zp| - 1];
      assert zp == pp + [zp[|zp| - 1]];
      RedRedOnlyAtBlackParent(t, pp, zp[|zp| - 1]);
    } else {
      assert t.Node?;
    }
    PaintRoot(t, Black);
  }
  /**
   * The red leaf with key v, placed where insert's descent ends, starts insertFixup's
   * state; the key sequence gains exactly v, at its sorted place when it was sorted, and
   * in an empty tree the leaf is the whole tree.
   */
  lemma InsertPlaced<N>(t: Tree<N>, v: int, leaf: Tree<N>)
    requires IsRedBlack(t)
    requires leaf.Node? && leaf.key == v && leaf.color == Red && leaf.left.Nil? && leaf.right.Nil?
    ensures Reaches(t, InsertPath(t, v)) && Subtree(t, InsertPath(t, v)).Nil?
    ensures var t' := ReplaceAt(t, InsertPath(t, v), leaf);
      InsertFixing(t', InsertPath(t, v)) && leaf == Subtree(t', InsertPath(t, v)) &&
      multiset(Inorder(t')) == multiset(Inorder(t)) + multiset{v} &&
      (Sorted(Inorder(t)) ==> Inorder(t') == InsertSorted(Inorder(t), v)) &&
      (t.Nil? ==> t' == leaf) && t'.id == (if t.Nil? then leaf.id else t.id)
  {
    var p := InsertPath(t, v);
    InsertPathEmpty(t, v);
    InsertStarts(t, p, leaf);
    SubtreeOfReplace(t, p, leaf);
    InorderReplace(t, p, leaf);
    InorderSplit(t, p);
    if Sorted(Inorder(t)) {
      InsertInorder(t, v, leaf);
    }
    if p != [] {
      ReplaceReaches(t, p, leaf, []);
    }
  }
  // ----- deleteFixup -----

  /**
   * The node at xp carries an extra black: t differs from t0 only inside the subtree at
   * xp, where t0 has a black node.  t0 is the balanced tree remove started from.
   */
  ghost predicate DoubleBlackAt<N>(t0: Tree<N>, t: Tree<N>, xp: Path)
  {
    IsNode(t0, xp) && Subtree(t0, xp).color == Black &&
    Reaches(t, xp) && t == ReplaceAt(t0, xp, Subtree(t, xp))
  }

  /**
   * The state of deleteFixup with the node being fixed at xp: xp is the root position,
   * or it holds a red node (where the loop stops), or a node with an extra black.
   */
  ghost predicate DeleteFixing<N>(t0: Tree<N>, t: Tree<N>, xp: Path)
  {
    Balanced(t0) && Reaches(t, xp) &&
    (xp != [] ==> Subtree(t, xp).Node? && (Subtree(t, xp).color == Red || DoubleBlackAt(t0, t, xp)))
  }

  /**
   * The sibling of a node with an extra black is a node, and a red sibling has two
   * children: the sibling subtree is as in t0, where it balances a black node.
   */
  lemma SiblingOfDoubleBlack<N>(t0: Tree<N>, t: Tree<N>, pp: Path, d: Dir)
    requires Balanced(t0) && DoubleBlackAt(t0, t, pp + [d])
    ensures IsNode(t, pp) && IsNode(t0, pp) && t == ReplaceAt(t0, pp, Subtree(t, pp))
    ensures Subtree(t, pp).color == Subtree(t0, pp).color
    ensures var s := Child(Subtree(t, pp), Opposite(d));
      s.Node? && (s.color == Red ==> s.left.Node? && s.right.Node?)
  {
    AgreeAbove(t0, t, pp, d);
    BalancedSubtree(t0, pp);
    ReachesStep(t0, pp, d);
    SiblingPresent(Subtree(t0, pp), d);
  }

  /** The shape RotateUp gives: the child on side d on top, black, above the red former root. */
  lemma RotateUpShape<N>(g: Tree<N>, d: Dir)
    requires g.Node? && Child(g, d).Node?
    ensures var c := Child(g, d); var u := RotateUp(g, d); var o := Opposite(d);
      u.Node? && u.id == c.id && u.color == Black &&
      Child(u, o).Node? && Child(u, o).id == g.id && Child(u, o).color == Red &&
      Child(Child(u, o), o) == Child(g, o) && Child(Child(u, o), d) == Child(c, o) &&
      Child(u, d) == Child(c, d) && Child(u, o).key == g.key && u.key == c.key
  {
    PaintChild(g, d, Black);
    var g1 := PaintAt(g, [d], Black);
    PaintRoot(g1, Red);
    PromoteRoot(PaintAt(g1, [], Red), d);
  }

  /**
   * The red-sibling case: after the sibling turns black, the parent red and the parent
   * is rotated down on the node's side, the node is a grandchild of the sibling, below
   * its red former parent, and its new sibling, the former near nephew, is a node.
   */
  lemma RedSiblingRotated<N>(t0: Tree<N>, t: Tree<N>, pp: Path, d: Dir)
    requires Balanced(t0) && DoubleBlackAt(t0, t, pp + [d]) && IsNode(t, pp) && IsNode(t, pp + [d])
    requires Child(Subtree(t, pp), Opposite(d)).Node? && Child(Subtree(t, pp), Opposite(d)).color == Red
    ensures var g := Subtree(t, pp); var o := Opposite(d); var s := Child(g, o);
      var t1 := ReplaceAt(t, pp, RotateUp(g, o));
      IsNode(t1, pp + [d]) && Subtree(t1, pp + [d]).id == g.id && Subtree(t1, pp + [d]).color == Red &&
      Child(g, d).Node? && IsNode(t1, pp + [d, d]) && Subtree(t1, pp + [d, d]).id == Child(g, d).id &&
      Child(s, d).Node? && IsNode(t1, pp + [d, o]) && Subtree(t1, pp + [d, o]).id == Child(s, d).id
  {
    var g := Subtree(t, pp);
    var o := Opposite(d);
    SiblingOfDoubleBlack(t0, t, pp, d);
    var u := RotateUp(g, o);
    RotateUpShape(g, o);
    assert Opposite(o) == d;
    assert [d][0] == d && [d][1..] == [];
    assert [d, d][0] == d && [d, d][1..] == [d] && [d, o][0] == d && [d, o][1..] == [o] && [o][1..] == [];
    assert Subtree(u, [d]) == Child(u, d);
    assert Subtree(u, [d, d]) == Subtree(Child(u, d), [d]);
    assert Subtree(Child(u, d), [d]) == Child(Child(u, d), d);
    assert Subtree(u, [d, o]) == Subtree(Child(u, d), [o]);
    assert Subtree(Child(u, d), [o]) == Child(Child(u, d), o);
    ReachesStep(t, pp, d);
    LocalView(t, pp, u, [d]);
    LocalView(t, pp, u, [d, d]);
    LocalView(t, pp, u, [d, o]);
  }

  /**
   * The black-nephews case: painting the sibling red moves the node being fixed up to
   * the parent, which is red or, when black, now carries the extra black.
   */
  lemma SiblingPaintedRed<N>(t0: Tree<N>, t: Tree<N>, pp: Path, d: Dir)
    requires Balanced(t0) && IsNode(t, pp) && Child(Subtree(t, pp), Opposite(d)).Node?
    requires Subtree(t, pp).color == Red || DoubleBlackAt(t0, t, pp + [d])
    ensures IsNode(t, pp + [Opposite(d)])
    ensures var t' := PaintAt(t, pp + [Opposite(d)], Red);
      DeleteFixing(t0, t', pp) && IsNode(t', pp) &&
      Subtree(t', pp).id == Subtree(t, pp).id && Subtree(t', pp).color == Subtree(t, pp).color
  {
    var o := Opposite(d);
    var g := Subtree(t, pp);
    ReachesStep(t, pp, o);
    PaintChild(g, o, Red);
    var g' := PaintAt(g, [o], Red);
    ReplaceSame(t, pp);
    LocalPaint(t, pp, g, [o], Red);
    SubtreeOfReplace(t, pp, g');
    assert pp + [o] == pp + [o];
    if pp != [] && g.color != Red {
      AgreeAbove(t0, t, pp, d);
      ReplaceTwice(t0, pp, g, g');
    }
  }

  /**
   * The far-nephew case, one position at a time: the sibling takes the parent's colour,
   * the parent turns black and the far nephew, when present, black; the positions of
   * the parent, the sibling and the far nephew stay where they are until the rotation.
   */
  lemma FarNephewAt<N>(t: Tree<N>, q: Path, o: Dir, c: Color)
    requires IsNode(t, q) && Child(Subtree(t, q), o).Node?
    ensures var g := Subtree(t, q); var s := Child(g, o);
      IsNode(t, q + [o]) && Subtree(t, q + [o]) == s &&
      var t1 := PaintAt(t, q + [o], c);
      IsNode(t1, q) && Subtree(t1, q).id == g.id &&
      var t2 := PaintAt(t1, q, Black);
      CanPromote(t2, q, o) && Subtree(t2, q).id == g.id &&
      Reaches(t2, q + [o, o]) && Subtree(t2, q + [o, o]) == Child(s, o) &&
      (Child(s, o).Node? ==>
        var t3 := PaintAt(t2, q + [o, o], Black);
        CanPromote(t3, q, o) && Subtree(t3, q).id == g.id)
  {
    var g := Subtree(t, q);
    var s := Child(g, o);
    ReachesStep(t, q, o);
    ReplaceSame(t, q);
    PaintChild(g, o, c);
    var g1 := PaintAt(g, [o], c);
    LocalPaint(t, q, g, [o], c);
    assert q + [] == q;
    SubtreeOfReplace(t, q, g1);
    PaintRoot(g1, Black);
    var g2 := PaintAt(g1, [], Black);
    LocalView(t, q, g1, []);
    LocalPaint(t, q, g1, [], Black);
    assert [o, o][0] == o && [o, o][1..] == [o] && [o][0] == o && [o][1..] == [];
    assert Subtree(g2, [o, o]) == Subtree(Child(g2, o), [o]);
    assert Subtree(Child(g2, o), [o]) == Child(Child(g2, o), o);
    LocalView(t, q, g2, [o, o]);
    LocalView(t, q, g2, []);
    if Child(s, o).Node? {
      LocalPaint(t, q, g2, [o, o], Black);
      var g3 := PaintAt(g2, [o, o], Black);
      ReplaceNested(g2, [o], [o], Child(s, o).(color := Black));
      ReplaceOne(g2, o, ReplaceAt(Child(g2, o), [o], Child(s, o).(color := Black)));
      LocalView(t, q, g3, []);
      LocalView(t, q, g3, [o]);
    }
    LocalView(t, q, g2, [o]);
  }

  /**
   * The far-nephew case of deleteFixup at the parent g of the node with the extra black,
   * the sibling being on side o: the sibling takes g's colour, g and the far nephew turn
   * black, and the sibling rises into g's place.
   */
  ghost function FarNephewFix<N>(g: Tree<N>, o: Dir): Tree<N>
    requires g.Node? && Child(g, o).Node?
  {
    var s := Child(g, o);
    var far := if Child(s, o).Node? then Child(s, o).(color := Black) else Nil;
    if o == R then Node(Node(g.left, g.id, g.key, Black, s.left), s.id, s.key, g.color, far)
    else Node(far, s.id, s.key, g.color, Node(s.right, g.id, g.key, Black, g.right))
  }

  /**
   * The red-nephew cases: when the far nephew is black, the near nephew is first rotated
   * above the sibling (turning black, the sibling red); then the far-nephew case.
   */
  ghost function RedNephewFix<N>(g: Tree<N>, o: Dir): Tree<N>
    requires g.Node? && Child(g, o).Node?
    requires RootColor(Child(Child(g, o), o)) == Red || RootColor(Child(Child(g, o), Opposite(o))) == Red
  {
    var s := Child(g, o);
    if RootColor(Child(s, o)) == Red then FarNephewFix(g, o)
    else
      RotateUpShape(s, Opposite(o));
      var u := RotateUp(s, Opposite(o));
      FarNephewFix(if o == L then g.(left := u) else g.(right := u), o)
  }

  /** The colour writes and the rotation of the far-nephew case, at the root of g, give FarNephewFix. */
  lemma FarNephewLocal<N>(g: Tree<N>, o: Dir)
    requires g.Node? && Child(g, o).Node?
    ensures IsNode(g, [o]) && IsNode(PaintAt(g, [o], g.color), [])
    ensures var s := Child(g, o); var g2 := PaintAt(PaintAt(g, [o], g.color), [], Black);
      Reaches(g2, [o, o]) && Subtree(g2, [o, o]) == Child(s, o) &&
      var g3 := if Child(s, o).Node? then PaintAt(g2, [o, o], Black) else g2;
      CanPromote(g3, [], o) && Promote(g3, o) == FarNephewFix(g, o)
  {
    var s := Child(g, o);
    PaintChild(g, o, g.color);
    var g1 := PaintAt(g, [o], g.color);
    PaintRoot(g1, Black);
    var g2 := PaintAt(g1, [], Black);
    assert g2 == (if o == L then g.(left := s.(color := g.color)) else g.(right := s.(color := g.color))).(color := Black);
    assert [o, o][0] == o && [o, o][1..] == [o] && [o][0] == o && [o][1..] == [];
    assert Subtree(g2, [o]) == Child(g2, o);
    assert Subtree(g2, [o, o]) == Subtree(Child(g2, o), [o]);
    assert Subtree(Child(g2, o), [o]) == Child(Child(g2, o), o);
    if Child(s, o).Node? {
      var f := Child(s, o).(color := Black);
      ReplaceNested(g2, [o], [o], f);
      assert [o] + [o] == [o, o];
      ReplaceOne(Child(g2, o), o, f);
      ReplaceOne(g2, o, ReplaceAt(Child(g2, o), [o], f));
    }
  }

  /** The far-nephew case at position q of t, write by write, gives FarNephewFix in place. */
  lemma FarNephewFixAt<N>(t: Tree<N>, q: Path, o: Dir)
    requires IsNode(t, q) && Child(Subtree(t, q), o).Node?
    ensures var g := Subtree(t, q); var s := Child(g, o);
      IsNode(t, q + [o]) && Subtree(t, q + [o]) == s &&
      var t1 := PaintAt(t, q + [o], g.color);
      IsNode(t1, q) && Subtree(t1, q).id == g.id &&
      var t2 := PaintAt(t1, q, Black);
      Reaches(t2, q + [o, o]) && Subtree(t2, q + [o, o]) == Child(s, o) &&
      var t3 := if Child(s, o).Node? then PaintAt(t2, q + [o, o], Black) else t2;
      CanPromote(t3, q, o) && Subtree(t3, q).id == g.id &&
      PromoteAt(t3, q, o) == ReplaceAt(t, q, FarNephewFix(g, o))
  {
    var g := Subtree(t, q);
    var s := Child(g, o);
    FarNephewAt(t, q, o, g.color);
    FarNephewLocal(g, o);
    ReplaceSame(t, q);
    var g1 := PaintAt(g, [o], g.color);
    LocalPaint(t, q, g, [o], g.color);
    assert q + [] == q;
    LocalPaint(t, q, g1, [], Black);
    var g2 := PaintAt(g1, [], Black);
    var g3 := if Child(s, o).Node? then PaintAt(g2, [o, o], Black) else g2;
    if Child(s, o).Node? {
      LocalPaint(t, q, g2, [o, o], Black);
    }
    PromoteRoot(g3, o);
    LocalPromote(t, q, g3, [], o);
  }

  /** The near-nephew rotation below position q of t is a replacement of the subtree at q. */
  lemma NearNephewAt<N>(t: Tree<N>, q: Path, o: Dir)
    requires IsNode(t, q) && Child(Subtree(t, q), o).Node? && Child(Child(Subtree(t, q), o), Opposite(o)).Node?
    ensures var g := Subtree(t, q); var s := Child(g, o);
      IsNode(t, q + [o]) && Subtree(t, q + [o]) == s &&
      var g' := if o == L then g.(left := RotateUp(s, Opposite(o))) else g.(right := RotateUp(s, Opposite(o)));
      ReplaceAt(t, q + [o], RotateUp(s, Opposite(o))) == ReplaceAt(t, q, g')
  {
    var g := Subtree(t, q);
    var s := Child(g, o);
    ReachesStep(t, q, o);
    var u := RotateUp(s, Opposite(o));
    ReplaceNested(t, q, [o], u);
    ReplaceOne(g, o, u);
  }

  /**
   * The far-nephew case repairs the extra black: when the side opposite o is one black
   * short of the black sibling, whose far nephew is red, the result is balanced, as
   * black-high as a balanced g would be, keeps g's colour at the top and has black
   * children there, and keeps red-red freedom.
   */
  lemma FarNephewRepairs<N>(g: Tree<N>, o: Dir)
    requires g.Node? && Child(g, o).Node? && Child(g, o).color == Black
    requires RootColor(Child(Child(g, o), o)) == Red
    requires Balanced(Child(g, Opposite(o))) && Balanced(Child(g, o))
    requires BlackHeight(Child(g, Opposite(o))) + 1 == BlackHeight(Child(g, o))
    ensures var r := FarNephewFix(g, o);
      Balanced(r) && BlackHeight(r) == BlackHeight(Child(g, o)) + (if g.color == Black then 1 else 0) &&
      r.color == g.color && RootColor(r.left) == Black && RootColor(r.right) == Black
    ensures RedRedFree(Child(g, Opposite(o))) && RedRedFree(Child(g, o)) ==> RedRedFree(FarNephewFix(g, o))
  {
    var s := Child(g, o);
    var f := Child(s, o);
    assert BlackHeight(f) == BlackHeight(f.left) && Balanced(f.left);
    if o == R {
      assert BlackHeight(s) == BlackHeight(s.left) + 1;
    } else {
      assert BlackHeight(s) == BlackHeight(f) + 1;
    }
    if RedRedFree(Child(g, Opposite(o))) && RedRedFree(s) {
      assert RedRedFree(f) && RedRedFree(Child(s, Opposite(o)));
      assert RedRedFree(f.(color := Black));
    }
  }

  /**
   * Both red-nephew cases repair the extra black as FarNephewRepairs states: the
   * near-nephew rotation keeps the sibling black, balanced and as black-high, and
   * leaves a red far nephew.
   */
  lemma RedNephewRepairs<N>(g: Tree<N>, o: Dir)
    requires g.Node? && Child(g, o).Node? && Child(g, o).color == Black
    requires RootColor(Child(Child(g, o), o)) == Red || RootColor(Child(Child(g, o), Opposite(o))) == Red
    requires Balanced(Child(g, Opposite(o))) && Balanced(Child(g, o))
    requires BlackHeight(Child(g, Opposite(o))) + 1 == BlackHeight(Child(g, o))
    ensures var r := RedNephewFix(g, o);
      Balanced(r) && BlackHeight(r) == BlackHeight(Child(g, o)) + (if g.color == Black then 1 else 0) &&
      r.color == g.color && RootColor(r.left) == Black && RootColor(r.right) == Black
    ensures RedRedFree(Child(g, Opposite(o))) && RedRedFree(Child(g, o)) ==> RedRedFree(RedNephewFix(g, o))
  {
    var s := Child(g, o);
    if RootColor(Child(s, o)) == Red {
      FarNephewRepairs(g, o);
    } else {
      var d := Opposite(o);
      var n := Child(s, d);
      RotateUpShape(s, d);
      var u := RotateUp(s, d);
      var g' := if o == L then g.(left := u) else g.(right := u);
      NearNephewRotated(s, o);
      assert Child(g', o) == u && Child(g', Opposite(o)) == Child(g, Opposite(o));
      FarNephewRepairs(g', o);
    }
  }

  /**
   * The near-nephew rotation of a black sibling s with a red near nephew and a black far
   * one (on side o): the result is black, balanced, as black-high as s, and its far
   * child is red.
   */
  lemma NearNephewRotated<N>(s: Tree<N>, o: Dir)
    requires s.Node? && s.color == Black && Child(s, Opposite(o)).Node? && Child(s, Opposite(o)).color == Red
    requires RootColor(Child(s, o)) == Black && Balanced(s)
    ensures var u := RotateUp(s, Opposite(o));
      u.color == Black && Balanced(u) && BlackHeight(u) == BlackHeight(s) && RootColor(Child(u, o)) == Red &&
      (RedRedFree(s) ==> RedRedFree(u))
  {
    var d := Opposite(o);
    var n := Child(s, d);
    RotateUpShape(s, d);
    var u := RotateUp(s, d);
    assert Opposite(d) == o;
    var m := Child(u, o);
    assert BlackHeight(n) == BlackHeight(n.left) == BlackHeight(n.right) == BlackHeight(Child(s, o));
    assert Balanced(m) && BlackHeight(m) == BlackHeight(Child(s, o));
    if o == R {
      assert BlackHeight(u) == BlackHeight(n.left) + 1;
    } else {
      assert BlackHeight(u) == BlackHeight(m) + 1;
    }
    if RedRedFree(s) {
      assert RedRedFree(n) && RootColor(n.left) == Black && RootColor(n.right) == Black;
      assert RedRedFree(Child(n, o)) && RedRedFree(Child(s, o)) && RedRedFree(Child(n, d));
      assert RedRedFree(m);
    }
  }

  // ----- what remove hands to deleteFixup -----

  /** The colour that leaves its place when remove unlinks s: s's own, or its successor's when s has two children. */
  ghost function RemovedColor<N>(s: Tree<N>): Color
    requires s.Node?
  {
    if s.left.Node? && s.right.Node? then Leftmost(s.right).color else s.color
  }

  /**
   * remove of the node s at p dereferences a null pointer in deleteFixup (RedBlackTree.cpp:134):
   * s is a black leaf below the root, so deleteFixup starts on the empty position left behind.
   */
  ghost predicate FixupCrashes<N>(s: Tree<N>, p: Path)
  {
    s.Node? && p != [] && s.left.Nil? && s.right.Nil? && s.color == Black
  }

  /**
   * remove of the node s dereferences a null pointer at RedBlackTree.cpp:65: s has two
   * children, its successor is its right child, and that child has no right child.
   */
  ghost predicate SuccessorCrashes<N>(s: Tree<N>)
  {
    s.Node? && s.left.Node? && s.right.Node? && s.right.left.Nil? && s.right.right.Nil?
  }

  /** remove(v) dereferences a null pointer: at line 65 or at line 134 of RedBlackTree.cpp. */
  ghost predicate RemoveCrashes<N>(t: Tree<N>, v: int)
  {
    match SearchPath(t, v)
    case None => false
    case Some(p) => IsNode(t, p) && (SuccessorCrashes(Subtree(t, p)) || FixupCrashes(Subtree(t, p), p))
  }

  /**
   * Both crashes happen on red-black trees: removing 2 from the tree 1 <- 2 -> 3 with red
   * leaves reaches line 65, and removing 1 from the same tree with black leaves reaches
   * line 134.
   */
  lemma RemoveCrashesReachable()
    ensures var red := Node(Node(Nil, 1, 1, Red, Nil), 2, 2, Black, Node(Nil, 3, 3, Red, Nil));
      IsRedBlack(red) && Sorted(Inorder(red)) && RemoveCrashes(red, 2)
    ensures var black := Node(Node(Nil, 1, 1, Black, Nil), 2, 2, Black, Node(Nil, 3, 3, Black, Nil));
      IsRedBlack(black) && Sorted(Inorder(black)) && RemoveCrashes(black, 1)
  {
    var red := Node(Node(Nil, 1, 1, Red, Nil), 2, 2, Black, Node(Nil, 3, 3, Red, Nil));
    var black := Node(Node(Nil, 1, 1, Black, Nil), 2, 2, Black, Node(Nil, 3, 3, Black, Nil));
    assert Inorder(red) == [1, 2, 3] && Inorder(black) == [1, 2, 3];
    assert SearchPath(red, 2) == Some([]);
    assert SearchPath(black.left, 1) == Some([]);
    assert SearchPath(black, 1) == Some([L] + []);
    assert [L] + [] == [L] && IsNode(black, [L]) && Subtree(black, [L]) == black.left;
  }

  /**
   * insert(v) dereferences a null pointer in insertFixup's first round (RedBlackTree.cpp:200):
   * the new red node hangs directly below a red root, so the grandparent read there is null.
   */
  ghost predicate InsertCrashes<N>(t: Tree<N>, v: int)
  {
    t.Node? && t.color == Red && |InsertPath(t, v)| == 1
  }

  /**
   * remove can leave a red root, on which the next insert crashes: removing the black
   * root 1 of the red-black tree 1 -> 2 (2 red) splices in the red child, deleteFixup
   * starts on that red node and leaves it red, and inserting 3 then hangs a red node
   * below the red root.
   */
  lemma RemoveLeavesRedRoot()
    ensures var t := Node(Nil, 1, 1, Black, Node(Nil, 2, 2, Red, Nil));
      IsRedBlack(t) && Sorted(Inorder(t)) && !RemoveCrashes(t, 1) && SearchPath(t, 1) == Some([]) &&
      t.left.Nil? && RootColor(Unlink(t)) == Red &&
      var t' := ReplaceAt(t, [], Unlink(t));
      t' == Node(Nil, 2, 2, Red, Nil) && !IsRedBlack(t') && InsertCrashes(t', 3)
  {
    var t := Node(Nil, 1, 1, Black, Node(Nil, 2, 2, Red, Nil));
    assert Inorder(t) == [1, 2];
    assert SearchPath(t, 1) == Some([]);
    assert InsertPath(Node(Nil, 2, 2, Red, Nil), 3) == [R] + [];
  }

  /**
   * When a black colour leaves the tree and the crash at RedBlackTree.cpp:134 is avoided,
   * the node deleteFixup starts from, at p, is red or black where a black node stood in
   * the balanced tree before, with the rest of the tree unchanged.
   */
  lemma RemoveFixing<N>(t: Tree<N>, p: Path)
    requires Balanced(t) && IsNode(t, p) && RemovedColor(Subtree(t, p)) == Black && !FixupCrashes(Subtree(t, p), p)
    ensures DeleteFixing(t, ReplaceAt(t, p, Unlink(Subtree(t, p))), p)
  {
    var u := Unlink(Subtree(t, p));
    SubtreeOfReplace(t, p, u);
    ReplaceTwice(t, p, u, u);
  }
}
