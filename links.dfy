/**
 * The heap side of the tree: the node record of RedBlackTree.h and the link
 * information a tree value prescribes for each of its nodes (parent, children,
 * key, colour).  A heap whose nodes carry exactly these links represents the
 * tree value; the lemmas here say how the prescribed links change when one
 * subtree of the value is replaced by another.
 */
module Links {
  import opened TreeModel

  /** Node<T> of RedBlackTree.h:11-21, instantiated at int. */
  class Node {
    const data: int
    var color: Color
    var parent: Node?
    var left: Node?
    var right: Node?

    /** A new node holds the value, is red and is linked to nothing. */
    constructor (val: int)
      ensures data == val && color == Red
      ensures parent == null && left == null && right == null
    {
      data := val;
      color := Red;
      parent := null;
      left := null;
      right := null;
    }
  }

  /** The pointer that designates a subtree: its root node, or null when it is empty. */
  function Ptr(t: Tree<Node>): (r: Node?)
    ensures r == null <==> t.Nil?
    ensures t.Node? ==> r == t.id
  {
    if t.Nil? then null else t.id
  }

  /** The fields one node must hold. */
  datatype Link = Link(parent: Node?, left: Node?, right: Node?, key: int, color: Color)

  function ChildLink(k: Link, d: Dir): Node?
  {
    if d == L then k.left else k.right
  }

  function SetChildLink(k: Link, d: Dir, c: Node?): (k': Link)
    ensures ChildLink(k', d) == c && ChildLink(k', Opposite(d)) == ChildLink(k, Opposite(d))
    ensures k'.parent == k.parent && k'.key == k.key && k'.color == k.color
  {
    if d == L then k.(left := c) else k.(right := c)
  }

  /** The fields every node of t must hold when t hangs below par. */
  ghost function Info(t: Tree<Node>, par: Node?): map<Node, Link>
  {
    match t
    case Nil => map[]
    case Node(l, n, k, c, r) => Info(l, n) + Info(r, n) + map[n := Link(par, Ptr(l), Ptr(r), k, c)]
  }

  /** The parent of the position p, in a tree that hangs below par. */
  ghost function ParentAt(t: Tree<Node>, p: Path, par: Node?): Node?
    requires Reaches(t, p)
    decreases |p|
  {
    if p == [] then par else ParentAt(Child(t, p[0]), p[1..], t.id)
  }

  ghost function Last(p: Path): Dir
    requires p != []
  {
    p[|p| - 1]
  }

  /** The fields a node holds now. */
  ghost function LinkOf(n: Node): Link
    reads n
  {
    Link(n.parent, n.left, n.right, n.data, n.color)
  }

  /** Every node of S holds the fields I prescribes for it. */
  ghost predicate Agrees(I: map<Node, Link>, S: set<Node>)
    reads S
  {
    forall n | n in S :: n in I && LinkOf(n) == I[n]
  }

  lemma {:induction false} InfoKeys(t: Tree<Node>, par: Node?)
    ensures Info(t, par).Keys == Nodes(t)
  {
    match t
    case Nil =>
    case Node(l, n, _, _, r) =>
      InfoKeys(l, n);
      InfoKeys(r, n);
  }

  /** Hanging a tree below another parent changes only its root's parent field. */
  lemma InfoReparent(t: Tree<Node>, a: Node?, b: Node?, m: Node)
    requires t.Node?
    ensures Info(t, b).Keys == Info(t, a).Keys
    ensures m in Info(t, a) && m != t.id ==> Info(t, b)[m] == Info(t, a)[m]
    ensures t.id in Info(t, b) && Info(t, b)[t.id] == Info(t, a)[t.id].(parent := b)
  {
  }

  /** The parent of a position lies above it. */
  lemma {:induction false} ParentOutside(t: Tree<Node>, p: Path, par: Node?)
    requires Reaches(t, p) && p != []
    ensures ParentAt(t, p, par) != null && ParentAt(t, p, par) in Outside(t, p)
    decreases |p|
  {
    if p[1..] != [] {
      ParentOutside(Child(t, p[0]), p[1..], t.id);
    }
  }

  lemma {:induction false} ParentAtPrefix(t: Tree<Node>, pp: Path, d: Dir, par: Node?)
    requires IsNode(t, pp)
    ensures Reaches(t, pp + [d]) && ParentAt(t, pp + [d], par) == Subtree(t, pp).id
    decreases |pp|
  {
    ReachesStep(t, pp, d);
    if pp == [] {
      assert pp + [d] == [d] && [d][1..] == [];
    } else {
      assert (pp + [d])[0] == pp[0] && (pp + [d])[1..] == pp[1..] + [d];
      ParentAtPrefix(Child(t, pp[0]), pp[1..], d, t.id);
    }
  }

  /** The entries of a node's map: the left subtree's, the right subtree's and the node's own. */
  lemma InfoNode(t: Tree<Node>, par: Node?, m: Node)
    requires t.Node? && Distinct(t)
    ensures Info(t, par).Keys == Nodes(t)
    ensures var I := Info(t, par);
      && (m in Nodes(t.left) ==> m in I && m in Info(t.left, t.id) && I[m] == Info(t.left, t.id)[m])
      && (m in Nodes(t.right) ==> m in I && m in Info(t.right, t.id) && I[m] == Info(t.right, t.id)[m])
      && (m == t.id ==> m in I && I[m] == Link(par, Ptr(t.left), Ptr(t.right), t.key, t.color))
      && (m in I <==> m in Nodes(t.left) || m in Nodes(t.right) || m == t.id)
  {
    InfoKeys(t.left, t.id);
    InfoKeys(t.right, t.id);
    InfoKeys(t, par);
  }

  /** Replacing the subtree at p: the parent of p now points to the new subtree. */
  lemma {:induction false} InfoReplaceParent(t: Tree<Node>, p: Path, s: Tree<Node>, par: Node?)
    requires Reaches(t, p) && p != [] && Distinct(t) && Distinct(ReplaceAt(t, p, s))
    ensures var P := ParentAt(t, p, par);
      var I := Info(t, par);
      var I' := Info(ReplaceAt(t, p, s), par);
      P != null && P in I && P in I' && P !in Nodes(s) && P !in Nodes(Subtree(t, p)) &&
      ChildLink(I[P], Last(p)) == Ptr(Subtree(t, p)) &&
      I'[P] == SetChildLink(I[P], Last(p), Ptr(s))
    decreases |p|
  {
    var t' := ReplaceAt(t, p, s);
    var n := t.id;
    var c := Child(t, p[0]);
    var c' := ReplaceAt(c, p[1..], s);
    var P := ParentAt(t, p, par);
    ParentOutside(t, p, par);
    OutsideSplit(t, p);
    OutsideReplace(t, p, s);
    SubtreeOfReplace(t, p, s);
    OutsideSplit(t', p);
    assert P in Nodes(t) && P in Nodes(t') && P !in Nodes(s);
    InfoKeys(t, par);
    InfoKeys(t', par);
    if p[1..] == [] {
      assert Last(p) == p[0] && P == n;
      InfoNode(t, par, n);
      InfoNode(t', par, n);
    } else {
      InfoReplaceParent(c, p[1..], s, n);
      assert Last(p) == Last(p[1..]);
      assert P == ParentAt(c, p[1..], n);
      InfoKeys(c, n);
      InfoKeys(c', n);
      InfoNode(t, par, P);
      InfoNode(t', par, P);
      if p[0] == L {
        assert t'.left == c';
      } else {
        assert t'.right == c';
      }
    }
  }

  /** Replacing the subtree at p: the nodes of the new subtree hold what it prescribes below the parent of p. */
  lemma {:induction false} InfoReplaceNew(t: Tree<Node>, p: Path, s: Tree<Node>, par: Node?, m: Node)
    requires Reaches(t, p) && Distinct(ReplaceAt(t, p, s)) && m in Nodes(s)
    ensures var I' := Info(ReplaceAt(t, p, s), par);
      m in Info(s, ParentAt(t, p, par)) && m in I' && I'[m] == Info(s, ParentAt(t, p, par))[m]
    decreases |p|
  {
    var t' := ReplaceAt(t, p, s);
    InfoKeys(t', par);
    InfoKeys(s, ParentAt(t, p, par));
    OutsideReplace(t, p, s);
    if p != [] {
      var n := t.id;
      var c := Child(t, p[0]);
      var c' := ReplaceAt(c, p[1..], s);
      assert Child(t', p[0]) == c' && Child(t', Opposite(p[0])) == Child(t, Opposite(p[0]));
      InfoReplaceNew(c, p[1..], s, n, m);
      InfoKeys(c', n);
      InfoKeys(Child(t, Opposite(p[0])), n);
      OutsideReplace(c, p[1..], s);
    }
  }

  /** Replacing the subtree at p: the nodes that leave the tree lose their entry. */
  lemma {:induction false} InfoReplaceGone(t: Tree<Node>, p: Path, s: Tree<Node>, par: Node?, m: Node)
    requires Reaches(t, p) && Distinct(t) && m !in Nodes(s) && m in Nodes(Subtree(t, p))
    ensures m !in Info(ReplaceAt(t, p, s), par)
  {
    var t' := ReplaceAt(t, p, s);
    InfoKeys(t', par);
    OutsideReplace(t, p, s);
    OutsideSplit(t, p);
  }

  /** Replacing the subtree at p: every node outside it, except the parent of p, keeps its fields. */
  lemma {:induction false} InfoReplaceKept(t: Tree<Node>, p: Path, s: Tree<Node>, par: Node?, m: Node)
    requires Reaches(t, p) && Distinct(t) && Distinct(ReplaceAt(t, p, s))
    requires m !in Nodes(s) && m !in Nodes(Subtree(t, p))
    ensures var I := Info(t, par);
      var I' := Info(ReplaceAt(t, p, s), par);
      (m in I' <==> m in I) && (m in I && (p == [] || m != ParentAt(t, p, par)) ==> I'[m] == I[m])
    decreases |p|
  {
    var t' := ReplaceAt(t, p, s);
    if p == [] {
      InfoKeys(t, par);
      InfoKeys(t', par);
    } else {
      var n := t.id;
      var c := Child(t, p[0]);
      var o := Child(t, Opposite(p[0]));
      var c' := ReplaceAt(c, p[1..], s);
      if p[0] == L {
        assert t'.left == c' && t'.right == o;
      } else {
        assert t'.right == c' && t'.left == o;
      }
      OutsideSplit(c, p[1..]);
      OutsideReplace(c, p[1..], s);
      assert m in Nodes(c') <==> m in Nodes(c);
      InfoNode(t, par, m);
      InfoNode(t', par, m);
      if m in Nodes(c) {
        InfoReplaceKept(c, p[1..], s, n, m);
      } else if m == n {
        if p[1..] == [] {
          assert ParentAt(t, p, par) == ParentAt(c, [], n) == n;
        } else {
          assert Ptr(c') == Ptr(c);
        }
      } else if m in Nodes(o) {
        assert Info(t, par)[m] == Info(o, n)[m] == Info(t', par)[m];
      }
    }
  }

  // ----- the whole picture of one replacement -----

  /** Everything InfoReplaceParent, InfoReplaceNew, InfoReplaceGone and InfoReplaceKept say, for one node m. */
  lemma InfoReplaceAll(t: Tree<Node>, p: Path, s': Tree<Node>, par: Node?, m: Node)
    requires Reaches(t, p) && Distinct(t) && Distinct(ReplaceAt(t, p, s'))
    ensures var s := Subtree(t, p);
      var P := ParentAt(t, p, par);
      var I := Info(t, par);
      var I' := Info(ReplaceAt(t, p, s'), par);
      && (m in Nodes(s') ==> m in I' && m in Info(s', P) && I'[m] == Info(s', P)[m])
      && (m in Nodes(s) ==> m in I && m in Info(s, P) && I[m] == Info(s, P)[m])
      && (m in Nodes(s) && m !in Nodes(s') ==> m !in I')
      && (m !in Nodes(s) && m !in Nodes(s') ==>
            (m in I' <==> m in I) && (m in I && (p == [] || m != P) ==> I'[m] == I[m]))
      && (p != [] ==>
            P != null && P in I && P in I' && P !in Nodes(s') && P !in Nodes(s) &&
            ChildLink(I[P], Last(p)) == Ptr(s) &&
            I'[P] == SetChildLink(I[P], Last(p), Ptr(s')))
  {
    var s := Subtree(t, p);
    ReplaceSame(t, p);
    if m in Nodes(s') {
      InfoReplaceNew(t, p, s', par, m);
    }
    if m in Nodes(s) {
      InfoReplaceNew(t, p, s, par, m);
      if m !in Nodes(s') {
        InfoReplaceGone(t, p, s', par, m);
      }
    } else if m !in Nodes(s') {
      InfoReplaceKept(t, p, s', par, m);
    }
    if p != [] {
      InfoReplaceParent(t, p, s', par);
    }
  }

  /** The fields prescribed for the node at p. */
  lemma LinkAt(t: Tree<Node>, p: Path, par: Node?)
    requires IsNode(t, p) && Distinct(t)
    ensures var s := Subtree(t, p);
      s.id in Info(t, par) &&
      Info(t, par)[s.id] == Link(ParentAt(t, p, par), Ptr(s.left), Ptr(s.right), s.key, s.color)
  {
    var s := Subtree(t, p);
    ReplaceSame(t, p);
    InfoReplaceNew(t, p, s, par, s.id);
    InfoKeys(s.left, s.id);
    InfoKeys(s.right, s.id);
    OutsideSplit(t, p);
  }

  /** The children a node's link names are the nodes at the positions below it. */
  lemma ChildAt(t: Tree<Node>, p: Path, d: Dir, par: Node?)
    requires IsNode(t, p) && Distinct(t)
    ensures Reaches(t, p + [d])
    ensures Subtree(t, p).id in Info(t, par)
    ensures ChildLink(Info(t, par)[Subtree(t, p).id], d) == Ptr(Subtree(t, p + [d]))
    ensures Subtree(t, p + [d]).Node? ==> ParentAt(t, p + [d], par) == Subtree(t, p).id
  {
    LinkAt(t, p, par);
    ReachesStep(t, p, d);
    ParentAtPrefix(t, p, d, par);
  }

  // ----- the replacements the tree operations make -----

  lemma PaintLocal(s: Tree<Node>, c: Color, P: Node?)
    requires s.Node?
    ensures s.id in Info(s, P)
    ensures Info(s.(color := c), P) == Info(s, P)[s.id := Info(s, P)[s.id].(color := c)]
  {
  }

  /** Recolouring the node at p changes its colour field and nothing else. */
  lemma PaintInfo(t: Tree<Node>, p: Path, c: Color, par: Node?, m: Node)
    requires IsNode(t, p) && Distinct(t)
    ensures Distinct(PaintAt(t, p, c))
    ensures var x := Subtree(t, p).id;
      var I := Info(t, par);
      var I' := Info(PaintAt(t, p, c), par);
      (m in I' <==> m in I) && (m in I ==> (I'[m] == if m == x then I[m].(color := c) else I[m]))
  {
    var s := Subtree(t, p);
    var s' := s.(color := c);
    PaintAtKeeps(t, p, c);
    assert Nodes(s') == Nodes(s);
    var P := ParentAt(t, p, par);
    if m in Nodes(s) {
      ReplaceSame(t, p);
      InfoReplaceNew(t, p, s', par, m);
      InfoReplaceNew(t, p, s, par, m);
      PaintLocal(s, c, P);
    } else {
      InfoKeys(t, par);
      InfoReplaceKept(t, p, s', par, m);
      if p != [] && m == P {
        InfoReplaceParent(t, p, s', par);
        assert SetChildLink(Info(t, par)[P], Last(p), Ptr(s')) == Info(t, par)[P];
      }
    }
  }

  /** The links inside a subtree whose left child rises to its root. */
  lemma PromoteLeftLocal(s: Tree<Node>, P: Node?, m: Node)
    requires s.Node? && s.left.Node? && Distinct(s)
    ensures var x := s.id; var y := s.left.id; var b := s.left.right;
      var I := Info(s, P);
      var I' := Info(RotR(s), P);
      x in I && y in I && I.Keys == I'.Keys &&
      (m in I ==> (I'[m] ==
         if m == x then SetChildLink(I[x], L, Ptr(b)).(parent := y)
         else if m == y then SetChildLink(I[y], R, x).(parent := P)
         else if b.Node? && m == b.id then I[m].(parent := x)
         else I[m]))
  {
    var Node(Node(a, y, ky, cy, b), x, kx, cx, c) := s;
    var s' := RotR(s);
    assert s' == Node(a, y, ky, cy, Node(b, x, kx, cx, c));
    RotRKeeps(s);
    InfoNode(s, P, m);
    InfoNode(s.left, x, m);
    InfoNode(s', P, m);
    InfoNode(s'.right, y, m);
    InfoNode(s, P, x);
    InfoNode(s.left, x, y);
    if m in Nodes(b) {
      InfoReparent(b, y, x, m);
    }
  }

  /** The links inside a subtree whose right child rises to its root. */
  lemma PromoteRightLocal(s: Tree<Node>, P: Node?, m: Node)
    requires s.Node? && s.right.Node? && Distinct(s)
    ensures var x := s.id; var y := s.right.id; var b := s.right.left;
      var I := Info(s, P);
      var I' := Info(RotL(s), P);
      x in I && y in I && I.Keys == I'.Keys &&
      (m in I ==> (I'[m] ==
         if m == x then SetChildLink(I[x], R, Ptr(b)).(parent := y)
         else if m == y then SetChildLink(I[y], L, x).(parent := P)
         else if b.Node? && m == b.id then I[m].(parent := x)
         else I[m]))
  {
    var Node(c, x, kx, cx, Node(b, y, ky, cy, a)) := s;
    var s' := RotL(s);
    assert s' == Node(Node(c, x, kx, cx, b), y, ky, cy, a);
    RotLKeeps(s);
    InfoNode(s, P, m);
    InfoNode(s.right, x, m);
    InfoNode(s', P, m);
    InfoNode(s'.left, y, m);
    InfoNode(s, P, x);
    InfoNode(s.right, x, y);
    if m in Nodes(b) {
      InfoReparent(b, y, x, m);
    }
  }

  /** The links inside a subtree that is rotated at its root. */
  lemma PromoteLocal(s: Tree<Node>, d: Dir, P: Node?, m: Node)
    requires s.Node? && Child(s, d).Node? && Distinct(s)
    ensures var x := s.id; var y := Child(s, d).id; var b := Child(Child(s, d), Opposite(d));
      var I := Info(s, P);
      var I' := Info(Promote(s, d), P);
      x in I && y in I && I.Keys == I'.Keys &&
      (m in I ==> (I'[m] ==
         if m == x then SetChildLink(I[x], d, Ptr(b)).(parent := y)
         else if m == y then SetChildLink(I[y], Opposite(d), x).(parent := P)
         else if b.Node? && m == b.id then I[m].(parent := x)
         else I[m]))
  {
    if d == L {
      PromoteLeftLocal(s, P, m);
    } else {
      PromoteRightLocal(s, P, m);
    }
  }

  /**
   * A rotation at p: the rotated node and the child that rises swap places, the inner
   * grandchild changes parent, and the parent of p points to the risen child.
   */
  lemma PromoteInfo(t: Tree<Node>, p: Path, d: Dir, par: Node?, m: Node)
    requires CanPromote(t, p, d) && Distinct(t)
    ensures Distinct(PromoteAt(t, p, d))
    ensures var s := Subtree(t, p);
      var x := s.id; var y := Child(s, d).id; var b := Child(Child(s, d), Opposite(d));
      var I := Info(t, par);
      var I' := Info(PromoteAt(t, p, d), par);
      x in I && (m in I' <==> m in I) &&
      (m in I ==> (I'[m] ==
         if m == x then SetChildLink(I[x], d, Ptr(b)).(parent := y)
         else if m == y then SetChildLink(I[y], Opposite(d), x).(parent := I[x].parent)
         else if b.Node? && m == b.id then I[m].(parent := x)
         else if p != [] && m == ParentAt(t, p, par) then SetChildLink(I[m], Last(p), y)
         else I[m]))
  {
    var s := Subtree(t, p);
    var s' := Promote(s, d);
    var P := ParentAt(t, p, par);
    PromoteAtKeeps(t, p, d);
    OutsideSplit(t, p);
    if d == L {
      RotRKeeps(s);
    } else {
      RotLKeeps(s);
    }
    LinkAt(t, p, par);
    InfoReplaceAll(t, p, s', par, m);
    PromoteLocal(s, d, P, m);
    InfoKeys(s, P);
  }

  /**
   * The parent field of the node at p names ParentAt; the parent names it on the side
   * Last(p) and not on the other side.
   */
  lemma ParentLinks(t: Tree<Node>, p: Path, par: Node?)
    requires IsNode(t, p) && Distinct(t)
    ensures var x := Subtree(t, p).id; var I := Info(t, par); var P := ParentAt(t, p, par);
      x in I && I[x].parent == P &&
      (p == [] ==> P == par) &&
      (p != [] ==> P != null && P in I && ChildLink(I[P], Last(p)) == x && ChildLink(I[P], Opposite(Last(p))) != x)
  {
    LinkAt(t, p, par);
    if p != [] {
      var pp := p[..|p| - 1];
      var d := Last(p);
      assert p == pp + [d];
      PrefixIsNode(t, pp, [d]);
      ChildAt(t, pp, d, par);
      ChildAt(t, pp, Opposite(d), par);
      ReachesStep(t, pp, d);
      ReachesStep(t, pp, Opposite(d));
      OutsideSplit(t, pp);
      var g := Subtree(t, pp);
      assert Distinct(g);
      assert Subtree(t, p).id in Nodes(Child(g, d));
    }
  }

  /** A node of S holds the fields I prescribes for it. */
  lemma AgreesAt(I: map<Node, Link>, S: set<Node>, n: Node)
    requires Agrees(I, S) && n in S
    ensures n in I && LinkOf(n) == I[n]
    ensures n.parent == I[n].parent && n.left == I[n].left && n.right == I[n].right
    ensures n.data == I[n].key && n.color == I[n].color
  {
  }

  /**
   * A rotation at p, read off the links of the whole tree: the rotated node x, the child y
   * that rises, y's inner child b and x's parent P are told apart, and every other node
   * keeps its fields.
   */
  lemma PromoteLinks(t: Tree<Node>, p: Path, d: Dir)
    requires CanPromote(t, p, d) && Distinct(t)
    ensures var I := Info(t, null); var I' := Info(PromoteAt(t, p, d), null); var x := Subtree(t, p).id;
      x in I && ChildLink(I[x], d) != null && ChildLink(I[x], d) in I &&
      var y := ChildLink(I[x], d); var b := ChildLink(I[y], Opposite(d)); var P := I[x].parent;
      x != y && (b != null ==> b in I && b != x && b != y) &&
      (P == null <==> p == []) &&
      (P != null ==>
         P in I && P != x && P != y && P != b &&
         ChildLink(I[P], Last(p)) == x && ChildLink(I[P], Opposite(Last(p))) != x) &&
      I'.Keys == I.Keys &&
      I'[x] == SetChildLink(I[x], d, b).(parent := y) &&
      I'[y] == SetChildLink(I[y], Opposite(d), x).(parent := P) &&
      (b != null ==> I'[b] == I[b].(parent := x)) &&
      (P != null ==> I'[P] == SetChildLink(I[P], Last(p), y)) &&
      forall m | m in I && m != x && m != y && m != b && m != P :: I'[m] == I[m]
  {
    var I := Info(t, null);
    var I' := Info(PromoteAt(t, p, d), null);
    var s := Subtree(t, p);
    var x := s.id;
    ParentLinks(t, p, null);
    ReachesStep(t, p, d);
    ChildAt(t, p, d, null);
    ReachesStep(t, p + [d], Opposite(d));
    ChildAt(t, p + [d], Opposite(d), null);
    OutsideSplit(t, p);
    var y := ChildLink(I[x], d);
    var b := ChildLink(I[y], Opposite(d));
    var P := I[x].parent;
    assert y == Child(s, d).id;
    assert b == Ptr(Child(Child(s, d), Opposite(d)));
    assert Distinct(s) && Distinct(Child(s, d));
    assert y in Nodes(s);
    assert b != null ==> b in Nodes(Child(s, d)) && b in Nodes(s);
    InfoKeys(t, null);
    if p != [] {
      ReplaceSame(t, p);
      InfoReplaceParent(t, p, s, null);
    }
    PromoteInfo(t, p, d, null, x);
    PromoteInfo(t, p, d, null, y);
    if b != null {
      PromoteInfo(t, p, d, null, b);
    }
    if P != null {
      PromoteInfo(t, p, d, null, P);
    }
    PromoteAtKeeps(t, p, d);
    InfoKeys(PromoteAt(t, p, d), null);
    forall m | m in I && m != x && m != y && m != b && m != P
      ensures I'[m] == I[m]
    {
      PromoteInfo(t, p, d, null, m);
    }
  }

  /**
   * A heap that held the links of T0 (recorded as I0) and then received the pointer
   * writes of a rotation at p agrees with the rotated tree: x, the child y that rises,
   * y's inner child b and x's parent P hold the rotated links, and every other node of
   * S still holds its recorded links.
   */
  lemma PromoteAgrees(T0: Tree<Node>, p: Path, d: Dir, S: set<Node>, x: Node, y: Node, b: Node?, P: Node?)
    requires Distinct(T0) && S == Nodes(T0) && CanPromote(T0, p, d) && x == Subtree(T0, p).id
    requires var I0 := Info(T0, null);
      x in I0 && y == ChildLink(I0[x], d) && y in I0 && b == ChildLink(I0[y], Opposite(d)) && P == I0[x].parent &&
      LinkOf(x) == SetChildLink(I0[x], d, b).(parent := y) &&
      LinkOf(y) == SetChildLink(I0[y], Opposite(d), x).(parent := P) &&
      (b != null ==> b in I0 && LinkOf(b) == I0[b].(parent := x)) &&
      (P != null ==> P in I0 && LinkOf(P) == SetChildLink(I0[P], if I0[P].left == x then L else R, y)) &&
      forall m | m in S && m != x && m != y && m != b && m != P :: m in I0 && LinkOf(m) == I0[m]
    ensures Agrees(Info(PromoteAt(T0, p, d), null), S)
  {
    var I0 := Info(T0, null);
    var I1 := Info(PromoteAt(T0, p, d), null);
    PromoteLinks(T0, p, d);
    InfoKeys(T0, null);
    forall m | m in S
      ensures m in I1 && LinkOf(m) == I1[m]
    {
      if P != null && m == P {
        assert Last(p) == L || Last(p) == R;
      }
    }
  }

  /** A heap that held the links of T0 and then recoloured the node at p agrees with the recoloured tree. */
  lemma PaintAgrees(T0: Tree<Node>, p: Path, c: Color, S: set<Node>, n: Node)
    requires Distinct(T0) && S == Nodes(T0) && IsNode(T0, p) && n == Subtree(T0, p).id
    requires var I0 := Info(T0, null);
      n in I0 && LinkOf(n) == I0[n].(color := c) &&
      forall m | m in S && m != n :: m in I0 && LinkOf(m) == I0[m]
    ensures Agrees(Info(PaintAt(T0, p, c), null), S)
  {
    var I1 := Info(PaintAt(T0, p, c), null);
    InfoKeys(T0, null);
    forall m | m in S
      ensures m in I1 && LinkOf(m) == I1[m]
    {
      PaintInfo(T0, p, c, null, m);
    }
  }

  // ----- reading the heap of a represented tree -----

  /**
   * In a heap that represents t, the node at pp and its child on side d hold the
   * key, colour and links the tree prescribes, and the child names pp's node as parent.
   */
  lemma LinkFields(t: Tree<Node>, S: set<Node>, pp: Path, d: Dir)
    requires Distinct(t) && S == Nodes(t) && Agrees(Info(t, null), S) && IsNode(t, pp)
    ensures Reaches(t, pp + [d]) && Subtree(t, pp + [d]) == Child(Subtree(t, pp), d)
    ensures var g := Subtree(t, pp); var n := g.id;
      n in S && n.data == g.key && n.color == g.color &&
      n.left == Ptr(g.left) && n.right == Ptr(g.right) &&
      (n.parent == null <==> pp == [])
    ensures var g := Subtree(t, pp); var c := Child(g, d);
      c.Node? ==>
        c.id in S && c.id.parent == g.id && c.id.data == c.key && c.id.color == c.color &&
        c.id.left == Ptr(c.left) && c.id.right == Ptr(c.right) &&
        (c.id == g.id.left <==> d == L) && (c.id == g.id.right <==> d == R)
  {
    var I := Info(t, null);
    var g := Subtree(t, pp);
    ReachesStep(t, pp, d);
    InfoKeys(t, null);
    LinkAt(t, pp, null);
    ParentLinks(t, pp, null);
    if pp != [] {
      ParentOutside(t, pp, null);
    }
    AgreesAt(I, S, g.id);
    ChildAt(t, pp, d, null);
    var c := Child(g, d);
    if c.Node? {
      ParentLinks(t, pp + [d], null);
      assert Last(pp + [d]) == d;
      LinkAt(t, pp + [d], null);
      AgreesAt(I, S, c.id);
    }
  }

  /**
   * A heap that held the links of t0 and then received the two pointer writes that hang
   * the fresh node n below the parent of the empty position p agrees with t0 with a red
   * leaf holding v at p.
   */
  lemma LeafAgrees(t0: Tree<Node>, p: Path, S: set<Node>, n: Node, v: int)
    requires Distinct(t0) && S == Nodes(t0) && Reaches(t0, p) && Subtree(t0, p).Nil? && n !in S
    requires var I0 := Info(t0, null); var P := ParentAt(t0, p, null);
      LinkOf(n) == Link(P, null, null, v, Red) &&
      (p != [] ==> P != null && P in I0 && LinkOf(P) == SetChildLink(I0[P], Last(p), n)) &&
      forall m | m in S && m != P :: m in I0 && LinkOf(m) == I0[m]
    ensures var t := ReplaceAt(t0, p, Node(Nil, n, v, Red, Nil));
      Distinct(t) && Nodes(t) == S + {n} && Agrees(Info(t, null), S + {n})
  {
    var leaf := Node(Nil, n, v, Red, Nil);
    var t := ReplaceAt(t0, p, leaf);
    var I0 := Info(t0, null);
    var I1 := Info(t, null);
    OutsideSplit(t0, p);
    OutsideReplace(t0, p, leaf);
    DistinctReplace(t0, p, leaf);
    InfoKeys(t0, null);
    InfoKeys(t, null);
    forall m | m in S + {n}
      ensures m in I1 && LinkOf(m) == I1[m]
    {
      InfoReplaceAll(t0, p, leaf, null, m);
    }
  }

  // ----- the rewirings of remove -----

  /**
   * The subtree at q, re-hung below y: its root now names y as parent and its other
   * nodes still hold the links they held in t0, so it holds the links it prescribes below y.
   */
  lemma SubtreeAgrees(t0: Tree<Node>, q: Path, y: Node?)
    requires Distinct(t0) && Reaches(t0, q)
    requires var I0 := Info(t0, null); var a := Subtree(t0, q);
      (a.Node? ==> a.id in I0 && LinkOf(a.id) == I0[a.id].(parent := y)) &&
      forall m | m in Nodes(a) && m != Ptr(a) :: m in I0 && LinkOf(m) == I0[m]
    ensures Agrees(Info(Subtree(t0, q), y), Nodes(Subtree(t0, q)))
  {
    var a := Subtree(t0, q);
    var P := ParentAt(t0, q, null);
    ReplaceSame(t0, q);
    forall m | m in Nodes(a)
      ensures m in Info(a, y) && LinkOf(m) == Info(a, y)[m]
    {
      InfoReplaceAll(t0, q, a, null, m);
      InfoReparent(a, P, y, m);
    }
  }

  /** A node that holds its own links above two subtrees that hold theirs. */
  lemma NodeAgrees(s: Tree<Node>, P: Node?)
    requires s.Node? && Distinct(s)
    requires LinkOf(s.id) == Link(P, Ptr(s.left), Ptr(s.right), s.key, s.color)
    requires Agrees(Info(s.left, s.id), Nodes(s.left)) && Agrees(Info(s.right, s.id), Nodes(s.right))
    ensures Agrees(Info(s, P), Nodes(s))
  {
    forall m | m in Nodes(s)
      ensures m in Info(s, P) && LinkOf(m) == Info(s, P)[m]
    {
      InfoNode(s, P, m);
    }
  }

  /**
   * A heap that held the links of t0 and was rewired so that s' hangs at p: the parent
   * of p names s' on that side, s' holds the links it prescribes below that parent, and
   * the other nodes outside p keep theirs.  It then represents the rewired tree.
   */
  lemma ReplaceAgrees(t0: Tree<Node>, p: Path, s': Tree<Node>)
    requires Distinct(t0) && Reaches(t0, p) && Distinct(ReplaceAt(t0, p, s'))
    requires var I0 := Info(t0, null); var P := ParentAt(t0, p, null);
      (p != [] ==> P != null && P in I0 && LinkOf(P) == SetChildLink(I0[P], Last(p), Ptr(s'))) &&
      Agrees(Info(s', P), Nodes(s')) &&
      forall m | m in Outside(t0, p) && m != P :: m in I0 && LinkOf(m) == I0[m]
    ensures Agrees(Info(ReplaceAt(t0, p, s'), null), Nodes(ReplaceAt(t0, p, s')))
  {
    var t := ReplaceAt(t0, p, s');
    var I1 := Info(t, null);
    OutsideSplit(t0, p);
    OutsideReplace(t0, p, s');
    OutsideSplit(t, p);
    SubtreeOfReplace(t0, p, s');
    forall m | m in Nodes(t)
      ensures m in I1 && LinkOf(m) == I1[m]
    {
      InfoReplaceAll(t0, p, s', null, m);
    }
  }

  /**
   * transplant(u, c) where c is u's child on side d: the subtree at p gives way to c,
   * and u and its other subtree leave the tree.
   */
  lemma SpliceAgrees(t0: Tree<Node>, p: Path, d: Dir, S: set<Node>)
    requires Distinct(t0) && S == Nodes(t0) && IsNode(t0, p)
    requires var I0 := Info(t0, null); var c := Child(Subtree(t0, p), d); var P := ParentAt(t0, p, null);
      (p != [] ==> P != null && P in I0 && LinkOf(P) == SetChildLink(I0[P], Last(p), Ptr(c))) &&
      (c.Node? ==> c.id in I0 && LinkOf(c.id) == I0[c.id].(parent := P)) &&
      forall m | m in S && m != P && m != Ptr(c) :: m in I0 && LinkOf(m) == I0[m]
    ensures var s := Subtree(t0, p); var t := ReplaceAt(t0, p, Child(s, d));
      Distinct(t) && Nodes(t) == S - {s.id} - Nodes(Child(s, Opposite(d))) && Agrees(Info(t, null), Nodes(t))
  {
    var s := Subtree(t0, p);
    var c := Child(s, d);
    var P := ParentAt(t0, p, null);
    OutsideSplit(t0, p);
    ReachesStep(t0, p, d);
    if p != [] {
      ParentOutside(t0, p, null);
    }
    SubtreeAgrees(t0, p + [d], P);
    SpliceNodes(t0, p, d);
    ReplaceAgrees(t0, p, c);
  }

  /**
   * The two subtrees of the node at p, re-hung below y, hold the links they prescribe
   * there when their roots name y and every other node below p, except the node at p,
   * keeps its links.
   */
  lemma ChildrenAgree(t0: Tree<Node>, p: Path, y: Node, P: Node?)
    requires Distinct(t0) && IsNode(t0, p) && (P == null || P !in Nodes(Subtree(t0, p)))
    requires var I0 := Info(t0, null); var s := Subtree(t0, p);
      (s.left.Node? ==> s.left.id in I0 && LinkOf(s.left.id) == I0[s.left.id].(parent := y)) &&
      (s.right.Node? ==> s.right.id in I0 && LinkOf(s.right.id) == I0[s.right.id].(parent := y)) &&
      forall m | m in Nodes(t0) && m != P && m != s.id && m != Ptr(s.left) && m != Ptr(s.right) :: m in I0 && LinkOf(m) == I0[m]
    ensures var s := Subtree(t0, p);
      Agrees(Info(s.left, y), Nodes(s.left)) && Agrees(Info(s.right, y), Nodes(s.right))
  {
    var s := Subtree(t0, p);
    OutsideSplit(t0, p);
    ReachesStep(t0, p, L);
    ReachesStep(t0, p, R);
    assert Nodes(s.left) !! Nodes(s.right) && s.id !in Nodes(s.left) && s.id !in Nodes(s.right);
    SubtreeAgrees(t0, p + [L], y);
    SubtreeAgrees(t0, p + [R], y);
  }

  /**
   * The successor y, already cut out of t0, takes the place of the node at p: it keeps
   * that node's children, takes key k and colour c, and the children and the parent of
   * p name y.
   */
  lemma SwapAgrees(t0: Tree<Node>, p: Path, y: Node, k: int, c: Color, S: set<Node>)
    requires Distinct(t0) && S == Nodes(t0) && IsNode(t0, p) && y !in S
    requires var I0 := Info(t0, null); var s := Subtree(t0, p); var P := ParentAt(t0, p, null);
      (p != [] ==> P != null && P in I0 && LinkOf(P) == SetChildLink(I0[P], Last(p), y)) &&
      LinkOf(y) == Link(P, Ptr(s.left), Ptr(s.right), k, c) &&
      (s.left.Node? ==> s.left.id in I0 && LinkOf(s.left.id) == I0[s.left.id].(parent := y)) &&
      (s.right.Node? ==> s.right.id in I0 && LinkOf(s.right.id) == I0[s.right.id].(parent := y)) &&
      forall m | m in S && m != P && m != s.id && m != Ptr(s.left) && m != Ptr(s.right) :: m in I0 && LinkOf(m) == I0[m]
    ensures var s := Subtree(t0, p); var t := ReplaceAt(t0, p, Node(s.left, y, k, c, s.right));
      Distinct(t) && Nodes(t) == S - {s.id} + {y} && Agrees(Info(t, null), Nodes(t))
  {
    var s := Subtree(t0, p);
    var s' := Node(s.left, y, k, c, s.right);
    var P := ParentAt(t0, p, null);
    OutsideSplit(t0, p);
    if p != [] {
      ParentOutside(t0, p, null);
    }
    ChildrenAgree(t0, p, y, P);
    NodeAgrees(s', P);
    SwapNodes(t0, p, y, k, c);
    ReplaceAgrees(t0, p, s');
  }

  /** The rewiring PullUpAgrees starts from: y rises into p, and only P, p's node, y and y's new children change. */
  ghost predicate PulledUpLinks(t0: Tree<Node>, p: Path, P: Node?)
    requires IsNode(t0, p) && Subtree(t0, p).right.Node?
    reads Nodes(t0), Ptr(Subtree(t0, p).left), Ptr(Subtree(t0, p).right.right)
  {
    var I0 := Info(t0, null); var s := Subtree(t0, p); var y := s.right.id; var b := s.right.right;
    (s.left.Node? ==> s.left.id in I0 && LinkOf(s.left.id) == I0[s.left.id].(parent := y)) &&
    (b.Node? ==> b.id in I0 && LinkOf(b.id) == I0[b.id].(parent := y)) &&
    forall m | m in Nodes(t0) && m != P && m != s.id && m != y && m != Ptr(s.left) && m != Ptr(b) :: m in I0 && LinkOf(m) == I0[m]
  }

  /** The two subtrees that the rising successor y of PullUpAgrees carries hold the links they prescribe below y. */
  lemma PullUpSidesAgree(t0: Tree<Node>, p: Path, P: Node?)
    requires Distinct(t0) && IsNode(t0, p) && (P == null || P !in Nodes(Subtree(t0, p)))
    requires Subtree(t0, p).right.Node? && Subtree(t0, p).right.left.Nil?
    requires PulledUpLinks(t0, p, P)
    ensures var s := Subtree(t0, p);
      Agrees(Info(s.left, s.right.id), Nodes(s.left)) && Agrees(Info(s.right.right, s.right.id), Nodes(s.right.right))
  {
    var s := Subtree(t0, p);
    OutsideSplit(t0, p);
    ReachesStep(t0, p, L);
    ReachesStep(t0, p, R);
    PullUpLeftAgrees(t0, p, P);
    PullUpRightAgrees(t0, p, P);
  }

  lemma PullUpLeftAgrees(t0: Tree<Node>, p: Path, P: Node?)
    requires Distinct(t0) && IsNode(t0, p) && (P == null || P !in Nodes(Subtree(t0, p)))
    requires Subtree(t0, p).right.Node? && Subtree(t0, p).right.left.Nil?
    requires PulledUpLinks(t0, p, P)
    requires Nodes(t0) == Outside(t0, p) + Nodes(Subtree(t0, p)) && Distinct(Subtree(t0, p))
    requires Reaches(t0, p + [L]) && Subtree(t0, p + [L]) == Subtree(t0, p).left
    ensures var s := Subtree(t0, p); Agrees(Info(s.left, s.right.id), Nodes(s.left))
  {
    var s := Subtree(t0, p);
    assert s.right.id !in Nodes(s.left) && s.id !in Nodes(s.left) && Nodes(s.left) !! Nodes(s.right.right);
    SubtreeAgrees(t0, p + [L], s.right.id);
  }

  lemma PullUpRightAgrees(t0: Tree<Node>, p: Path, P: Node?)
    requires Distinct(t0) && IsNode(t0, p) && (P == null || P !in Nodes(Subtree(t0, p)))
    requires Subtree(t0, p).right.Node? && Subtree(t0, p).right.left.Nil?
    requires PulledUpLinks(t0, p, P)
    requires Nodes(t0) == Outside(t0, p) + Nodes(Subtree(t0, p)) && Distinct(Subtree(t0, p))
    requires IsNode(t0, p + [R]) && Subtree(t0, p + [R]) == Subtree(t0, p).right
    ensures var s := Subtree(t0, p); Agrees(Info(s.right.right, s.right.id), Nodes(s.right.right))
  {
    var s := Subtree(t0, p);
    ReachesStep(t0, p + [R], R);
    assert p + [R] + [R] == p + [R, R];
    var b := s.right.right;
    assert Subtree(t0, p + [R, R]) == b;
    assert Nodes(s.right) == {s.right.id} + Nodes(b);
    assert s.right.id !in Nodes(b) && s.id !in Nodes(b) && Nodes(s.left) !! Nodes(b);
    SubtreeAgrees(t0, p + [R, R], s.right.id);
  }

  /**
   * The successor y is the right child of the node at p and has no left child: it rises
   * into p, takes the left subtree of p and colour c, and keeps its own right subtree.
   */
  lemma PullUpAgrees(t0: Tree<Node>, p: Path, c: Color, S: set<Node>)
    requires Distinct(t0) && S == Nodes(t0) && IsNode(t0, p)
    requires Subtree(t0, p).right.Node? && Subtree(t0, p).right.left.Nil?
    requires var I0 := Info(t0, null); var s := Subtree(t0, p); var P := ParentAt(t0, p, null);
      var y := s.right.id; var b := s.right.right;
      (p != [] ==> P != null && P in I0 && LinkOf(P) == SetChildLink(I0[P], Last(p), y)) &&
      LinkOf(y) == Link(P, Ptr(s.left), Ptr(b), s.right.key, c) &&
      (s.left.Node? ==> s.left.id in I0 && LinkOf(s.left.id) == I0[s.left.id].(parent := y)) &&
      (b.Node? ==> b.id in I0 && LinkOf(b.id) == I0[b.id].(parent := y)) &&
      forall m | m in S && m != P && m != s.id && m != y && m != Ptr(s.left) && m != Ptr(b) :: m in I0 && LinkOf(m) == I0[m]
    ensures var s := Subtree(t0, p); var t := ReplaceAt(t0, p, Node(s.left, s.right.id, s.right.key, c, s.right.right));
      Distinct(t) && Nodes(t) == S - {s.id} && Agrees(Info(t, null), Nodes(t))
  {
    var s := Subtree(t0, p);
    var y := s.right.id;
    var s' := Node(s.left, y, s.right.key, c, s.right.right);
    var P := ParentAt(t0, p, null);
    OutsideSplit(t0, p);
    if p != [] {
      ParentOutside(t0, p, null);
    }
    PullUpRootAgrees(t0, p, c, P);
    PullUpNodes(t0, p, c);
    ReplaceAgrees(t0, p, s');
  }

  /** The rising successor y, with colour c, holds its links over the subtrees it carries. */
  lemma PullUpRootAgrees(t0: Tree<Node>, p: Path, c: Color, P: Node?)
    requires Distinct(t0) && IsNode(t0, p) && (P == null || P !in Nodes(Subtree(t0, p)))
    requires Subtree(t0, p).right.Node? && Subtree(t0, p).right.left.Nil?
    requires PulledUpLinks(t0, p, P)
    requires var s := Subtree(t0, p); LinkOf(s.right.id) == Link(P, Ptr(s.left), Ptr(s.right.right), s.right.key, c)
    ensures var s := Subtree(t0, p); var s' := Node(s.left, s.right.id, s.right.key, c, s.right.right);
      Agrees(Info(s', P), Nodes(s'))
  {
    var s := Subtree(t0, p);
    var s' := Node(s.left, s.right.id, s.right.key, c, s.right.right);
    PullUpSidesAgree(t0, p, P);
    OutsideSplit(t0, p);
    assert Nodes(s.right) == {s.right.id} + Nodes(s.right.right);
    assert Distinct(s');
    NodeAgrees(s', P);
  }

  /**
   * The successor of the node at p, the leftmost node of its right subtree, names that
   * node as parent exactly when it is the right child itself.
   */
  lemma SuccessorParent(t: Tree<Node>, p: Path)
    requires Distinct(t) && IsNode(t, p) && Subtree(t, p).right.Node?
    ensures var s := Subtree(t, p); var py := p + [R] + MinPath(s.right);
      IsNode(t, py) && Subtree(t, py) == Leftmost(s.right) &&
      (ParentAt(t, py, null) == s.id <==> s.right.left.Nil?)
  {
    var s := Subtree(t, p);
    var q := MinPath(s.right);
    var py := p + [R] + q;
    ReachesStep(t, p, R);
    ReachesAppend(t, p + [R], q);
    LeftmostAt(s.right);
    if q == [] {
      assert py == p + [R];
      ParentAtPrefix(t, p, R, null);
    } else {
      var q' := q[..|q| - 1];
      var d := q[|q| - 1];
      assert q == q' + [d];
      assert py == (p + [R] + q') + [d];
      PrefixIsNode(s.right, q', [d]);
      ReachesAppend(t, p + [R], q');
      ParentAtPrefix(t, p + [R] + q', d, null);
      OutsideSplit(s.right, q');
      OutsideSplit(t, p);
    }
  }

  /**
   * Around the node at p: its parent field names ParentAt, which is null exactly at the
   * root and otherwise names the node back on the side Last(p); the node, its parent and
   * its two children are told apart.
   */
  lemma TransplantLinks(t: Tree<Node>, p: Path)
    requires Distinct(t) && IsNode(t, p)
    ensures var s := Subtree(t, p); var I := Info(t, null); var P := ParentAt(t, p, null);
      var l := Ptr(s.left); var r := Ptr(s.right);
      I.Keys == Nodes(t) && s.id in I && I[s.id].parent == P &&
      (l != null ==> l != s.id && l != P && l != r) &&
      (r != null ==> r != s.id && r != P) &&
      (P == null <==> p == []) &&
      (P != null ==> P in I && P != s.id && P !in Nodes(s) && (I[P].left == s.id <==> Last(p) == L))
  {
    var s := Subtree(t, p);
    InfoKeys(t, null);
    ParentLinks(t, p, null);
    OutsideSplit(t, p);
    if p != [] {
      ParentOutside(t, p, null);
    }
  }

  /**
   * The fields after transplant(u, v): v hangs below u's former parent P, on u's side,
   * and names P as its parent; every other node of S keeps the fields I gives it.
   */
  ghost predicate Transplanted(u: Node, v: Node?, I: map<Node, Link>, S: set<Node>)
    reads S
  {
    u in I && var P := I[u].parent;
    (P != null ==> P in I && P in S && LinkOf(P) == SetChildLink(I[P], if I[P].left == u then L else R, v)) &&
    (v != null ==> v in I && v in S && LinkOf(v) == I[v].(parent := P)) &&
    forall m | m in S && m != P && m != v :: m in I && LinkOf(m) == I[m]
  }

  /** The links of t0 after transplanting the child on side d into the place of the node at p agree with the new tree. */
  lemma TransplantAgrees(t0: Tree<Node>, p: Path, d: Dir, S: set<Node>)
    requires Distinct(t0) && S == Nodes(t0) && IsNode(t0, p)
    requires Transplanted(Subtree(t0, p).id, Ptr(Child(Subtree(t0, p), d)), Info(t0, null), S)
    ensures var s := Subtree(t0, p); var t := ReplaceAt(t0, p, Child(s, d));
      Distinct(t) && Nodes(t) == S - {s.id} - Nodes(Child(s, Opposite(d))) && Agrees(Info(t, null), Nodes(t))
  {
    TransplantLinks(t0, p);
    if p != [] {
      ParentLinks(t0, p, null);
    }
    SpliceAgrees(t0, p, d, S);
  }

  /**
   * The fields after y has taken the place of z below z's former parent P, with z's two
   * children, z's colour and the key k; every other node of S keeps the fields I gives it.
   */
  ghost predicate SwappedIn(z: Node, y: Node, k: int, I: map<Node, Link>, S: set<Node>)
    reads S, y
  {
    z in I && var P := I[z].parent; var zl := I[z].left; var zr := I[z].right;
    zl != null && zr != null && zl in I && zr in I && zl in S && zr in S &&
    (P != null ==> P in I && P in S && LinkOf(P) == SetChildLink(I[P], if I[P].left == z then L else R, y)) &&
    LinkOf(y) == Link(P, zl, zr, k, I[z].color) &&
    LinkOf(zl) == I[zl].(parent := y) && LinkOf(zr) == I[zr].(parent := y) &&
    forall m | m in S && m != P && m != zl && m != zr :: m in I && LinkOf(m) == I[m]
  }

  /**
   * The fields after z's right child y has taken the place of z below z's former parent P,
   * with z's left child and z's colour; every other node of S keeps the fields I gives it.
   */
  ghost predicate PulledUp(z: Node, y: Node, I: map<Node, Link>, S: set<Node>)
    reads S
  {
    z in I && y in I && y in S && var P := I[z].parent; var zl := I[z].left; var b := I[y].right;
    zl != null && b != null && zl in I && b in I && zl in S && b in S &&
    (P != null ==> P in I && P in S && LinkOf(P) == SetChildLink(I[P], if I[P].left == z then L else R, y)) &&
    LinkOf(y) == Link(P, zl, b, I[y].key, I[z].color) &&
    LinkOf(zl) == I[zl].(parent := y) && LinkOf(b) == I[b] &&
    forall m | m in S && m != P && m != y && m != zl :: m in I && LinkOf(m) == I[m]
  }

  /** The links of t0 with y swapped in for the node at p, as SwappedIn leaves them, agree with the swapped tree. */
  lemma SwapInAgrees(t0: Tree<Node>, p: Path, y: Node, k: int, S: set<Node>)
    requires Distinct(t0) && S == Nodes(t0) && IsNode(t0, p) && y !in S
    requires Subtree(t0, p).left.Node? && Subtree(t0, p).right.Node?
    requires SwappedIn(Subtree(t0, p).id, y, k, Info(t0, null), S)
    ensures var s := Subtree(t0, p); var t := ReplaceAt(t0, p, Node(s.left, y, k, s.color, s.right));
      Distinct(t) && Nodes(t) == S - {s.id} + {y} && Agrees(Info(t, null), Nodes(t))
  {
    TransplantLinks(t0, p);
    LinkAt(t0, p, null);
    if p != [] {
      ParentLinks(t0, p, null);
    }
    SwapAgrees(t0, p, y, k, Subtree(t0, p).color, S);
  }

  /** The links of t0 with the right child of the node at p pulled up, as PulledUp leaves them, agree with the new tree. */
  lemma PullUpInAgrees(t0: Tree<Node>, p: Path, S: set<Node>)
    requires Distinct(t0) && S == Nodes(t0) && IsNode(t0, p)
    requires Subtree(t0, p).left.Node? && Subtree(t0, p).right.Node? && Subtree(t0, p).right.left.Nil?
    requires Subtree(t0, p).right.right.Node?
    requires PulledUp(Subtree(t0, p).id, Subtree(t0, p).right.id, Info(t0, null), S)
    ensures var s := Subtree(t0, p); var t := ReplaceAt(t0, p, Node(s.left, s.right.id, s.right.key, s.color, s.right.right));
      Distinct(t) && Nodes(t) == S - {s.id} && Agrees(Info(t, null), Nodes(t))
  {
    TransplantLinks(t0, p);
    LinkAt(t0, p, null);
    ReachesStep(t0, p, R);
    LinkAt(t0, p + [R], null);
    ChildAt(t0, p + [R], R, null);
    ReachesStep(t0, p + [R], R);
    LinkAt(t0, p + [R] + [R], null);
    if p != [] {
      ParentLinks(t0, p, null);
    }
    PullUpAgrees(t0, p, Subtree(t0, p).color, S);
  }
}
