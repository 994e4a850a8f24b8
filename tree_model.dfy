/**
 * The shape of a red-black tree as a value: a binary tree whose nodes carry the
 * identity of the heap node that stores them, its key and its colour.  Positions
 * in the tree are paths of left/right steps from the root.  Everything here is
 * pure; the heap-based tree in RBTree is tied to a value of this type.
 */
module TreeModel {

  /** The two colours of RedBlackTree.h:9. */
  datatype Color = Red | Black

  datatype Dir = L | R

  /** A position: the left/right steps that lead to it from the root. */
  type Path = seq<Dir>

  datatype Option<T> = None | Some(value: T)

  datatype Tree<N> = Nil | Node(left: Tree<N>, id: N, key: int, color: Color, right: Tree<N>)

  function Child<N>(t: Tree<N>, d: Dir): Tree<N>
    requires t.Node?
  {
    if d == L then t.left else t.right
  }

  function Opposite(d: Dir): (e: Dir)
    ensures e != d
  {
    if d == L then R else L
  }

  /** The path p stays inside t: every step except possibly the last lands on a node. */
  ghost predicate Reaches<N>(t: Tree<N>, p: Path)
    decreases |p|
  {
    p == [] || (t.Node? && Reaches(Child(t, p[0]), p[1..]))
  }

  /** The subtree at position p (Nil for an empty position). */
  ghost function Subtree<N>(t: Tree<N>, p: Path): Tree<N>
    requires Reaches(t, p)
    decreases |p|
  {
    if p == [] then t else Subtree(Child(t, p[0]), p[1..])
  }

  /** t with the subtree at position p replaced by s. */
  ghost function ReplaceAt<N>(t: Tree<N>, p: Path, s: Tree<N>): Tree<N>
    requires Reaches(t, p)
    decreases |p|
  {
    if p == [] then s
    else if p[0] == L then t.(left := ReplaceAt(t.left, p[1..], s))
    else t.(right := ReplaceAt(t.right, p[1..], s))
  }

  /** A position that holds a node. */
  ghost predicate IsNode<N>(t: Tree<N>, p: Path)
  {
    Reaches(t, p) && Subtree(t, p).Node?
  }

  // ----- path algebra -----

  lemma {:induction false} ReachesAppend<N>(t: Tree<N>, p: Path, q: Path)
    requires Reaches(t, p)
    ensures Reaches(t, p + q) <==> Reaches(Subtree(t, p), q)
    ensures Reaches(t, p + q) ==> Subtree(t, p + q) == Subtree(Subtree(t, p), q)
    decreases |p|
  {
    if p == [] {
      assert p + q == q;
    } else {
      assert (p + q)[0] == p[0] && (p + q)[1..] == p[1..] + q;
      ReachesAppend(Child(t, p[0]), p[1..], q);
    }
  }

  /** One more step from a node position stays inside the tree. */
  lemma ReachesStep<N>(t: Tree<N>, p: Path, d: Dir)
    requires IsNode(t, p)
    ensures Reaches(t, p + [d]) && Subtree(t, p + [d]) == Child(Subtree(t, p), d)
  {
    ReachesAppend(t, p, [d]);
  }

  /** The last two steps of a path. */
  lemma LastTwo(p: Path)
    requires |p| >= 2
    ensures var q := p[..|p| - 1];
      q[..|q| - 1] == p[..|p| - 2] && q[|q| - 1] == p[|p| - 2] &&
      p == p[..|p| - 2] + [p[|p| - 2], p[|p| - 1]]
  {
    assert p == p[..|p| - 2] + [p[|p| - 2], p[|p| - 1]];
  }

  /** Every prefix of a path that stays inside the tree ends on a node. */
  lemma {:induction false} PrefixIsNode<N>(t: Tree<N>, p: Path, q: Path)
    requires Reaches(t, p + q) && q != []
    ensures IsNode(t, p)
    decreases |p|
  {
    if p == [] {
      assert p + q == q;
    } else {
      assert (p + q)[0] == p[0] && (p + q)[1..] == p[1..] + q;
      PrefixIsNode(Child(t, p[0]), p[1..], q);
    }
  }

  lemma {:induction false} ReplaceReaches<N>(t: Tree<N>, p: Path, s: Tree<N>, q: Path)
    requires Reaches(t, p) && Reaches(t, q)
    requires |q| <= |p| && q == p[..|q|]
    ensures Reaches(ReplaceAt(t, p, s), q)
    ensures q != p ==> Subtree(t, q).Node? && Subtree(ReplaceAt(t, p, s), q).Node?
    ensures q != p ==> Subtree(ReplaceAt(t, p, s), q).id == Subtree(t, q).id
    ensures q != p ==> Subtree(ReplaceAt(t, p, s), q).key == Subtree(t, q).key
    ensures q != p ==> Subtree(ReplaceAt(t, p, s), q).color == Subtree(t, q).color
    decreases |q|
  {
    if q != [] {
      assert p[0] == q[0] && p[1..][..|q| - 1] == q[1..];
      ReplaceReaches(Child(t, p[0]), p[1..], s, q[1..]);
    }
  }

  lemma {:induction false} SubtreeOfReplace<N>(t: Tree<N>, p: Path, s: Tree<N>)
    requires Reaches(t, p)
    ensures Reaches(ReplaceAt(t, p, s), p) && Subtree(ReplaceAt(t, p, s), p) == s
    decreases |p|
  {
    if p != [] {
      SubtreeOfReplace(Child(t, p[0]), p[1..], s);
    }
  }

  lemma {:induction false} ReplaceSame<N>(t: Tree<N>, p: Path)
    requires Reaches(t, p)
    ensures ReplaceAt(t, p, Subtree(t, p)) == t
    decreases |p|
  {
    if p != [] {
      ReplaceSame(Child(t, p[0]), p[1..]);
    }
  }

  lemma {:induction false} ReplaceTwice<N>(t: Tree<N>, p: Path, s1: Tree<N>, s2: Tree<N>)
    requires Reaches(t, p)
    ensures Reaches(ReplaceAt(t, p, s1), p)
    ensures ReplaceAt(ReplaceAt(t, p, s1), p, s2) == ReplaceAt(t, p, s2)
    decreases |p|
  {
    if p != [] {
      ReplaceTwice(Child(t, p[0]), p[1..], s1, s2);
    }
  }

  /** Replacing deep inside the subtree at p is replacing the subtree at p. */
  lemma {:induction false} ReplaceNested<N>(t: Tree<N>, p: Path, q: Path, s: Tree<N>)
    requires Reaches(t, p) && Reaches(Subtree(t, p), q)
    ensures Reaches(t, p + q)
    ensures ReplaceAt(t, p + q, s) == ReplaceAt(t, p, ReplaceAt(Subtree(t, p), q, s))
    decreases |p|
  {
    ReachesAppend(t, p, q);
    if p == [] {
      assert p + q == q;
    } else {
      assert (p + q)[0] == p[0] && (p + q)[1..] == p[1..] + q;
      ReplaceNested(Child(t, p[0]), p[1..], q, s);
    }
  }

  /** Positions that are not below p keep their subtree when p is replaced... */
  lemma {:induction false} ReplaceKeepsPrefixNode<N>(t: Tree<N>, pp: Path, d: Dir, s: Tree<N>)
    requires IsNode(t, pp)
    ensures Reaches(t, pp + [d]) && Reaches(ReplaceAt(t, pp + [d], s), pp)
    ensures Subtree(ReplaceAt(t, pp + [d], s), pp)
         == if d == L then Subtree(t, pp).(left := s) else Subtree(t, pp).(right := s)
  {
    ReachesStep(t, pp, d);
    ReplaceNested(t, pp, [d], s);
    ReplaceReaches(t, pp + [d], s, pp);
    SubtreeOfReplace(t, pp, ReplaceAt(Subtree(t, pp), [d], s));
  }

  // ----- identities of nodes -----

  ghost function Nodes<N>(t: Tree<N>): set<N>
  {
    match t
    case Nil => {}
    case Node(l, n, _, _, r) => Nodes(l) + {n} + Nodes(r)
  }

  /** No heap node appears twice in the tree. */
  ghost predicate Distinct<N>(t: Tree<N>)
  {
    match t
    case Nil => true
    case Node(l, n, _, _, r) =>
      Distinct(l) && Distinct(r) && n !in Nodes(l) && n !in Nodes(r) && Nodes(l) !! Nodes(r)
  }

  /** The nodes of t that are not in the subtree at p. */
  ghost function Outside<N>(t: Tree<N>, p: Path): set<N>
    requires Reaches(t, p)
    decreases |p|
  {
    if p == [] then {}
    else if p[0] == L then Outside(t.left, p[1..]) + {t.id} + Nodes(t.right)
    else Nodes(t.left) + {t.id} + Outside(t.right, p[1..])
  }

  lemma {:induction false} OutsideSplit<N>(t: Tree<N>, p: Path)
    requires Reaches(t, p)
    ensures Nodes(t) == Outside(t, p) + Nodes(Subtree(t, p))
    ensures Distinct(t) ==> Distinct(Subtree(t, p)) && Outside(t, p) !! Nodes(Subtree(t, p))
    decreases |p|
  {
    if p != [] {
      OutsideSplit(Child(t, p[0]), p[1..]);
    }
  }

  lemma {:induction false} OutsideReplace<N>(t: Tree<N>, p: Path, s: Tree<N>)
    requires Reaches(t, p)
    ensures Reaches(ReplaceAt(t, p, s), p)
    ensures Outside(ReplaceAt(t, p, s), p) == Outside(t, p)
    ensures Nodes(ReplaceAt(t, p, s)) == Outside(t, p) + Nodes(s)
    decreases |p|
  {
    SubtreeOfReplace(t, p, s);
    if p != [] {
      OutsideReplace(Child(t, p[0]), p[1..], s);
    }
  }

  /** A replacement keeps the tree free of repeated nodes when it brings in no node from outside. */
  lemma {:induction false} DistinctReplace<N>(t: Tree<N>, p: Path, s: Tree<N>)
    requires Reaches(t, p) && Distinct(t) && Distinct(s) && Nodes(s) !! Outside(t, p)
    ensures Distinct(ReplaceAt(t, p, s))
    decreases |p|
  {
    if p != [] {
      var c := Child(t, p[0]);
      DistinctReplace(c, p[1..], s);
      OutsideReplace(c, p[1..], s);
      OutsideSplit(c, p[1..]);
    }
  }

  /** In a tree without repeated nodes, a node sits at one position only. */
  lemma {:induction false} PositionUnique<N>(t: Tree<N>, p: Path, q: Path)
    requires Distinct(t) && IsNode(t, p) && IsNode(t, q)
    requires Subtree(t, p).id == Subtree(t, q).id
    ensures p == q
    decreases |p|
  {
    if p != [] && q != [] {
      if p[0] == q[0] {
        PositionUnique(Child(t, p[0]), p[1..], q[1..]);
        assert p == [p[0]] + p[1..] && q == [q[0]] + q[1..];
      } else {
        OutsideSplit(Child(t, p[0]), p[1..]);
        OutsideSplit(Child(t, q[0]), q[1..]);
      }
    } else if p != [] {
      OutsideSplit(Child(t, p[0]), p[1..]);
    } else if q != [] {
      OutsideSplit(Child(t, q[0]), q[1..]);
    }
  }

  // ----- in-order keys -----

  function Inorder<N>(t: Tree<N>): seq<int>
  {
    match t
    case Nil => []
    case Node(l, _, k, _, r) => Inorder(l) + [k] + Inorder(r)
  }

  /** The keys that come before position p in in-order. */
  ghost function Before<N>(t: Tree<N>, p: Path): seq<int>
    requires Reaches(t, p)
    decreases |p|
  {
    if p == [] then []
    else if p[0] == L then Before(t.left, p[1..])
    else Inorder(t.left) + [t.key] + Before(t.right, p[1..])
  }

  /** The keys that come after position p in in-order. */
  ghost function After<N>(t: Tree<N>, p: Path): seq<int>
    requires Reaches(t, p)
    decreases |p|
  {
    if p == [] then []
    else if p[0] == L then After(t.left, p[1..]) + [t.key] + Inorder(t.right)
    else After(t.right, p[1..])
  }

  /** The in-order sequence after a replacement: the keys around p, with the new subtree's keys in the middle. */
  lemma {:induction false} InorderReplace<N>(t: Tree<N>, p: Path, s: Tree<N>)
    requires Reaches(t, p)
    ensures Inorder(ReplaceAt(t, p, s)) == Before(t, p) + Inorder(s) + After(t, p)
    decreases |p|
  {
    if p != [] {
      var c := Child(t, p[0]);
      InorderReplace(c, p[1..], s);
      var c' := ReplaceAt(c, p[1..], s);
      var b, a := Before(c, p[1..]), After(c, p[1..]);
      if p[0] == L {
        assert ReplaceAt(t, p, s) == Node(c', t.id, t.key, t.color, t.right);
        assert Inorder(c') == b + Inorder(s) + a;
        assert Before(t, p) == b;
        assert After(t, p) == a + [t.key] + Inorder(t.right);
      } else {
        assert ReplaceAt(t, p, s) == Node(t.left, t.id, t.key, t.color, c');
        assert Inorder(c') == b + Inorder(s) + a;
        assert Before(t, p) == Inorder(t.left) + [t.key] + b;
        assert After(t, p) == a;
      }
    }
  }

  lemma InorderSplit<N>(t: Tree<N>, p: Path)
    requires Reaches(t, p)
    ensures Inorder(t) == Before(t, p) + Inorder(Subtree(t, p)) + After(t, p)
  {
    InorderReplace(t, p, Subtree(t, p));
    ReplaceSame(t, p);
  }

  ghost predicate Sorted(s: seq<int>)
  {
    forall i, j :: 0 <= i < j < |s| ==> s[i] <= s[j]
  }

  // ----- rotations and recolouring -----

  /** Left rotation at the root of t: the right child takes t's place. */
  ghost function RotL<N>(t: Tree<N>): Tree<N>
    requires t.Node? && t.right.Node?
  {
    var y := t.right;
    Node(Node(t.left, t.id, t.key, t.color, y.left), y.id, y.key, y.color, y.right)
  }

  /** Right rotation at the root of t: the left child takes t's place. */
  ghost function RotR<N>(t: Tree<N>): Tree<N>
    requires t.Node? && t.left.Node?
  {
    var x := t.left;
    Node(x.left, x.id, x.key, x.color, Node(x.right, t.id, t.key, t.color, t.right))
  }

  /** The two rotations undo each other. */
  lemma RotationsInverse<N>(t: Tree<N>)
    requires t.Node? && t.right.Node?
    ensures RotL(t).left.Node? && RotR(RotL(t)) == t
  {
  }

  lemma Reassociate<T>(a: seq<T>, x: seq<T>, b: seq<T>, y: seq<T>, c: seq<T>)
    ensures (a + x + b) + y + c == a + x + (b + y + c)
  {
  }

  lemma ReassociateSets<T>(a: set<T>, x: set<T>, b: set<T>, y: set<T>, c: set<T>)
    ensures (a + x + b) + y + c == a + x + (b + y + c)
  {
  }

  /** A rotation keeps the in-order keys, the nodes and their distinctness. */
  lemma RotLKeeps<N>(t: Tree<N>)
    requires t.Node? && t.right.Node?
    ensures Inorder(RotL(t)) == Inorder(t) && Nodes(RotL(t)) == Nodes(t)
    ensures Distinct(t) ==> Distinct(RotL(t))
  {
    var Node(a, x, kx, cx, Node(b, y, ky, cy, c)) := t;
    assert Inorder(RotL(t)) == (Inorder(a) + [kx] + Inorder(b)) + [ky] + Inorder(c);
    assert Inorder(t) == Inorder(a) + [kx] + (Inorder(b) + [ky] + Inorder(c));
    Reassociate(Inorder(a), [kx], Inorder(b), [ky], Inorder(c));
    assert Nodes(RotL(t)) == (Nodes(a) + {x} + Nodes(b)) + {y} + Nodes(c);
    assert Nodes(t) == Nodes(a) + {x} + (Nodes(b) + {y} + Nodes(c));
    ReassociateSets(Nodes(a), {x}, Nodes(b), {y}, Nodes(c));
    if Distinct(t) {
      RotLDistinct(t);
    }
  }

  lemma RotLDistinct<N>(t: Tree<N>)
    requires t.Node? && t.right.Node? && Distinct(t)
    ensures Distinct(RotL(t))
  {
    var Node(a, x, kx, cx, Node(b, y, ky, cy, c)) := t;
    assert Nodes(RotL(t).left) == Nodes(a) + {x} + Nodes(b);
  }

  lemma RotRKeeps<N>(t: Tree<N>)
    requires t.Node? && t.left.Node?
    ensures Inorder(RotR(t)) == Inorder(t) && Nodes(RotR(t)) == Nodes(t)
    ensures Distinct(t) ==> Distinct(RotR(t))
  {
    var Node(Node(a, x, kx, cx, b), y, ky, cy, c) := t;
    assert Inorder(RotR(t)) == Inorder(a) + [kx] + (Inorder(b) + [ky] + Inorder(c));
    assert Inorder(t) == (Inorder(a) + [kx] + Inorder(b)) + [ky] + Inorder(c);
    Reassociate(Inorder(a), [kx], Inorder(b), [ky], Inorder(c));
    assert Nodes(RotR(t)) == Nodes(a) + {x} + (Nodes(b) + {y} + Nodes(c));
    assert Nodes(t) == (Nodes(a) + {x} + Nodes(b)) + {y} + Nodes(c);
    ReassociateSets(Nodes(a), {x}, Nodes(b), {y}, Nodes(c));
    if Distinct(t) {
      RotRDistinct(t);
    }
  }

  lemma RotRDistinct<N>(t: Tree<N>)
    requires t.Node? && t.left.Node? && Distinct(t)
    ensures Distinct(RotR(t))
  {
    var Node(Node(a, x, kx, cx, b), y, ky, cy, c) := t;
    assert Nodes(RotR(t).right) == Nodes(b) + {y} + Nodes(c);
  }

  ghost predicate CanRotateLeft<N>(t: Tree<N>, p: Path)
  {
    IsNode(t, p) && Subtree(t, p).right.Node?
  }

  ghost predicate CanRotateRight<N>(t: Tree<N>, p: Path)
  {
    IsNode(t, p) && Subtree(t, p).left.Node?
  }

  ghost function RotateLeftAt<N>(t: Tree<N>, p: Path): Tree<N>
    requires CanRotateLeft(t, p)
  {
    ReplaceAt(t, p, RotL(Subtree(t, p)))
  }

  ghost function RotateRightAt<N>(t: Tree<N>, p: Path): Tree<N>
    requires CanRotateRight(t, p)
  {
    ReplaceAt(t, p, RotR(Subtree(t, p)))
  }

  ghost function PaintAt<N>(t: Tree<N>, p: Path, c: Color): Tree<N>
    requires IsNode(t, p)
  {
    ReplaceAt(t, p, Subtree(t, p).(color := c))
  }

  /** Replacing a subtree by one with the same keys and nodes keeps the whole tree's keys and nodes. */
  lemma ReplaceKeeps<N>(t: Tree<N>, p: Path, s: Tree<N>)
    requires Reaches(t, p) && Distinct(t) && Distinct(s)
    requires Inorder(s) == Inorder(Subtree(t, p)) && Nodes(s) == Nodes(Subtree(t, p))
    ensures Inorder(ReplaceAt(t, p, s)) == Inorder(t)
    ensures Nodes(ReplaceAt(t, p, s)) == Nodes(t)
    ensures Distinct(ReplaceAt(t, p, s))
  {
    InorderReplace(t, p, s);
    InorderSplit(t, p);
    OutsideReplace(t, p, s);
    OutsideSplit(t, p);
    DistinctReplace(t, p, s);
  }

  lemma RotateLeftAtKeeps<N>(t: Tree<N>, p: Path)
    requires CanRotateLeft(t, p) && Distinct(t)
    ensures Inorder(RotateLeftAt(t, p)) == Inorder(t) && Nodes(RotateLeftAt(t, p)) == Nodes(t)
    ensures Distinct(RotateLeftAt(t, p))
  {
    OutsideSplit(t, p);
    RotLKeeps(Subtree(t, p));
    ReplaceKeeps(t, p, RotL(Subtree(t, p)));
  }

  lemma RotateRightAtKeeps<N>(t: Tree<N>, p: Path)
    requires CanRotateRight(t, p) && Distinct(t)
    ensures Inorder(RotateRightAt(t, p)) == Inorder(t) && Nodes(RotateRightAt(t, p)) == Nodes(t)
    ensures Distinct(RotateRightAt(t, p))
  {
    OutsideSplit(t, p);
    RotRKeeps(Subtree(t, p));
    ReplaceKeeps(t, p, RotR(Subtree(t, p)));
  }

  lemma PaintAtKeeps<N>(t: Tree<N>, p: Path, c: Color)
    requires IsNode(t, p) && Distinct(t)
    ensures Inorder(PaintAt(t, p, c)) == Inorder(t) && Nodes(PaintAt(t, p, c)) == Nodes(t)
    ensures Distinct(PaintAt(t, p, c))
  {
    OutsideSplit(t, p);
    ReplaceKeeps(t, p, Subtree(t, p).(color := c));
  }

  /** The rotation that brings the child on side d up to the root: right rotation for a left child, left rotation for a right child. */
  ghost function Promote<N>(t: Tree<N>, d: Dir): Tree<N>
    requires t.Node? && Child(t, d).Node?
  {
    if d == L then RotR(t) else RotL(t)
  }

  ghost predicate CanPromote<N>(t: Tree<N>, p: Path, d: Dir)
  {
    IsNode(t, p) && Child(Subtree(t, p), d).Node?
  }

  ghost function PromoteAt<N>(t: Tree<N>, p: Path, d: Dir): Tree<N>
    requires CanPromote(t, p, d)
  {
    ReplaceAt(t, p, Promote(Subtree(t, p), d))
  }

  lemma PromoteAtKeeps<N>(t: Tree<N>, p: Path, d: Dir)
    requires CanPromote(t, p, d) && Distinct(t)
    ensures Inorder(PromoteAt(t, p, d)) == Inorder(t) && Nodes(PromoteAt(t, p, d)) == Nodes(t)
    ensures Distinct(PromoteAt(t, p, d))
  {
    if d == L {
      RotateRightAtKeeps(t, p);
    } else {
      RotateLeftAtKeeps(t, p);
    }
  }

  // ----- one-step paths, spelled out -----

  lemma ReplaceOne<N>(t: Tree<N>, d: Dir, s: Tree<N>)
    requires t.Node?
    ensures Reaches(t, [d])
    ensures ReplaceAt(t, [d], s) == if d == L then t.(left := s) else t.(right := s)
  {
    assert [d][0] == d && [d][1..] == [];
  }

  lemma PaintRoot<N>(t: Tree<N>, c: Color)
    requires t.Node?
    ensures IsNode(t, []) && PaintAt(t, [], c) == t.(color := c)
  {
  }

  lemma PaintChild<N>(t: Tree<N>, d: Dir, c: Color)
    requires t.Node? && Child(t, d).Node?
    ensures IsNode(t, [d])
    ensures PaintAt(t, [d], c) ==
      if d == L then t.(left := t.left.(color := c)) else t.(right := t.right.(color := c))
  {
    assert [d][0] == d && [d][1..] == [];
    assert Subtree(t, [d]) == Child(t, d);
    ReplaceOne(t, d, Subtree(t, [d]).(color := c));
  }

  lemma PromoteRoot<N>(t: Tree<N>, d: Dir)
    requires t.Node? && Child(t, d).Node?
    ensures CanPromote(t, [], d) && PromoteAt(t, [], d) == Promote(t, d)
  {
  }

  lemma PromoteChild<N>(t: Tree<N>, d: Dir, e: Dir)
    requires t.Node? && Child(t, d).Node? && Child(Child(t, d), e).Node?
    ensures CanPromote(t, [d], e)
    ensures PromoteAt(t, [d], e) ==
      if d == L then t.(left := Promote(t.left, e)) else t.(right := Promote(t.right, e))
  {
    assert [d][0] == d && [d][1..] == [];
    assert Subtree(t, [d]) == Child(t, d);
    ReplaceOne(t, d, Promote(Child(t, d), e));
  }

  /**
   * A tree that differs from t0 only inside the subtree at pp + [d] agrees with t0 at pp
   * and everywhere above it, and keeps the sibling subtree at pp + [Opposite(d)].
   */
  lemma {:induction false} AgreeAbove<N>(t0: Tree<N>, t: Tree<N>, pp: Path, d: Dir)
    requires Reaches(t0, pp + [d]) && Reaches(t, pp + [d])
    requires t == ReplaceAt(t0, pp + [d], Subtree(t, pp + [d]))
    ensures IsNode(t0, pp) && IsNode(t, pp)
    ensures Subtree(t, pp) == ReplaceAt(Subtree(t0, pp), [d], Subtree(t, pp + [d]))
    ensures t == ReplaceAt(t0, pp, Subtree(t, pp))
    ensures Subtree(t, pp).id == Subtree(t0, pp).id && Subtree(t, pp).key == Subtree(t0, pp).key
    ensures Subtree(t, pp).color == Subtree(t0, pp).color
    ensures Child(Subtree(t, pp), Opposite(d)) == Child(Subtree(t0, pp), Opposite(d))
  {
    var x := Subtree(t, pp + [d]);
    PrefixIsNode(t0, pp, [d]);
    PrefixIsNode(t, pp, [d]);
    ReachesAppend(t0, pp, [d]);
    ReplaceNested(t0, pp, [d], x);
    var s := ReplaceAt(Subtree(t0, pp), [d], x);
    SubtreeOfReplace(t0, pp, s);
    assert [d][1..] == [];
  }

  // ----- working inside one subtree -----

  /** What lies at gp + q in a tree whose subtree at gp is s is what lies at q in s. */
  lemma LocalView<N>(t0: Tree<N>, gp: Path, s: Tree<N>, q: Path)
    requires Reaches(t0, gp) && Reaches(s, q)
    ensures Reaches(ReplaceAt(t0, gp, s), gp + q)
    ensures Subtree(ReplaceAt(t0, gp, s), gp + q) == Subtree(s, q)
  {
    SubtreeOfReplace(t0, gp, s);
    ReachesAppend(ReplaceAt(t0, gp, s), gp, q);
  }

  /** Replacing at gp + q inside a tree whose subtree at gp is s is replacing at q inside s. */
  lemma LocalReplace<N>(t0: Tree<N>, gp: Path, s: Tree<N>, q: Path, x: Tree<N>)
    requires Reaches(t0, gp) && Reaches(s, q)
    ensures Reaches(ReplaceAt(t0, gp, s), gp + q)
    ensures ReplaceAt(ReplaceAt(t0, gp, s), gp + q, x) == ReplaceAt(t0, gp, ReplaceAt(s, q, x))
  {
    var t := ReplaceAt(t0, gp, s);
    LocalView(t0, gp, s, q);
    SubtreeOfReplace(t0, gp, s);
    ReplaceNested(t, gp, q, x);
    ReplaceTwice(t0, gp, s, ReplaceAt(s, q, x));
  }

  lemma LocalPaint<N>(t0: Tree<N>, gp: Path, s: Tree<N>, q: Path, c: Color)
    requires Reaches(t0, gp) && IsNode(s, q)
    ensures IsNode(ReplaceAt(t0, gp, s), gp + q)
    ensures PaintAt(ReplaceAt(t0, gp, s), gp + q, c) == ReplaceAt(t0, gp, PaintAt(s, q, c))
  {
    LocalView(t0, gp, s, q);
    LocalReplace(t0, gp, s, q, Subtree(s, q).(color := c));
  }

  lemma LocalPromote<N>(t0: Tree<N>, gp: Path, s: Tree<N>, q: Path, d: Dir)
    requires Reaches(t0, gp) && CanPromote(s, q, d)
    ensures CanPromote(ReplaceAt(t0, gp, s), gp + q, d)
    ensures PromoteAt(ReplaceAt(t0, gp, s), gp + q, d) == ReplaceAt(t0, gp, PromoteAt(s, q, d))
  {
    LocalView(t0, gp, s, q);
    LocalReplace(t0, gp, s, q, Promote(Subtree(s, q), d));
  }

  // ----- insertion -----

  /** The position where insert places a new key: left when smaller, otherwise right (so equal keys go right). */
  ghost function InsertPath<N>(t: Tree<N>, v: int): Path
  {
    match t
    case Nil => []
    case Node(l, _, k, _, r) => if v < k then [L] + InsertPath(l, v) else [R] + InsertPath(r, v)
  }

  lemma {:induction false} InsertPathEmpty<N>(t: Tree<N>, v: int)
    ensures Reaches(t, InsertPath(t, v)) && Subtree(t, InsertPath(t, v)) == Nil
  {
    match t
    case Nil =>
    case Node(l, _, k, _, r) =>
      var c := if v < k then l else r;
      InsertPathEmpty(c, v);
  }

  /** One step of the descent: the path from a node is one step followed by the path from the child. */
  lemma InsertPathStep<N>(t: Tree<N>, p: Path, v: int)
    requires IsNode(t, p)
    ensures var d := if v < Subtree(t, p).key then L else R;
      Reaches(t, p + [d]) &&
      p + InsertPath(Subtree(t, p), v) == (p + [d]) + InsertPath(Subtree(t, p + [d]), v)
  {
    var d := if v < Subtree(t, p).key then L else R;
    ReachesStep(t, p, d);
    assert InsertPath(Subtree(t, p), v) == [d] + InsertPath(Subtree(t, p + [d]), v);
  }

  /** The sorted insertion of v: placed before the first element greater than v. */
  function InsertSorted(s: seq<int>, v: int): (r: seq<int>)
    ensures |r| == |s| + 1
  {
    if s == [] then [v]
    else if v < s[0] then [v] + s
    else [s[0]] + InsertSorted(s[1..], v)
  }

  lemma InsertSortedKeeps(s: seq<int>, v: int)
    ensures multiset(InsertSorted(s, v)) == multiset(s) + multiset{v}
    ensures Sorted(s) ==> Sorted(InsertSorted(s, v))
  {
    InsertSortedCount(s, v);
    if Sorted(s) {
      InsertSortedOrdered(s, v);
    }
  }

  /** Sorted insertion adds exactly one v. */
  lemma {:induction false} InsertSortedCount(s: seq<int>, v: int)
    ensures multiset(InsertSorted(s, v)) == multiset(s) + multiset{v}
  {
    if s != [] && v >= s[0] {
      InsertSortedCount(s[1..], v);
      assert s == [s[0]] + s[1..];
      assert InsertSorted(s, v) == [s[0]] + InsertSorted(s[1..], v);
    }
  }

  /** Sorted insertion into a sorted sequence gives a sorted sequence. */
  lemma {:induction false} InsertSortedOrdered(s: seq<int>, v: int)
    requires Sorted(s)
    ensures Sorted(InsertSorted(s, v))
  {
    if s != [] && v >= s[0] {
      var rest := s[1..];
      var r' := InsertSorted(rest, v);
      assert Sorted(rest);
      InsertSortedOrdered(rest, v);
      InsertSortedCount(rest, v);
      forall j | 0 <= j < |r'| ensures s[0] <= r'[j] {
        assert r'[j] in multiset(r');
        if r'[j] != v {
          assert r'[j] in rest;
        }
      }
      SortedCons(s[0], r');
    }
  }

  /** A key no larger than any element of a sorted sequence can be put in front of it. */
  lemma SortedCons(x: int, r: seq<int>)
    requires Sorted(r) && forall j :: 0 <= j < |r| ==> x <= r[j]
    ensures Sorted([x] + r)
  {
    forall i, j | 0 <= i < j < |r| + 1 ensures ([x] + r)[i] <= ([x] + r)[j] {
      if i > 0 {
        assert ([x] + r)[i] == r[i - 1];
      }
      assert ([x] + r)[j] == r[j - 1];
    }
  }

  /** The parts of a sorted in-order sequence around a key. */
  lemma SortedSplit(a: seq<int>, k: int, b: seq<int>)
    requires Sorted(a + [k] + b)
    ensures Sorted(a) && Sorted(b)
    ensures forall i :: 0 <= i < |a| ==> a[i] <= k
    ensures forall i :: 0 <= i < |b| ==> k <= b[i]
  {
    var s := a + [k] + b;
    assert forall i :: 0 <= i < |a| ==> s[i] == a[i];
    assert forall i :: 0 <= i < |b| ==> s[|a| + 1 + i] == b[i];
    assert s[|a|] == k;
  }

  lemma {:induction false} InsertSortedAppendLeft(a: seq<int>, b: seq<int>, v: int)
    requires b != [] && v < b[0]
    ensures InsertSorted(a + b, v) == InsertSorted(a, v) + b
  {
    if a == [] {
      assert a + b == b;
    } else {
      assert (a + b)[0] == a[0] && (a + b)[1..] == a[1..] + b;
      if v >= a[0] {
        InsertSortedAppendLeft(a[1..], b, v);
      }
    }
  }

  lemma {:induction false} InsertSortedAppendRight(a: seq<int>, b: seq<int>, v: int)
    requires forall i :: 0 <= i < |a| ==> a[i] <= v
    ensures InsertSorted(a + b, v) == a + InsertSorted(b, v)
  {
    if a == [] {
      assert a + b == b;
    } else {
      assert (a + b)[0] == a[0] && (a + b)[1..] == a[1..] + b;
      InsertSortedAppendRight(a[1..], b, v);
    }
  }

  /** Placing a new leaf with key v where insert puts it inserts v into the sorted key sequence. */
  lemma {:induction false} InsertInorder<N>(t: Tree<N>, v: int, leaf: Tree<N>)
    requires Sorted(Inorder(t)) && leaf.Node? && leaf.key == v && leaf.left.Nil? && leaf.right.Nil?
    ensures Reaches(t, InsertPath(t, v))
    ensures Inorder(ReplaceAt(t, InsertPath(t, v), leaf)) == InsertSorted(Inorder(t), v)
  {
    InsertPathEmpty(t, v);
    match t
    case Nil =>
    case Node(l, n, k, c, r) =>
      var p := InsertPath(t, v);
      var s := Inorder(t);
      assert s == Inorder(l) + [k] + Inorder(r);
      SortedSplit(Inorder(l), k, Inorder(r));
      if v < k {
        InsertInorder(l, v, leaf);
        var l' := ReplaceAt(l, InsertPath(l, v), leaf);
        assert ReplaceAt(t, p, leaf) == Node(l', n, k, c, r);
        InsertSortedAppendLeft(Inorder(l), [k] + Inorder(r), v);
        assert s == Inorder(l) + ([k] + Inorder(r));
      } else {
        InsertInorder(r, v, leaf);
        var r' := ReplaceAt(r, InsertPath(r, v), leaf);
        assert ReplaceAt(t, p, leaf) == Node(l, n, k, c, r');
        var a := Inorder(l) + [k];
        assert forall i :: 0 <= i < |a| ==> a[i] <= v;
        InsertSortedAppendRight(a, Inorder(r), v);
        assert s == a + Inorder(r);
      }
  }

  // ----- search and deletion -----

  /** Prefixes a found position with the steps taken so far. */
  ghost function Under(p: Path, o: Option<Path>): Option<Path>
  {
    match o
    case None => None
    case Some(q) => Some(p + q)
  }

  /** The position remove finds for v: the first node on the search path whose key equals v. */
  ghost function SearchPath<N>(t: Tree<N>, v: int): Option<Path>
  {
    match t
    case Nil => None
    case Node(l, _, k, _, r) =>
      if v < k then Under([L], SearchPath(l, v))
      else if v > k then Under([R], SearchPath(r, v))
      else Some([])
  }

  /** A found position holds v. */
  lemma {:induction false} SearchFound<N>(t: Tree<N>, v: int)
    requires SearchPath(t, v).Some?
    ensures IsNode(t, SearchPath(t, v).value) && Subtree(t, SearchPath(t, v).value).key == v
  {
    match t
    case Node(l, _, k, _, r) =>
      if v < k {
        SearchFound(l, v);
      } else if v > k {
        SearchFound(r, v);
      }
  }

  /** The search misses only keys that are absent (when the keys are sorted), and never misses a present one. */
  lemma {:induction false} SearchComplete<N>(t: Tree<N>, v: int)
    ensures SearchPath(t, v).Some? ==> v in Inorder(t)
    ensures Sorted(Inorder(t)) && v in Inorder(t) ==> SearchPath(t, v).Some?
  {
    match t
    case Nil =>
    case Node(l, _, k, _, r) =>
      var s := Inorder(t);
      assert s == Inorder(l) + [k] + Inorder(r);
      if v < k {
        SearchComplete(l, v);
        if Sorted(s) {
          SortedSplit(Inorder(l), k, Inorder(r));
          assert v in s ==> v in Inorder(l);
        }
      } else if v > k {
        SearchComplete(r, v);
        if Sorted(s) {
          SortedSplit(Inorder(l), k, Inorder(r));
          assert v in s ==> v in Inorder(r);
        }
      }
  }

  lemma SearchStep<N>(t: Tree<N>, p: Path, v: int)
    requires IsNode(t, p)
    ensures var k := Subtree(t, p).key;
      v != k ==> var d := if v < k then L else R;
      Reaches(t, p + [d]) &&
      Under(p, SearchPath(Subtree(t, p), v)) == Under(p + [d], SearchPath(Subtree(t, p + [d]), v))
  {
    var k := Subtree(t, p).key;
    if v != k {
      var d := if v < k then L else R;
      ReachesStep(t, p, d);
      match SearchPath(Subtree(t, p + [d]), v)
      case None =>
      case Some(q) =>
        assert p + ([d] + q) == (p + [d]) + q;
    }
  }

  /** The path to the leftmost node of a non-empty tree. */
  ghost function MinPath<N>(t: Tree<N>): (p: Path)
    requires t.Node?
    ensures IsNode(t, p) && Subtree(t, p).left.Nil?
  {
    if t.left.Nil? then []
    else
      var q := MinPath(t.left);
      assert ([L] + q)[0] == L && ([L] + q)[1..] == q;
      [L] + q
  }

  /** The leftmost node of a non-empty tree, the one with the first key in in-order. */
  ghost function Leftmost<N>(t: Tree<N>): (m: Tree<N>)
    requires t.Node?
    ensures m.Node? && m.left.Nil?
  {
    if t.left.Nil? then t else Leftmost(t.left)
  }

  /**
   * One step of the walk to the leftmost node of the subtree at p, having gone down q:
   * a left child continues the path, and a node without one is the leftmost node.
   */
  lemma MinPathStep<N>(t: Tree<N>, p: Path, q: Path)
    requires IsNode(t, p) && IsNode(t, p + q)
    requires q + MinPath(Subtree(t, p + q)) == MinPath(Subtree(t, p))
    requires Leftmost(Subtree(t, p + q)) == Leftmost(Subtree(t, p))
    ensures var c := Subtree(t, p + q);
      c.left.Node? ==>
        IsNode(t, p + (q + [L])) && Subtree(t, p + (q + [L])) == c.left &&
        (q + [L]) + MinPath(c.left) == MinPath(Subtree(t, p)) && Leftmost(c.left) == Leftmost(Subtree(t, p))
    ensures var c := Subtree(t, p + q);
      c.left.Nil? ==> q == MinPath(Subtree(t, p)) && c == Leftmost(Subtree(t, p))
  {
    var c := Subtree(t, p + q);
    if c.left.Node? {
      ReachesStep(t, p + q, L);
      assert p + q + [L] == p + (q + [L]);
      assert (q + [L]) + MinPath(c.left) == q + ([L] + MinPath(c.left));
    } else {
      assert q + [] == q;
    }
  }

  lemma {:induction false} LeftmostIn<N>(t: Tree<N>)
    requires t.Node?
    ensures Leftmost(t).id in Nodes(t)
  {
    if t.left.Node? {
      LeftmostIn(t.left);
    }
  }

  /** t without its leftmost node, which is replaced by its right subtree. */
  ghost function DeleteMin<N>(t: Tree<N>): Tree<N>
    requires t.Node?
  {
    if t.left.Nil? then t.right else t.(left := DeleteMin(t.left))
  }

  lemma {:induction false} LeftmostAt<N>(t: Tree<N>)
    requires t.Node?
    ensures Subtree(t, MinPath(t)) == Leftmost(t)
    ensures ReplaceAt(t, MinPath(t), Leftmost(t).right) == DeleteMin(t)
  {
    if t.left.Node? {
      LeftmostAt(t.left);
    }
  }

  lemma {:induction false} DeleteMinKeys<N>(t: Tree<N>)
    requires t.Node?
    ensures Inorder(t) == [Leftmost(t).key] + Inorder(DeleteMin(t))
    ensures Nodes(t) == {Leftmost(t).id} + Nodes(DeleteMin(t))
  {
    if t.left.Node? {
      DeleteMinKeys(t.left);
      assert Inorder(t) == ([Leftmost(t).key] + Inorder(DeleteMin(t.left))) + [t.key] + Inorder(t.right);
    }
  }

  lemma {:induction false} DeleteMinDistinct<N>(t: Tree<N>)
    requires t.Node? && Distinct(t)
    ensures Distinct(DeleteMin(t)) && Leftmost(t).id !in Nodes(DeleteMin(t))
  {
    if t.left.Node? {
      DeleteMinDistinct(t.left);
      DeleteMinKeys(t.left);
    }
  }

  /**
   * The subtree that takes the place of s when its root is removed: the right child when
   * there is no left child, the left child when there is no right child, and otherwise the
   * in-order successor, coloured as the removed root, above the two remaining subtrees.
   */
  ghost function Unlink<N>(s: Tree<N>): Tree<N>
    requires s.Node?
  {
    if s.left.Nil? then s.right
    else if s.right.Nil? then s.left
    else
      var m := Leftmost(s.right);
      Node(s.left, m.id, m.key, s.color, DeleteMin(s.right))
  }

  lemma UnlinkKeeps<N>(s: Tree<N>)
    requires s.Node? && Distinct(s)
    ensures Inorder(Unlink(s)) == Inorder(s.left) + Inorder(s.right)
    ensures Nodes(Unlink(s)) == Nodes(s) - {s.id}
    ensures Distinct(Unlink(s))
  {
    if s.left.Node? && s.right.Node? {
      DeleteMinKeys(s.right);
      DeleteMinDistinct(s.right);
      var m := Leftmost(s.right);
      var u := Unlink(s);
      assert u == Node(s.left, m.id, m.key, s.color, DeleteMin(s.right));
      assert Inorder(u) == Inorder(s.left) + ([m.key] + Inorder(DeleteMin(s.right)));
      assert Nodes(u) == Nodes(s.left) + {m.id} + Nodes(DeleteMin(s.right));
    }
  }

  /** Replacing the node at p by its child on side d drops that node and its other subtree. */
  lemma SpliceNodes<N>(t: Tree<N>, p: Path, d: Dir)
    requires Distinct(t) && IsNode(t, p)
    ensures var s := Subtree(t, p); var t' := ReplaceAt(t, p, Child(s, d));
      Distinct(t') && Nodes(t') == Nodes(t) - {s.id} - Nodes(Child(s, Opposite(d)))
  {
    var s := Subtree(t, p);
    OutsideSplit(t, p);
    OutsideReplace(t, p, Child(s, d));
    DistinctReplace(t, p, Child(s, d));
  }

  /** Replacing the node at p by a new node y with the same children swaps the two nodes. */
  lemma SwapNodes<N>(t: Tree<N>, p: Path, y: N, k: int, c: Color)
    requires Distinct(t) && IsNode(t, p) && y !in Nodes(t)
    ensures var s := Subtree(t, p); var t' := ReplaceAt(t, p, Node(s.left, y, k, c, s.right));
      Distinct(t') && Nodes(t') == Nodes(t) - {s.id} + {y}
  {
    var s := Subtree(t, p);
    var s' := Node(s.left, y, k, c, s.right);
    OutsideSplit(t, p);
    OutsideReplace(t, p, s');
    DistinctReplace(t, p, s');
  }

  /** The right child y of the node at p, when y has no left child, rises into p and takes the left subtree. */
  lemma PullUpNodes<N>(t: Tree<N>, p: Path, c: Color)
    requires Distinct(t) && IsNode(t, p) && Subtree(t, p).right.Node? && Subtree(t, p).right.left.Nil?
    ensures var s := Subtree(t, p); var t' := ReplaceAt(t, p, Node(s.left, s.right.id, s.right.key, c, s.right.right));
      Distinct(t') && Nodes(t') == Nodes(t) - {s.id}
  {
    var s := Subtree(t, p);
    var s' := Node(s.left, s.right.id, s.right.key, c, s.right.right);
    OutsideSplit(t, p);
    OutsideReplace(t, p, s');
    DistinctReplace(t, p, s');
  }

  /** The leftmost node holds the first key in in-order, so the smallest one when the keys are sorted. */
  lemma LeftmostFirst<N>(t: Tree<N>)
    requires t.Node?
    ensures Inorder(t) != [] && Inorder(t)[0] == Leftmost(t).key
    ensures Sorted(Inorder(t)) ==> forall i | 0 <= i < |Inorder(t)| :: Leftmost(t).key <= Inorder(t)[i]
  {
    DeleteMinKeys(t);
  }

  /** Unlinking the node at p drops exactly that node. */
  lemma UnlinkNodes<N>(t: Tree<N>, p: Path)
    requires Distinct(t) && IsNode(t, p)
    ensures var s := Subtree(t, p); var t' := ReplaceAt(t, p, Unlink(s));
      Distinct(t') && Nodes(t') == Nodes(t) - {s.id}
  {
    var s := Subtree(t, p);
    OutsideSplit(t, p);
    UnlinkKeeps(s);
    OutsideReplace(t, p, Unlink(s));
    DistinctReplace(t, p, Unlink(s));
  }

  /** Unlinking the node at p takes its key out of the in-order sequence at its own place. */
  lemma UnlinkInorder<N>(t: Tree<N>, p: Path)
    requires Distinct(t) && IsNode(t, p)
    ensures var s := Subtree(t, p); var a := Before(t, p) + Inorder(s.left); var b := Inorder(s.right) + After(t, p);
      Inorder(t) == a + [s.key] + b && Inorder(ReplaceAt(t, p, Unlink(s))) == a + b
  {
    var s := Subtree(t, p);
    var x, y := Before(t, p), After(t, p);
    var l, r := Inorder(s.left), Inorder(s.right);
    OutsideSplit(t, p);
    UnlinkKeeps(s);
    ReplaceSame(t, p);
    InorderReplace(t, p, s);
    InorderReplace(t, p, Unlink(s));
    assert Inorder(s) == l + [s.key] + r;
    assert Inorder(t) == x + (l + [s.key] + r) + y;
    Regroup(x, l, [s.key], r, y);
  }

  lemma Regroup<T>(x: seq<T>, l: seq<T>, k: seq<T>, r: seq<T>, y: seq<T>)
    ensures x + (l + k + r) + y == (x + l) + k + (r + y)
    ensures x + (l + r) + y == (x + l) + (r + y)
  {
  }

  /**
   * Unlinking the node at p: its node leaves the tree, and its key leaves the in-order
   * sequence from its own place.  In a sorted sequence the result equals the sequence
   * with the first occurrence removed, even when the node is not the first holding it.
   */
  lemma RemoveKeys<N>(t: Tree<N>, p: Path)
    requires Distinct(t) && IsNode(t, p)
    ensures var s := Subtree(t, p); var t' := ReplaceAt(t, p, Unlink(s));
      Distinct(t') && Nodes(t') == Nodes(t) - {s.id} &&
      multiset(Inorder(t')) == multiset(Inorder(t)) - multiset{s.key} &&
      (Sorted(Inorder(t)) ==> Inorder(t') == RemoveFirst(Inorder(t), s.key) && Sorted(Inorder(t')))
  {
    var s := Subtree(t, p);
    UnlinkNodes(t, p);
    UnlinkInorder(t, p);
    var a := Before(t, p) + Inorder(s.left);
    var b := Inorder(s.right) + After(t, p);
    var t' := ReplaceAt(t, p, Unlink(s));
    assert multiset(Inorder(t)) == multiset(a) + multiset{s.key} + multiset(b);
    assert multiset(Inorder(t')) == multiset(a) + multiset(b);
    if Sorted(Inorder(t)) {
      RemoveFirstSorted(a, s.key, b);
    }
  }

  /**
   * When the node at p has two children, cutting its successor m out of the right subtree
   * and then putting m in place of the node at p, with that node's colour, is unlinking it.
   */
  lemma SuccessorSplice<N>(t: Tree<N>, p: Path)
    requires IsNode(t, p) && Subtree(t, p).left.Node? && Subtree(t, p).right.Node?
    ensures var s := Subtree(t, p); var m := Leftmost(s.right); var py := p + [R] + MinPath(s.right);
      IsNode(t, py) && Subtree(t, py) == m &&
      var t' := ReplaceAt(t, py, m.right);
      IsNode(t', p) && Subtree(t', p) == s.(right := DeleteMin(s.right)) &&
      ReplaceAt(t', p, Node(s.left, m.id, m.key, s.color, DeleteMin(s.right))) == ReplaceAt(t, p, Unlink(s))
  {
    var s := Subtree(t, p);
    var q := MinPath(s.right);
    var m := Leftmost(s.right);
    var d := DeleteMin(s.right);
    ReachesStep(t, p, R);
    ReachesAppend(t, p + [R], q);
    LeftmostAt(s.right);
    ReplaceNested(t, p + [R], q, m.right);
    ReplaceKeepsPrefixNode(t, p, R, d);
    ReplaceNested(t, p, [R], d);
    assert ReplaceAt(s, [R], d) == s.(right := d);
    ReplaceTwice(t, p, s.(right := d), Unlink(s));
  }

  /** Removes the first occurrence of v. */
  function RemoveFirst(s: seq<int>, v: int): seq<int>
  {
    if s == [] then []
    else if s[0] == v then s[1..]
    else [s[0]] + RemoveFirst(s[1..], v)
  }

  /** Removing a value that does not occur changes nothing. */
  lemma {:induction false} RemoveAbsent(s: seq<int>, v: int)
    requires v !in s
    ensures RemoveFirst(s, v) == s
  {
    if s != [] {
      assert v !in s[1..];
      RemoveAbsent(s[1..], v);
      assert [s[0]] + s[1..] == s;
    }
  }

  /** In a sorted sequence, dropping any occurrence of v is dropping the first one. */
  lemma {:induction false} RemoveFirstSorted(a: seq<int>, v: int, b: seq<int>)
    requires Sorted(a + [v] + b)
    ensures RemoveFirst(a + [v] + b, v) == a + b
    ensures Sorted(a + b)
  {
    var s := a + [v] + b;
    if a == [] {
      assert s[1..] == b;
    } else {
      assert s[0] == a[0];
      assert s[1..] == a[1..] + [v] + b;
      assert Sorted(a[1..] + [v] + b) by {
        forall i, j | 0 <= i < j < |s| - 1 ensures s[1..][i] <= s[1..][j] {
          assert s[1..][i] == s[i + 1] && s[1..][j] == s[j + 1];
        }
      }
      RemoveFirstSorted(a[1..], v, b);
      if a[0] == v {
        forall i | 0 <= i < |a| ensures a[i] == v {
          assert s[0] <= s[i] <= s[|a|];
        }
        assert a[1..] + [v] == a;
      }
      assert a == [a[0]] + a[1..];
    }
    forall i, j | 0 <= i < j < |a + b| ensures (a + b)[i] <= (a + b)[j] {
      var i' := if i < |a| then i else i + 1;
      var j' := if j < |a| then j else j + 1;
      assert (a + b)[i] == s[i'] && (a + b)[j] == s[j'];
    }
  }
}
