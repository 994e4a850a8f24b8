/**
 * RedBlackTree<int> of RedBlackTree.h/.cpp: a root pointer over heap nodes that
 * carry parent, child, key and colour fields.  The ghost value T is the tree the
 * heap represents; Valid() says the heap holds exactly the links T prescribes.
 */
module RBTree {
  import opened TreeModel
  import opened Coloring
  import opened Links
  import opened Fixups

  /** t is t0 with a red leaf n holding v at the end of v's insertion path cp. */
  ghost predicate LeafPlaced(t0: Tree<Node>, t: Tree<Node>, cp: Path, n: Node, v: int)
  {
    Reaches(t0, cp) && cp == InsertPath(t0, v) && t == ReplaceAt(t0, cp, Node(Nil, n, v, Red, Nil))
  }

  class RedBlackTree {
    var root: Node?
    ghost var T: Tree<Node>
    ghost var Repr: set<Node>

    ghost predicate Valid()
      reads this, Repr
    {
      Distinct(T) && Repr == Nodes(T) && root == Ptr(T) && Agrees(Info(T, null), Repr)
    }

    /** The empty tree. */
    constructor ()
      ensures Valid() && T == Nil && Repr == {} && root == null
    {
      root := null;
      T := Nil;
      Repr := {};
    }

    /** Colours one node; stands for the colour assignments inside the fix-up loops. */
    method Paint(n: Node, c: Color, ghost p: Path)
      requires Valid() && IsNode(T, p) && n == Subtree(T, p).id
      modifies this`T, n`color
      ensures Valid() && T == PaintAt(old(T), p, c) && Repr == old(Repr)
      ensures Inorder(T) == Inorder(old(T))
    {
      ghost var T0 := T;
      ghost var I0 := Info(T0, null);
      assert n in Repr by {
        InfoKeys(T0, null);
        LinkAt(T0, p, null);
      }
      n.color := c;
      T := PaintAt(T0, p, c);
      PaintAgrees(T0, p, c, Repr, n);
      PaintAtKeeps(T0, p, c);
    }

    /**
     * leftRotate: the right child y of x takes x's place below x's parent P (or as the
     * root), x becomes y's left child and y's former left subtree b becomes x's right
     * subtree.  I records the fields every node held before; nothing else changes.
     */
    method LeftRotate(x: Node, ghost I: map<Node, Link>)
      requires Agrees(I, Repr)
      requires x in Repr && x.right != null && x.right in Repr && x.right != x
      requires x.right.left != null ==> x.right.left in Repr && x.right.left != x && x.right.left != x.right
      requires x.parent != null ==> x.parent in Repr && x.parent != x && x.parent != x.right && x.parent != x.right.left
      modifies this`root, Repr
      ensures var y := I[x].right; var b := I[y].left; var P := I[x].parent;
        && LinkOf(x) == SetChildLink(I[x], R, b).(parent := y)
        && LinkOf(y) == SetChildLink(I[y], L, x).(parent := P)
        && (b != null ==> LinkOf(b) == I[b].(parent := x))
        && (P != null ==> LinkOf(P) == SetChildLink(I[P], if I[P].left == x then L else R, y))
        && (forall m | m in Repr && m != x && m != y && m != b && m != P :: LinkOf(m) == I[m])
        && root == if P == null then y else old(root)
    {
      var y := x.right;
      x.right := y.left;
      if y.left != null {
        y.left.parent := x;
      }
      y.parent := x.parent;
      if x.parent == null {
        root := y;
      } else if x == x.parent.left {
        x.parent.left := y;
      } else {
        x.parent.right := y;
      }
      y.left := x;
      x.parent := y;
    }

    /** rightRotate: the mirror image of leftRotate. */
    method RightRotate(x: Node, ghost I: map<Node, Link>)
      requires Agrees(I, Repr)
      requires x in Repr && x.left != null && x.left in Repr && x.left != x
      requires x.left.right != null ==> x.left.right in Repr && x.left.right != x && x.left.right != x.left
      requires x.parent != null ==> x.parent in Repr && x.parent != x && x.parent != x.left && x.parent != x.left.right
      modifies this`root, Repr
      ensures var y := I[x].left; var b := I[y].right; var P := I[x].parent;
        && LinkOf(x) == SetChildLink(I[x], L, b).(parent := y)
        && LinkOf(y) == SetChildLink(I[y], R, x).(parent := P)
        && (b != null ==> LinkOf(b) == I[b].(parent := x))
        && (P != null ==> LinkOf(P) == SetChildLink(I[P], if I[P].left == x then L else R, y))
        && (forall m | m in Repr && m != x && m != y && m != b && m != P :: LinkOf(m) == I[m])
        && root == if P == null then y else old(root)
    {
      var y := x.left;
      x.left := y.right;
      if y.right != null {
        y.right.parent := x;
      }
      y.parent := x.parent;
      if x.parent == null {
        root := y;
      } else if x == x.parent.left {
        x.parent.left := y;
      } else {
        x.parent.right := y;
      }
      y.right := x;
      x.parent := y;
    }

    /** leftRotate at position p of the tree: the tree value is rotated there and keeps its keys in order. */
    method LeftRotateAt(x: Node, ghost p: Path)
      requires Valid() && CanPromote(T, p, R) && x == Subtree(T, p).id
      modifies this`root, this`T, Repr
      ensures Valid() && T == PromoteAt(old(T), p, R) && Repr == old(Repr)
      ensures Inorder(T) == Inorder(old(T))
    {
      ghost var T0 := T;
      ghost var I0 := Info(T0, null);
      assert x in Repr && x.right != null && x.right in Repr && x.right != x &&
        (x.right.left != null ==> x.right.left in Repr && x.right.left != x && x.right.left != x.right) &&
        (x.parent != null ==> x.parent in Repr && x.parent != x && x.parent != x.right && x.parent != x.right.left) &&
        (x.parent == null <==> p == []) by {
        PromoteLinks(T0, p, R);
        InfoKeys(T0, null);
        AgreesAt(I0, Repr, x);
        AgreesAt(I0, Repr, x.right);
      }
      ghost var y := x.right;
      ghost var b := x.right.left;
      ghost var P := x.parent;
      LeftRotate(x, I0);
      T := PromoteAt(T0, p, R);
      PromoteAgrees(T0, p, R, Repr, x, y, b, P);
      PromoteAtKeeps(T0, p, R);
      if p == [] {
        PromoteRoot(T0, R);
      } else {
        assert T.id == T0.id;
      }
    }

    /** rightRotate at position p of the tree: the tree value is rotated there and keeps its keys in order. */
    method RightRotateAt(x: Node, ghost p: Path)
      requires Valid() && CanPromote(T, p, L) && x == Subtree(T, p).id
      modifies this`root, this`T, Repr
      ensures Valid() && T == PromoteAt(old(T), p, L) && Repr == old(Repr)
      ensures Inorder(T) == Inorder(old(T))
    {
      ghost var T0 := T;
      ghost var I0 := Info(T0, null);
      assert x in Repr && x.left != null && x.left in Repr && x.left != x &&
        (x.left.right != null ==> x.left.right in Repr && x.left.right != x && x.left.right != x.left) &&
        (x.parent != null ==> x.parent in Repr && x.parent != x && x.parent != x.left && x.parent != x.left.right) &&
        (x.parent == null <==> p == []) by {
        PromoteLinks(T0, p, L);
        InfoKeys(T0, null);
        AgreesAt(I0, Repr, x);
        AgreesAt(I0, Repr, x.left);
      }
      ghost var y := x.left;
      ghost var b := x.left.right;
      ghost var P := x.parent;
      RightRotate(x, I0);
      T := PromoteAt(T0, p, L);
      PromoteAgrees(T0, p, L, Repr, x, y, b, P);
      PromoteAtKeeps(T0, p, L);
      if p == [] {
        PromoteRoot(T0, L);
      } else {
        assert T.id == T0.id;
      }
    }

    /**
     * insertFixup: walks up from the new red node z, recolouring or rotating until no red
     * node has a red parent, then blackens the root.  The result satisfies the red-black
     * rules and holds the same keys in the same order.
     */
    method InsertFixup(z0: Node, ghost zp0: Path)
      requires Valid() && InsertFixing(T, zp0) && z0 == Subtree(T, zp0).id
      modifies this`root, this`T, Repr
      ensures Valid() && Repr == old(Repr) && Inorder(T) == Inorder(old(T))
      ensures IsRedBlack(T)
      ensures zp0 == [] ==> T == PaintAt(old(T), [], Black)
    {
      var z := z0;
      ghost var zp := zp0;
      while z.parent != null && z.parent.color == Red
        invariant Valid() && Repr == old(Repr) && Inorder(T) == Inorder(old(T))
        invariant InsertFixing(T, zp) && z == Subtree(T, zp).id
        invariant zp0 == [] ==> zp == [] && T == old(T)
        decreases |zp|
      {
        FamilyFields(T, Repr, zp, z);
        ghost var gp := zp[..|zp| - 2];
        ghost var d := zp[|zp| - 2];
        ghost var e := zp[|zp| - 1];
        if z.parent == z.parent.parent.left {
          var uncle := z.parent.parent.right;
          if uncle != null && uncle.color == Red {
            z := RecolorFamily(z, uncle, gp, d, e);
            zp := gp;
          } else {
            z := LeftBlackUncle(z, gp, e);
            zp := gp + [L];
          }
        } else {
          var uncle := z.parent.parent.left;
          if uncle != null && uncle.color == Red {
            z := RecolorFamily(z, uncle, gp, d, e);
            zp := gp;
          } else {
            z := RightBlackUncle(z, gp, e);
            zp := gp + [R];
          }
        }
      }
      ParentFields(T, Repr, zp, z);
      InsertFixed(T, zp);
      Paint(root, Black, []);
    }

    /**
     * The descent of insert: from the root, left when v is smaller than the node's key
     * and right otherwise, until the child pointer is null.  The node it stops at is the
     * parent of the empty position on v's insertion path (null when the tree is empty),
     * and that position is the parent's left child exactly when v is smaller than its key.
     */
    method FindParent(v: int) returns (parent: Node?, ghost cp: Path)
      requires Valid()
      ensures Reaches(T, cp) && Subtree(T, cp).Nil? && cp == InsertPath(T, v)
      ensures parent == ParentAt(T, cp, null)
      ensures cp == [] <==> parent == null
      ensures cp != [] ==> parent in Repr && Last(cp) == (if v < parent.data then L else R)
    {
      parent := null;
      var current := root;
      cp := [];
      while current != null
        invariant Reaches(T, cp) && current == Ptr(Subtree(T, cp))
        invariant cp + InsertPath(Subtree(T, cp), v) == InsertPath(T, v)
        invariant parent == ParentAt(T, cp, null)
        invariant cp == [] <==> parent == null
        invariant cp != [] ==> parent in Repr && Last(cp) == (if v < parent.data then L else R)
        decreases |InsertPath(T, v)| - |cp|
      {
        DescendFields(T, Repr, cp, v);
        parent := current;
        if v < current.data {
          current := current.left;
          cp := cp + [L];
        } else {
          current := current.right;
          cp := cp + [R];
        }
      }
    }

    /**
     * The linking step of insert: the new node n records parent as its parent and
     * becomes the root (no parent) or the parent's left or right child, by comparing
     * keys.  With parent the node above the empty position cp, the tree gains n as a
     * leaf at cp and nothing else changes.
     */
    method Attach(n: Node, parent: Node?, ghost cp: Path)
      requires Valid() && Reaches(T, cp) && Subtree(T, cp).Nil? && parent == ParentAt(T, cp, null)
      requires n !in Repr && n.parent == null && n.left == null && n.right == null && n.color == Red
      requires cp != [] ==> parent != null && Last(cp) == (if n.data < parent.data then L else R)
      modifies this`root, this`T, this`Repr, n, Repr
      ensures Valid() && Repr == old(Repr) + {n}
      ensures T == ReplaceAt(old(T), cp, Node(Nil, n, n.data, Red, Nil))
    {
      ghost var T0 := T;
      ghost var R0 := Repr;
      if cp != [] {
        ParentOutside(T0, cp, null);
        OutsideSplit(T0, cp);
        AgreesAt(Info(T0, null), Repr, parent);
      }
      n.parent := parent;
      if parent == null {
        root := n;
      } else if n.data < parent.data {
        parent.left := n;
      } else {
        parent.right := n;
      }
      T := ReplaceAt(T0, cp, Node(Nil, n, n.data, Red, Nil));
      Repr := Repr + {n};
      LeafAgrees(T0, cp, R0, n, n.data);
      if cp != [] {
        ReplaceReaches(T0, cp, Node(Nil, n, n.data, Red, Nil), []);
      }
    }

    /**
     * insert up to insertFixup: a new red node holding v is hung at the empty position
     * cp where the descent ends.  The tree gains exactly that node, its keys gain exactly
     * v, and insertFixup's loop state holds at cp.
     */
    method PlaceLeaf(v: int) returns (n: Node, ghost cp: Path)
      requires Valid() && IsRedBlack(T)
      modifies this`root, this`T, this`Repr, Repr
      ensures Valid() && Repr == old(Repr) + {n} && n !in old(Repr) && fresh(n)
      ensures InsertFixing(T, cp) && n == Subtree(T, cp).id
      ensures multiset(Inorder(T)) == multiset(Inorder(old(T))) + multiset{v}
      ensures Sorted(Inorder(old(T))) ==> Inorder(T) == InsertSorted(Inorder(old(T)), v)
      ensures old(T).Nil? ==> cp == [] && T == Node(Nil, n, v, Red, Nil)
      ensures n.data == v && LeafPlaced(old(T), T, cp, n, v)
    {
      n := new Node(v);
      var parent;
      parent, cp := FindParent(n.data);
      InsertPlaced(T, v, Node(Nil, n, v, Red, Nil));
      Attach(n, parent, cp);
    }

    /**
     * insert: descends from the root to the empty position where v belongs (keys equal
     * to v are passed on the right), hangs a new red node holding v there and runs
     * insertFixup.  The keys gain exactly v, at its sorted place when they were sorted,
     * the red-black rules hold again, and in an empty tree the new node becomes the
     * black root with no children.
     */
    method Insert(v: int)
      requires Valid() && IsRedBlack(T)
      modifies this`root, this`T, this`Repr, Repr
      ensures Valid() && IsRedBlack(T)
      ensures old(Repr) <= Repr && |Repr - old(Repr)| == 1 && fresh(Repr - old(Repr))
      ensures multiset(Inorder(T)) == multiset(Inorder(old(T))) + multiset{v}
      ensures Sorted(Inorder(old(T))) ==> Inorder(T) == InsertSorted(Inorder(old(T)), v)
      ensures old(T).Nil? ==> T.Node? && T.key == v && T.color == Black && T.left.Nil? && T.right.Nil?
      ensures forall n | n in Repr - old(Repr) :: n.data == v
    {
      var newNode, cp := PlaceLeaf(v);
      ghost var added := Repr - old(Repr);
      assert added == {newNode} && newNode.data == v;
      ghost var T1 := T;
      ghost var keys := Inorder(T1);
      InsertFixup(newNode, cp);
      assert Inorder(T) == keys && Repr - old(Repr) == added;
      if cp == [] {
        PaintRoot(T1, Black);
      }
    }

    /**
     * The red-uncle branch of insertFixup: the parent and the uncle turn black, the
     * grandparent red, and the grandparent becomes the node being fixed.
     */
    method RecolorFamily(z: Node, uncle: Node, ghost gp: Path, ghost d: Dir, ghost e: Dir) returns (g: Node)
      requires Valid() && IsNode(T, gp) && InsertFixing(T, gp + [d, e])
      requires Child(Subtree(T, gp), d).Node? && Child(Subtree(T, gp), d).color == Red
      requires Child(Child(Subtree(T, gp), d), e).Node? && z == Child(Child(Subtree(T, gp), d), e).id
      requires Child(Subtree(T, gp), Opposite(d)).Node? && Child(Subtree(T, gp), Opposite(d)).color == Red
      requires uncle == Child(Subtree(T, gp), Opposite(d)).id
      modifies this`T, Repr
      ensures Valid() && Repr == old(Repr) && Inorder(T) == Inorder(old(T))
      ensures T == ReplaceAt(old(T), gp, RecolorUp(old(Subtree(T, gp)), d))
      ensures InsertFixing(T, gp) && g == Subtree(T, gp).id
    {
      ghost var T0 := T;
      LinkFields(T0, Repr, gp, d);
      LinkFields(T0, Repr, gp + [d], e);
      LinkFields(T0, Repr, gp, Opposite(d));
      RecolorUpAt(T0, gp, d);
      var p := z.parent;
      g := p.parent;
      Paint(p, Black, gp + [d]);
      Paint(uncle, Black, gp + [Opposite(d)]);
      Paint(g, Red, gp);
      RecolorFixes(T0, gp, d, e);
    }

    /**
     * The black-uncle branch of insertFixup when the parent is a left child: an inner
     * child is first rotated above its parent; then the parent turns black, the
     * grandparent red, and the grandparent is rotated right.
     */
    method LeftBlackUncle(z0: Node, ghost gp: Path, ghost e: Dir) returns (z: Node)
      requires Valid() && IsNode(T, gp) && InsertFixing(T, gp + [L, e])
      requires Child(Subtree(T, gp), L).Node? && Child(Subtree(T, gp), L).color == Red
      requires Child(Child(Subtree(T, gp), L), e).Node? && z0 == Child(Child(Subtree(T, gp), L), e).id
      requires RootColor(Child(Subtree(T, gp), R)) == Black
      modifies this`root, this`T, Repr
      ensures Valid() && Repr == old(Repr) && Inorder(T) == Inorder(old(T))
      ensures var g := old(Subtree(T, gp));
        T == ReplaceAt(old(T), gp, if e == L then RotateUp(g, L) else ZigZag(g, L))
      ensures InsertFixing(T, gp + [L]) && z == Subtree(T, gp + [L]).id
      ensures RedRedFree(T) && IsNode(T, gp) && Subtree(T, gp).color == Black
    {
      z := z0;
      ghost var T0 := T;
      LinkFields(T0, Repr, gp, L);
      LinkFields(T0, Repr, gp + [L], e);
      if z == z.parent.right {
        z := z.parent;
        ZigZagAt(T0, gp, L);
        LeftRotateAt(z, gp + [L]);
      }
      ghost var T1 := T;
      RotateUpAt(T1, gp, L);
      LinkFields(T1, Repr, gp, L);
      LinkFields(T1, Repr, gp + [L], L);
      var p := z.parent;
      var g := p.parent;
      Paint(p, Black, gp + [L]);
      Paint(g, Red, gp);
      RightRotateAt(g, gp);
      RotateFixes(T0, gp, L, e);
    }

    /** The black-uncle branch of insertFixup when the parent is a right child: the mirror image. */
    method RightBlackUncle(z0: Node, ghost gp: Path, ghost e: Dir) returns (z: Node)
      requires Valid() && IsNode(T, gp) && InsertFixing(T, gp + [R, e])
      requires Child(Subtree(T, gp), R).Node? && Child(Subtree(T, gp), R).color == Red
      requires Child(Child(Subtree(T, gp), R), e).Node? && z0 == Child(Child(Subtree(T, gp), R), e).id
      requires RootColor(Child(Subtree(T, gp), L)) == Black
      modifies this`root, this`T, Repr
      ensures Valid() && Repr == old(Repr) && Inorder(T) == Inorder(old(T))
      ensures var g := old(Subtree(T, gp));
        T == ReplaceAt(old(T), gp, if e == R then RotateUp(g, R) else ZigZag(g, R))
      ensures InsertFixing(T, gp + [R]) && z == Subtree(T, gp + [R]).id
      ensures RedRedFree(T) && IsNode(T, gp) && Subtree(T, gp).color == Black
    {
      z := z0;
      ghost var T0 := T;
      LinkFields(T0, Repr, gp, R);
      LinkFields(T0, Repr, gp + [R], e);
      if z == z.parent.left {
        z := z.parent;
        ZigZagAt(T0, gp, R);
        RightRotateAt(z, gp + [R]);
      }
      ghost var T1 := T;
      RotateUpAt(T1, gp, R);
      LinkFields(T1, Repr, gp, R);
      LinkFields(T1, Repr, gp + [R], R);
      var p := z.parent;
      var g := p.parent;
      Paint(p, Black, gp + [R]);
      Paint(g, Red, gp);
      LeftRotateAt(g, gp);
      RotateFixes(T0, gp, R, e);
    }

    /**
     * deleteFixup: while the node being fixed is not the root and is black (or null), it
     * carries an extra black; each round either moves it up one level by painting its
     * sibling red, or ends at the root after one or two rotations.  A red sibling is first
     * rotated above the parent.  There is no final blackening of the node.  The keys and
     * their order are kept, and no sibling or nephew that is dereferenced is null.
     */
    method DeleteFixup(x0: Node?, ghost xp0: Path, ghost T0: Tree<Node>)
      requires Valid() && DeleteFixing(T0, T, xp0) && x0 == Ptr(Subtree(T, xp0))
      modifies this`root, this`T, Repr
      ensures Valid() && Repr == old(Repr) && Inorder(T) == Inorder(old(T))
      ensures RootColor(old(Subtree(T, xp0))) == Red ==> T == old(T)
    {
      var x := x0;
      ghost var xp := xp0;
      while x != root && (x == null || x.color == Black)
        invariant Valid() && Repr == old(Repr) && Inorder(T) == Inorder(old(T))
        invariant DeleteFixing(T0, T, xp) && x == Ptr(Subtree(T, xp))
        invariant RootColor(Subtree(old(T), xp0)) == Red ==> T == old(T) && xp == xp0
        decreases |xp| + (if x != null && x.color == Red then 0 else 1)
      {
        FixupFields(T, Repr, T0, xp, x);
        ghost var pp := xp[..|xp| - 1];
        if x == x.parent.left {
          x, xp := DeleteFixLeft(x, pp, T0);
        } else {
          x, xp := DeleteFixRight(x, pp, T0);
        }
      }
    }

    /** One round of deleteFixup when the node x being fixed is a left child. */
    method DeleteFixLeft(x: Node, ghost pp: Path, ghost T0: Tree<Node>) returns (x': Node?, ghost xp': Path)
      requires Valid() && Balanced(T0) && DoubleBlackAt(T0, T, pp + [L])
      requires IsNode(T, pp + [L]) && x == Subtree(T, pp + [L]).id
      modifies this`root, this`T, Repr
      ensures Valid() && Repr == old(Repr) && Inorder(T) == Inorder(old(T))
      ensures DeleteFixing(T0, T, xp') && x' == Ptr(Subtree(T, xp'))
      ensures |xp'| + (if x' != null && x'.color == Red then 0 else 1) <= |pp| + 1
    {
      SiblingOfDoubleBlack(T0, T, pp, L);
      NephewFields(T, Repr, pp, L);
      ghost var q := pp;
      var w := x.parent.right;
      if w != null && w.color == Red {
        w := LeftRedSibling(x, w, pp, T0);
        q := pp + [L];
        assert q + [L] == pp + [L, L] && q + [R] == pp + [L, R];
      }
      ReachesStep(T, q, R);
      x', xp' := LeftBlackSibling(x, w, q, T0);
    }

    /**
     * The rest of a round of deleteFixup for a left child x once its sibling w is
     * black: w turns red and the parent becomes the node to fix when both nephews are
     * black, and otherwise the nephew cases end the loop at the root.
     */
    method LeftBlackSibling(x: Node, w: Node, ghost q: Path, ghost T0: Tree<Node>) returns (x': Node?, ghost xp': Path)
      requires Valid() && Balanced(T0) && IsNode(T, q) && IsNode(T, q + [L]) && x == Subtree(T, q + [L]).id
      requires Child(Subtree(T, q), R).Node? && w == Child(Subtree(T, q), R).id
      requires Subtree(T, q).color == Red || DoubleBlackAt(T0, T, q + [L])
      modifies this`root, this`T, Repr
      ensures Valid() && Repr == old(Repr) && Inorder(T) == Inorder(old(T))
      ensures DeleteFixing(T0, T, xp') && x' == Ptr(Subtree(T, xp'))
      ensures xp' == [] || (xp' == q && x' != null && x'.color == old(Subtree(T, q).color))
    {
      NephewFields(T, Repr, q, L);
      if (w.left == null || w.left.color == Black) && (w.right == null || w.right.color == Black) {
        x' := LeftBlackNephews(x, w, q, T0);
        xp' := q;
      } else {
        LeftRedNephew(x, w, q);
        x' := root;
        xp' := [];
      }
    }

    /**
     * The recolouring and rotation of deleteFixup's red-sibling case: the child c of g
     * on side d turns black, g turns red, and g is rotated away from d, so that c takes
     * g's place.
     */
    method RaiseChild(g: Node, c: Node, ghost gp: Path, d: Dir)
      requires Valid() && IsNode(T, gp) && g == Subtree(T, gp).id
      requires Child(Subtree(T, gp), d).Node? && c == Child(Subtree(T, gp), d).id
      modifies this`root, this`T, Repr
      ensures Valid() && Repr == old(Repr) && Inorder(T) == Inorder(old(T))
      ensures T == ReplaceAt(old(T), gp, RotateUp(old(Subtree(T, gp)), d))
    {
      ghost var T1 := T;
      RotateUpAt(T1, gp, d);
      LinkFields(T1, Repr, gp, d);
      Paint(c, Black, gp + [d]);
      Paint(g, Red, gp);
      if d == L {
        RightRotateAt(g, gp);
      } else {
        LeftRotateAt(g, gp);
      }
    }

    /**
     * The case of deleteFixup where both nephews of a left child x are black: the sibling
     * w turns red and x's parent becomes the node to fix.
     */
    method LeftBlackNephews(x: Node, w: Node, ghost q: Path, ghost T0: Tree<Node>) returns (x': Node)
      requires Valid() && Balanced(T0) && IsNode(T, q) && IsNode(T, q + [L]) && x == Subtree(T, q + [L]).id
      requires Child(Subtree(T, q), R).Node? && w == Child(Subtree(T, q), R).id
      requires Subtree(T, q).color == Red || DoubleBlackAt(T0, T, q + [L])
      modifies this`T, w`color
      ensures Valid() && Repr == old(Repr) && Inorder(T) == Inorder(old(T))
      ensures DeleteFixing(T0, T, q) && IsNode(T, q) && x' == Subtree(T, q).id
      ensures x'.color == old(Subtree(T, q).color)
      ensures IsNode(old(T), q + [R]) && T == PaintAt(old(T), q + [R], Red)
    {
      SiblingPaintedRed(T0, T, q, L);
      LinkFields(T, Repr, q, L);
      ReachesStep(T, q, R);
      var p := x.parent;
      Paint(w, Red, q + [R]);
      LinkFields(T, Repr, q, L);
      x' := p;
    }

    /**
     * The red-sibling case of deleteFixup for a left child x: the sibling w turns black,
     * the parent red, the parent is rotated left, and the new sibling is read again.
     */
    method LeftRedSibling(x: Node, w: Node, ghost pp: Path, ghost T0: Tree<Node>) returns (w': Node)
      requires Valid() && Balanced(T0) && DoubleBlackAt(T0, T, pp + [L])
      requires IsNode(T, pp) && IsNode(T, pp + [L]) && x == Subtree(T, pp + [L]).id
      requires Child(Subtree(T, pp), R).Node? && Child(Subtree(T, pp), R).color == Red
      requires w == Child(Subtree(T, pp), R).id
      modifies this`root, this`T, Repr
      ensures Valid() && Repr == old(Repr) && Inorder(T) == Inorder(old(T))
      ensures T == ReplaceAt(old(T), pp, RotateUp(old(Subtree(T, pp)), R))
      ensures IsNode(T, pp + [L]) && Subtree(T, pp + [L]).color == Red
      ensures IsNode(T, pp + [L, L]) && x == Subtree(T, pp + [L, L]).id
      ensures IsNode(T, pp + [L, R]) && w' == Subtree(T, pp + [L, R]).id
    {
      ghost var T1 := T;
      NephewFields(T1, Repr, pp, L);
      RedSiblingRotated(T0, T1, pp, L);
      var p := x.parent;
      RaiseChild(p, w, pp, R);
      assert pp + [L] + [L] == pp + [L, L] && pp + [L] + [R] == pp + [L, R];
      ReachesStep(T, pp + [L], R);
      NephewFields(T, Repr, pp + [L], L);
      w' := x.parent.right;
    }

    /**
     * The red-nephew cases of deleteFixup for a left child x below the parent at q: a
     * black far nephew is first handled by LeftNearNephew, then LeftFarNephew ends the loop.
     */
    method LeftRedNephew(x: Node, w0: Node, ghost q: Path)
      requires Valid() && IsNode(T, q) && IsNode(T, q + [L]) && x == Subtree(T, q + [L]).id
      requires Child(Subtree(T, q), R).Node? && w0 == Child(Subtree(T, q), R).id
      requires RootColor(Child(Child(Subtree(T, q), R), L)) == Red || RootColor(Child(Child(Subtree(T, q), R), R)) == Red
      modifies this`root, this`T, Repr
      ensures Valid() && Repr == old(Repr) && Inorder(T) == Inorder(old(T))
      ensures T == ReplaceAt(old(T), q, RedNephewFix(old(Subtree(T, q)), R))
    {
      var w := w0;
      ghost var T0 := T;
      ghost var g := Subtree(T, q);
      ReachesStep(T, q, R);
      NephewFields(T, Repr, q, L);
      if w.right == null || w.right.color == Black {
        NearNephewAt(T0, q, R);
        w := LeftNearNephew(x, w, q);
        SubtreeOfReplace(T0, q, g.(right := RotateUp(Child(g, R), L)));
      }
      ReachesStep(T, q, R);
      ghost var T1 := T;
      LeftFarNephew(x, w, q);
      ReplaceTwice(T0, q, Subtree(T1, q), FarNephewFix(Subtree(T1, q), R));
    }

    /**
     * The near-nephew case of deleteFixup for a left child x: the near nephew turns
     * black, the sibling red, and the sibling is rotated right; the new sibling is read again.
     */
    method LeftNearNephew(x: Node, w: Node, ghost q: Path) returns (w': Node)
      requires Valid() && IsNode(T, q) && IsNode(T, q + [L]) && x == Subtree(T, q + [L]).id
      requires IsNode(T, q + [R]) && w == Subtree(T, q + [R]).id
      requires RootColor(Subtree(T, q + [R]).left) == Red
      modifies this`root, this`T, Repr
      ensures Valid() && Repr == old(Repr) && Inorder(T) == Inorder(old(T))
      ensures T == ReplaceAt(old(T), q + [R], RotateUp(old(Subtree(T, q + [R])), L))
      ensures IsNode(T, q) && IsNode(T, q + [L]) && x == Subtree(T, q + [L]).id
      ensures IsNode(T, q + [R]) && w' == Subtree(T, q + [R]).id
    {
      ghost var T1 := T;
      ghost var sp := q + [R];
      LinkFields(T1, Repr, sp, L);
      RotateUpAt(T1, sp, L);
      if w.left != null {
        Paint(w.left, Black, sp + [L]);
      }
      Paint(w, Red, sp);
      RightRotateAt(w, sp);
      SubtreeOfReplace(T1, sp, RotateUp(Subtree(T1, sp), L));
      AgreeAbove(T1, T, q, R);
      ReachesStep(T1, q, L);
      ReachesStep(T, q, L);
      ReachesStep(T, q, R);
      NephewFields(T, Repr, q, L);
      w' := x.parent.right;
    }

    /**
     * The far-nephew case of deleteFixup for a left child x: the sibling takes the
     * parent's colour, the parent and the far nephew turn black, and the parent is
     * rotated left.
     */
    method LeftFarNephew(x: Node, w: Node, ghost q: Path)
      requires Valid() && IsNode(T, q) && IsNode(T, q + [L]) && x == Subtree(T, q + [L]).id
      requires Child(Subtree(T, q), R).Node? && w == Child(Subtree(T, q), R).id
      modifies this`root, this`T, Repr
      ensures Valid() && Repr == old(Repr) && Inorder(T) == Inorder(old(T))
      ensures T == ReplaceAt(old(T), q, FarNephewFix(old(Subtree(T, q)), R))
    {
      ReachesStep(T, q, R);
      LinkFields(T, Repr, q, L);
      LinkFields(T, Repr, q + [R], R);
      ghost var T2 := T;
      var p := x.parent;
      FarNephewFixAt(T2, q, R);
      Paint(w, p.color, q + [R]);
      Paint(p, Black, q);
      if w.right != null {
        Paint(w.right, Black, q + [R, R]);
      }
      LeftRotateAt(p, q);
    }

    /** One round of deleteFixup when the node x being fixed is a right child. */
    method DeleteFixRight(x: Node, ghost pp: Path, ghost T0: Tree<Node>) returns (x': Node?, ghost xp': Path)
      requires Valid() && Balanced(T0) && DoubleBlackAt(T0, T, pp + [R])
      requires IsNode(T, pp + [R]) && x == Subtree(T, pp + [R]).id
      modifies this`root, this`T, Repr
      ensures Valid() && Repr == old(Repr) && Inorder(T) == Inorder(old(T))
      ensures DeleteFixing(T0, T, xp') && x' == Ptr(Subtree(T, xp'))
      ensures |xp'| + (if x' != null && x'.color == Red then 0 else 1) <= |pp| + 1
    {
      SiblingOfDoubleBlack(T0, T, pp, R);
      NephewFields(T, Repr, pp, R);
      ghost var q := pp;
      var w := x.parent.left;
      if w != null && w.color == Red {
        w := RightRedSibling(x, w, pp, T0);
        q := pp + [R];
        assert q + [R] == pp + [R, R] && q + [L] == pp + [R, L];
      }
      ReachesStep(T, q, L);
      x', xp' := RightBlackSibling(x, w, q, T0);
    }

    /**
     * The rest of a round of deleteFixup for a right child x once its sibling w is
     * black: w turns red and the parent becomes the node to fix when both nephews are
     * black, and otherwise the nephew cases end the loop at the root.
     */
    method RightBlackSibling(x: Node, w: Node, ghost q: Path, ghost T0: Tree<Node>) returns (x': Node?, ghost xp': Path)
      requires Valid() && Balanced(T0) && IsNode(T, q) && IsNode(T, q + [R]) && x == Subtree(T, q + [R]).id
      requires Child(Subtree(T, q), L).Node? && w == Child(Subtree(T, q), L).id
      requires Subtree(T, q).color == Red || DoubleBlackAt(T0, T, q + [R])
      modifies this`root, this`T, Repr
      ensures Valid() && Repr == old(Repr) && Inorder(T) == Inorder(old(T))
      ensures DeleteFixing(T0, T, xp') && x' == Ptr(Subtree(T, xp'))
      ensures xp' == [] || (xp' == q && x' != null && x'.color == old(Subtree(T, q).color))
    {
      NephewFields(T, Repr, q, R);
      if (w.right == null || w.right.color == Black) && (w.left == null || w.left.color == Black) {
        x' := RightBlackNephews(x, w, q, T0);
        xp' := q;
      } else {
        RightRedNephew(x, w, q);
        x' := root;
        xp' := [];
      }
    }

    /**
     * The case of deleteFixup where both nephews of a right child x are black: the sibling
     * w turns red and x's parent becomes the node to fix.
     */
    method RightBlackNephews(x: Node, w: Node, ghost q: Path, ghost T0: Tree<Node>) returns (x': Node)
      requires Valid() && Balanced(T0) && IsNode(T, q) && IsNode(T, q + [R]) && x == Subtree(T, q + [R]).id
      requires Child(Subtree(T, q), L).Node? && w == Child(Subtree(T, q), L).id
      requires Subtree(T, q).color == Red || DoubleBlackAt(T0, T, q + [R])
      modifies this`T, w`color
      ensures Valid() && Repr == old(Repr) && Inorder(T) == Inorder(old(T))
      ensures DeleteFixing(T0, T, q) && IsNode(T, q) && x' == Subtree(T, q).id
      ensures x'.color == old(Subtree(T, q).color)
      ensures IsNode(old(T), q + [L]) && T == PaintAt(old(T), q + [L], Red)
    {
      SiblingPaintedRed(T0, T, q, R);
      LinkFields(T, Repr, q, R);
      ReachesStep(T, q, L);
      var p := x.parent;
      Paint(w, Red, q + [L]);
      LinkFields(T, Repr, q, R);
      x' := p;
    }

    /**
     * The red-sibling case of deleteFixup for a right child x: the sibling w turns black,
     * the parent red, the parent is rotated right, and the new sibling is read again.
     */
    method RightRedSibling(x: Node, w: Node, ghost pp: Path, ghost T0: Tree<Node>) returns (w': Node)
      requires Valid() && Balanced(T0) && DoubleBlackAt(T0, T, pp + [R])
      requires IsNode(T, pp) && IsNode(T, pp + [R]) && x == Subtree(T, pp + [R]).id
      requires Child(Subtree(T, pp), L).Node? && Child(Subtree(T, pp), L).color == Red
      requires w == Child(Subtree(T, pp), L).id
      modifies this`root, this`T, Repr
      ensures Valid() && Repr == old(Repr) && Inorder(T) == Inorder(old(T))
      ensures T == ReplaceAt(old(T), pp, RotateUp(old(Subtree(T, pp)), L))
      ensures IsNode(T, pp + [R]) && Subtree(T, pp + [R]).color == Red
      ensures IsNode(T, pp + [R, R]) && x == Subtree(T, pp + [R, R]).id
      ensures IsNode(T, pp + [R, L]) && w' == Subtree(T, pp + [R, L]).id
    {
      ghost var T1 := T;
      NephewFields(T1, Repr, pp, R);
      RedSiblingRotated(T0, T1, pp, R);
      var p := x.parent;
      RaiseChild(p, w, pp, L);
      assert pp + [R] + [R] == pp + [R, R] && pp + [R] + [L] == pp + [R, L];
      ReachesStep(T, pp + [R], L);
      NephewFields(T, Repr, pp + [R], R);
      w' := x.parent.left;
    }

    /**
     * The red-nephew cases of deleteFixup for a right child x below the parent at q: a
     * black far nephew is first handled by RightNearNephew, then RightFarNephew ends the loop.
     */
    method RightRedNephew(x: Node, w0: Node, ghost q: Path)
      requires Valid() && IsNode(T, q) && IsNode(T, q + [R]) && x == Subtree(T, q + [R]).id
      requires Child(Subtree(T, q), L).Node? && w0 == Child(Subtree(T, q), L).id
      requires RootColor(Child(Child(Subtree(T, q), L), R)) == Red || RootColor(Child(Child(Subtree(T, q), L), L)) == Red
      modifies this`root, this`T, Repr
      ensures Valid() && Repr == old(Repr) && Inorder(T) == Inorder(old(T))
      ensures T == ReplaceAt(old(T), q, RedNephewFix(old(Subtree(T, q)), L))
    {
      var w := w0;
      ghost var T0 := T;
      ghost var g := Subtree(T, q);
      ReachesStep(T, q, L);
      NephewFields(T, Repr, q, R);
      if w.left == null || w.left.color == Black {
        NearNephewAt(T0, q, L);
        w := RightNearNephew(x, w, q);
        SubtreeOfReplace(T0, q, g.(left := RotateUp(Child(g, L), R)));
      }
      ReachesStep(T, q, L);
      ghost var T1 := T;
      RightFarNephew(x, w, q);
      ReplaceTwice(T0, q, Subtree(T1, q), FarNephewFix(Subtree(T1, q), L));
    }

    /**
     * The near-nephew case of deleteFixup for a right child x: the near nephew turns
     * black, the sibling red, and the sibling is rotated left; the new sibling is read again.
     */
    method RightNearNephew(x: Node, w: Node, ghost q: Path) returns (w': Node)
      requires Valid() && IsNode(T, q) && IsNode(T, q + [R]) && x == Subtree(T, q + [R]).id
      requires IsNode(T, q + [L]) && w == Subtree(T, q + [L]).id
      requires RootColor(Subtree(T, q + [L]).right) == Red
      modifies this`root, this`T, Repr
      ensures Valid() && Repr == old(Repr) && Inorder(T) == Inorder(old(T))
      ensures T == ReplaceAt(old(T), q + [L], RotateUp(old(Subtree(T, q + [L])), R))
      ensures IsNode(T, q) && IsNode(T, q + [R]) && x == Subtree(T, q + [R]).id
      ensures IsNode(T, q + [L]) && w' == Subtree(T, q + [L]).id
    {
      ghost var T1 := T;
      ghost var sp := q + [L];
      LinkFields(T1, Repr, sp, R);
      RotateUpAt(T1, sp, R);
      if w.right != null {
        Paint(w.right, Black, sp + [R]);
      }
      Paint(w, Red, sp);
      LeftRotateAt(w, sp);
      SubtreeOfReplace(T1, sp, RotateUp(Subtree(T1, sp), R));
      AgreeAbove(T1, T, q, L);
      ReachesStep(T1, q, R);
      ReachesStep(T, q, R);
      ReachesStep(T, q, L);
      NephewFields(T, Repr, q, R);
      w' := x.parent.left;
    }

    /**
     * The far-nephew case of deleteFixup for a right child x: the sibling takes the
     * parent's colour, the parent and the far nephew turn black, and the parent is
     * rotated right.
     */
    method RightFarNephew(x: Node, w: Node, ghost q: Path)
      requires Valid() && IsNode(T, q) && IsNode(T, q + [R]) && x == Subtree(T, q + [R]).id
      requires Child(Subtree(T, q), L).Node? && w == Child(Subtree(T, q), L).id
      modifies this`root, this`T, Repr
      ensures Valid() && Repr == old(Repr) && Inorder(T) == Inorder(old(T))
      ensures T == ReplaceAt(old(T), q, FarNephewFix(old(Subtree(T, q)), L))
    {
      ReachesStep(T, q, L);
      LinkFields(T, Repr, q, R);
      LinkFields(T, Repr, q + [L], L);
      ghost var T2 := T;
      var p := x.parent;
      FarNephewFixAt(T2, q, L);
      Paint(w, p.color, q + [L]);
      Paint(p, Black, q);
      if w.left != null {
        Paint(w.left, Black, q + [L, L]);
      }
      RightRotateAt(p, q);
    }

    // ----- remove -----

    /**
     * transplant: v takes u's place below u's parent P (or as the root) and records P as
     * its parent.  u keeps its own fields; I records the fields every node of S held
     * before, and nothing else changes.
     */
    method Transplant(u: Node, v: Node?, ghost I: map<Node, Link>, ghost S: set<Node>)
      requires Agrees(I, S) && u in S && (v != null ==> v in S && v != u)
      requires u.parent != null ==> u.parent in S && u.parent != u && u.parent != v
      modifies this`root, S
      ensures Transplanted(u, v, I, S)
      ensures root == if I[u].parent == null then v else old(root)
    {
      if u.parent == null {
        root := v;
      } else if u == u.parent.left {
        u.parent.left := v;
      } else {
        u.parent.right := v;
      }
      if v != null {
        v.parent := u.parent;
      }
    }

    /**
     * minimum: follows left children from x down to the node without one, which is the
     * leftmost node of x's subtree and holds its first key, the smallest when the keys
     * are sorted.
     */
    method Minimum(x: Node, ghost p: Path) returns (m: Node)
      requires Valid() && IsNode(T, p) && x == Subtree(T, p).id
      ensures IsNode(T, p + MinPath(Subtree(T, p))) && m == Subtree(T, p + MinPath(Subtree(T, p))).id
      ensures m == Leftmost(Subtree(T, p)).id && m.left == null
      ensures m.data == Inorder(Subtree(T, p))[0]
      ensures Sorted(Inorder(Subtree(T, p))) ==> forall k | k in Inorder(Subtree(T, p)) :: m.data <= k
    {
      m := x;
      ghost var q: Path := [];
      assert p + q == p;
      while m.left != null
        invariant IsNode(T, p + q) && m == Subtree(T, p + q).id
        invariant q + MinPath(Subtree(T, p + q)) == MinPath(Subtree(T, p))
        invariant Leftmost(Subtree(T, p + q)) == Leftmost(Subtree(T, p))
        decreases |MinPath(Subtree(T, p + q))|
      {
        LinkFields(T, Repr, p + q, L);
        MinPathStep(T, p, q);
        m := m.left;
        q := q + [L];
      }
      LinkFields(T, Repr, p + q, L);
      MinPathStep(T, p, q);
      LeftmostFirst(Subtree(T, p));
    }

    /**
     * The transplant of remove's first two cases, and of the successor in the third: the
     * node u at p is replaced by its child on side d, which drops u and its other subtree
     * from the tree.  u keeps its fields.
     */
    method SpliceOut(u: Node, ghost p: Path, d: Dir)
      requires Valid() && IsNode(T, p) && u == Subtree(T, p).id
      modifies this`root, this`T, this`Repr, Repr
      ensures Valid() && T == ReplaceAt(old(T), p, Child(old(Subtree(T, p)), d))
      ensures Repr == old(Repr) - {u} - Nodes(Child(old(Subtree(T, p)), Opposite(d)))
      ensures LinkOf(u) == old(LinkOf(u))
    {
      ghost var T0 := T;
      ghost var R0 := Repr;
      ghost var s := Subtree(T0, p);
      SpliceFields(T0, R0, p, d);
      ghost var T1 := ReplaceAt(T0, p, Child(s, d));
      assert Ptr(T1) == if p == [] then Ptr(Child(s, d)) else Ptr(T0);
      var c := if d == L then u.left else u.right;
      Transplant(u, c, Info(T0, null), R0);
      T := T1;
      Repr := R0 - {u} - Nodes(Child(s, Opposite(d)));
      assert root == Ptr(T);
      TransplantAgrees(T0, p, d, R0);
    }

    /**
     * The body of remove once the node z holding the value is found at pz: z is unlinked
     * (replaced by its only child, or by its successor when it has two children) and,
     * when the colour that left its place was black, deleteFixup runs from the node now
     * at pz.  The tree loses exactly z; the keys are those of the unlinked tree, in the
     * same order.
     */
    method RemoveAt(z: Node, ghost pz: Path)
      requires Valid() && Balanced(T) && IsNode(T, pz) && z == Subtree(T, pz).id
      requires !SuccessorCrashes(Subtree(T, pz)) && !FixupCrashes(Subtree(T, pz), pz)
      modifies this`root, this`T, this`Repr, Repr
      ensures Valid() && Repr == old(Repr) - {z}
      ensures Inorder(T) == Inorder(ReplaceAt(old(T), pz, Unlink(old(Subtree(T, pz)))))
      ensures var s := old(Subtree(T, pz));
        (s.left.Nil? || s.right.Nil?) && (s.color == Red || RootColor(Unlink(s)) == Red) ==>
        T == ReplaceAt(old(T), pz, Unlink(s))
    {
      ghost var T0 := T;
      ghost var s := Subtree(T0, pz);
      LinkFields(T0, Repr, pz, L);
      LinkFields(T0, Repr, pz, R);
      var originalColor := z.color;
      var successor: Node?;
      if z.left == null {
        successor := z.right;
        SpliceOut(z, pz, R);
      } else if z.right == null {
        successor := z.left;
        SpliceOut(z, pz, L);
      } else {
        successor, originalColor := ReplaceBySuccessor(z, pz);
      }
      SubtreeOfReplace(T0, pz, Unlink(s));
      if originalColor == Black {
        RemoveFixing(T0, pz);
        DeleteFixup(successor, pz, T0);
      }
    }

    /**
     * remove: searches from the root, left when v is smaller than the node's key and
     * right when it is larger, and removes the first node holding v that it meets.
     * Without such a node nothing changes.  Otherwise exactly that node leaves the tree
     * and the keys lose exactly one v; a sorted key sequence becomes that sequence with
     * one v removed.  When the removed node has at most one child and the node taking
     * its place is red, or the removed node was red, the tree is the old one with that
     * node unlinked: deleteFixup does not blacken a red node it starts on.
     */
    method Remove(v: int)
      requires Valid() && Balanced(T) && !RemoveCrashes(T, v)
      modifies this`root, this`T, this`Repr, Repr
      ensures Valid()
      ensures SearchPath(old(T), v).None? ==> T == old(T) && Repr == old(Repr)
      ensures v !in Inorder(old(T)) ==> T == old(T) && Repr == old(Repr)
      ensures SearchPath(old(T), v).Some? ==>
        IsNode(old(T), SearchPath(old(T), v).value) && Subtree(old(T), SearchPath(old(T), v).value).key == v &&
        Repr == old(Repr) - {Subtree(old(T), SearchPath(old(T), v).value).id} &&
        multiset(Inorder(T)) == multiset(Inorder(old(T))) - multiset{v}
      ensures Sorted(Inorder(old(T))) ==> Inorder(T) == RemoveFirst(Inorder(old(T)), v) && Sorted(Inorder(T))
      ensures SearchPath(old(T), v).Some? ==>
        var p := SearchPath(old(T), v).value; var s := Subtree(old(T), p);
        (s.left.Nil? || s.right.Nil?) && (s.color == Red || RootColor(Unlink(s)) == Red) ==>
        T == ReplaceAt(old(T), p, Unlink(s))
    {
      SearchComplete(T, v);
      if SearchPath(T, v).Some? {
        SearchFound(T, v);
      }
      if v !in Inorder(T) {
        RemoveAbsent(Inorder(T), v);
      }
      var currentNode := root;
      ghost var cp: Path := [];
      match SearchPath(T, v) {
        case None =>
        case Some(q) => assert [] + q == q;
      }
      while currentNode != null
        invariant Valid() && T == old(T) && Repr == old(Repr)
        invariant Reaches(T, cp) && currentNode == Ptr(Subtree(T, cp))
        invariant Under(cp, SearchPath(Subtree(T, cp), v)) == SearchPath(T, v)
        decreases Subtree(T, cp)
      {
        DescendFields(T, Repr, cp, v);
        SearchStep(T, cp, v);
        if v < currentNode.data {
          ReachesStep(T, cp, L);
          currentNode := currentNode.left;
          cp := cp + [L];
        } else if v > currentNode.data {
          ReachesStep(T, cp, R);
          currentNode := currentNode.right;
          cp := cp + [R];
        } else {
          assert cp + [] == cp;
          RemoveKeys(T, cp);
          RemoveAt(currentNode, cp);
          return;
        }
      }
    }

    /**
     * The third case of remove: z has two children.  Its successor y, the minimum of its
     * right subtree, takes z's place with z's colour, after being cut out from below
     * unless it is z's right child.  Returns y and y's colour before the move.
     */
    method ReplaceBySuccessor(z: Node, ghost pz: Path) returns (y: Node, yColor: Color)
      requires Valid() && IsNode(T, pz) && z == Subtree(T, pz).id
      requires Subtree(T, pz).left.Node? && Subtree(T, pz).right.Node? && !SuccessorCrashes(Subtree(T, pz))
      modifies this`root, this`T, this`Repr, Repr
      ensures Valid() && Repr == old(Repr) - {z}
      ensures T == ReplaceAt(old(T), pz, Unlink(old(Subtree(T, pz))))
      ensures y == Leftmost(old(Subtree(T, pz)).right).id && yColor == RemovedColor(old(Subtree(T, pz)))
    {
      ghost var T0 := T;
      ghost var s := Subtree(T0, pz);
      LinkFields(T0, Repr, pz, R);
      y := Minimum(z.right, pz + [R]);
      yColor := y.color;
      ghost var py := pz + [R] + MinPath(s.right);
      SuccessorParent(T0, pz);
      SuccessorFields(T0, Repr, py);
      if y.parent == z {
        PullUpSuccessor(z, y, pz);
      } else {
        MoveSuccessor(z, y, pz);
      }
    }

    /**
     * The third case of remove when the successor y lies deeper than z's right child: y
     * is replaced by its right child, then takes z's place.
     */
    method MoveSuccessor(z: Node, y: Node, ghost pz: Path)
      requires Valid() && IsNode(T, pz) && z == Subtree(T, pz).id
      requires Subtree(T, pz).left.Node? && Subtree(T, pz).right.Node? && Subtree(T, pz).right.left.Node?
      requires y == Leftmost(Subtree(T, pz).right).id
      modifies this`root, this`T, this`Repr, Repr
      ensures Valid() && Repr == old(Repr) - {z}
      ensures T == ReplaceAt(old(T), pz, Unlink(old(Subtree(T, pz))))
    {
      ghost var T0 := T;
      ghost var s := Subtree(T0, pz);
      ghost var py := pz + [R] + MinPath(s.right);
      SuccessorSplice(T0, pz);
      SuccessorFields(T0, Repr, py);
      OutsideSplit(T0, pz);
      LeftmostIn(s.right);
      assert y != z && Nodes(Leftmost(s.right).left) == {};
      SpliceOut(y, py, R);
      SwapInSuccessor(z, y, pz);
    }

    /**
     * The pointer writes of remove's third case when the successor y is z's right child:
     * y's right child is told that y is its parent (it must exist: it is dereferenced),
     * y is transplanted into z's place and takes z's left child and z's colour.
     */
    method PullUp(z: Node, y: Node, ghost I: map<Node, Link>, ghost S: set<Node>)
      requires Agrees(I, S) && z in S && y in S && y != z && z.right == y && y.parent == z
      requires z.left != null && z.left in S && z.left != z && z.left != y
      requires y.right != null && y.right in S && y.right != z && y.right != y && y.right != z.left && y.right.parent == y
      requires z.parent != null ==> z.parent in S && z.parent != z && z.parent != y && z.parent != z.left && z.parent != y.right
      modifies this`root, S
      ensures PulledUp(z, y, I, S)
      ensures root == if I[z].parent == null then y else old(root)
    {
      var successorRight := y.right;
      successorRight.parent := y;
      Transplant(z, y, I, S);
      y.left := z.left;
      y.left.parent := y;
      y.color := z.color;
    }

    /**
     * The pointer writes of remove's third case once the successor y is out of the tree:
     * y takes z's right child, is transplanted into z's place, and takes z's left child
     * and z's colour.
     */
    method SwapIn(z: Node, y: Node, ghost I: map<Node, Link>, ghost S: set<Node>)
      requires Agrees(I, S) && z in S && y !in S
      requires z.left != null && z.left in S && z.left != z
      requires z.right != null && z.right in S && z.right != z && z.right != z.left
      requires z.parent != null ==> z.parent in S && z.parent != z && z.parent != z.left && z.parent != z.right
      modifies this`root, S, y
      ensures SwappedIn(z, y, y.data, I, S)
      ensures root == if I[z].parent == null then y else old(root)
    {
      y.right := z.right;
      y.right.parent := y;
      ghost var zr: Node := y.right;
      ghost var I1: map<Node, Link> := I[zr := LinkOf(zr)][y := LinkOf(y)];
      Transplant(z, y, I1, S + {y});
      y.left := z.left;
      y.left.parent := y;
      y.color := z.color;
    }

    /** PullUp at the position pz of z: y, z's right child, takes z's place in the tree. */
    method PullUpSuccessor(z: Node, y: Node, ghost pz: Path)
      requires Valid() && IsNode(T, pz) && z == Subtree(T, pz).id
      requires Subtree(T, pz).left.Node? && Subtree(T, pz).right.Node? && y == Subtree(T, pz).right.id
      requires Subtree(T, pz).right.left.Nil? && Subtree(T, pz).right.right.Node?
      modifies this`root, this`T, this`Repr, Repr
      ensures Valid() && Repr == old(Repr) - {z}
      ensures var s := old(Subtree(T, pz));
        T == ReplaceAt(old(T), pz, Node(s.left, y, s.right.key, s.color, s.right.right))
    {
      ghost var T0 := T;
      ghost var R0 := Repr;
      ghost var s := Subtree(T0, pz);
      PullUpFields(T0, R0, pz);
      ghost var T1 := ReplaceAt(T0, pz, Node(s.left, y, s.right.key, s.color, s.right.right));
      assert Ptr(T1) == if pz == [] then y else Ptr(T0);
      PullUp(z, y, Info(T0, null), R0);
      T := T1;
      Repr := R0 - {z};
      assert root == Ptr(T);
      PullUpInAgrees(T0, pz, R0);
    }

    /** SwapIn at the position pz of z: y, already cut out of the tree, takes z's place. */
    method SwapInSuccessor(z: Node, y: Node, ghost pz: Path)
      requires Valid() && IsNode(T, pz) && z == Subtree(T, pz).id
      requires Subtree(T, pz).left.Node? && Subtree(T, pz).right.Node? && y !in Repr
      modifies this`root, this`T, this`Repr, Repr, y
      ensures Valid() && Repr == old(Repr) - {z} + {y}
      ensures var s := old(Subtree(T, pz));
        T == ReplaceAt(old(T), pz, Node(s.left, y, y.data, s.color, s.right))
    {
      ghost var T0 := T;
      ghost var R0 := Repr;
      ghost var s := Subtree(T0, pz);
      ghost var k := y.data;
      ghost var T1 := ReplaceAt(T0, pz, Node(s.left, y, k, s.color, s.right));
      assert Ptr(T1) == if pz == [] then y else Ptr(T0);
      SwapFields(T0, R0, pz);
      SwapIn(z, y, Info(T0, null), R0);
      T := T1;
      Repr := R0 - {z} + {y};
      assert root == Ptr(T);
      SwapInAgrees(T0, pz, y, k, R0);
    }
  }

  /**
   * In a heap that represents t, the node u at p, its child c on side d and its parent
   * are told apart, and u's parent field is null exactly at the root.
   */
  lemma SpliceFields(t: Tree<Node>, S: set<Node>, p: Path, d: Dir)
    requires Distinct(t) && S == Nodes(t) && Agrees(Info(t, null), S) && IsNode(t, p)
    ensures var u := Subtree(t, p).id; var c := Ptr(Child(Subtree(t, p), d)); var I := Info(t, null);
      u in S && u in I && LinkOf(u) == I[u] && (I[u].parent == null <==> p == []) &&
      (if d == L then u.left else u.right) == c &&
      (c != null ==> c in S && c != u) &&
      (u.parent != null ==> u.parent in S && u.parent != u && u.parent != c)
  {
    LinkFields(t, S, p, d);
    TransplantLinks(t, p);
    AgreesAt(Info(t, null), S, Subtree(t, p).id);
  }

  /** In a heap that represents t, the node at p names ParentAt as its parent and holds its key and colour. */
  lemma SuccessorFields(t: Tree<Node>, S: set<Node>, p: Path)
    requires Distinct(t) && S == Nodes(t) && Agrees(Info(t, null), S) && IsNode(t, p)
    ensures var n := Subtree(t, p);
      n.id in S && n.id.parent == ParentAt(t, p, null) && n.id.data == n.key && n.id.color == n.color
  {
    LinkAt(t, p, null);
    InfoKeys(t, null);
    AgreesAt(Info(t, null), S, Subtree(t, p).id);
  }

  /**
   * In a heap that represents t, the node z at p with two children: its parent and its
   * children are nodes of the heap, told apart from z and from each other.
   */
  lemma SwapFields(t: Tree<Node>, S: set<Node>, p: Path)
    requires Distinct(t) && S == Nodes(t) && Agrees(Info(t, null), S)
    requires IsNode(t, p) && Subtree(t, p).left.Node? && Subtree(t, p).right.Node?
    ensures var z := Subtree(t, p).id; var I := Info(t, null);
      z in S && LinkOf(z) == I[z] && I[z].color == Subtree(t, p).color && (I[z].parent == null <==> p == []) &&
      z.left != null && z.left in S && z.left != z &&
      z.right != null && z.right in S && z.right != z && z.right != z.left &&
      (z.parent != null ==> z.parent in S && z.parent != z && z.parent != z.left && z.parent != z.right)
  {
    LinkFields(t, S, p, L);
    LinkFields(t, S, p, R);
    TransplantLinks(t, p);
    AgreesAt(Info(t, null), S, Subtree(t, p).id);
  }

  /**
   * In a heap that represents t, the node z at p whose right child y has no left child
   * but a right child b: the four nodes and z's parent are told apart, and the parent
   * fields of y and b name z and y.
   */
  lemma PullUpFields(t: Tree<Node>, S: set<Node>, p: Path)
    requires Distinct(t) && S == Nodes(t) && Agrees(Info(t, null), S)
    requires IsNode(t, p) && Subtree(t, p).left.Node? && Subtree(t, p).right.Node?
    requires Subtree(t, p).right.left.Nil? && Subtree(t, p).right.right.Node?
    ensures var z := Subtree(t, p).id; var y := Subtree(t, p).right.id; var I := Info(t, null);
      z in S && LinkOf(z) == I[z] && I[z].color == Subtree(t, p).color && (I[z].parent == null <==> p == []) &&
      y in S && LinkOf(y) == I[y] && y != z && z.right == y && y.parent == z &&
      z.left != null && z.left in S && z.left != z && z.left != y &&
      y.right != null && y.right in S && y.right != z && y.right != y && y.right != z.left && y.right.parent == y &&
      (z.parent != null ==> z.parent in S && z.parent != z && z.parent != y && z.parent != z.left && z.parent != y.right)
  {
    var s := Subtree(t, p);
    SwapFields(t, S, p);
    LinkFields(t, S, p, R);
    ReachesStep(t, p, R);
    LinkFields(t, S, p + [R], R);
    TransplantLinks(t, p);
    TransplantLinks(t, p + [R]);
    OutsideSplit(t, p);
    AgreesAt(Info(t, null), S, s.right.id);
    assert s.right.right.id in Nodes(s.right) && s.right.right.id in Nodes(s);
  }

  /**
   * In a heap that represents t, around the node at q + [d] whose sibling is a node: its
   * parent field names the node at q, that node's other child field names the sibling,
   * and the sibling's fields give the colours of the two nephews.
   */
  lemma NephewFields(t: Tree<Node>, S: set<Node>, q: Path, d: Dir)
    requires Distinct(t) && S == Nodes(t) && Agrees(Info(t, null), S)
    requires IsNode(t, q) && IsNode(t, q + [d]) && Child(Subtree(t, q), Opposite(d)).Node?
    ensures var g := Subtree(t, q); var o := Opposite(d); var s := Child(g, o);
      var x := Subtree(t, q + [d]).id;
      Subtree(t, q + [d]) == Child(g, d) && x in S && x.parent == g.id && g.id in S && g.id.color == g.color &&
      IsNode(t, q + [o]) && Subtree(t, q + [o]) == s && s.id in S && s.id.color == s.color &&
      (if d == L then g.id.right else g.id.left) == s.id &&
      ((s.id.left == null || s.id.left.color == Black) <==> RootColor(s.left) == Black) &&
      ((s.id.right == null || s.id.right.color == Black) <==> RootColor(s.right) == Black)
  {
    var o := Opposite(d);
    LinkFields(t, S, q, d);
    LinkFields(t, S, q, o);
    LinkFields(t, S, q + [o], L);
    LinkFields(t, S, q + [o], R);
  }

  /**
   * In a heap that represents t, when deleteFixup's loop runs the node x being fixed is
   * not the root, not null and black, so it carries the extra black; its parent field
   * names the node above it.
   */
  lemma FixupFields(t: Tree<Node>, S: set<Node>, t0: Tree<Node>, xp: Path, x: Node?)
    requires Distinct(t) && S == Nodes(t) && Agrees(Info(t, null), S)
    requires DeleteFixing(t0, t, xp) && x == Ptr(Subtree(t, xp))
    requires x != Ptr(t) && (x == null || x.color == Black)
    ensures xp != [] && x != null && xp == xp[..|xp| - 1] + [xp[|xp| - 1]]
    ensures Balanced(t0) && DoubleBlackAt(t0, t, xp) && IsNode(t, xp)
    ensures x.parent != null && (x == x.parent.left <==> xp[|xp| - 1] == L)
    ensures x.color == Subtree(t, xp).color
  {
    var pp := xp[..|xp| - 1];
    var d := xp[|xp| - 1];
    assert xp == pp + [d];
    PrefixIsNode(t, pp, [d]);
    LinkFields(t, S, pp, d);
  }

  /**
   * In a heap that represents t, the node at cp holds its key and names its children:
   * one step of insert's descent follows the insertion path.
   */
  lemma DescendFields(t: Tree<Node>, S: set<Node>, cp: Path, v: int)
    requires Distinct(t) && S == Nodes(t) && Agrees(Info(t, null), S)
    requires IsNode(t, cp)
    ensures var n := Subtree(t, cp); var d := if v < n.key then L else R;
      n.id in S && n.id.data == n.key &&
      Reaches(t, cp + [L]) && n.id.left == Ptr(Subtree(t, cp + [L])) &&
      Reaches(t, cp + [R]) && n.id.right == Ptr(Subtree(t, cp + [R])) &&
      cp + InsertPath(n, v) == (cp + [d]) + InsertPath(Subtree(t, cp + [d]), v) &&
      ParentAt(t, cp + [d], null) == n.id
  {
    var n := Subtree(t, cp);
    LinkFields(t, S, cp, L);
    LinkFields(t, S, cp, R);
    InsertPathStep(t, cp, v);
    ParentAtPrefix(t, cp, if v < n.key then L else R, null);
  }

  /**
   * In a heap that represents t, with the node z at zp: z's parent field names the node
   * above it, and when that parent is black the tree's state allows insertFixup to stop.
   */
  lemma ParentFields(t: Tree<Node>, S: set<Node>, zp: Path, z: Node)
    requires Distinct(t) && S == Nodes(t) && Agrees(Info(t, null), S)
    requires InsertFixing(t, zp) && z == Subtree(t, zp).id
    requires !(z.parent != null && z.parent.color == Red)
    ensures zp != [] ==> IsNode(t, zp[..|zp| - 1]) && Subtree(t, zp[..|zp| - 1]).color == Black
  {
    if zp != [] {
      var pp := zp[..|zp| - 1];
      var e := zp[|zp| - 1];
      assert zp == pp + [e];
      PrefixIsNode(t, pp, [e]);
      LinkFields(t, S, pp, e);
    }
  }

  /**
   * In a heap that represents t, with the node z at zp below a red parent: zp has at
   * least two steps, z's parent field names the red node one step above it, and that
   * node's parent field names the node two steps above.
   */
  lemma FamilyPath(t: Tree<Node>, S: set<Node>, zp: Path, z: Node)
    requires Distinct(t) && S == Nodes(t) && Agrees(Info(t, null), S)
    requires InsertFixing(t, zp) && z == Subtree(t, zp).id
    requires z.parent != null && z.parent.color == Red
    ensures |zp| >= 2
    ensures var gp := zp[..|zp| - 2]; var d := zp[|zp| - 2]; var e := zp[|zp| - 1];
      zp == gp + [d, e] && IsNode(t, gp) &&
      var g := Subtree(t, gp);
      Child(g, d).Node? && Child(g, d).color == Red && Child(Child(g, d), e).Node? &&
      z == Child(Child(g, d), e).id && z.parent == Child(g, d).id && z.parent.parent == g.id
  {
    UpFields(t, S, zp, z);
    var pp := zp[..|zp| - 1];
    GrandparentExists(t, zp);
    UpFields(t, S, pp, z.parent);
    LastTwo(zp);
  }

  /** The node z at a position zp below the root names the node one step above as its parent. */
  lemma UpFields(t: Tree<Node>, S: set<Node>, zp: Path, z: Node)
    requires Distinct(t) && S == Nodes(t) && Agrees(Info(t, null), S)
    requires IsNode(t, zp) && z == Subtree(t, zp).id && zp != []
    ensures var pp := zp[..|zp| - 1]; var e := zp[|zp| - 1];
      zp == pp + [e] && IsNode(t, pp) && Child(Subtree(t, pp), e) == Subtree(t, zp) &&
      z.parent == Subtree(t, pp).id && z.parent.color == Subtree(t, pp).color
  {
    var pp := zp[..|zp| - 1];
    var e := zp[|zp| - 1];
    assert zp == pp + [e];
    PrefixIsNode(t, pp, [e]);
    LinkFields(t, S, pp, e);
  }


  /**
   * In a heap that represents t, with the node z at zp = gp + [d, e] below a red parent:
   * the parent and grandparent fields name the nodes at gp + [d] and gp, and the
   * grandparent's child fields name its two subtrees.
   */
  lemma FamilyFields(t: Tree<Node>, S: set<Node>, zp: Path, z: Node)
    requires Distinct(t) && S == Nodes(t) && Agrees(Info(t, null), S)
    requires InsertFixing(t, zp) && z == Subtree(t, zp).id
    requires z.parent != null && z.parent.color == Red
    ensures |zp| >= 2
    ensures var gp := zp[..|zp| - 2]; var d := zp[|zp| - 2]; var e := zp[|zp| - 1];
      zp == gp + [d, e] && IsNode(t, gp) &&
      var g := Subtree(t, gp);
      Child(g, d).Node? && Child(g, d).color == Red && Child(Child(g, d), e).Node? &&
      z == Child(Child(g, d), e).id && z.parent == Child(g, d).id &&
      z.parent.parent == g.id && g.id in S &&
      g.id.left == Ptr(g.left) && g.id.right == Ptr(g.right) &&
      (z.parent == z.parent.parent.left <==> d == L) &&
      (g.left.Node? ==> g.left.id.color == g.left.color) &&
      (g.right.Node? ==> g.right.id.color == g.right.color)
  {
    FamilyPath(t, S, zp, z);
    var gp := zp[..|zp| - 2];
    LinkFields(t, S, gp, L);
    LinkFields(t, S, gp, R);
  }

}
