/**
  The red-black tree of tree.h on mutable nodes: rotations, insertion,
  removal and the colour fix-ups. Each step is described on the ghost side by
  the tree the fields spell out before and after it, cut at the place the
  loops stand at.
 */
module RbTree {
  import opened RbShape

  /** RB_HEAD with the tree its nodes spell out. */
  class Head {
    var root: Node?
    ghost var tree: Tree

    /** The fields of the nodes spell out t, and no node is used twice. */
    ghost predicate Spells(t: Tree)
      reads this, Nodes(t)
    {
      root == Root(t) && Apart(t) && Linked(Fields(Nodes(t)), t, null)
    }

    /** What the fields say around the root of a subtree. */
    lemma Look(c: Path, t: Tree)
      requires Spells(Plug(c, t))
      ensures Nodes(Plug(c, t)) == PathNodes(c) + Nodes(t)
      ensures root == Entry(c, Root(t)) && ApartAt(c, t)
      ensures var s := Fields(Nodes(Plug(c, t))); PathLinked(s, c, Root(t)) && Linked(s, t, Parent(c))
      ensures t.Branch? ==> t.node.left == Root(t.left) && t.node.right == Root(t.right) &&
                            t.node.parent == Parent(c) && t.node.color == t.color
      ensures c.InLeft? ==> c.node.left == Root(t) && c.node.right == Root(c.right) &&
                            c.node.parent == Parent(c.up) && c.node.color == c.color
      ensures c.InRight? ==> c.node.left == Root(c.left) && c.node.right == Root(t) &&
                             c.node.parent == Parent(c.up) && c.node.color == c.color
    {
      PlugNodes(c, t);
      PlugLinked(Fields(Nodes(Plug(c, t))), c, t);
      PlugApart(c, t);
    }

    /** The tests of the children's colours. */
    lemma LookColors(c: Path, t: Tree)
      requires Spells(Plug(c, t)) && t.Branch?
      ensures (t.node.left == null || t.node.left.color == Black) <==> !IsRed(t.left)
      ensures (t.node.right == null || t.node.right.color == Black) <==> !IsRed(t.right)
    {
      Look(c, t);
      Look(InLeft(c, t.node, t.color, t.right), t.left);
      Look(InRight(c, t.left, t.node, t.color), t.right);
    }

    /** The children of t's root lie apart from each other and from the path. */
    lemma LookChildren(c: Path, t: Tree)
      requires Spells(Plug(c, t)) && t.Branch?
      ensures Tip(t.left) + Tip(t.right) + PathTip(c) <= Nodes(Plug(c, t)) - {t.node}
      ensures Tip(t.left) !! Tip(t.right) && Tip(t.left) + Tip(t.right) !! PathTip(c)
      ensures t.node.left == Root(t.left) && t.node.right == Root(t.right)
      ensures t.node.parent == Parent(c) && t.node.color == t.color
    {
      Look(c, t);
    }

    /** Which child a subtree is. */
    lemma LookSide(c: Path, t: Tree)
      requires Spells(Plug(c, t)) && Short(c, t)
      ensures c.node.left == Root(t) <==> c.InLeft?
    {
      Look(c, t);
      SiblingExists(c, t);
    }

    /** RB_COLOR(elm) = color */
    method Paint(elm: Node, color: Color, ghost c: Path, ghost t: Tree)
      requires Spells(Plug(c, t)) && t.Branch? && t.node == elm
      modifies elm`color
      ensures SameOrder(Plug(c, t), Plug(c, t.(color := color)))
      ensures Spells(Plug(c, t.(color := color)))
    {
      Look(c, t);
      ghost var ns := Nodes(Plug(c, t));
      ghost var before := Fields(ns);
      elm.color := color;
      PaintedLinked(before, Fields(ns), c, t, color);
    }

    /** The child fields of the node above a subtree. */
    lemma LookAbove(c: Path, t: Tree)
      requires Spells(Plug(c, t)) && t.Branch?
      ensures root == Entry(c, t.node)
      ensures !c.Top? ==> (c.node.left == t.node <==> c.InLeft?) && (c.node.right == t.node <==> c.InRight?)
    {
      Look(c, t);
    }

    /** The three nodes a left rotation touches below c, and how they lie. */
    lemma LookRight(c: Path, t: Tree)
      requires Spells(Plug(c, t)) && t.Branch? && t.right.Branch?
      ensures var x, y, b := t.node, t.right.node, t.right.left;
        && {x, y} + Tip(b) + PathTip(c) <= Nodes(Plug(c, t))
        && x != y && x !in Tip(b) && y !in Tip(b) && PathTip(c) !! {x, y} + Tip(b)
        && x.right == y && x.left == Root(t.left) && x.color == t.color && x.parent == Parent(c)
        && y.left == Root(b) && y.right == Root(t.right.right) && y.color == t.right.color
        && (b.Branch? ==> b.node.left == Root(b.left) && b.node.right == Root(b.right) && b.node.color == b.color)
    {
      Look(c, t);
      var s := Fields(Nodes(Plug(c, t)));
      assert Linked(s, t.right, t.node) && Linked(s, t.right.left, t.right.node);
      assert Apart(t.right);
      assert Nodes(t.right) == Nodes(t.right.left) + {t.right.node} + Nodes(t.right.right);
    }

    /** The three nodes a right rotation touches below c, and how they lie. */
    lemma LookLeft(c: Path, t: Tree)
      requires Spells(Plug(c, t)) && t.Branch? && t.left.Branch?
      ensures var x, y, b := t.node, t.left.node, t.left.right;
        && {x, y} + Tip(b) + PathTip(c) <= Nodes(Plug(c, t))
        && x != y && x !in Tip(b) && y !in Tip(b) && PathTip(c) !! {x, y} + Tip(b)
        && x.left == y && x.right == Root(t.right) && x.color == t.color && x.parent == Parent(c)
        && y.right == Root(b) && y.left == Root(t.left.left) && y.color == t.left.color
        && (b.Branch? ==> b.node.right == Root(b.right) && b.node.left == Root(b.left) && b.node.color == b.color)
    {
      Look(c, t);
      var s := Fields(Nodes(Plug(c, t)));
      assert Linked(s, t.left, t.node) && Linked(s, t.left.right, t.left.node);
      assert Apart(t.left);
      assert Nodes(t.left) == Nodes(t.left.right) + {t.left.node} + Nodes(t.left.left);
    }

    /** RB_ROTATE_LEFT, as assignments. */
    method RotateLeftFields(elm: Node) returns (tmp: Node)
      requires elm.right != null && elm.right != elm
      requires elm.right.left != elm && elm.right.left != elm.right
      requires elm.parent != elm && elm.parent != elm.right
      requires elm.parent != null ==> elm.parent != elm.right.left && (elm.parent.left == elm || elm.parent.right == elm)
      modifies this`root, elm, elm.right, elm.right.left, elm.parent
      ensures tmp == old(elm.right)
      ensures elm.left == old(elm.left) && elm.right == old(elm.right.left)
      ensures elm.parent == tmp && elm.color == old(elm.color)
      ensures tmp.left == elm && tmp.right == old(elm.right.right)
      ensures tmp.parent == old(elm.parent) && tmp.color == old(elm.right.color)
      ensures var b := old(elm.right.left); b != null ==>
        b.left == old(elm.right.left.left) && b.right == old(elm.right.left.right) &&
        b.parent == elm && b.color == old(elm.right.left.color)
      ensures var p := old(elm.parent); p != null ==>
        && p.left == (if old(elm.parent.left) == elm then tmp else old(elm.parent.left))
        && p.right == (if old(elm.parent.left) == elm then old(elm.parent.right) else tmp)
        && p.parent == old(elm.parent.parent) && p.color == old(elm.parent.color)
      ensures root == if old(elm.parent) == null then tmp else old(root)
    {
      tmp := elm.right;
      elm.right := tmp.left;
      if elm.right != null {
        tmp.left.parent := elm;
      }
      tmp.parent := elm.parent;
      if tmp.parent != null {
        if elm == elm.parent.left {
          elm.parent.left := tmp;
        } else {
          elm.parent.right := tmp;
        }
      } else {
        root := tmp;
      }
      tmp.left := elm;
      elm.parent := tmp;
    }

    /** RB_ROTATE_LEFT */
    method RotateLeft(elm: Node, ghost c: Path, ghost t: Tree) returns (tmp: Node)
      requires Spells(Plug(c, t))
      requires t.Branch? && t.node == elm && t.right.Branch?
      modifies this`root, Nodes(Plug(c, t))
      ensures tmp == t.right.node
      ensures SameOrder(Plug(c, t), Plug(c, RotatedLeft(t)))
      ensures Spells(Plug(c, RotatedLeft(t)))
    {
      LookRight(c, t);
      LookAbove(c, t);
      ghost var ns := Nodes(Plug(c, t));
      ghost var before := Fields(ns);
      tmp := RotateLeftFields(elm);
      RotatedLeftLinked(before, Fields(ns), c, t);
    }

    /** RB_ROTATE_RIGHT, as assignments. */
    method RotateRightFields(elm: Node) returns (tmp: Node)
      requires elm.left != null && elm.left != elm
      requires elm.left.right != elm && elm.left.right != elm.left
      requires elm.parent != elm && elm.parent != elm.left
      requires elm.parent != null ==> elm.parent != elm.left.right && (elm.parent.right == elm || elm.parent.left == elm)
      modifies this`root, elm, elm.left, elm.left.right, elm.parent
      ensures tmp == old(elm.left)
      ensures elm.right == old(elm.right) && elm.left == old(elm.left.right)
      ensures elm.parent == tmp && elm.color == old(elm.color)
      ensures tmp.right == elm && tmp.left == old(elm.left.left)
      ensures tmp.parent == old(elm.parent) && tmp.color == old(elm.left.color)
      ensures var b := old(elm.left.right); b != null ==>
        b.right == old(elm.left.right.right) && b.left == old(elm.left.right.left) &&
        b.parent == elm && b.color == old(elm.left.right.color)
      ensures var p := old(elm.parent); p != null ==>
        && p.left == (if old(elm.parent.left) == elm then tmp else old(elm.parent.left))
        && p.right == (if old(elm.parent.left) == elm then old(elm.parent.right) else tmp)
        && p.parent == old(elm.parent.parent) && p.color == old(elm.parent.color)
      ensures root == if old(elm.parent) == null then tmp else old(root)
    {
      tmp := elm.left;
      elm.left := tmp.right;
      if elm.left != null {
        tmp.right.parent := elm;
      }
      tmp.parent := elm.parent;
      if tmp.parent != null {
        if elm == elm.parent.left {
          elm.parent.left := tmp;
        } else {
          elm.parent.right := tmp;
        }
      } else {
        root := tmp;
      }
      tmp.right := elm;
      elm.parent := tmp;
    }

    /** RB_ROTATE_RIGHT */
    method RotateRight(elm: Node, ghost c: Path, ghost t: Tree) returns (tmp: Node)
      requires Spells(Plug(c, t))
      requires t.Branch? && t.node == elm && t.left.Branch?
      modifies this`root, Nodes(Plug(c, t))
      ensures tmp == t.left.node
      ensures SameOrder(Plug(c, t), Plug(c, RotatedRight(t)))
      ensures Spells(Plug(c, RotatedRight(t)))
    {
      LookLeft(c, t);
      LookAbove(c, t);
      ghost var ns := Nodes(Plug(c, t));
      ghost var before := Fields(ns);
      tmp := RotateRightFields(elm);
      RotatedRightLinked(before, Fields(ns), c, t);
    }

    /** The half of the loop body of RB_INSERT_COLOR for a parent that is a left child. */
    method InsertFixLeft(node: Node, parent0: Node, gparent: Node, ghost c: Path, ghost t: Tree)
      returns (elm: Node, ghost c': Path, ghost t': Tree)
      requires Spells(Plug(c, t)) && InsertFocus(c, t) && t.node == node
      requires ParentRed(c) && c.node == parent0
      requires c.up.InLeft? && c.up.node == gparent
      modifies this`root, Nodes(Plug(c, t))
      ensures Spells(Plug(c', t')) && InsertFocus(c', t') && t'.node == elm
      ensures SameOrder(Plug(c, t), Plug(c', t'))
      ensures Depth(c') < Depth(c)
    {
      hide Spells, Ordered, Inorder;
      elm := node;
      var parent := parent0;
      ghost var g, p := c.up, Grown(c, t);
      Look(c, t);
      Look(g, p);
      var tmp := gparent.right;
      if tmp != null && tmp.color == Red {
        Look(InRight(g.up, p, g.node, g.color), g.right);
        Paint(tmp, Black, InRight(g.up, p, g.node, g.color), g.right);
        ghost var u := g.right.(color := Black);
        Paint(parent, Black, InLeft(g.up, g.node, g.color, u), p);
        Paint(gparent, Red, g.up, Branch(p.(color := Black), g.node, g.color, u));
        elm := gparent;
        InsertRecolored(c, t);
        c', t' := g.up, Branch(p.(color := Black), g.node, Red, u);
        return;
      }
      InsertRotated(c, t);
      t' := t;
      if parent.right == elm {
        tmp := RotateLeft(parent, g, p);
        p := RotatedLeft(p);
        t' := p.left;
        tmp := parent;
        parent := elm;
        elm := tmp;
      }
      Paint(parent, Black, g, p);
      p := p.(color := Black);
      Paint(gparent, Red, g.up, Grown(g, p));
      tmp := RotateRight(gparent, g.up, Grown(g, p).(color := Red));
      c' := InLeft(g.up, parent, Black, Branch(p.right, gparent, Red, g.right));
    }

    /** The half of the loop body of RB_INSERT_COLOR for a parent that is a right child. */
    method InsertFixRight(node: Node, parent0: Node, gparent: Node, ghost c: Path, ghost t: Tree)
      returns (elm: Node, ghost c': Path, ghost t': Tree)
      requires Spells(Plug(c, t)) && InsertFocus(c, t) && t.node == node
      requires ParentRed(c) && c.node == parent0
      requires c.up.InRight? && c.up.node == gparent
      modifies this`root, Nodes(Plug(c, t))
      ensures Spells(Plug(c', t')) && InsertFocus(c', t') && t'.node == elm
      ensures SameOrder(Plug(c, t), Plug(c', t'))
      ensures Depth(c') < Depth(c)
    {
      hide Spells, Ordered, Inorder;
      elm := node;
      var parent := parent0;
      ghost var g, p := c.up, Grown(c, t);
      Look(c, t);
      Look(g, p);
      var tmp := gparent.left;
      if tmp != null && tmp.color == Red {
        Look(InLeft(g.up, g.node, g.color, p), g.left);
        Paint(tmp, Black, InLeft(g.up, g.node, g.color, p), g.left);
        ghost var u := g.left.(color := Black);
        Paint(parent, Black, InRight(g.up, u, g.node, g.color), p);
        Paint(gparent, Red, g.up, Branch(u, g.node, g.color, p.(color := Black)));
        elm := gparent;
        InsertRecolored(c, t);
        c', t' := g.up, Branch(u, g.node, Red, p.(color := Black));
        return;
      }
      InsertRotated(c, t);
      t' := t;
      if parent.left == elm {
        tmp := RotateRight(parent, g, p);
        p := RotatedRight(p);
        t' := p.right;
        tmp := parent;
        parent := elm;
        elm := tmp;
      }
      Paint(parent, Black, g, p);
      p := p.(color := Black);
      Paint(gparent, Red, g.up, Grown(g, p));
      tmp := RotateLeft(gparent, g.up, Grown(g, p).(color := Red));
      c' := InRight(g.up, Branch(g.left, gparent, Red, p.left), parent, Black);
    }

    /** The last line of RB_INSERT_COLOR. */
    method PaintRoot(ghost c: Path, ghost t: Tree)
      requires Spells(Plug(c, t)) && InsertFocus(c, t) && !ParentRed(c)
      modifies this`tree, Nodes(Plug(c, t))
      ensures Spells(tree) && RedBlack(tree) && SameOrder(Plug(c, t), tree)
    {
      if !c.Top? { PlugColored(c, t); }
      Look(c, t);
      tree := Plug(c, t);
      Look(Top, tree);
      Paint(root, Black, Top, tree);
      tree := tree.(color := Black);
    }

    /** RB_INSERT_COLOR */
    method InsertColor(node: Node, ghost c0: Path, ghost t0: Tree)
      requires Spells(Plug(c0, t0)) && InsertFocus(c0, t0) && t0.node == node
      modifies this, Nodes(Plug(c0, t0))
      ensures Spells(tree) && RedBlack(tree)
      ensures SameOrder(Plug(c0, t0), tree)
    {
      hide Spells, RedBlack, InsertFocus, Ordered, Inorder;
      var elm := node;
      ghost var c, t := c0, t0;
      LookParent(c, t);
      var parent := elm.parent;
      while parent != null && parent.color == Red
        invariant Spells(Plug(c, t)) && InsertFocus(c, t) && t.Branch? && t.node == elm
        invariant SameOrder(Plug(c0, t0), Plug(c, t))
        invariant parent == Parent(c) && (parent != null ==> parent.color == c.color)
        decreases Depth(c)
      {
        LookGrandparent(c, t);
        var gparent := parent.parent;
        if parent == gparent.left {
          elm, c, t := InsertFixLeft(elm, parent, gparent, c, t);
        } else {
          elm, c, t := InsertFixRight(elm, parent, gparent, c, t);
        }
        LookParent(c, t);
        parent := elm.parent;
      }
      PaintRoot(c, t);
    }

    lemma LookParent(c: Path, t: Tree)
      requires Spells(Plug(c, t)) && InsertFocus(c, t)
      ensures t.Branch? && t.node.parent == Parent(c)
      ensures !c.Top? ==> c.node.color == c.color
    {
      Look(c, t);
    }

    /** A red parent has a parent, whose child it is on the side it is on. */
    lemma LookGrandparent(c: Path, t: Tree)
      requires Spells(Plug(c, t)) && InsertFocus(c, t) && ParentRed(c)
      ensures !c.Top? && !c.up.Top? && c.node.parent == c.up.node
      ensures if c.up.node.left == c.node then c.up.InLeft? else c.up.InRight?
    {
      Look(c.up, Grown(c, t));
    }

    ghost predicate Valid()
      reads this, Nodes(tree)
    {
      Spells(tree) && Ordered(tree) && RedBlack(tree)
    }

    /** The lines of RB_INSERT that hang elm below `parent`. */
    method Graft(elm: Node, parent: Node?, comp: int, ghost c: Path)
      requires Spells(Plug(c, Leaf)) && parent == Parent(c) && elm !in PathNodes(c)
      requires (comp < 0 <==> c.InLeft?) && (comp > 0 <==> c.InRight?)
      modifies this`root, elm, Nodes(Plug(c, Leaf))
      ensures Spells(Plug(c, Branch(Leaf, elm, Red, Leaf)))
    {
      Look(c, Leaf);
      ghost var before := Fields(Nodes(Plug(c, Leaf)));
      ghost var t := Branch(Leaf, elm, Red, Leaf);
      PlugNodes(c, t);
      elm.parent, elm.left, elm.right, elm.color := parent, null, null, Red;
      if parent != null {
        if comp < 0 {
          parent.left := elm;
        } else {
          parent.right := elm;
        }
      } else {
        root := elm;
      }
      GraftedLinked(before, Fields(Nodes(Plug(c, t))), c, elm);
    }

    /** The descent of RB_INSERT and RB_FIND: to the node with the key, or to
        the empty place where it belongs. */
    method Descend(key: int) returns (tmp: Node?, parent: Node?, comp: int, ghost c: Path, ghost t: Tree)
      requires Valid()
      ensures Valid() && Spells(Plug(c, t)) && Fields(Nodes(tree)) == old(Fields(Nodes(tree)))
      ensures Plug(c, t) == tree && tmp == Root(t) && parent == Parent(c)
      ensures OrderedAt(c, t) && Between(c, key)
      ensures tmp != null ==> tmp.key == key
      ensures tmp == null ==> (comp < 0 <==> c.InLeft?) && (comp > 0 <==> c.InRight?)
    {
      tmp, parent, comp := root, null, 0;
      c, t := Top, tree;
      while tmp != null
        invariant tree == Plug(c, t) && tmp == Root(t) && parent == Parent(c)
        invariant Spells(Plug(c, t)) && Fields(Nodes(tree)) == old(Fields(Nodes(tree)))
        invariant OrderedAt(c, t) && Between(c, key)
        invariant (comp < 0 <==> c.InLeft?) && (comp > 0 <==> c.InRight?)
        decreases t
      {
        Look(c, t);
        comp := key - tmp.key;
        if comp < 0 {
          parent := tmp;
          tmp := tmp.left;
          c, t := InLeft(c, t.node, t.color, t.right), t.left;
        } else if comp > 0 {
          parent := tmp;
          tmp := tmp.right;
          c, t := InRight(c, t.left, t.node, t.color), t.right;
        } else {
          return;
        }
        PlugOrdered(c, t);
      }
    }

    /** RB_INSERT */
    method Insert(elm: Node) returns (found: Node?)
      requires Valid()
      modifies this, Nodes(tree), elm
      ensures Valid()
      ensures found == null <==> forall m :: m in old(Nodes(tree)) ==> m.key != elm.key
      ensures elm in old(Nodes(tree)) ==> found == elm
      ensures found == null ==> Inorder(tree) == Inserted(old(Inorder(tree)), elm)
      ensures found == null ==> Nodes(tree) == old(Nodes(tree)) + {elm}
      ensures found != null ==> found in Nodes(tree) && found.key == elm.key
      ensures found != null ==> unchanged(this) && unchanged(elm) && Fields(Nodes(tree)) == old(Fields(Nodes(tree)))
    {
      var parent, comp; ghost var c, t;
      found, parent, comp, c, t := Descend(elm.key);
      PlugNodes(c, t);
      if found != null {
        if elm in Nodes(tree) {
          OneNodeAKey(tree, found, elm);
        }
        return;
      }
      NewKey(c, elm.key);
      Place(elm, parent, comp, c);
    }

    /** The lines behind the search, when the key is new. */
    method Place(elm: Node, parent: Node?, comp: int, ghost c: Path)
      requires Valid() && tree == Plug(c, Leaf) && parent == Parent(c) && elm !in Nodes(tree)
      requires OrderedPath(c) && Between(c, elm.key) && (comp < 0 <==> c.InLeft?) && (comp > 0 <==> c.InRight?)
      modifies this, Nodes(tree), elm
      ensures Valid()
      ensures Inorder(tree) == Inserted(old(Inorder(tree)), elm) && Nodes(tree) == old(Nodes(tree)) + {elm}
    {
      hide Spells, Inorder, Inserted, Nodes;
      PlugNodes(c, Leaf);
      InsertPlace(c, elm);
      InsertOrder(c, elm);
      UnplugColored(c, Leaf);
      Graft(elm, parent, comp, c);
      InsertColor(elm, c, Branch(Leaf, elm, Red, Leaf));
    }

    /** Red sibling: rotated away. */
    method RemoveRedLeft(parent: Node, ghost c: Path, ghost t: Tree) returns (tmp: Node, ghost c': Path)
      requires Spells(Plug(c, t)) && Short(c, t) && c.InLeft? && c.node == parent
      modifies this`root, Nodes(Plug(c, t))
      ensures Spells(Plug(c', t)) && Short(c', t) && SameOrder(Plug(c, t), Plug(c', t))
      ensures c'.InLeft? && c'.node == parent && c'.right.Branch? && c'.right.node == tmp && c'.right.color == Black
      ensures Depth(c') <= Depth(c) + 1 && (Depth(c') > Depth(c) ==> c'.color == Red)
    {
      hide Spells, Ordered, Inorder, Short;
      SiblingExists(c, t);
      ghost var w := c.right;
      Look(c, t);
      Look(InRight(c.up, t, c.node, c.color), w);
      tmp := parent.right;
      c' := c;
      if tmp.color == Red {
        RemoveRedSibling(c, t);
        Paint(tmp, Black, InRight(c.up, t, parent, c.color), w);
        w := w.(color := Black);
        Paint(parent, Red, c.up, Branch(t, parent, c.color, w));
        tmp := RotateLeft(parent, c.up, Branch(t, parent, Red, w));
        c' := InLeft(InLeft(c.up, w.node, Black, w.right), parent, Red, w.left);
        SiblingExists(c', t);
        Look(c', t);
        tmp := parent.right;
      }
    }

    /** Black sibling with a red inner child only: turned over. */
    method RemoveTurnLeft(parent: Node, tmp0: Node, ghost c: Path, ghost t: Tree) returns (tmp: Node)
      requires Spells(Plug(c, t)) && c.InLeft? && c.node == parent
      requires c.right.Branch? && c.right.node == tmp0 && c.right.color == Black
      requires IsRed(c.right.left) || IsRed(c.right.right)
      modifies this`root, Nodes(Plug(c, t))
      ensures OuterNephew(c).Branch? && tmp == OuterNephew(c).node
      ensures Spells(Plug(InRight(c.up, t, parent, c.color), OuterNephew(c)))
      ensures SameOrder(Plug(c, t), Plug(InRight(c.up, t, parent, c.color), OuterNephew(c)))
    {
      tmp := tmp0;
      ghost var w, x := c.right, InRight(c.up, t, parent, c.color);
      Look(x, w);
      LookColors(x, w);
      if tmp.right == null || tmp.right.color == Black {
        var oleft := tmp.left;
        if oleft != null {
          Paint(oleft, Black, InLeft(x, w.node, Black, w.right), w.left);
          w := w.(left := w.left.(color := Black));
        }
        Paint(tmp, Red, x, w);
        w := w.(color := Red);
        oleft := RotateRight(tmp, x, w);
        w := RotatedRight(w);
        Look(x, w);
        tmp := parent.right;
      }
    }

    /** Black sibling with a red child: the rotations that end RB_REMOVE_COLOR. */
    method RemoveEndLeft(parent: Node, tmp0: Node, ghost c: Path, ghost t: Tree) returns (ghost t': Tree)
      requires Spells(Plug(c, t)) && Short(c, t) && c.InLeft? && c.node == parent
      requires c.right.Branch? && c.right.node == tmp0 && c.right.color == Black
      requires IsRed(c.right.left) || IsRed(c.right.right)
      modifies this`root, Nodes(Plug(c, t))
      ensures Spells(t') && RedBlack(t') && SameOrder(Plug(c, t), t')
    {
      RemoveRotated(c, t);
      var tmp := RemoveTurnLeft(parent, tmp0, c, t);
      ghost var w := OuterNephew(c);
      RecolorLeft(parent, tmp, c.up, t, c.color, w);
      tmp := RotateLeft(parent, c.up, Branch(t, parent, Black, w.(color := c.color, right := Blackened(w.right))));
      t' := Plug(c.up, Branch(Branch(t, parent, Black, w.left), w.node, c.color, w.right.(color := Black)));
    }

    /** The three colour changes before the last rotation. */
    method RecolorLeft(parent: Node, tmp: Node, ghost c: Path, ghost t: Tree, ghost p: Color, ghost w: Tree)
      requires Spells(Plug(c, Branch(t, parent, p, w)))
      requires w.Branch? && w.node == tmp
      modifies Nodes(Plug(c, Branch(t, parent, p, w)))
      ensures var w' := w.(color := p, right := Blackened(w.right));
        && Spells(Plug(c, Branch(t, parent, Black, w')))
        && SameOrder(Plug(c, Branch(t, parent, p, w)), Plug(c, Branch(t, parent, Black, w')))
    {
      ghost var w1, x := w.(color := p), InRight(c, t, parent, Black);
      ghost var y := InRight(x, w.left, w.node, p);
      Look(c, Branch(t, parent, p, w));
      Paint(tmp, parent.color, InRight(c, t, parent, p), w);
      Paint(parent, Black, c, Branch(t, parent, p, w1));
      assert Plug(x, w1) == Plug(c, Branch(t, parent, Black, w1));
      assert Plug(y, w.right) == Plug(x, w1);
      Look(x, w1);
      if tmp.right != null {
        Paint(tmp.right, Black, y, w.right);
        assert Plug(y, Blackened(w.right)) == Plug(x, w1.(right := Blackened(w.right)));
      }
    }

    /** The half of the loop body of RB_REMOVE_COLOR for a short left subtree. */
    method RemoveFixLeft(parent0: Node, ghost c: Path, ghost t: Tree)
      returns (elm: Node?, parent: Node?, done: bool, ghost c': Path, ghost t': Tree)
      requires Spells(Plug(c, t)) && Short(c, t) && c.InLeft? && c.node == parent0
      modifies this`root, Nodes(Plug(c, t))
      ensures Spells(Plug(c', t')) && SameOrder(Plug(c, t), Plug(c', t'))
      ensures !done ==> RemoveFocus(c', t') && elm == Root(t') && parent == Parent(c')
      ensures !done ==> RemoveMeasure(c', t') < RemoveMeasure(c, t)
      ensures done ==> c'.Top? && RedBlack(t') && elm == root
    {
      var tmp;
      parent, done := parent0, false;
      tmp, c' := RemoveRedLeft(parent, c, t);
      ghost var w := c'.right;
      ghost var x := InRight(c'.up, t, parent, c'.color);
      Look(c', t);
      Look(x, w);
      LookColors(x, w);
      if (tmp.left == null || tmp.left.color == Black) && (tmp.right == null || tmp.right.color == Black) {
        RemoveBlackNephews(c', t);
        Paint(tmp, Red, x, w);
        elm := parent;
        t' := Branch(t, parent, c'.color, w.(color := Red));
        c' := c'.up;
        Look(c', t');
        parent := elm.parent;
      } else {
        t' := RemoveEndLeft(parent, tmp, c', t);
        c' := Top;
        elm := root;
        done := true;
      }
    }

    /** Red sibling: rotated away. */
    method RemoveRedRight(parent: Node, ghost c: Path, ghost t: Tree) returns (tmp: Node, ghost c': Path)
      requires Spells(Plug(c, t)) && Short(c, t) && c.InRight? && c.node == parent
      modifies this`root, Nodes(Plug(c, t))
      ensures Spells(Plug(c', t)) && Short(c', t) && SameOrder(Plug(c, t), Plug(c', t))
      ensures c'.InRight? && c'.node == parent && c'.left.Branch? && c'.left.node == tmp && c'.left.color == Black
      ensures Depth(c') <= Depth(c) + 1 && (Depth(c') > Depth(c) ==> c'.color == Red)
    {
      hide Spells, Ordered, Inorder, Short;
      SiblingExists(c, t);
      ghost var w := c.left;
      Look(c, t);
      Look(InLeft(c.up, c.node, c.color, t), w);
      tmp := parent.left;
      c' := c;
      if tmp.color == Red {
        RemoveRedSibling(c, t);
        Paint(tmp, Black, InLeft(c.up, parent, c.color, t), w);
        w := w.(color := Black);
        Paint(parent, Red, c.up, Branch(w, parent, c.color, t));
        tmp := RotateRight(parent, c.up, Branch(w, parent, Red, t));
        c' := InRight(InRight(c.up, w.left, w.node, Black), w.right, parent, Red);
        SiblingExists(c', t);
        Look(c', t);
        tmp := parent.left;
      }
    }

    /** Black sibling with a red inner child only: turned over. */
    method RemoveTurnRight(parent: Node, tmp0: Node, ghost c: Path, ghost t: Tree) returns (tmp: Node)
      requires Spells(Plug(c, t)) && c.InRight? && c.node == parent
      requires c.left.Branch? && c.left.node == tmp0 && c.left.color == Black
      requires IsRed(c.left.right) || IsRed(c.left.left)
      modifies this`root, Nodes(Plug(c, t))
      ensures OuterNephew(c).Branch? && tmp == OuterNephew(c).node
      ensures Spells(Plug(InLeft(c.up, parent, c.color, t), OuterNephew(c)))
      ensures SameOrder(Plug(c, t), Plug(InLeft(c.up, parent, c.color, t), OuterNephew(c)))
    {
      tmp := tmp0;
      ghost var w, x := c.left, InLeft(c.up, parent, c.color, t);
      Look(x, w);
      LookColors(x, w);
      if tmp.left == null || tmp.left.color == Black {
        var oright := tmp.right;
        if oright != null {
          Paint(oright, Black, InRight(x, w.left, w.node, Black), w.right);
          w := w.(right := w.right.(color := Black));
        }
        Paint(tmp, Red, x, w);
        w := w.(color := Red);
        oright := RotateLeft(tmp, x, w);
        w := RotatedLeft(w);
        Look(x, w);
        tmp := parent.left;
      }
    }

    /** Black sibling with a red child: the rotations that end RB_REMOVE_COLOR. */
    method RemoveEndRight(parent: Node, tmp0: Node, ghost c: Path, ghost t: Tree) returns (ghost t': Tree)
      requires Spells(Plug(c, t)) && Short(c, t) && c.InRight? && c.node == parent
      requires c.left.Branch? && c.left.node == tmp0 && c.left.color == Black
      requires IsRed(c.left.right) || IsRed(c.left.left)
      modifies this`root, Nodes(Plug(c, t))
      ensures Spells(t') && RedBlack(t') && SameOrder(Plug(c, t), t')
    {
      RemoveRotated(c, t);
      var tmp := RemoveTurnRight(parent, tmp0, c, t);
      ghost var w := OuterNephew(c);
      RecolorRight(parent, tmp, c.up, t, c.color, w);
      tmp := RotateRight(parent, c.up, Branch(w.(color := c.color, left := Blackened(w.left)), parent, Black, t));
      t' := Plug(c.up, Branch(w.left.(color := Black), w.node, c.color, Branch(w.right, parent, Black, t)));
    }

    /** The three colour changes before the last rotation. */
    method RecolorRight(parent: Node, tmp: Node, ghost c: Path, ghost t: Tree, ghost p: Color, ghost w: Tree)
      requires Spells(Plug(c, Branch(w, parent, p, t)))
      requires w.Branch? && w.node == tmp
      modifies Nodes(Plug(c, Branch(w, parent, p, t)))
      ensures var w' := w.(color := p, left := Blackened(w.left));
        && Spells(Plug(c, Branch(w', parent, Black, t)))
        && SameOrder(Plug(c, Branch(w, parent, p, t)), Plug(c, Branch(w', parent, Black, t)))
    {
      ghost var w1, x := w.(color := p), InLeft(c, parent, Black, t);
      ghost var y := InLeft(x, w.node, p, w.right);
      Look(c, Branch(w, parent, p, t));
      Paint(tmp, parent.color, InLeft(c, parent, p, t), w);
      Paint(parent, Black, c, Branch(w1, parent, p, t));
      assert Plug(x, w1) == Plug(c, Branch(w1, parent, Black, t));
      assert Plug(y, w.left) == Plug(x, w1);
      Look(x, w1);
      if tmp.left != null {
        Paint(tmp.left, Black, y, w.left);
        assert Plug(y, Blackened(w.left)) == Plug(x, w1.(left := Blackened(w.left)));
      }
    }

    /** The half of the loop body of RB_REMOVE_COLOR for a short right subtree. */
    method RemoveFixRight(parent0: Node, ghost c: Path, ghost t: Tree)
      returns (elm: Node?, parent: Node?, done: bool, ghost c': Path, ghost t': Tree)
      requires Spells(Plug(c, t)) && Short(c, t) && c.InRight? && c.node == parent0
      modifies this`root, Nodes(Plug(c, t))
      ensures Spells(Plug(c', t')) && SameOrder(Plug(c, t), Plug(c', t'))
      ensures !done ==> RemoveFocus(c', t') && elm == Root(t') && parent == Parent(c')
      ensures !done ==> RemoveMeasure(c', t') < RemoveMeasure(c, t)
      ensures done ==> c'.Top? && RedBlack(t') && elm == root
    {
      var tmp;
      parent, done := parent0, false;
      tmp, c' := RemoveRedRight(parent, c, t);
      ghost var w := c'.left;
      ghost var x := InLeft(c'.up, parent, c'.color, t);
      Look(c', t);
      Look(x, w);
      LookColors(x, w);
      if (tmp.right == null || tmp.right.color == Black) && (tmp.left == null || tmp.left.color == Black) {
        RemoveBlackNephews(c', t);
        Paint(tmp, Red, x, w);
        elm := parent;
        t' := Branch(w.(color := Red), parent, c'.color, t);
        c' := c'.up;
        Look(c', t');
        parent := elm.parent;
      } else {
        t' := RemoveEndRight(parent, tmp, c', t);
        c' := Top;
        elm := root;
        done := true;
      }
    }

    /** The last line of RB_REMOVE_COLOR. */
    method RemoveFinish(elm: Node?, done: bool, ghost c: Path, ghost t: Tree)
      requires Spells(Plug(c, t)) && elm == Root(t)
      requires done ==> c.Top? && RedBlack(t)
      requires !done ==> RemoveFocus(c, t) && (elm == root || (elm != null && elm.color == Red))
      modifies this`tree, Nodes(Plug(c, t))
      ensures Spells(tree) && RedBlack(tree) && SameOrder(Plug(c, t), tree)
    {
      hide Ordered, Inorder;
      Look(c, t);
      if !c.Top? { EntryInPath(c, elm); }
      if elm != null {
        Paint(elm, Black, c, t);
      }
      tree := Plug(c, Blackened(t));
      if !done { PlugColored(c, Blackened(t)); }
    }

    /** RB_REMOVE_COLOR */
    method RemoveColor(parent0: Node?, elm0: Node?, ghost c0: Path, ghost t0: Tree)
      requires Spells(Plug(c0, t0)) && RemoveFocus(c0, t0)
      requires elm0 == Root(t0) && parent0 == Parent(c0)
      modifies this, Nodes(Plug(c0, t0))
      ensures Spells(tree) && RedBlack(tree) && SameOrder(Plug(c0, t0), tree)
    {
      hide Spells, RedBlack, RemoveFocus, Short, Ordered, Inorder;
      var elm, parent, done := elm0, parent0, false;
      ghost var c, t := c0, t0;
      LookTop(c, t);
      while (elm == null || elm.color == Black) && elm != root
        invariant Spells(Plug(c, t)) && SameOrder(Plug(c0, t0), Plug(c, t))
        invariant elm == Root(t) && parent == Parent(c) && RemoveFocus(c, t)
        invariant elm != null ==> elm in Nodes(Plug(c, t))
        decreases RemoveMeasure(c, t)
      {
        LookShort(c, t);
        if parent.left == elm {
          elm, parent, done, c, t := RemoveFixLeft(parent, c, t);
        } else {
          elm, parent, done, c, t := RemoveFixRight(parent, c, t);
        }
        if done {
          break;
        }
        LookTop(c, t);
      }
      RemoveFinish(elm, done, c, t);
    }

    lemma LookTop(c: Path, t: Tree)
      requires Spells(Plug(c, t))
      ensures t.Branch? ==> t.node in Nodes(Plug(c, t)) && t.node.color == t.color
    {
      Look(c, t);
    }

    /** The loop of RB_REMOVE_COLOR goes on below a parent, on the side it is on. */
    lemma LookShort(c: Path, t: Tree)
      requires Spells(Plug(c, t)) && RemoveFocus(c, t)
      requires (t.Leaf? || t.node.color == Black) && Root(t) != root
      ensures Short(c, t) && Parent(c) != null && Parent(c) in Nodes(Plug(c, t))
      ensures if Parent(c).left == Root(t) then c.InLeft? else c.InRight?
    {
      Look(c, t);
      LookSide(c, t);
    }

    /** The lines of RB_REMOVE that put a child in the place of its parent elm. */
    method Splice(elm: Node, child: Node?, parent: Node?, ghost c: Path, ghost t: Tree, ghost kid: Tree)
      requires Spells(Plug(c, t)) && t.Branch? && t.node == elm && parent == Parent(c)
      requires kid == t.left || kid == t.right
      requires child == Root(kid) && Apart(Plug(c, kid)) && Nodes(Plug(c, kid)) == Nodes(Plug(c, t)) - {elm}
      modifies this`root, Nodes(Plug(c, t)) - {elm}
      ensures Spells(Plug(c, kid))
    {
      LookAbove(c, t);
      LookChildren(c, t);
      ghost var before := Fields(Nodes(Plug(c, t)));
      if child != null {
        child.parent := parent;
      }
      if parent != null {
        if parent.left == elm {
          parent.left := child;
        } else {
          parent.right := child;
        }
      } else {
        root := child;
      }
      SplicedLinked(before, Fields(Nodes(Plug(c, kid))), c, t, kid);
    }

    /** The lines of RB_REMOVE that put elm in the place of `old`, as assignments. */
    method TransplantFields(elm: Node, out: Node)
      requires out.left != null && elm != out && out !in {out.left, out.right, out.parent}
      requires elm !in {out.left, out.right, out.parent} && out.left != out.right
      requires out.parent != null ==> out.parent !in {out.left, out.right} && (out.parent.left == out || out.parent.right == out)
      modifies this`root, elm, out.left, out.right, out.parent
      ensures elm.left == out.left && elm.right == out.right && elm.parent == out.parent && elm.color == out.color
      ensures var l := out.left;
        l.left == old(l.left) && l.right == old(l.right) && l.color == old(l.color) && l.parent == elm
      ensures var r := out.right; r != null ==>
        r.left == old(r.left) && r.right == old(r.right) && r.color == old(r.color) && r.parent == elm
      ensures var p := out.parent; p != null ==>
        && p.left == (if old(p.left) == out then elm else old(p.left))
        && p.right == (if old(p.left) == out then old(p.right) else elm)
        && p.parent == old(p.parent) && p.color == old(p.color)
      ensures root == if out.parent == null then elm else old(root)
    {
      elm.left, elm.right, elm.parent, elm.color := out.left, out.right, out.parent, out.color;
      if out.parent != null {
        if out.parent.left == out {
          out.parent.left := elm;
        } else {
          out.parent.right := elm;
        }
      } else {
        root := elm;
      }
      out.left.parent := elm;
      if out.right != null {
        out.right.parent := elm;
      }
    }

    /** The lines of RB_REMOVE that put elm in the place of `old`. */
    method Transplant(elm: Node, out: Node, ghost c: Path, ghost t: Tree)
      requires Spells(Plug(c, t)) && t.Branch? && t.node == out && t.left.Branch?
      requires elm !in Nodes(Plug(c, t)) && Apart(Plug(c, t.(node := elm)))
      requires Nodes(Plug(c, t.(node := elm))) == Nodes(Plug(c, t)) - {out} + {elm}
      modifies this`root, elm, Nodes(Plug(c, t)) - {out}
      ensures Spells(Plug(c, t.(node := elm)))
    {
      LookAbove(c, t);
      LookChildren(c, t);
      ghost var before := Fields(Nodes(Plug(c, t)));
      TransplantFields(elm, out);
      TransplantedLinked(before, Fields(Nodes(Plug(c, t.(node := elm)))), c, t, elm);
    }

    /** Where RB_REMOVE joins again: the label `color`. */
    method RemoveTail(color: Color, parent: Node?, child: Node?, ghost c: Path, ghost t: Tree)
      requires Spells(Plug(c, t)) && child == Root(t) && parent == Parent(c)
      requires TailFocus(color, c, t)
      modifies this, Nodes(Plug(c, t))
      ensures Spells(tree) && RedBlack(tree) && SameOrder(Plug(c, t), tree)
    {
      if color == Black {
        RemoveColor(parent, child, c, t);
      } else {
        tree := Plug(c, t);
      }
    }

    /** The walk to the leftmost node of the right subtree. */
    method Successor(out: Node, ghost c: Path, ghost t: Tree) returns (elm: Node, ghost s: Path, ghost y: Tree)
      requires Spells(Plug(c, t)) && t.Branch? && t.node == out && t.right.Branch?
      ensures Spells(Plug(c, t))
      ensures y.Branch? && y.left.Leaf? && y.node == elm && t.right == Plug(s, y) && Pre(s) == []
      ensures Inorder(t.right) != [] && elm == Inorder(t.right)[0]
    {
      LookChildren(c, t);
      elm := out.right;
      s, y := Top, t.right;
      ghost var base := InRight(c, t.left, out, t.color);
      PlugAppend(s, base, y);
      Look(Append(s, base), y);
      var left := elm.left;
      while left != null
        invariant Spells(Plug(c, t)) && y.Branch? && y.node == elm && t.right == Plug(s, y) && Pre(s) == []
        invariant left == Root(y.left)
        decreases y
      {
        elm := left;
        s, y := InLeft(s, y.node, y.color, y.right), y.left;
        PlugAppend(s, base, y);
        Look(Append(s, base), y);
        left := elm.left;
      }
      PlugInorder(s, y);
    }

    /** RB_REMOVE for a node with two children. */
    method RemoveInner(out: Node, ghost c: Path, ghost t: Tree)
      requires Spells(Plug(c, t)) && Ordered(Plug(c, t)) && RedBlack(Plug(c, t))
      requires t.Branch? && t.node == out && t.left.Branch? && t.right.Branch?
      modifies this, Nodes(Plug(c, t))
      ensures Spells(tree) && RedBlack(tree) && Ordered(tree)
      ensures Inorder(tree) == Without(Inorder(Plug(c, t)), out)
    {
      var elm; ghost var s, y;
      elm, s, y := Successor(out, c, t);
      ghost var p, p' := Below(c, t, out, s), Below(c, t, elm, s);
      SuccessorTrees(c, t, s, y);
      SuccessorNodes(c, t, s, y);
      LookChildren(p, y);
      var child, parent, color := elm.right, elm.parent, elm.color;
      Splice(elm, child, parent, p, y, y.right);
      if elm.parent == out {
        parent := elm;
      }
      Transplant(elm, out, c, Bereft(t, out, s, y));
      SuccessorTail(c, t, s, y);
      SuccessorOrder(c, t, s, y);
      RemoveTail(color, parent, child, p', y.right);
    }

    /** RB_REMOVE */
    method Remove(elm: Node) returns (out: Node)
      requires Valid() && elm in Nodes(tree)
      modifies this, Nodes(tree)
      ensures Valid() && out == elm
      ensures Inorder(tree) == Without(old(Inorder(tree)), elm)
      ensures Nodes(tree) == old(Nodes(tree)) - {elm}
    {
      out := elm;
      ghost var before := tree;
      ghost var c, t := Locate(Top, tree, elm);
      LookChildren(c, t);
      var child;
      ghost var kid;
      if elm.left == null {
        child, kid := elm.right, t.right;
      } else if elm.right == null {
        child, kid := elm.left, t.left;
      } else {
        RemoveInner(elm, c, t);
        NodesWithout(before, tree, elm);
        return;
      }
      SplicedColors(c, t, kid);
      SplicedOrder(c, t, kid);
      NodesWithout(tree, Plug(c, kid), elm);
      OrderedApart(Plug(c, kid));
      var parent, color := elm.parent, elm.color;
      Splice(elm, child, parent, c, t, kid);
      RemoveTail(color, parent, child, c, kid);
    }
  }
}
