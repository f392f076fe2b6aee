/**
  Looking things up in the red-black tree of tree.h and walking through it in
  order, and the height bound its header claims.
 */
module RbWalk {
  import opened RbShape
  import opened RbTree
  import opened Define

  /** Element k of s, or null beyond either end. */
  ghost function Nth(s: seq<Node>, k: int): Node? {
    if 0 <= k < |s| then s[k] else null
  }

  lemma PositionIn(a: seq<Node>, n: Node, b: seq<Node>)
    requires Increasing(a + [n] + b)
    ensures var s := a + [n] + b;
      && s[|a|] == n && s[..|a|] == a && s[|a| + 1..] == b
      && (forall i :: 0 <= i < |s| && s[i] == n ==> i == |a|)
  {
    var s := a + [n] + b;
    forall i | 0 <= i < |s| && s[i] == n ensures i == |a| {
      assert s[|a|].key == s[i].key;
    }
  }

  /** What stands before and after the root of a subtree. */
  ghost function Before(c: Path, t: Tree): seq<Node>
    requires t.Branch?
  {
    Pre(c) + Inorder(t.left)
  }

  ghost function After(c: Path, t: Tree): seq<Node>
    requires t.Branch?
  {
    Inorder(t.right) + Post(c)
  }

  /** The root of a subtree stands at one place of the in-order sequence only. */
  lemma Position(c: Path, t: Tree)
    requires t.Branch? && Ordered(Plug(c, t))
    ensures var s, p := Inorder(Plug(c, t)), |Before(c, t)|;
      && p < |s| && s[p] == t.node && s[..p] == Before(c, t) && s[p + 1..] == After(c, t)
      && (forall i :: 0 <= i < |s| && s[i] == t.node ==> i == p)
  {
    OrderedIsIncreasing(Plug(c, t));
    PlugInorder(c, t);
    Around(c, t);
    hide Inorder, Plug, Before, After, Pre, Post;
    PositionIn(Before(c, t), t.node, After(c, t));
  }

  lemma Around(c: Path, t: Tree)
    requires t.Branch?
    ensures Pre(c) + Inorder(t) + Post(c) == Before(c, t) + [t.node] + After(c, t)
  {
    RegroupAround(Pre(c), Inorder(t.left), t.node, Inorder(t.right), Post(c));
  }

  lemma RegroupAround(p: seq<Node>, l: seq<Node>, n: Node, r: seq<Node>, q: seq<Node>)
    ensures p + (l + [n] + r) + q == (p + l) + [n] + (r + q)
  {
  }

  /** RB_MINMAX */
  method MinMax(head: Head, val: int) returns (parent: Node?)
    requires head.Valid()
    ensures head.Valid()
    ensures var s := Inorder(head.tree); parent == Nth(s, if val < 0 then 0 else |s| - 1)
  {
    var tmp := head.root;
    parent := null;
    ghost var c, t := Top, head.tree;
    while tmp != null
      invariant head.Spells(Plug(c, t)) && Plug(c, t) == head.tree
      invariant tmp == Root(t) && parent == Parent(c)
      invariant if val < 0 then Pre(c) == [] && !c.InRight? else Post(c) == [] && !c.InLeft?
      decreases t
    {
      head.Look(c, t);
      parent := tmp;
      if val < 0 {
        tmp := tmp.left;
        c, t := InLeft(c, t.node, t.color, t.right), t.left;
      } else {
        tmp := tmp.right;
        c, t := InRight(c, t.left, t.node, t.color), t.right;
      }
    }
    PlugInorder(c, Leaf);
  }

  /** RB_FIND */
  method Find(head: Head, key: int) returns (tmp: Node?)
    requires head.Valid()
    ensures tmp != null ==> tmp in Nodes(head.tree) && tmp.key == key
    ensures tmp == null ==> forall m :: m in Nodes(head.tree) ==> m.key != key
  {
    var parent, comp; ghost var c, t;
    tmp, parent, comp, c, t := head.Descend(key);
    PlugNodes(c, t);
    if tmp == null { NewKey(c, key); }
  }

  /** RB_NFIND */
  method NFind(head: Head, key: int) returns (res: Node?)
    requires head.Valid()
    ensures res == null ==> forall m :: m in Nodes(head.tree) ==> m.key < key
    ensures res != null ==> res in Nodes(head.tree) && key <= res.key
    ensures res != null ==> forall m :: m in Nodes(head.tree) && key <= m.key ==> res.key <= m.key
  {
    var tmp := head.root;
    res := null;
    ghost var c, t := Top, head.tree;
    while tmp != null
      invariant head.Spells(Plug(c, t)) && Plug(c, t) == head.tree && tmp == Root(t)
      invariant OrderedAt(c, t) && Between(c, key) && res == Nth(Post(c), 0)
      decreases t
    {
      head.Look(c, t);
      if key < tmp.key {
        res := tmp;
        tmp := tmp.left;
        c, t := InLeft(c, t.node, t.color, t.right), t.left;
      } else if key > tmp.key {
        tmp := tmp.right;
        c, t := InRight(c, t.left, t.node, t.color), t.right;
      } else {
        PlugNodes(c, t);
        return tmp;
      }
      PlugOrdered(c, t);
    }
    LeastAbove(c, key);
  }

  lemma LeastOf(a: seq<Node>, b: seq<Node>, key: int, m: Node)
    requires Increasing(a + b) && m in a + b
    requires forall i :: 0 <= i < |a| ==> a[i].key < key
    ensures m.key < key || (b != [] && b[0].key <= m.key)
  {
    var i :| 0 <= i < |a + b| && (a + b)[i] == m;
    assert i >= |a| ==> (a + b)[i] == b[i - |a|] && (a + b)[|a|] == b[0];
  }

  /** The first node after an empty hole is the least one above the hole. */
  lemma LeastAbove(c: Path, key: int)
    requires OrderedPath(c) && Between(c, key) && Ordered(Plug(c, Leaf))
    ensures var res := Nth(Post(c), 0); res != null ==> res in Nodes(Plug(c, Leaf)) && key <= res.key
    ensures var res := Nth(Post(c), 0); forall m :: m in Nodes(Plug(c, Leaf)) ==>
      m.key < key || (res != null && res.key <= m.key)
  {
    PlugNodes(c, Leaf);
    AroundHole(c, key);
    SplitAtHole(c);
    forall m | m in Nodes(Plug(c, Leaf)) ensures m.key < key || (Post(c) != [] && Post(c)[0].key <= m.key) {
      InorderNode(Plug(c, Leaf), m);
      LeastOf(Pre(c), Post(c), key, m);
    }
    if Post(c) != [] {
      InorderNode(Plug(c, Leaf), Post(c)[0]);
      assert (Pre(c) + Post(c))[|Pre(c)|] == Post(c)[0];
    }
  }

  lemma SplitAtHole(c: Path)
    requires Ordered(Plug(c, Leaf))
    ensures Inorder(Plug(c, Leaf)) == Pre(c) + Post(c) && Increasing(Pre(c) + Post(c))
  {
    PlugInorder(c, Leaf);
    assert Pre(c) + [] + Post(c) == Pre(c) + Post(c);
    OrderedIsIncreasing(Plug(c, Leaf));
  }

  /** The first half of RB_NEXT: the leftmost node of the right subtree. */
  method NextBelow(head: Head, elm0: Node, ghost c: Path, ghost t: Tree) returns (elm: Node)
    requires head.Spells(head.tree) && Plug(c, t) == head.tree && t.Branch? && t.node == elm0 && t.right.Branch?
    ensures head.Spells(head.tree)
    ensures elm == Nth(After(c, t), 0)
  {
    head.LookChildren(c, t);
    elm := elm0.right;
    ghost var b, u := InRight(c, t.left, t.node, t.color), t.right;
    head.LookChildren(b, u);
    while elm.left != null
      invariant head.Spells(Plug(b, u)) && Plug(b, u) == head.tree
      invariant u.Branch? && elm == u.node && elm.left == Root(u.left)
      invariant Inorder(u) + Post(b) == After(c, t)
      decreases u
    {
      elm := elm.left;
      CutLeft(b, u);
      b, u := InLeft(b, u.node, u.color, u.right), u.left;
      head.LookChildren(b, u);
    }
    assert Inorder(u) + Post(b) == [elm] + (Inorder(u.right) + Post(b));
  }

  lemma CutLeft(b: Path, u: Tree)
    requires u.Branch?
    ensures Inorder(u.left) + Post(InLeft(b, u.node, u.color, u.right)) == Inorder(u) + Post(b)
  {
  }

  /** The second half of RB_NEXT: up to the first node entered from its left. */
  method NextAbove(head: Head, elm0: Node, ghost c0: Path, ghost t0: Tree) returns (elm: Node?)
    requires head.Spells(head.tree) && Plug(c0, t0) == head.tree && t0.Branch? && t0.node == elm0
    ensures head.Spells(head.tree)
    ensures elm == Nth(Post(c0), 0)
  {
    elm := elm0;
    ghost var c, t := c0, t0;
    head.LookAbove(c, t);
    head.LookChildren(c, t);
    if elm.parent != null && elm == elm.parent.left {
      elm := elm.parent;
    } else {
      while elm.parent != null && elm == elm.parent.right
        invariant head.Spells(Plug(c, t)) && Plug(c, t) == head.tree
        invariant t.Branch? && elm == t.node && elm.parent == Parent(c)
        invariant Post(c) == Post(c0)
        decreases c
      {
        head.LookAbove(c, t);
        elm := elm.parent;
        c, t := c.up, Grown(c, t);
        head.LookChildren(c, t);
      }
      head.LookAbove(c, t);
      elm := elm.parent;
    }
  }

  /** RB_NEXT */
  method Next(head: Head, elm: Node) returns (next: Node?)
    requires head.Valid() && elm in Nodes(head.tree)
    ensures head.Valid()
    ensures var s := Inorder(head.tree); forall i :: 0 <= i < |s| && s[i] == elm ==> next == Nth(s, i + 1)
  {
    ghost var c, t := Locate(Top, head.tree, elm);
    Position(c, t);
    head.LookChildren(c, t);
    if elm.right != null {
      next := NextBelow(head, elm, c, t);
    } else {
      next := NextAbove(head, elm, c, t);
      assert After(c, t) == Post(c);
    }
    ghost var s, p := Inorder(head.tree), |Before(c, t)|;
    assert Nth(s, p + 1) == Nth(s[p + 1..], 0);
  }

  /** The first half of RB_PREV: the rightmost node of the left subtree. */
  method PrevBelow(head: Head, elm0: Node, ghost c: Path, ghost t: Tree) returns (elm: Node)
    requires head.Spells(head.tree) && Plug(c, t) == head.tree && t.Branch? && t.node == elm0 && t.left.Branch?
    ensures head.Spells(head.tree)
    ensures elm == Nth(Before(c, t), |Before(c, t)| - 1)
  {
    head.LookChildren(c, t);
    elm := elm0.left;
    ghost var b, u := InLeft(c, t.node, t.color, t.right), t.left;
    head.LookChildren(b, u);
    while elm.right != null
      invariant head.Spells(Plug(b, u)) && Plug(b, u) == head.tree
      invariant u.Branch? && elm == u.node && elm.right == Root(u.right)
      invariant Pre(b) + Inorder(u) == Before(c, t)
      decreases u
    {
      elm := elm.right;
      CutRight(b, u);
      b, u := InRight(b, u.left, u.node, u.color), u.right;
      head.LookChildren(b, u);
    }
    assert Pre(b) + Inorder(u) == Pre(b) + Inorder(u.left) + [elm];
  }

  lemma CutRight(b: Path, u: Tree)
    requires u.Branch?
    ensures Pre(InRight(b, u.left, u.node, u.color)) + Inorder(u.right) == Pre(b) + Inorder(u)
  {
  }

  /** The second half of RB_PREV: up to the first node entered from its right. */
  method PrevAbove(head: Head, elm0: Node, ghost c0: Path, ghost t0: Tree) returns (elm: Node?)
    requires head.Spells(head.tree) && Plug(c0, t0) == head.tree && t0.Branch? && t0.node == elm0
    ensures head.Spells(head.tree)
    ensures elm == Nth(Pre(c0), |Pre(c0)| - 1)
  {
    elm := elm0;
    ghost var c, t := c0, t0;
    head.LookAbove(c, t);
    head.LookChildren(c, t);
    if elm.parent != null && elm == elm.parent.right {
      elm := elm.parent;
    } else {
      while elm.parent != null && elm == elm.parent.left
        invariant head.Spells(Plug(c, t)) && Plug(c, t) == head.tree
        invariant t.Branch? && elm == t.node && elm.parent == Parent(c)
        invariant Pre(c) == Pre(c0)
        decreases c
      {
        head.LookAbove(c, t);
        elm := elm.parent;
        c, t := c.up, Grown(c, t);
        head.LookChildren(c, t);
      }
      head.LookAbove(c, t);
      elm := elm.parent;
    }
  }

  /** RB_PREV */
  method Prev(head: Head, elm: Node) returns (prev: Node?)
    requires head.Valid() && elm in Nodes(head.tree)
    ensures head.Valid()
    ensures var s := Inorder(head.tree); forall i :: 0 <= i < |s| && s[i] == elm ==> prev == Nth(s, i - 1)
  {
    ghost var c, t := Locate(Top, head.tree, elm);
    Position(c, t);
    head.LookChildren(c, t);
    if elm.left != null {
      prev := PrevBelow(head, elm, c, t);
    } else {
      prev := PrevAbove(head, elm, c, t);
      assert Before(c, t) == Pre(c);
    }
    ghost var s, p := Inorder(head.tree), |Before(c, t)|;
    assert Nth(s, p - 1) == Nth(s[..p], p - 1);
  }

  /** RB_FOREACH with a body that records the node. */
  method ForEach(head: Head) returns (visited: seq<Node>)
    requires head.Valid()
    ensures visited == Inorder(head.tree) && Increasing(visited)
    ensures forall m :: m in visited <==> m in Nodes(head.tree)
  {
    visited := [];
    ghost var s := Inorder(head.tree);
    OrderedIsIncreasing(head.tree);
    var x := MinMax(head, -1);
    while x != null
      invariant head.Valid() && s == Inorder(head.tree)
      invariant |visited| <= |s| && visited == s[..|visited|] && x == Nth(s, |visited|)
      decreases |s| - |visited|
    {
      InorderNode(head.tree, x);
      visited := visited + [x];
      x := Next(head, x);
    }
    forall m ensures m in visited <==> m in Nodes(head.tree) {
      InorderNode(head.tree, m);
    }
  }

  /** RB_FOREACH_REVERSE with a body that records the node. */
  method ForEachReverse(head: Head) returns (visited: seq<Node>)
    requires head.Valid()
    ensures |visited| == |Inorder(head.tree)|
    ensures forall i :: 0 <= i < |visited| ==> visited[i] == Inorder(head.tree)[|visited| - 1 - i]
  {
    visited := [];
    ghost var s := Inorder(head.tree);
    var x := MinMax(head, 1);
    while x != null
      invariant head.Valid() && s == Inorder(head.tree)
      invariant |visited| <= |s| && x == Nth(s, |s| - 1 - |visited|)
      invariant forall i :: 0 <= i < |visited| ==> visited[i] == s[|s| - 1 - i]
      decreases |s| - |visited|
    {
      InorderNode(head.tree, x);
      visited := visited + [x];
      x := Prev(head, x);
    }
  }

  // ---------------------------------------------------------------- height

  ghost function Height(t: Tree): nat {
    match t
    case Leaf => 0
    case Branch(l, _, _, r) => 1 + if Height(l) < Height(r) then Height(r) else Height(l)
  }

  /** How many nodes are above the hole. */
  ghost function Depth(c: Path): nat {
    if c.Top? then 0 else 1 + Depth(c.up)
  }

  /** No node lies deeper than the height ... */
  lemma {:induction false} NodeDepth(c: Path, s: Tree)
    ensures Depth(c) + Height(s) <= Height(Plug(c, s))
    decreases c
  {
    match c
    case Top =>
    case InLeft(up, n, col, r) => NodeDepth(up, Branch(s, n, col, r));
    case InRight(up, l, n, col) => NodeDepth(up, Branch(l, n, col, s));
  }

  /** ... and some node lies that deep. */
  lemma {:induction false} DeepestNode(c: Path, t: Tree) returns (c': Path, s: Tree)
    requires t.Branch?
    ensures s.Branch? && Plug(c', s) == Plug(c, t) && Depth(c') + 1 == Depth(c) + Height(t)
    decreases t
  {
    c', s := c, t;
    if t.left.Branch? && Height(t.left) >= Height(t.right) {
      c', s := DeepestNode(InLeft(c, t.node, t.color, t.right), t.left);
    } else if t.right.Branch? {
      c', s := DeepestNode(InRight(c, t.left, t.node, t.color), t.right);
    }
  }

  lemma {:induction false} Pow2Sum(a: nat, b: nat)
    ensures Pow2(a + b) == Pow2(a) * Pow2(b)
  {
    if b > 0 { Pow2Sum(a, b - 1); }
  }

  lemma {:induction false} Pow2Grows(a: nat, b: nat)
    requires a <= b
    ensures 0 < Pow2(a) <= Pow2(b)
  {
    if a < b { Pow2Grows(a, b - 1); } else if a > 0 { Pow2Grows(a - 1, b - 1); }
  }

  /** A tree of black height b holds at least 2^b - 1 nodes, and its height is
      at most twice b, one more if its root is red. */
  lemma {:induction false} BlackHeightBounds(t: Tree)
    requires Colored(t)
    ensures Pow2(BlackHeight(t)) <= |Inorder(t)| + 1
    ensures Height(t) <= 2 * BlackHeight(t) + if IsRed(t) then 1 else 0
  {
    match t
    case Leaf =>
    case Branch(l, _, _, r) =>
      BlackHeightBounds(l);
      BlackHeightBounds(r);
  }

  lemma SquareGrows(a: nat, b: nat)
    requires a <= b
    ensures a * a <= b * b
  {
    assert b * b - a * a == (b - a) * (b + a);
  }

  /** The bound 2 lg(n + 1) on the height h, as 2^h <= (n + 1)^2. */
  lemma HeightBound(t: Tree)
    requires RedBlack(t)
    ensures Pow2(Height(t)) <= (|Inorder(t)| + 1) * (|Inorder(t)| + 1)
  {
    var b := BlackHeight(t);
    BlackHeightBounds(t);
    Pow2Grows(Height(t), b + b);
    Pow2Sum(b, b);
    SquareGrows(Pow2(b), |Inorder(t)| + 1);
  }
}
