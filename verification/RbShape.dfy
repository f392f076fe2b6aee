/**
  The abstract side of the red-black tree of tree.h: nodes, the tree a set of
  nodes realises, and paths (a tree with one subtree cut out) that say where
  the fix-up loops currently stand.
 */
module RbShape {

  datatype Color = Black | Red

  /** RB_ENTRY plus the key that the comparison macro looks at. */
  class Node {
    const key: int
    var left: Node?
    var right: Node?
    var parent: Node?
    var color: Color

    constructor (key: int)
      ensures this.key == key
    {
      this.key := key;
      left, right, parent, color := null, null, null, Black;
    }
  }

  datatype Tree = Leaf | Branch(left: Tree, node: Node, color: Color, right: Tree)

  /** A tree with a hole: the nodes above the hole, innermost first. */
  datatype Path =
    | Top
    | InLeft(up: Path, node: Node, color: Color, right: Tree)
    | InRight(up: Path, left: Tree, node: Node, color: Color)

  // ---------------------------------------------------------------- contents

  ghost function Nodes(t: Tree): set<Node> {
    match t
    case Leaf => {}
    case Branch(l, n, _, r) => Nodes(l) + {n} + Nodes(r)
  }

  ghost function PathNodes(c: Path): set<Node> {
    match c
    case Top => {}
    case InLeft(up, n, _, r) => PathNodes(up) + {n} + Nodes(r)
    case InRight(up, l, n, _) => PathNodes(up) + {n} + Nodes(l)
  }

  ghost function Inorder(t: Tree): seq<Node> {
    match t
    case Leaf => []
    case Branch(l, n, _, r) => Inorder(l) + [n] + Inorder(r)
  }

  /** What comes before the hole in the in-order sequence. */
  ghost function Pre(c: Path): seq<Node> {
    match c
    case Top => []
    case InLeft(up, _, _, _) => Pre(up)
    case InRight(up, l, n, _) => Pre(up) + Inorder(l) + [n]
  }

  /** What comes after the hole in the in-order sequence. */
  ghost function Post(c: Path): seq<Node> {
    match c
    case Top => []
    case InLeft(up, n, _, r) => [n] + Inorder(r) + Post(up)
    case InRight(up, _, _, _) => Post(up)
  }

  ghost function Plug(c: Path, t: Tree): Tree {
    match c
    case Top => t
    case InLeft(up, n, col, r) => Plug(up, Branch(t, n, col, r))
    case InRight(up, l, n, col) => Plug(up, Branch(l, n, col, t))
  }

  ghost function Root(t: Tree): Node? {
    if t.Leaf? then null else t.node
  }

  ghost function Depth(c: Path): nat {
    if c.Top? then 0 else 1 + Depth(c.up)
  }

  /** t together with the innermost node of c and its other subtree. */
  ghost function Grown(c: Path, t: Tree): (g: Tree)
    requires !c.Top?
    ensures g.Branch?
  {
    if c.InLeft? then Branch(t, c.node, c.color, c.right) else Branch(c.left, c.node, c.color, t)
  }

  /** The node whose child field is the hole. */
  ghost function Parent(c: Path): Node? {
    if c.Top? then null else c.node
  }

  /** The root of the plugged tree when `hole` is the root of what is plugged in. */
  ghost function Entry(c: Path, hole: Node?): Node? {
    match c
    case Top => hole
    case InLeft(up, n, _, _) => Entry(up, n)
    case InRight(up, _, n, _) => Entry(up, n)
  }

  lemma {:induction false} EntryInPath(c: Path, hole: Node?)
    requires !c.Top?
    ensures Entry(c, hole) != null && Entry(c, hole) in PathNodes(c)
  {
    if !c.up.Top? { EntryInPath(c.up, c.node); }
  }

  // ---------------------------------------------------------------- order

  ghost predicate Ordered(t: Tree) {
    match t
    case Leaf => true
    case Branch(l, n, _, r) =>
      && Ordered(l) && Ordered(r)
      && (forall m :: m in Nodes(l) ==> m.key < n.key)
      && (forall m :: m in Nodes(r) ==> n.key < m.key)
  }

  /** No two nodes have the same key. */
  lemma {:induction false} OneNodeAKey(t: Tree, m: Node, m': Node)
    requires Ordered(t) && m in Nodes(t) && m' in Nodes(t) && m.key == m'.key
    ensures m == m'
  {
    if m in Nodes(t.left) && m' in Nodes(t.left) {
      OneNodeAKey(t.left, m, m');
    } else if m in Nodes(t.right) && m' in Nodes(t.right) {
      OneNodeAKey(t.right, m, m');
    }
  }

  /** Key k may stand in the hole of c. */
  ghost predicate Between(c: Path, k: int) {
    match c
    case Top => true
    case InLeft(up, n, _, _) => k < n.key && Between(up, k)
    case InRight(up, _, n, _) => n.key < k && Between(up, k)
  }

  ghost predicate AllBetween(c: Path, t: Tree) {
    forall m :: m in Nodes(t) ==> Between(c, m.key)
  }

  ghost predicate OrderedPath(c: Path) {
    match c
    case Top => true
    case InLeft(up, n, _, r) =>
      && OrderedPath(up) && Between(up, n.key)
      && Ordered(r) && AllBetween(up, r)
      && (forall m :: m in Nodes(r) ==> n.key < m.key)
    case InRight(up, l, n, _) =>
      && OrderedPath(up) && Between(up, n.key)
      && Ordered(l) && AllBetween(up, l)
      && (forall m :: m in Nodes(l) ==> m.key < n.key)
  }

  ghost predicate OrderedAt(c: Path, t: Tree) {
    OrderedPath(c) && Ordered(t) && AllBetween(c, t)
  }

  /** Nodes of the path never have a key that fits the hole. */
  lemma PathNodesOutside(c: Path, m: Node)
    requires OrderedPath(c) && m in PathNodes(c)
    ensures !Between(c, m.key)
  {
  }

  // ---------------------------------------------------------------- separation

  ghost predicate Apart(t: Tree) {
    match t
    case Leaf => true
    case Branch(l, n, _, r) =>
      Apart(l) && Apart(r) && n !in Nodes(l) && n !in Nodes(r) && Nodes(l) !! Nodes(r)
  }

  ghost predicate ApartPath(c: Path) {
    match c
    case Top => true
    case InLeft(up, n, _, r) =>
      ApartPath(up) && Apart(r) && n !in PathNodes(up) && n !in Nodes(r) && PathNodes(up) !! Nodes(r)
    case InRight(up, l, n, _) =>
      ApartPath(up) && Apart(l) && n !in PathNodes(up) && n !in Nodes(l) && PathNodes(up) !! Nodes(l)
  }

  /** No node is used twice in c and t. */
  ghost predicate ApartAt(c: Path, t: Tree) {
    ApartPath(c) && Apart(t) && PathNodes(c) !! Nodes(t)
  }

  lemma {:induction false} OrderedApart(t: Tree)
    requires Ordered(t)
    ensures Apart(t)
  {
    match t
    case Leaf =>
    case Branch(l, _, _, r) =>
      OrderedApart(l);
      OrderedApart(r);
  }

  lemma {:induction false} OrderedApartPath(c: Path)
    requires OrderedPath(c)
    ensures ApartPath(c)
  {
    if !c.Top? {
      OrderedApartPath(c.up);
      OrderedApart(if c.InLeft? then c.right else c.left);
      forall m | m in PathNodes(c.up) ensures !Between(c.up, m.key) {
        PathNodesOutside(c.up, m);
      }
    }
  }

  /** Plugging keeps the in-order sequence, the nodes and the root. */
  lemma {:induction false} PlugInorder(c: Path, t: Tree)
    ensures Inorder(Plug(c, t)) == Pre(c) + Inorder(t) + Post(c)
  {
    match c
    case Top =>
    case InLeft(up, n, col, r) =>
      PlugInorder(up, Branch(t, n, col, r));
      SeqAssoc(Pre(up), Inorder(t), [n] + Inorder(r), Post(up));
    case InRight(up, l, n, col) =>
      PlugInorder(up, Branch(l, n, col, t));
      SeqAssoc(Pre(up), Inorder(l) + [n], Inorder(t), Post(up));
  }

  lemma SeqAssoc<T>(a: seq<T>, b: seq<T>, c: seq<T>, d: seq<T>)
    ensures a + (b + c) + d == a + b + (c + d) == (a + b) + c + d
  {
  }

  lemma {:induction false} PlugNodes(c: Path, t: Tree)
    ensures Nodes(Plug(c, t)) == PathNodes(c) + Nodes(t)
    ensures Root(Plug(c, t)) == Entry(c, Root(t))
  {
    match c
    case Top =>
    case InLeft(up, n, col, r) =>
      PlugNodes(up, Branch(t, n, col, r));
    case InRight(up, l, n, col) =>
      PlugNodes(up, Branch(l, n, col, t));
  }

  lemma {:induction false} PlugOrdered(c: Path, t: Tree)
    ensures OrderedAt(c, t) <==> Ordered(Plug(c, t))
  {
    match c
    case Top =>
    case InLeft(up, n, col, r) =>
      PlugOrdered(up, Branch(t, n, col, r));
      assert AllBetween(up, Branch(t, n, col, r)) <==>
             AllBetween(up, t) && Between(up, n.key) && AllBetween(up, r);
      assert AllBetween(c, t) <==> AllBetween(up, t) && (forall m :: m in Nodes(t) ==> m.key < n.key);
    case InRight(up, l, n, col) =>
      PlugOrdered(up, Branch(l, n, col, t));
      assert AllBetween(up, Branch(l, n, col, t)) <==>
             AllBetween(up, t) && Between(up, n.key) && AllBetween(up, l);
      assert AllBetween(c, t) <==> AllBetween(up, t) && (forall m :: m in Nodes(t) ==> n.key < m.key);
  }

  /** The in-order sequence of an ordered tree is strictly increasing. */
  ghost predicate Increasing(s: seq<Node>) {
    forall i, j :: 0 <= i < j < |s| ==> s[i].key < s[j].key
  }

  lemma {:induction false} InorderNode(t: Tree, m: Node)
    ensures m in Inorder(t) <==> m in Nodes(t)
  {
    match t
    case Leaf =>
    case Branch(l, n, _, r) =>
      InorderNode(l, m);
      InorderNode(r, m);
  }

  lemma {:induction false} OrderedIsIncreasing(t: Tree)
    requires Ordered(t)
    ensures Increasing(Inorder(t))
  {
    match t
    case Leaf =>
    case Branch(l, n, _, r) =>
      OrderedIsIncreasing(l);
      OrderedIsIncreasing(r);
      var a, b := Inorder(l), Inorder(r);
      forall m | m in a ensures m.key < n.key { InorderNode(l, m); }
      forall m | m in b ensures n.key < m.key { InorderNode(r, m); }
      IncreasingAround(a, n, b);
  }

  lemma IncreasingAround(a: seq<Node>, n: Node, b: seq<Node>)
    requires Increasing(a) && Increasing(b)
    requires forall m :: m in a ==> m.key < n.key
    requires forall m :: m in b ==> n.key < m.key
    ensures Increasing(a + [n] + b)
  {
    var s := a + [n] + b;
    forall i, j | 0 <= i < j < |s| ensures s[i].key < s[j].key {
      assert i < |a| ==> s[i] in a;
      assert |a| < j ==> s[j] == b[j - |a| - 1] && s[j] in b;
      assert |a| < i ==> s[i] == b[i - |a| - 1];
    }
  }

  // ---------------------------------------------------------------- search

  lemma IncreasingParts(a: seq<Node>, n: Node, b: seq<Node>)
    requires Increasing(a + [n] + b)
    ensures Increasing(a) && Increasing(b)
    ensures forall m :: m in a ==> m.key < n.key
    ensures forall m :: m in b ==> n.key < m.key
  {
    var s := a + [n] + b;
    assert forall i :: 0 <= i < |a| ==> s[i] == a[i];
    assert forall i :: 0 <= i < |b| ==> s[|a| + 1 + i] == b[i];
    assert s[|a|] == n;
  }

  /** A tree whose in-order sequence is strictly increasing is ordered. */
  lemma {:induction false} IncreasingIsOrdered(t: Tree)
    requires Increasing(Inorder(t))
    ensures Ordered(t)
  {
    match t
    case Leaf =>
    case Branch(l, n, _, r) =>
      IncreasingParts(Inorder(l), n, Inorder(r));
      IncreasingIsOrdered(l);
      IncreasingIsOrdered(r);
      forall m | m in Nodes(l) ensures m.key < n.key { InorderNode(l, m); }
      forall m | m in Nodes(r) ensures n.key < m.key { InorderNode(r, m); }
  }

  /** What stands before and after a hole is smaller and larger than what fits. */
  lemma {:induction false} AroundHole(c: Path, k: int)
    requires OrderedPath(c) && Between(c, k)
    ensures forall i :: 0 <= i < |Pre(c)| ==> Pre(c)[i].key < k
    ensures forall i :: 0 <= i < |Post(c)| ==> k < Post(c)[i].key
  {
    match c
    case Top =>
    case InLeft(up, n, _, r) =>
      AroundHole(up, k);
      forall i | 0 <= i < |Inorder(r)| ensures k < Inorder(r)[i].key {
        InorderNode(r, Inorder(r)[i]);
      }
    case InRight(up, l, n, _) =>
      AroundHole(up, k);
      forall i | 0 <= i < |Inorder(l)| ensures Inorder(l)[i].key < k {
        InorderNode(l, Inorder(l)[i]);
      }
  }

  /** The reference for RB_INSERT: n at its place in an increasing sequence. */
  ghost function Inserted(s: seq<Node>, n: Node): seq<Node> {
    if s == [] || n.key < s[0].key then [n] + s else [s[0]] + Inserted(s[1..], n)
  }

  lemma {:induction false} InsertedBetween(a: seq<Node>, b: seq<Node>, n: Node)
    requires forall i :: 0 <= i < |a| ==> a[i].key < n.key
    requires forall i :: 0 <= i < |b| ==> n.key < b[i].key
    ensures Inserted(a + b, n) == a + [n] + b
  {
    if a == [] {
      assert a + b == b;
    } else {
      InsertedBetween(a[1..], b, n);
      assert (a + b)[1..] == a[1..] + b;
      assert a + [n] + b == [a[0]] + (a[1..] + [n] + b);
    }
  }

  /** A node put into an empty hole that its key fits. */
  lemma InsertPlace(c: Path, n: Node)
    requires OrderedPath(c) && Between(c, n.key)
    ensures Ordered(Plug(c, Branch(Leaf, n, Red, Leaf)))
    ensures Nodes(Plug(c, Branch(Leaf, n, Red, Leaf))) == Nodes(Plug(c, Leaf)) + {n}
  {
    var t := Branch(Leaf, n, Red, Leaf);
    assert Nodes(t) == {n} && Ordered(t);
    PlugNodes(c, Leaf);
    PlugNodes(c, t);
    PlugOrdered(c, t);
  }

  lemma InsertOrder(c: Path, n: Node)
    requires OrderedPath(c) && Between(c, n.key)
    ensures Inorder(Plug(c, Branch(Leaf, n, Red, Leaf))) == Inserted(Inorder(Plug(c, Leaf)), n)
  {
    var a, b := Pre(c), Post(c);
    AroundHole(c, n.key);
    InsertedBetween(a, b, n);
    assert a + Inorder(Leaf) + b == a + b;
    assert Inorder(Branch(Leaf, n, Red, Leaf)) == [n];
    PlugInorder(c, Leaf);
    PlugInorder(c, Branch(Leaf, n, Red, Leaf));
  }

  lemma NewKey(c: Path, k: int)
    requires OrderedPath(c) && Between(c, k)
    ensures forall m :: m in Nodes(Plug(c, Leaf)) ==> m.key != k
  {
    PlugNodes(c, Leaf);
    forall m | m in PathNodes(c) ensures m.key != k {
      PathNodesOutside(c, m);
    }
  }

  // ---------------------------------------------------------------- removal

  /** The reference for RB_REMOVE: the sequence without n. */
  ghost function Without(s: seq<Node>, n: Node): seq<Node> {
    if s == [] then [] else (if s[0] == n then [] else [s[0]]) + Without(s[1..], n)
  }

  lemma {:induction false} WithoutNone(s: seq<Node>, n: Node)
    requires n !in s
    ensures Without(s, n) == s
  {
    if s != [] { WithoutNone(s[1..], n); }
  }

  lemma {:induction false} WithoutOne(a: seq<Node>, n: Node, b: seq<Node>)
    requires n !in a && n !in b
    ensures Without(a + [n] + b, n) == a + b
  {
    if a == [] {
      assert [] + [n] + b == [n] + b && [] + b == b;
      WithoutNone(b, n);
    } else {
      WithoutOne(a[1..], n, b);
      assert a + [n] + b == [a[0]] + (a[1..] + [n] + b);
      assert a + b == [a[0]] + (a[1..] + b);
    }
  }

  /** Taking an element out of an increasing sequence. */
  lemma IncreasingWithout(a: seq<Node>, n: Node, b: seq<Node>)
    requires Increasing(a + [n] + b)
    ensures n !in a && n !in b && Increasing(a + b)
  {
    var s := a + [n] + b;
    assert s[|a|] == n;
    assert forall i :: 0 <= i < |a| ==> s[i] == a[i];
    assert forall i :: 0 <= i < |b| ==> s[|a| + 1 + i] == b[i];
    forall i, j | 0 <= i < j < |a + b| ensures (a + b)[i].key < (a + b)[j].key {
      assert (a + b)[i] == s[if i < |a| then i else i + 1];
      assert (a + b)[j] == s[if j < |a| then j else j + 1];
    }
  }

  /** Path s continued by path c. */
  ghost function Append(s: Path, c: Path): Path {
    match s
    case Top => c
    case InLeft(up, n, col, r) => InLeft(Append(up, c), n, col, r)
    case InRight(up, l, n, col) => InRight(Append(up, c), l, n, col)
  }

  lemma {:induction false} PlugAppend(s: Path, c: Path, t: Tree)
    ensures Plug(Append(s, c), t) == Plug(c, Plug(s, t))
    ensures Parent(Append(s, c)) == if s.Top? then Parent(c) else Parent(s)
  {
    match s
    case Top =>
    case InLeft(up, n, col, r) => PlugAppend(up, c, Branch(t, n, col, r));
    case InRight(up, l, n, col) => PlugAppend(up, c, Branch(l, n, col, t));
  }

  /** Colours do not depend on which node stands at the far end of a path. */
  lemma {:induction false} ColoredAppend(s: Path, c: Path, c': Path, h: nat)
    requires c.InRight? && c'.InRight? && c' == c.(node := c'.node)
    ensures ColoredPath(Append(s, c), h) <==> ColoredPath(Append(s, c'), h)
    ensures ParentRed(Append(s, c)) <==> ParentRed(Append(s, c'))
  {
    if !s.Top? {
      ColoredAppend(s.up, c, c', h + if s.color == Black then 1 else 0);
    }
  }

  lemma CutSequence(p: seq<Node>, l: seq<Node>, n: Node, r: seq<Node>, q: seq<Node>)
    requires Increasing(p + (l + [n] + r) + q)
    ensures Increasing(p + (l + r) + q)
    ensures Without(p + (l + [n] + r) + q, n) == p + (l + r) + q
  {
    assert p + (l + [n] + r) + q == (p + l) + [n] + (r + q);
    assert p + (l + r) + q == (p + l) + (r + q);
    IncreasingWithout(p + l, n, r + q);
    WithoutOne(p + l, n, r + q);
  }

  /** A subtree with an empty side gives way to its other side. */
  lemma SplicedOrder(c: Path, t: Tree, child: Tree)
    requires t.Branch? && Ordered(Plug(c, t))
    requires Inorder(child) == Inorder(t.left) + Inorder(t.right)
    ensures Inorder(Plug(c, child)) == Without(Inorder(Plug(c, t)), t.node)
    ensures Ordered(Plug(c, child))
  {
    OrderedIsIncreasing(Plug(c, t));
    PlugInorder(c, t);
    CutSequence(Pre(c), Inorder(t.left), t.node, Inorder(t.right), Post(c));
    PlugInorder(c, child);
    IncreasingIsOrdered(Plug(c, child));
  }

  lemma {:induction false} WithoutMembers(s: seq<Node>, n: Node, m: Node)
    ensures m in Without(s, n) <==> m in s && m != n
  {
    if s != [] { WithoutMembers(s[1..], n, m); }
  }

  lemma NodesWithout(t: Tree, t': Tree, n: Node)
    requires Inorder(t') == Without(Inorder(t), n)
    ensures Nodes(t') == Nodes(t) - {n}
  {
    forall m | m in Nodes(t') ensures m in Nodes(t) - {n} {
      InorderNode(t, m);
      InorderNode(t', m);
      WithoutMembers(Inorder(t), n, m);
    }
    forall m | m in Nodes(t) - {n} ensures m in Nodes(t') {
      InorderNode(t, m);
      InorderNode(t', m);
      WithoutMembers(Inorder(t), n, m);
    }
  }

  /** The successor of t's root leaves its place below s and takes over the root. */
  lemma SuccessorOrder(c: Path, t: Tree, s: Path, y: Tree)
    requires t.Branch? && Ordered(Plug(c, t)) && t.right == Plug(s, y) && Pre(s) == []
    requires y.Branch? && y.left.Leaf?
    ensures var t' := Branch(t.left, y.node, t.color, Plug(s, y.right));
      && Inorder(Plug(c, t')) == Without(Inorder(Plug(c, t)), t.node)
      && Ordered(Plug(c, t'))
  {
    var t' := Branch(t.left, y.node, t.color, Plug(s, y.right));
    PlugInorder(s, y);
    PlugInorder(s, y.right);
    assert Inorder(t.right) == [y.node] + Inorder(Plug(s, y.right));
    SplicedOrder(c, t, t');
  }

  // ---------------------------------------------------------------- rotation

  ghost function RotatedLeft(t: Tree): Tree
    requires t.Branch? && t.right.Branch?
  {
    var s := t.right;
    Branch(Branch(t.left, t.node, t.color, s.left), s.node, s.color, s.right)
  }

  ghost function RotatedRight(t: Tree): Tree
    requires t.Branch? && t.left.Branch?
  {
    var s := t.left;
    Branch(s.left, s.node, s.color, Branch(s.right, t.node, t.color, t.right))
  }

  /** A rotation moves no node in the order. */
  lemma RotationKeepsOrder(a: seq<Node>, x: Node, b: seq<Node>, y: Node, c: seq<Node>)
    ensures a + [x] + (b + [y] + c) == (a + [x] + b) + [y] + c
  {
  }

  lemma RotatedLeftFacts(t: Tree)
    requires t.Branch? && t.right.Branch?
    ensures Inorder(RotatedLeft(t)) == Inorder(t)
    ensures Nodes(RotatedLeft(t)) == Nodes(t)
  {
    var s := t.right;
    assert Nodes(s) == Nodes(s.left) + {s.node} + Nodes(s.right);
    assert s.node in Nodes(s);
    RotationKeepsOrder(Inorder(t.left), t.node, Inorder(t.right.left), t.right.node, Inorder(t.right.right));
  }

  lemma RotatedRightFacts(t: Tree)
    requires t.Branch? && t.left.Branch?
    ensures Inorder(RotatedRight(t)) == Inorder(t)
    ensures Nodes(RotatedRight(t)) == Nodes(t)
  {
    var s := t.left;
    assert Nodes(s) == Nodes(s.left) + {s.node} + Nodes(s.right);
    assert s.node in Nodes(s);
    RotationKeepsOrder(Inorder(t.left.left), t.left.node, Inorder(t.left.right), t.node, Inorder(t.right));
  }

  lemma RotatedLeftOrdered(t: Tree)
    requires t.Branch? && t.right.Branch? && Ordered(t)
    ensures Ordered(RotatedLeft(t))
  {
    assert t.right.node in Nodes(t.right);
    assert forall m :: m in Nodes(t.right.left) + Nodes(t.right.right) ==> m in Nodes(t.right);
    assert Ordered(RotatedLeft(t).left);
  }

  lemma RotatedRightOrdered(t: Tree)
    requires t.Branch? && t.left.Branch? && Ordered(t)
    ensures Ordered(RotatedRight(t))
  {
    assert t.left.node in Nodes(t.left);
    assert forall m :: m in Nodes(t.left.left) + Nodes(t.left.right) ==> m in Nodes(t.left);
    assert Ordered(RotatedRight(t).right);
  }

  lemma RotatedLeftApart(t: Tree)
    requires t.Branch? && t.right.Branch? && Apart(t)
    ensures Apart(RotatedLeft(t))
  {
    assert Apart(t.right);
    assert Nodes(t.right) == Nodes(t.right.left) + {t.right.node} + Nodes(t.right.right);
    assert Apart(RotatedLeft(t).left);
  }

  lemma RotatedRightApart(t: Tree)
    requires t.Branch? && t.left.Branch? && Apart(t)
    ensures Apart(RotatedRight(t))
  {
    assert Apart(t.left);
    assert Nodes(t.left) == Nodes(t.left.left) + {t.left.node} + Nodes(t.left.right);
    assert Apart(RotatedRight(t).right);
  }

  /** t' holds the nodes of t in the same order. */
  ghost predicate SameOrder(t: Tree, t': Tree) {
    Inorder(t') == Inorder(t) && Nodes(t') == Nodes(t) && (Ordered(t) ==> Ordered(t'))
  }

  lemma PlugSameOrder(c: Path, t: Tree, t': Tree)
    requires SameOrder(t, t')
    ensures SameOrder(Plug(c, t), Plug(c, t'))
  {
    PlugInorder(c, t);
    PlugInorder(c, t');
    PlugNodes(c, t);
    PlugNodes(c, t');
    PlugOrdered(c, t);
    PlugOrdered(c, t');
  }

  // ---------------------------------------------------------------- colours

  ghost predicate IsRed(t: Tree) {
    t.Branch? && t.color == Red
  }

  /** Black nodes on every way down from the root of t, read off its left spine. */
  ghost function BlackHeight(t: Tree): nat {
    match t
    case Leaf => 0
    case Branch(l, _, col, _) => BlackHeight(l) + if col == Black then 1 else 0
  }

  /** Equal black heights and no red node with a red child. */
  ghost predicate Colored(t: Tree) {
    match t
    case Leaf => true
    case Branch(l, _, col, r) =>
      && Colored(l) && Colored(r)
      && BlackHeight(l) == BlackHeight(r)
      && (col == Red ==> !IsRed(l) && !IsRed(r))
  }

  ghost predicate RedBlack(t: Tree) {
    Colored(t) && !IsRed(t)
  }

  ghost predicate ParentRed(c: Path) {
    !c.Top? && c.color == Red
  }

  /** c becomes a red-black tree once a tree of black height h is plugged in
      whose root is not red, or may be red when the parent is black. */
  ghost predicate ColoredPath(c: Path, h: nat) {
    match c
    case Top => true
    case InLeft(up, _, col, r) =>
      && Colored(r) && BlackHeight(r) == h
      && (col == Red ==> !IsRed(r) && !up.Top? && !ParentRed(up))
      && ColoredPath(up, h + if col == Black then 1 else 0)
    case InRight(up, l, _, col) =>
      && Colored(l) && BlackHeight(l) == h
      && (col == Red ==> !IsRed(l) && !up.Top? && !ParentRed(up))
      && ColoredPath(up, h + if col == Black then 1 else 0)
  }

  lemma {:induction false} PlugColored(c: Path, t: Tree)
    requires Colored(t) && ColoredPath(c, BlackHeight(t))
    requires ParentRed(c) || c.Top? ==> !IsRed(t)
    ensures RedBlack(Plug(c, t))
  {
    match c
    case Top =>
    case InLeft(up, n, col, r) =>
      PlugColored(up, Branch(t, n, col, r));
    case InRight(up, l, n, col) =>
      PlugColored(up, Branch(l, n, col, t));
  }

  /** The other way round: cutting a red-black tree at a node. */
  lemma {:induction false} UnplugColored(c: Path, t: Tree)
    requires RedBlack(Plug(c, t))
    ensures Colored(t) && ColoredPath(c, BlackHeight(t))
    ensures ParentRed(c) || c.Top? ==> !IsRed(t)
  {
    match c
    case Top =>
    case InLeft(up, n, col, r) =>
      UnplugColored(up, Branch(t, n, col, r));
    case InRight(up, l, n, col) =>
      UnplugColored(up, Branch(l, n, col, t));
  }

  ghost function Blackened(t: Tree): Tree {
    if t.Leaf? then Leaf else t.(color := Black)
  }

  /** What RB_INSERT_COLOR keeps: the tree is red-black but for the red root
      of t, which may stand below a red node or at the top. */
  ghost predicate InsertFocus(c: Path, t: Tree) {
    t.Branch? && t.color == Red && Colored(t) && ColoredPath(c, BlackHeight(t))
  }

  /** The red uncle case: the red root moves two levels up. */
  lemma InsertRecolored(c: Path, t: Tree)
    requires InsertFocus(c, t) && ParentRed(c)
    requires c.up.InLeft? ==> IsRed(c.up.right)
    requires c.up.InRight? ==> IsRed(c.up.left)
    ensures c.up.InLeft? ==>
      InsertFocus(c.up.up, Branch(Blackened(Grown(c, t)), c.up.node, Red, Blackened(c.up.right)))
    ensures c.up.InRight? ==>
      InsertFocus(c.up.up, Branch(Blackened(c.up.left), c.up.node, Red, Blackened(Grown(c, t))))
  {
    var p, g := Grown(c, t), c.up;
    assert ColoredPath(g, BlackHeight(t)) && ColoredPath(g.up, BlackHeight(t) + 1);
    assert Colored(p.left) && Colored(p.right) && BlackHeight(p.left) == BlackHeight(p.right);
    assert Colored(Blackened(p));
    var u := if g.InLeft? then g.right else g.left;
    assert Colored(Blackened(u));
  }

  /** The red node below the red root of p, brought to the outer side. */
  ghost function InsertOuter(c: Path, t: Tree): Tree
    requires !c.Top? && !c.up.Top? && t.Branch?
  {
    if c.up.InLeft? && c.InRight? then RotatedLeft(Grown(c, t))
    else if c.up.InRight? && c.InLeft? then RotatedRight(Grown(c, t))
    else Grown(c, t)
  }

  /** The black uncle case: one rotation of the grandparent ends the loop. */
  lemma InsertRotated(c: Path, t: Tree)
    requires InsertFocus(c, t) && ParentRed(c)
    requires c.up.InLeft? ==> !IsRed(c.up.right)
    requires c.up.InRight? ==> !IsRed(c.up.left)
    ensures var g, p := c.up, InsertOuter(c, t);
      && (g.InLeft? ==> InsertFocus(InLeft(g.up, p.node, Black, Branch(p.right, g.node, Red, g.right)), p.left))
      && (g.InRight? ==> InsertFocus(InRight(g.up, Branch(g.left, g.node, Red, p.left), p.node, Black), p.right))
  {
    var g, p := c.up, InsertOuter(c, t);
    assert ColoredPath(g, BlackHeight(t)) && ColoredPath(g.up, BlackHeight(t) + 1);
    assert Colored(p.left) && Colored(p.right) && BlackHeight(p.left) == BlackHeight(p.right);
    if g.InLeft? {
      assert Colored(Branch(p.right, g.node, Red, g.right));
    } else {
      assert Colored(Branch(g.left, g.node, Red, p.left));
    }
  }

  /** What RB_REMOVE_COLOR keeps: t is one black node short of what c expects,
      and is red-black but for its root, which may be red below a red parent or
      above a red child. */
  ghost predicate RemoveFocus(c: Path, t: Tree) {
    Colored(Blackened(t)) && ColoredPath(c, BlackHeight(t) + 1)
  }

  /** The loop runs on while the short subtree has a black root below a parent. */
  ghost predicate Short(c: Path, t: Tree) {
    RemoveFocus(c, t) && !c.Top? && !IsRed(t)
  }

  ghost function RemoveMeasure(c: Path, t: Tree): nat {
    2 * Depth(c) + if IsRed(t) then 0 else 1
  }

  ghost function Sibling(c: Path): Tree
    requires !c.Top?
  {
    if c.InLeft? then c.right else c.left
  }

  /** The sibling of a short subtree is a node. */
  lemma SiblingExists(c: Path, t: Tree)
    requires Short(c, t)
    ensures Sibling(c).Branch? && Colored(Sibling(c)) && BlackHeight(Sibling(c)) == BlackHeight(t) + 1
    ensures Colored(t)
  {
  }

  /** A red sibling: one rotation gives a black one, below a red parent. */
  lemma RemoveRedSibling(c: Path, t: Tree)
    requires Short(c, t) && IsRed(Sibling(c))
    ensures var w := Sibling(c);
      && c.color == Black
      && (c.InLeft? ==> Short(InLeft(InLeft(c.up, w.node, Black, w.right), c.node, Red, w.left), t) && !IsRed(w.left))
      && (c.InRight? ==> Short(InRight(InRight(c.up, w.left, w.node, Black), w.right, c.node, Red), t) && !IsRed(w.right))
  {
    var w := Sibling(c);
    assert Colored(w.left) && Colored(w.right) && BlackHeight(w.left) == BlackHeight(w.right) == BlackHeight(t) + 1;
    assert ColoredPath(c.up, BlackHeight(t) + 2);
  }

  /** A black sibling without red children: the shortage moves up. */
  lemma RemoveBlackNephews(c: Path, t: Tree)
    requires Short(c, t)
    requires Sibling(c).Branch? && Sibling(c).color == Black && !IsRed(Sibling(c).left) && !IsRed(Sibling(c).right)
    ensures c.InLeft? ==> RemoveFocus(c.up, Branch(t, c.node, c.color, c.right.(color := Red)))
    ensures c.InRight? ==> RemoveFocus(c.up, Branch(c.left.(color := Red), c.node, c.color, t))
  {
    var w := Sibling(c).(color := Red);
    assert Colored(w.left) && Colored(w.right) && BlackHeight(w.left) == BlackHeight(w.right) == BlackHeight(t);
    assert Colored(w) && BlackHeight(w) == BlackHeight(t);
  }

  /** A black sibling turned so that its outer child is red. */
  ghost function OuterNephew(c: Path): Tree
    requires !c.Top? && Sibling(c).Branch?
  {
    var w := Sibling(c);
    if c.InLeft? && !IsRed(w.right) && w.left.Branch? then
      RotatedRight(w.(left := w.left.(color := Black), color := Red))
    else if c.InRight? && !IsRed(w.left) && w.right.Branch? then
      RotatedLeft(w.(right := w.right.(color := Black), color := Red))
    else w
  }

  /** A black sibling with a red child: one more rotation makes up the shortage. */
  lemma RemoveRotated(c: Path, t: Tree)
    requires Short(c, t)
    requires Sibling(c).Branch? && Sibling(c).color == Black && (IsRed(Sibling(c).left) || IsRed(Sibling(c).right))
    ensures OuterNephew(c).Branch?
    ensures var w := OuterNephew(c); c.InLeft? ==>
      && w.right.Branch?
      && RedBlack(Plug(c.up, Branch(Branch(t, c.node, Black, w.left), w.node, c.color, w.right.(color := Black))))
    ensures var w := OuterNephew(c); c.InRight? ==>
      && w.left.Branch?
      && RedBlack(Plug(c.up, Branch(w.left.(color := Black), w.node, c.color, Branch(w.right, c.node, Black, t))))
  {
    var v, w := Sibling(c), OuterNephew(c);
    assert Colored(v.left) && Colored(v.right) && BlackHeight(v.left) == BlackHeight(v.right) == BlackHeight(t);
    if c.InLeft? {
      assert Colored(w.left) && BlackHeight(w.left) == BlackHeight(t);
      assert Colored(w.right.(color := Black)) && BlackHeight(w.right.(color := Black)) == BlackHeight(t) + 1;
      PlugColored(c.up, Branch(Branch(t, c.node, Black, w.left), w.node, c.color, w.right.(color := Black)));
    } else {
      assert Colored(w.right) && BlackHeight(w.right) == BlackHeight(t);
      assert Colored(w.left.(color := Black)) && BlackHeight(w.left.(color := Black)) == BlackHeight(t) + 1;
      PlugColored(c.up, Branch(w.left.(color := Black), w.node, c.color, Branch(w.right, c.node, Black, t)));
    }
  }

  lemma BlackenedColored(t: Tree)
    requires Colored(t)
    ensures Colored(Blackened(t))
  {
  }

  /** What RB_REMOVE hands to its last step: a shortage if the node taken out was black. */
  ghost predicate TailFocus(color: Color, c: Path, t: Tree) {
    if color == Black then RemoveFocus(c, t) else RedBlack(Plug(c, t))
  }

  /** Taking out a node with an empty side. */
  lemma ShortColors(c: Path, kid: Tree, color: Color, h: nat)
    requires Colored(kid) && h == BlackHeight(kid) + (if color == Black then 1 else 0) && ColoredPath(c, h)
    requires color == Red ==> !IsRed(kid)
    ensures TailFocus(color, c, kid)
  {
    BlackenedColored(kid);
    if color == Red { PlugColored(c, kid); }
  }

  lemma KidColors(t: Tree, kid: Tree)
    requires Colored(t) && t.Branch?
    requires (t.left.Leaf? && kid == t.right) || (t.right.Leaf? && kid == t.left)
    ensures Colored(kid) && BlackHeight(t) == BlackHeight(kid) + if t.color == Black then 1 else 0
    ensures t.color == Red ==> !IsRed(kid)
  {
  }

  lemma SplicedColors(c: Path, t: Tree, kid: Tree)
    requires RedBlack(Plug(c, t)) && t.Branch?
    requires (t.left.Leaf? && kid == t.right) || (t.right.Leaf? && kid == t.left)
    ensures TailFocus(t.color, c, kid)
  {
    UnplugColored(c, t);
    KidColors(t, kid);
    ShortColors(c, kid, t.color, BlackHeight(t));
  }

  /** Taking out the successor when another node, of the same colour, has come
      to stand on its path. */
  lemma SuccessorColors(p: Path, p': Path, y: Tree)
    requires RedBlack(Plug(p, y)) && y.Branch? && y.left.Leaf?
    requires ColoredPath(p, BlackHeight(y)) ==> ColoredPath(p', BlackHeight(y))
    ensures TailFocus(y.color, p', y.right)
  {
    UnplugColored(p, y);
    KidColors(y, y.right);
    ShortColors(p', y.right, y.color, BlackHeight(y));
  }

  /** The path to place s of the right subtree of t, with n as the root of t. */
  ghost function Below(c: Path, t: Tree, n: Node, s: Path): Path
    requires t.Branch?
  {
    Append(s, InRight(c, t.left, n, t.color))
  }

  /** t without the successor y, which has n as its root. */
  ghost function Bereft(t: Tree, n: Node, s: Path, y: Tree): Tree
    requires t.Branch? && y.Branch?
  {
    Branch(t.left, n, t.color, Plug(s, y.right))
  }

  /** The three trees RB_REMOVE goes through when it removes a node with two children. */
  lemma SuccessorTrees(c: Path, t: Tree, s: Path, y: Tree)
    requires t.Branch? && y.Branch? && t.right == Plug(s, y)
    ensures Plug(Below(c, t, t.node, s), y) == Plug(c, t)
    ensures Plug(Below(c, t, t.node, s), y.right) == Plug(c, Bereft(t, t.node, s, y))
    ensures Plug(Below(c, t, y.node, s), y.right) == Plug(c, Bereft(t, y.node, s, y))
    ensures Parent(Below(c, t, t.node, s)) == if s.Top? then t.node else s.node
    ensures Parent(Below(c, t, y.node, s)) == if s.Top? then y.node else s.node
  {
    PlugAppend(s, InRight(c, t.left, t.node, t.color), y);
    PlugAppend(s, InRight(c, t.left, t.node, t.color), y.right);
    PlugAppend(s, InRight(c, t.left, y.node, t.color), y.right);
  }

  lemma SuccessorNodes(c: Path, t: Tree, s: Path, y: Tree)
    requires t.Branch? && y.Branch? && y.left.Leaf? && t.right == Plug(s, y) && Pre(s) == []
    requires Ordered(Plug(c, t))
    ensures Apart(Plug(c, Bereft(t, t.node, s, y))) && Apart(Plug(c, Bereft(t, y.node, s, y)))
    ensures Nodes(Plug(c, Bereft(t, t.node, s, y))) == Nodes(Plug(c, t)) - {y.node}
    ensures Nodes(Plug(c, Bereft(t, y.node, s, y))) == Nodes(Plug(c, t)) - {t.node}
    ensures {t.node, y.node} <= Nodes(Plug(c, t)) && t.node != y.node && (s.Top? || s.node != t.node)
  {
    SuccessorTrees(c, t, s, y);
    SplicedOrder(Below(c, t, t.node, s), y, y.right);
    NodesWithout(Plug(c, t), Plug(c, Bereft(t, t.node, s, y)), y.node);
    OrderedApart(Plug(c, Bereft(t, t.node, s, y)));
    SuccessorOrder(c, t, s, y);
    NodesWithout(Plug(c, t), Plug(c, Bereft(t, y.node, s, y)), t.node);
    OrderedApart(Plug(c, Bereft(t, y.node, s, y)));
    PlugNodes(c, t);
    PlugNodes(s, y);
    PlugOrdered(c, t);
  }

  lemma SuccessorTail(c: Path, t: Tree, s: Path, y: Tree)
    requires t.Branch? && y.Branch? && y.left.Leaf? && t.right == Plug(s, y)
    requires RedBlack(Plug(c, t))
    ensures TailFocus(y.color, Below(c, t, y.node, s), y.right)
  {
    SuccessorTrees(c, t, s, y);
    ColoredAppend(s, InRight(c, t.left, t.node, t.color), InRight(c, t.left, y.node, t.color), BlackHeight(y));
    SuccessorColors(Below(c, t, t.node, s), Below(c, t, y.node, s), y);
  }

  // ---------------------------------------------------------------- fields

  /** The four fields of RB_ENTRY as one value. */
  datatype Link = Link(left: Node?, right: Node?, parent: Node?, color: Color)

  type Store = map<Node, Link>

  ghost function Fields(ns: set<Node>): Store
    reads ns
  {
    map n | n in ns :: Link(n.left, n.right, n.parent, n.color)
  }

  /** Store s spells out t, hanging below `parent`. */
  ghost predicate Linked(s: Store, t: Tree, parent: Node?) {
    match t
    case Leaf => true
    case Branch(l, n, col, r) =>
      n in s && s[n] == Link(Root(l), Root(r), parent, col) && Linked(s, l, n) && Linked(s, r, n)
  }

  /** Store s spells out c, with `hole` in the hole. */
  ghost predicate PathLinked(s: Store, c: Path, hole: Node?) {
    match c
    case Top => true
    case InLeft(up, n, col, r) =>
      n in s && s[n] == Link(hole, Root(r), Parent(up), col) && Linked(s, r, n) && PathLinked(s, up, n)
    case InRight(up, l, n, col) =>
      n in s && s[n] == Link(Root(l), hole, Parent(up), col) && Linked(s, l, n) && PathLinked(s, up, n)
  }

  ghost predicate Agree(s: Store, s': Store, ns: set<Node>) {
    forall n :: n in ns && n in s ==> n in s' && s'[n] == s[n]
  }

  lemma {:induction false} LinkedKept(s: Store, s': Store, t: Tree, parent: Node?)
    requires Linked(s, t, parent) && Agree(s, s', Nodes(t))
    ensures Linked(s', t, parent)
  {
    match t
    case Leaf =>
    case Branch(l, n, _, r) =>
      LinkedKept(s, s', l, n);
      LinkedKept(s, s', r, n);
  }

  lemma {:induction false} PathLinkedKept(s: Store, s': Store, c: Path, hole: Node?)
    requires PathLinked(s, c, hole) && Agree(s, s', PathNodes(c))
    ensures PathLinked(s', c, hole)
  {
    match c
    case Top =>
    case InLeft(up, n, _, r) =>
      LinkedKept(s, s', r, n);
      PathLinkedKept(s, s', up, n);
    case InRight(up, l, n, _) =>
      LinkedKept(s, s', l, n);
      PathLinkedKept(s, s', up, n);
  }

  /** Cutting a linked tree at any place, and putting it together again. */
  lemma {:induction false} PlugLinked(s: Store, c: Path, t: Tree)
    ensures Linked(s, Plug(c, t), null) <==> PathLinked(s, c, Root(t)) && Linked(s, t, Parent(c))
  {
    match c
    case Top =>
    case InLeft(up, n, col, r) =>
      PlugLinked(s, up, Branch(t, n, col, r));
    case InRight(up, l, n, col) =>
      PlugLinked(s, up, Branch(l, n, col, t));
  }

  lemma {:induction false} PlugApart(c: Path, t: Tree)
    ensures Apart(Plug(c, t)) <==> ApartAt(c, t)
  {
    match c
    case Top =>
    case InLeft(up, n, col, r) =>
      PlugApart(up, Branch(t, n, col, r));
    case InRight(up, l, n, col) =>
      PlugApart(up, Branch(l, n, col, t));
  }

  /** The parts of c and t that a change of the child in the hole touches:
      the link of c's innermost node and the parent field of t's root. */
  lemma Regrafted(s: Store, s': Store, c: Path, hole: Node?, hole': Node?)
    requires ApartPath(c) && PathLinked(s, c, hole)
    requires Agree(s, s', PathNodes(c) - PathTip(c))
    requires c.InLeft? ==> c.node in s' && s'[c.node] == s[c.node].(left := hole')
    requires c.InRight? ==> c.node in s' && s'[c.node] == s[c.node].(right := hole')
    ensures PathLinked(s', c, hole')
  {
    if c.InLeft? {
      LinkedKept(s, s', c.right, c.node);
      PathLinkedKept(s, s', c.up, c.node);
    } else if c.InRight? {
      LinkedKept(s, s', c.left, c.node);
      PathLinkedKept(s, s', c.up, c.node);
    }
  }

  lemma Reparented(s: Store, s': Store, t: Tree, parent: Node?, parent': Node?)
    requires Apart(t) && Linked(s, t, parent)
    requires Agree(s, s', Nodes(t) - Tip(t))
    requires t.Branch? ==> t.node in s' && s'[t.node] == s[t.node].(parent := parent')
    ensures Linked(s', t, parent')
  {
    if t.Branch? {
      LinkedKept(s, s', t.left, t.node);
      LinkedKept(s, s', t.right, t.node);
    }
  }

  ghost function Tip(t: Tree): set<Node> {
    if t.Branch? then {t.node} else {}
  }

  ghost function PathTip(c: Path): set<Node> {
    if c.Top? then {} else {c.node}
  }

  lemma RotatedLeftLinked(s: Store, s': Store, c: Path, t: Tree)
    requires t.Branch? && t.right.Branch?
    requires Apart(Plug(c, t)) && Linked(s, Plug(c, t), null)
    requires Agree(s, s', Nodes(Plug(c, t))
                          - {t.node, t.right.node} - Tip(t.right.left) - PathTip(c))
    requires {t.node, t.right.node} + Tip(t.right.left) + PathTip(c) <= s'.Keys
    requires s'[t.node] == Link(left := Root(t.left), right := Root(t.right.left), parent := t.right.node, color := t.color)
    requires s'[t.right.node] == Link(left := t.node, right := Root(t.right.right), parent := Parent(c), color := t.right.color)
    requires var b := t.right.left; b.Branch? ==>
      s'[b.node] == Link(left := Root(b.left), right := Root(b.right), parent := t.node, color := b.color)
    requires c.InLeft? ==> c.node in s && s'[c.node] == s[c.node].(left := t.right.node)
    requires c.InRight? ==> c.node in s && s'[c.node] == s[c.node].(right := t.right.node)
    ensures Linked(s', Plug(c, RotatedLeft(t)), null)
    ensures Apart(Plug(c, RotatedLeft(t)))
    ensures SameOrder(Plug(c, t), Plug(c, RotatedLeft(t)))
    ensures Root(Plug(c, RotatedLeft(t))) == Entry(c, t.right.node)
  {
    PlugApart(c, t);
    PlugLinked(s, c, t);
    PlugNodes(c, t);
    assert Apart(t.right) && Linked(s, t.right, t.node);
    assert Nodes(t.right) == Nodes(t.right.left) + {t.right.node} + Nodes(t.right.right);
    Regrafted(s, s', c, t.node, t.right.node);
    LinkedKept(s, s', t.left, t.node);
    Reparented(s, s', t.right.left, t.right.node, t.node);
    LinkedKept(s, s', t.right.right, t.right.node);
    assert Linked(s', RotatedLeft(t).left, t.right.node);
    PlugLinked(s', c, RotatedLeft(t));
    RotatedLeftFacts(t);
    RotatedLeftApart(t);
    if Ordered(t) { RotatedLeftOrdered(t); }
    PlugSameOrder(c, t, RotatedLeft(t));
    PlugNodes(c, RotatedLeft(t));
    PlugApart(c, RotatedLeft(t));
  }

  lemma RotatedRightLinked(s: Store, s': Store, c: Path, t: Tree)
    requires t.Branch? && t.left.Branch?
    requires Apart(Plug(c, t)) && Linked(s, Plug(c, t), null)
    requires Agree(s, s', Nodes(Plug(c, t))
                          - {t.node, t.left.node} - Tip(t.left.right) - PathTip(c))
    requires {t.node, t.left.node} + Tip(t.left.right) + PathTip(c) <= s'.Keys
    requires s'[t.node] == Link(right := Root(t.right), left := Root(t.left.right), parent := t.left.node, color := t.color)
    requires s'[t.left.node] == Link(right := t.node, left := Root(t.left.left), parent := Parent(c), color := t.left.color)
    requires var b := t.left.right; b.Branch? ==>
      s'[b.node] == Link(right := Root(b.right), left := Root(b.left), parent := t.node, color := b.color)
    requires c.InLeft? ==> c.node in s && s'[c.node] == s[c.node].(left := t.left.node)
    requires c.InRight? ==> c.node in s && s'[c.node] == s[c.node].(right := t.left.node)
    ensures Linked(s', Plug(c, RotatedRight(t)), null)
    ensures Apart(Plug(c, RotatedRight(t)))
    ensures SameOrder(Plug(c, t), Plug(c, RotatedRight(t)))
    ensures Root(Plug(c, RotatedRight(t))) == Entry(c, t.left.node)
  {
    PlugApart(c, t);
    PlugLinked(s, c, t);
    PlugNodes(c, t);
    assert Apart(t.left) && Linked(s, t.left, t.node);
    assert Nodes(t.left) == Nodes(t.left.right) + {t.left.node} + Nodes(t.left.left);
    Regrafted(s, s', c, t.node, t.left.node);
    LinkedKept(s, s', t.right, t.node);
    Reparented(s, s', t.left.right, t.left.node, t.node);
    LinkedKept(s, s', t.left.left, t.left.node);
    assert Linked(s', RotatedRight(t).right, t.left.node);
    PlugLinked(s', c, RotatedRight(t));
    RotatedRightFacts(t);
    RotatedRightApart(t);
    if Ordered(t) { RotatedRightOrdered(t); }
    PlugSameOrder(c, t, RotatedRight(t));
    PlugNodes(c, RotatedRight(t));
    PlugApart(c, RotatedRight(t));
  }

  /** Changing a colour changes one link. */
  lemma PaintedLinked(s: Store, s': Store, c: Path, t: Tree, col: Color)
    requires t.Branch? && Apart(Plug(c, t)) && Linked(s, Plug(c, t), null)
    requires Agree(s, s', Nodes(Plug(c, t)) - {t.node})
    requires t.node in s && t.node in s' && s'[t.node] == s[t.node].(color := col)
    ensures Linked(s', Plug(c, t.(color := col)), null)
    ensures Apart(Plug(c, t.(color := col)))
    ensures SameOrder(Plug(c, t), Plug(c, t.(color := col)))
    ensures Root(Plug(c, t.(color := col))) == Root(Plug(c, t))
  {
    var t' := t.(color := col);
    PlugApart(c, t);
    PlugLinked(s, c, t);
    PlugNodes(c, t);
    PathLinkedKept(s, s', c, t.node);
    LinkedKept(s, s', t.left, t.node);
    LinkedKept(s, s', t.right, t.node);
    PlugLinked(s', c, t');
    PlugNodes(c, t');
    PlugApart(c, t');
    PlugSameOrder(c, t, t');
  }

  /** Hanging a new red leaf into an empty hole. */
  lemma GraftedLinked(s: Store, s': Store, c: Path, n: Node)
    requires Apart(Plug(c, Leaf)) && Linked(s, Plug(c, Leaf), null)
    requires n !in PathNodes(c)
    requires Agree(s, s', PathNodes(c) - PathTip(c))
    requires {n} + PathTip(c) <= s'.Keys
    requires s'[n] == Link(null, null, Parent(c), Red)
    requires c.InLeft? ==> c.node in s && s'[c.node] == s[c.node].(left := n)
    requires c.InRight? ==> c.node in s && s'[c.node] == s[c.node].(right := n)
    ensures Linked(s', Plug(c, Branch(Leaf, n, Red, Leaf)), null)
    ensures Apart(Plug(c, Branch(Leaf, n, Red, Leaf)))
  {
    PlugApart(c, Leaf);
    PlugLinked(s, c, Leaf);
    Regrafted(s, s', c, null, n);
    PlugLinked(s', c, Branch(Leaf, n, Red, Leaf));
    PlugApart(c, Branch(Leaf, n, Red, Leaf));
  }

  /** Putting a child in the place of its parent. */
  lemma SplicedLinked(s: Store, s': Store, c: Path, t: Tree, child: Tree)
    requires t.Branch? && Apart(Plug(c, t)) && Linked(s, Plug(c, t), null)
    requires child == t.left || child == t.right
    requires Agree(s, s', Nodes(Plug(c, t)) - {t.node} - PathTip(c) - Tip(child))
    requires PathTip(c) + Tip(child) <= s'.Keys
    requires c.InLeft? ==> c.node in s && s'[c.node] == s[c.node].(left := Root(child))
    requires c.InRight? ==> c.node in s && s'[c.node] == s[c.node].(right := Root(child))
    requires child.Branch? ==> child.node in s && s'[child.node] == s[child.node].(parent := Parent(c))
    ensures Linked(s', Plug(c, child), null)
    ensures Root(Plug(c, child)) == Entry(c, Root(child))
  {
    PlugNodes(c, t);
    PlugNodes(c, child);
    PlugApart(c, t);
    PlugLinked(s, c, t);
    Regrafted(s, s', c, t.node, Root(child));
    Reparented(s, s', child, t.node, Parent(c));
    PlugLinked(s', c, child);
  }

  /** Putting node n in the place of t's root. */
  lemma TransplantedLinked(s: Store, s': Store, c: Path, t: Tree, n: Node)
    requires t.Branch? && Apart(Plug(c, t)) && Linked(s, Plug(c, t), null)
    requires n !in Nodes(Plug(c, t))
    requires Agree(s, s', Nodes(Plug(c, t)) - {t.node} - PathTip(c) - Tip(t.left) - Tip(t.right))
    requires PathTip(c) + Tip(t.left) + Tip(t.right) + {n} <= s'.Keys
    requires s'[n] == Link(Root(t.left), Root(t.right), Parent(c), t.color)
    requires c.InLeft? ==> c.node in s && s'[c.node] == s[c.node].(left := n)
    requires c.InRight? ==> c.node in s && s'[c.node] == s[c.node].(right := n)
    requires t.left.Branch? ==> t.left.node in s && s'[t.left.node] == s[t.left.node].(parent := n)
    requires t.right.Branch? ==> t.right.node in s && s'[t.right.node] == s[t.right.node].(parent := n)
    ensures Linked(s', Plug(c, t.(node := n)), null)
    ensures Root(Plug(c, t.(node := n))) == Entry(c, n)
  {
    PlugNodes(c, t);
    PlugNodes(c, t.(node := n));
    PlugApart(c, t);
    PlugLinked(s, c, t);
    Regrafted(s, s', c, t.node, n);
    Reparented(s, s', t.left, t.node, n);
    Reparented(s, s', t.right, t.node, n);
    PlugLinked(s', c, t.(node := n));
  }

  // ---------------------------------------------------------------- focus

  /** Every node of a tree can be brought into focus. */
  lemma {:induction false} Locate(c: Path, t: Tree, m: Node) returns (c': Path, t': Tree)
    requires m in Nodes(t)
    decreases t
    ensures t'.Branch? && t'.node == m && Plug(c', t') == Plug(c, t)
  {
    if m == t.node {
      c', t' := c, t;
    } else if m in Nodes(t.left) {
      c', t' := Locate(InLeft(c, t.node, t.color, t.right), t.left, m);
    } else {
      c', t' := Locate(InRight(c, t.left, t.node, t.color), t.right, m);
    }
  }
}
