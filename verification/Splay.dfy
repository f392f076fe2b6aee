/**
  The top-down splay tree of tree.h on mutable nodes. It shares nodes, trees
  and paths with the red-black tree but uses only the child fields of a node;
  colours are carried along and never looked at.
 */
module Splay {
  import opened RbShape
  import opened SplayCost
  import opened SplayRuns
  import RbWalk

  // ---------------------------------------------------------------- shape

  /** The child fields of t's nodes spell out t. */
  ghost predicate Holds(t: Tree)
    reads Nodes(t)
  {
    match t
    case Leaf => true
    case Branch(l, n, _, r) => n.left == Root(l) && n.right == Root(r) && Holds(l) && Holds(r)
  }

  /** What was cut off to the left hangs together on right children only ... */
  ghost predicate Low(c: Path) {
    c.Top? || (c.InRight? && Low(c.up))
  }

  /** ... and what was cut off to the right on left children only. */
  ghost predicate High(c: Path) {
    c.Top? || (c.InLeft? && High(c.up))
  }

  /** The fields of a spine spell it out, but for the open end at its last node. */
  ghost predicate SpineHolds(c: Path)
    reads PathNodes(c)
  {
    match c
    case Top => true
    case InLeft(up, n, _, r) =>
      n.right == Root(r) && Holds(r) && SpineHolds(up) && (up.InLeft? ==> up.node.left == n)
    case InRight(up, l, n, _) =>
      n.left == Root(l) && Holds(l) && SpineHolds(up) && (up.InRight? ==> up.node.right == n)
  }

  /** The node a spine is continued at; sent stands in for an empty one. */
  ghost function Last(c: Path, sent: Node): Node {
    if c.Top? then sent else c.node
  }

  lemma {:induction false} LowClosed(c: Path, t: Tree)
    requires Low(c) && SpineHolds(c) && Holds(t) && (!c.Top? ==> c.node.right == Root(t))
    ensures Holds(Plug(c, t)) && Post(c) == []
  {
    if !c.Top? {
      LowClosed(c.up, Branch(c.left, c.node, c.color, t));
    }
  }

  lemma {:induction false} HighClosed(c: Path, t: Tree)
    requires High(c) && SpineHolds(c) && Holds(t) && (!c.Top? ==> c.node.left == Root(t))
    ensures Holds(Plug(c, t)) && Pre(c) == []
  {
    if !c.Top? {
      HighClosed(c.up, Branch(t, c.node, c.color, c.right));
    }
  }

  // ---------------------------------------------------------------- the working state

  /** The three trees of a splay: low and high are what was cut off so far. */
  datatype Parts = Parts(low: Path, mid: Tree, high: Path)

  ghost function Order(p: Parts): seq<Node> {
    Pre(p.low) + Inorder(p.mid) + Post(p.high)
  }

  ghost function AllNodes(p: Parts): set<Node> {
    PathNodes(p.low) + Nodes(p.mid) + PathNodes(p.high)
  }

  /** The parts share no node, and around key k they are low and high. */
  ghost predicate Sorted(p: Parts, k: int) {
    && Low(p.low) && High(p.high) && p.mid.Branch?
    && ApartPath(p.low) && ApartPath(p.high) && Ordered(p.mid)
    && PathNodes(p.low) !! Nodes(p.mid) && PathNodes(p.high) !! Nodes(p.mid) && PathNodes(p.low) !! PathNodes(p.high)
    && (forall m :: m in PathNodes(p.low) ==> m.key < k)
    && (forall m :: m in PathNodes(p.high) ==> k < m.key)
  }

  /** What the loop leaves at the top: the key itself, or a neighbour of it. */
  ghost predicate Settled(t: Tree, k: int) {
    t.Branch? && (k < t.node.key ==> t.left.Leaf?) && (k > t.node.key ==> t.right.Leaf?)
  }

  ghost function Assembled(p: Parts): Tree
    requires p.mid.Branch?
  {
    Branch(Plug(p.low, p.mid.left), p.mid.node, p.mid.color, Plug(p.high, p.mid.right))
  }

  /** What the whole splay will end with. */
  ghost function Whole(p: Parts, k: int): Tree
    requires p.mid.Branch?
  {
    Assembled(p.(mid := Splayed(p.mid, k)))
  }

  lemma SettledWhole(p: Parts, k: int)
    requires Settled(p.mid, k)
    ensures Whole(p, k) == Assembled(p)
  {
    assert Splayed(p.mid, k) == p.mid;
  }

  /** A turn that goes on does not change what the splay will end with. */
  lemma CutWhole(p: Parts, k: int)
    requires p.mid.Branch? && Inner(p.mid, k).Branch?
    ensures var u := p.(mid := Turned(p.mid, k));
      Whole(if k < p.mid.node.key then CutHigh(u) else CutLow(u), k) == Whole(p, k)
    ensures Turns(p.mid, k) == 1 + Turns(Inner(p.mid, k), k)
  {
  }

  /** The last turn leaves it. */
  lemma LastWhole(p: Parts, k: int)
    requires p.mid.Branch? && k != p.mid.node.key && Inner(p.mid, k).Leaf?
    ensures var u := p.(mid := Turned(p.mid, k)); Settled(u.mid, k) && Whole(u, k) == Whole(p, k)
    ensures Turns(p.mid, k) == 1
  {
    SettledWhole(p.(mid := Turned(p.mid, k)), k);
  }

  lemma {:induction false} LowEnds(c: Path)
    requires Low(c)
    ensures Post(c) == []
  {
    if !c.Top? {
      LowEnds(c.up);
    }
  }

  lemma {:induction false} HighEnds(c: Path)
    requires High(c)
    ensures Pre(c) == []
  {
    if !c.Top? {
      HighEnds(c.up);
    }
  }

  lemma AssembledOrder(p: Parts, k: int)
    requires Sorted(p, k) && Settled(p.mid, k)
    ensures Inorder(Assembled(p)) == Order(p) && Nodes(Assembled(p)) == AllNodes(p)
  {
    var t := p.mid;
    PlugInorder(p.low, t.left);
    PlugInorder(p.high, t.right);
    PlugNodes(p.low, t.left);
    PlugNodes(p.high, t.right);
    LowEnds(p.low);
    HighEnds(p.high);
    Joined(Pre(p.low), Inorder(t.left), t.node, Inorder(t.right), Post(p.high));
  }

  lemma Joined(a: seq<Node>, b: seq<Node>, n: Node, c: seq<Node>, d: seq<Node>)
    ensures (a + b + []) + [n] + ([] + c + d) == a + (b + [n] + c) + d
  {
  }

  lemma SettledSplits(p: Parts, k: int)
    requires Sorted(p, k) && Settled(p.mid, k)
    ensures Splits(Assembled(p), k)
  {
    PlugNodes(p.low, p.mid.left);
    PlugNodes(p.high, p.mid.right);
  }

  /** The root goes to the high part, its left subtree stays. */
  ghost function CutHigh(p: Parts): Parts
    requires p.mid.Branch?
  {
    Parts(p.low, p.mid.left, InLeft(p.high, p.mid.node, p.mid.color, p.mid.right))
  }

  ghost function CutLow(p: Parts): Parts
    requires p.mid.Branch?
  {
    Parts(InRight(p.low, p.mid.left, p.mid.node, p.mid.color), p.mid.right, p.high)
  }

  lemma CutHighSorted(p: Parts, k: int)
    requires Sorted(p, k) && p.mid.left.Branch? && k < p.mid.node.key
    ensures Sorted(CutHigh(p), k) && Order(CutHigh(p)) == Order(p) && AllNodes(CutHigh(p)) == AllNodes(p)
  {
    hide Order;
    OrderedApart(p.mid);
    CutHighOrder(p);
  }

  lemma CutHighOrder(p: Parts)
    requires p.mid.Branch?
    ensures Order(CutHigh(p)) == Order(p)
  {
    var t := p.mid;
    SeqAssoc(Pre(p.low), Inorder(t.left), [t.node] + Inorder(t.right), Post(p.high));
  }

  lemma CutLowSorted(p: Parts, k: int)
    requires Sorted(p, k) && p.mid.right.Branch? && k > p.mid.node.key
    ensures Sorted(CutLow(p), k) && Order(CutLow(p)) == Order(p) && AllNodes(CutLow(p)) == AllNodes(p)
  {
    hide Order;
    OrderedApart(p.mid);
    CutLowOrder(p);
  }

  lemma CutLowOrder(p: Parts)
    requires p.mid.Branch?
    ensures Order(CutLow(p)) == Order(p)
  {
    var t := p.mid;
    SeqAssoc(Pre(p.low), Inorder(t.left) + [t.node], Inorder(t.right), Post(p.high));
  }

  lemma RightApart(t: Tree)
    requires t.Branch? && t.left.Branch? && Ordered(t)
    ensures var (x, y) := (t.node, t.left.node);
      && x != y && x !in Nodes(t.left.left) && x !in Nodes(t.left.right) && x !in Nodes(t.right)
      && y !in Nodes(t.left.left) && y !in Nodes(t.left.right) && y !in Nodes(t.right)
      && Nodes(t) == Nodes(t.left.left) + {y} + Nodes(t.left.right) + {x} + Nodes(t.right)
  {
    OrderedApart(t);
    assert Apart(t.left) && t.left.node in Nodes(t.left);
  }

  lemma LeftApart(t: Tree)
    requires t.Branch? && t.right.Branch? && Ordered(t)
    ensures var (x, y) := (t.node, t.right.node);
      && x != y && x !in Nodes(t.right.right) && x !in Nodes(t.right.left) && x !in Nodes(t.left)
      && y !in Nodes(t.right.right) && y !in Nodes(t.right.left) && y !in Nodes(t.left)
      && Nodes(t) == Nodes(t.right.right) + {y} + Nodes(t.right.left) + {x} + Nodes(t.left)
  {
    OrderedApart(t);
    assert Apart(t.right) && t.right.node in Nodes(t.right);
  }

  lemma RotatedRightSorted(p: Parts, k: int)
    requires Sorted(p, k) && p.mid.left.Branch?
    ensures var p' := p.(mid := RotatedRight(p.mid));
      Sorted(p', k) && Order(p') == Order(p) && AllNodes(p') == AllNodes(p)
  {
    RotatedRightOrdered(p.mid);
    RotatedRightFacts(p.mid);
  }

  lemma RotatedLeftSorted(p: Parts, k: int)
    requires Sorted(p, k) && p.mid.right.Branch?
    ensures var p' := p.(mid := RotatedLeft(p.mid));
      Sorted(p', k) && Order(p') == Order(p) && AllNodes(p') == AllNodes(p)
  {
    RotatedLeftOrdered(p.mid);
    RotatedLeftFacts(p.mid);
  }

  lemma StartSorted(p: Parts, k: int)
    requires p.low.Top? && p.high.Top? && p.mid.Branch? && Ordered(p.mid)
    ensures Sorted(p, k) && Order(p) == Inorder(p.mid) && AllNodes(p) == Nodes(p.mid) && Increasing(Order(p))
  {
    OrderedIsIncreasing(p.mid);
  }

  lemma InsertedOrder(t: Tree, n: Node)
    requires Ordered(t) && Splits(t, n.key) && n.key != t.node.key
    ensures Inorder(Topped(t, n)) == Inserted(Inorder(t), n)
  {
    var a, b := Inorder(t.left), Inorder(t.right);
    forall m | m in a ensures m.key < n.key {
      InorderNode(t.left, m);
    }
    forall m | m in b ensures n.key < m.key {
      InorderNode(t.right, m);
    }
    hide Inserted, Ordered, Splits, Nodes;
    if n.key < t.node.key {
      InsertedBetween(a, [t.node] + b, n);
      ToppedLeft(a, t.node, b, n);
      assert Inorder(t.(left := Leaf)) == [] + [t.node] + b;
    } else {
      InsertedBetween(a + [t.node], b, n);
      ToppedRight(a, t.node, b, n);
      assert Inorder(t.(right := Leaf)) == a + [t.node] + [];
    }
  }

  lemma ToppedLeft(a: seq<Node>, x: Node, b: seq<Node>, n: Node)
    ensures a + [n] + ([] + [x] + b) == a + [n] + ([x] + b) && a + ([x] + b) == a + [x] + b
  {
  }

  lemma ToppedRight(a: seq<Node>, x: Node, b: seq<Node>, n: Node)
    ensures (a + [x] + []) + [n] + b == (a + [x]) + [n] + b
  {
  }

  lemma FirstInserted(n: Node)
    ensures Inserted([], n) == [n]
  {
  }

  // ---------------------------------------------------------------- the tree

  /** SPLAY_HEAD with the tree its nodes spell out. */
  class Head {
    var root: Node?
    ghost var tree: Tree

    ghost predicate Valid()
      reads this, Nodes(tree)
    {
      root == Root(tree) && Ordered(tree) && Holds(tree)
    }

    /** The fields spell out the three parts; left and right are the open ends. */
    ghost predicate Split(p: Parts, left: Node, right: Node, sent: Node)
      reads this`root, AllNodes(p), sent
    {
      && p.mid.Branch? && root == p.mid.node && sent !in AllNodes(p)
      && Holds(p.mid) && SpineHolds(p.low) && SpineHolds(p.high)
      && left == Last(p.low, sent) && right == Last(p.high, sent)
      && (!p.low.Top? ==> sent.right == Entry(p.low, null))
      && (!p.high.Top? ==> sent.left == Entry(p.high, null))
    }

    /** SPLAY_ROTATE_RIGHT */
    method RotateRight(tmp: Node, ghost t: Tree)
      requires root == Root(t) && t.Branch? && t.left.Branch? && tmp == t.left.node && Ordered(t) && Holds(t)
      modifies this`root, t.node`left, tmp`right
      ensures root == RotatedRight(t).node && Holds(RotatedRight(t))
    {
      RightApart(t);
      assert Holds(t.left);
      root.left := tmp.right;
      tmp.right := root;
      root := tmp;
      assert Holds(RotatedRight(t).right);
    }

    /** The same within a splay. */
    method TurnRight(tmp: Node, ghost p: Parts, ghost k: int, left: Node, right: Node, sent: Node)
      requires Split(p, left, right, sent) && Sorted(p, k) && p.mid.left.Branch? && tmp == p.mid.left.node
      modifies this`root, p.mid.node`left, tmp`right
      ensures var p' := p.(mid := RotatedRight(p.mid)); Split(p', left, right, sent) && Sorted(p', k)
      ensures var p' := p.(mid := RotatedRight(p.mid)); Order(p') == Order(p) && AllNodes(p') == AllNodes(p)
    {
      RightApart(p.mid);
      RotatedRightSorted(p, k);
      hide Ordered, Holds;
      assert p.mid.node in Nodes(p.mid) && tmp in Nodes(p.mid);
      assert allocated(PathNodes(p.low)) && allocated(PathNodes(p.high));
      RotateRight(tmp, p.mid);
    }

    /** SPLAY_LINKLEFT, with the spine it continues. */
    method LinkLeft(right: Node, sent: Node, ghost h: Path, ghost t: Tree) returns (right': Node)
      requires t.Branch? && t.left.Branch? && root == t.node && Holds(t)
      requires High(h) && ApartPath(h) && SpineHolds(h) && right == Last(h, sent) && (!h.Top? ==> sent.left == Entry(h, null))
      requires PathNodes(h) !! Nodes(t) && t.node !in Nodes(t.right) && sent !in PathNodes(h) && sent !in Nodes(t)
      modifies this`root, right`left
      ensures right' == t.node && root == t.left.node && Holds(t.left)
      ensures var h' := InLeft(h, t.node, t.color, t.right); SpineHolds(h') && sent.left == Entry(h', null)
    {
      assert t.node in Nodes(t);
      right.left := root;
      right' := root;
      root := root.left;
      assert Holds(t.left) && Holds(t.right) && SpineHolds(h);
    }

    /** The same within a splay. */
    method CutRight(ghost p: Parts, ghost k: int, left: Node, right: Node, sent: Node) returns (right': Node)
      requires Split(p, left, right, sent) && Sorted(p, k) && p.mid.left.Branch? && k < p.mid.node.key
      modifies this`root, right`left
      ensures Split(CutHigh(p), left, right', sent) && Sorted(CutHigh(p), k)
      ensures Order(CutHigh(p)) == Order(p) && AllNodes(CutHigh(p)) == AllNodes(p)
    {
      CutHighSorted(p, k);
      OrderedApart(p.mid);
      assert allocated(PathNodes(p.low));
      hide Ordered, Order, Holds, SpineHolds;
      right' := LinkLeft(right, sent, p.high, p.mid);
      assert !p.low.Top? ==> sent.right == Entry(p.low, null);
    }

    /** The turn of the loops that goes left; zig says whether to rotate first. */
    method GoLeft(zig: bool, ghost p: Parts, ghost k: int, left: Node, right: Node, sent: Node)
      returns (more: bool, right': Node, ghost p': Parts)
      requires Split(p, left, right, sent) && Sorted(p, k) && k < p.mid.node.key
      requires p.mid.left.Branch? ==> (zig <==> k < p.mid.left.node.key)
      modifies this`root, Nodes(p.mid), right
      ensures Split(p', left, right', sent) && Sorted(p', k) && Order(p') == Order(p) && AllNodes(p') == AllNodes(p)
      ensures if more then |Inorder(p'.mid)| < |Inorder(p.mid)| else Settled(p'.mid, k)
      ensures root != null && p'.mid.Branch? && Whole(p', k) == Whole(p, k) && Turns(p.mid, k) == 1 + if more then Turns(p'.mid, k) else 0
    {
      hide Whole, Turns, Splayed, Settled;
      p', right', more := p, right, false;
      assert p.mid.node in Nodes(p.mid);
      var tmp := root.left;
      if tmp == null {
        LastWhole(p, k);
        return;
      }
      assert tmp in Nodes(p.mid);
      if zig {
        RotatedRightFacts(p.mid);
        TurnRight(tmp, p, k, left, right, sent);
        p' := p.(mid := RotatedRight(p.mid));
        if root.left == null {
          LastWhole(p, k);
          return;
        }
      }
      right' := CutRight(p', k, left, right, sent);
      CutWhole(p, k);
      p' := CutHigh(p');
      more := true;
    }

    /** SPLAY_ROTATE_LEFT */
    method RotateLeft(tmp: Node, ghost t: Tree)
      requires root == Root(t) && t.Branch? && t.right.Branch? && tmp == t.right.node && Ordered(t) && Holds(t)
      modifies this`root, t.node`right, tmp`left
      ensures root == RotatedLeft(t).node && Holds(RotatedLeft(t))
    {
      LeftApart(t);
      assert Holds(t.right);
      root.right := tmp.left;
      tmp.left := root;
      root := tmp;
      assert Holds(RotatedLeft(t).left);
    }

    /** The same within a splay. */
    method TurnLeft(tmp: Node, ghost p: Parts, ghost k: int, left: Node, right: Node, sent: Node)
      requires Split(p, left, right, sent) && Sorted(p, k) && p.mid.right.Branch? && tmp == p.mid.right.node
      modifies this`root, p.mid.node`right, tmp`left
      ensures var p' := p.(mid := RotatedLeft(p.mid)); Split(p', left, right, sent) && Sorted(p', k)
      ensures var p' := p.(mid := RotatedLeft(p.mid)); Order(p') == Order(p) && AllNodes(p') == AllNodes(p)
    {
      LeftApart(p.mid);
      RotatedLeftSorted(p, k);
      hide Ordered, Holds;
      assert p.mid.node in Nodes(p.mid) && tmp in Nodes(p.mid);
      assert allocated(PathNodes(p.high)) && allocated(PathNodes(p.low));
      RotateLeft(tmp, p.mid);
    }

    /** SPLAY_LINKRIGHT, with the spine it continues. */
    method LinkRight(left: Node, sent: Node, ghost h: Path, ghost t: Tree) returns (left': Node)
      requires t.Branch? && t.right.Branch? && root == t.node && Holds(t)
      requires Low(h) && ApartPath(h) && SpineHolds(h) && left == Last(h, sent) && (!h.Top? ==> sent.right == Entry(h, null))
      requires PathNodes(h) !! Nodes(t) && t.node !in Nodes(t.left) && sent !in PathNodes(h) && sent !in Nodes(t)
      modifies this`root, left`right
      ensures left' == t.node && root == t.right.node && Holds(t.right)
      ensures var h' := InRight(h, t.left, t.node, t.color); SpineHolds(h') && sent.right == Entry(h', null)
    {
      assert t.node in Nodes(t);
      left.right := root;
      left' := root;
      root := root.right;
      assert Holds(t.right) && Holds(t.left) && SpineHolds(h);
    }

    /** The same within a splay. */
    method CutLeft(ghost p: Parts, ghost k: int, left: Node, right: Node, sent: Node) returns (left': Node)
      requires Split(p, left, right, sent) && Sorted(p, k) && p.mid.right.Branch? && k > p.mid.node.key
      modifies this`root, left`right
      ensures Split(CutLow(p), left', right, sent) && Sorted(CutLow(p), k)
      ensures Order(CutLow(p)) == Order(p) && AllNodes(CutLow(p)) == AllNodes(p)
    {
      CutLowSorted(p, k);
      OrderedApart(p.mid);
      assert allocated(PathNodes(p.high));
      hide Ordered, Order, Holds, SpineHolds;
      left' := LinkRight(left, sent, p.low, p.mid);
      assert !p.high.Top? ==> sent.left == Entry(p.high, null);
    }

    /** The turn of the loops that goes right; zig says whether to rotate first. */
    method GoRight(zig: bool, ghost p: Parts, ghost k: int, left: Node, right: Node, sent: Node)
      returns (more: bool, left': Node, ghost p': Parts)
      requires Split(p, left, right, sent) && Sorted(p, k) && k > p.mid.node.key
      requires p.mid.right.Branch? ==> (zig <==> k > p.mid.right.node.key)
      modifies this`root, Nodes(p.mid), left
      ensures Split(p', left', right, sent) && Sorted(p', k) && Order(p') == Order(p) && AllNodes(p') == AllNodes(p)
      ensures if more then |Inorder(p'.mid)| < |Inorder(p.mid)| else Settled(p'.mid, k)
      ensures root != null && p'.mid.Branch? && Whole(p', k) == Whole(p, k) && Turns(p.mid, k) == 1 + if more then Turns(p'.mid, k) else 0
    {
      hide Whole, Turns, Splayed, Settled;
      p', left', more := p, left, false;
      assert p.mid.node in Nodes(p.mid);
      var tmp := root.right;
      if tmp == null {
        LastWhole(p, k);
        return;
      }
      assert tmp in Nodes(p.mid);
      if zig {
        RotatedLeftFacts(p.mid);
        TurnLeft(tmp, p, k, left, right, sent);
        p' := p.(mid := RotatedLeft(p.mid));
        if root.right == null {
          LastWhole(p, k);
          return;
        }
      }
      left' := CutLeft(p', k, left, right, sent);
      CutWhole(p, k);
      p' := CutLow(p');
      more := true;
    }

    /** SPLAY_ASSEMBLE */
    method Assemble(left: Node, right: Node, sent: Node, ghost p: Parts, ghost k: int)
      requires Split(p, left, right, sent) && Sorted(p, k)
      modifies this, left`right, right`left, p.mid.node
      ensures tree == Assembled(p) && root == Root(tree) && Holds(tree)
    {
      hide Split, Sorted, Holds, SpineHolds;
      EndsApart(p, k, left, right, sent);
      ghost var l, r := Plug(p.low, p.mid.left), Plug(p.high, p.mid.right);
      assert allocated(Nodes(l)) && allocated(Nodes(r));
      CloseLow(left, right, sent, p, k);
      CloseHigh(right, sent, p, k);
      FinishRoot(sent, p);
    }

    /** Its last two assignments. */
    method FinishRoot(sent: Node, ghost p: Parts)
      requires p.mid.Branch? && root == p.mid.node
      requires Holds(Plug(p.low, p.mid.left)) && Holds(Plug(p.high, p.mid.right))
      requires root !in Nodes(Plug(p.low, p.mid.left)) && root !in Nodes(Plug(p.high, p.mid.right))
      requires sent.right == Root(Plug(p.low, p.mid.left)) && sent.left == Root(Plug(p.high, p.mid.right)) && sent != root
      modifies this, p.mid.node
      ensures tree == Assembled(p) && root == Root(tree) && Holds(tree)
    {
      root.left := sent.right;
      root.right := sent.left;
      tree := Assembled(p);
      assert Holds(tree.left) && Holds(tree.right);
    }

    /** Where the open ends lie. */
    lemma EndsApart(p: Parts, k: int, left: Node, right: Node, sent: Node)
      requires Split(p, left, right, sent) && Sorted(p, k)
      ensures var (l, r) := (Plug(p.low, p.mid.left), Plug(p.high, p.mid.right));
        && root == p.mid.node && root !in Nodes(l) && root !in Nodes(r) && root != left && root != right
        && right !in Nodes(l) && sent !in Nodes(l) && left !in Nodes(p.mid) && left !in PathNodes(p.high)
        && right !in Nodes(p.mid) && sent !in PathNodes(p.high) && sent != root && p.mid.Branch?
    {
      OrderedApart(p.mid);
      PlugNodes(p.low, p.mid.left);
      PlugNodes(p.high, p.mid.right);
      assert p.mid.node in Nodes(p.mid);
    }

    method CloseLow(left: Node, right: Node, sent: Node, ghost p: Parts, ghost k: int)
      requires Split(p, left, right, sent) && Sorted(p, k)
      modifies left`right
      ensures Holds(Plug(p.low, p.mid.left)) && sent.right == Root(Plug(p.low, p.mid.left))
      ensures SpineHolds(p.high) && Holds(p.mid.right) && root == p.mid.node && root.right == Root(p.mid.right)
      ensures right == Last(p.high, sent) && (!p.high.Top? ==> sent.left == Entry(p.high, null))
    {
      ghost var l := p.mid.left;
      EndsApart(p, k, left, right, sent);
      PlugNodes(p.low, l);
      left.right := root.left;
      assert Holds(l) && Holds(p.mid.right);
      assert SpineHolds(p.low) && SpineHolds(p.high);
      LowClosed(p.low, l);
    }

    method CloseHigh(right: Node, sent: Node, ghost p: Parts, ghost k: int)
      requires Sorted(p, k) && root == p.mid.node && right == Last(p.high, sent) && root.right == Root(p.mid.right)
      requires SpineHolds(p.high) && Holds(p.mid.right) && (!p.high.Top? ==> sent.left == Entry(p.high, null))
      requires right !in Nodes(p.mid) && right != root && sent !in PathNodes(p.high)
      modifies right`left
      ensures Holds(Plug(p.high, p.mid.right)) && sent.left == Root(Plug(p.high, p.mid.right))
    {
      ghost var r := p.mid.right;
      PlugNodes(p.high, r);
      right.left := root.right;
      assert Holds(r);
      assert SpineHolds(p.high);
      HighClosed(p.high, r);
    }

    /** The state in front of the loops. */
    method Start(ghost key: int) returns (sent: Node, ghost p: Parts)
      requires Valid() && root != null
      ensures fresh(sent) && Split(p, sent, sent, sent) && Sorted(p, key) && Increasing(Order(p))
      ensures Order(p) == Inorder(tree) && AllNodes(p) == Nodes(tree) && p.mid == tree
      ensures Whole(p, key) == Splayed(tree, key)
    {
      assert allocated(Nodes(tree));
      sent := new Node(0);
      sent.left, sent.right := null, null;
      p := Parts(Top, tree, Top);
      StartSorted(p, key);
    }

    /** What the fields say around the middle part. */
    lemma Look(p: Parts, k: int, left: Node, right: Node, sent: Node)
      requires Split(p, left, right, sent)
      ensures p.mid.Branch? && root == p.mid.node
      ensures root.left == Root(p.mid.left) && root.right == Root(p.mid.right)
      ensures p.mid.node in Nodes(p.mid) && Nodes(p.mid) <= AllNodes(p)
      ensures left in AllNodes(p) + {sent} && right in AllNodes(p) + {sent}
      ensures p.mid.node.key == k ==> Settled(p.mid, k) && Turns(p.mid, k) == 0
    {
    }

    /** SPLAY: the order stays, and the key, or a neighbour of it, comes to the top. */
    method Splay(key: int) returns (ghost turns: nat)
      requires Valid() && root != null
      modifies this, Nodes(tree)
      ensures tree == Splayed(old(tree), key) && turns == Turns(old(tree), key)
      ensures Valid() && Inorder(tree) == old(Inorder(tree)) && Nodes(tree) == old(Nodes(tree)) && Splits(tree, key)
    {
      hide Split, Sorted, Holds, Ordered, Order, AllNodes, Settled, Increasing, Whole, Splayed, Turns;
      var sent; ghost var p;
      sent, p := Start(key);
      turns := 0;
      var left, right := sent, sent;
      while key != root.key
        invariant Split(p, left, right, sent) && Sorted(p, key) && fresh(sent) && root != null
        invariant Order(p) == old(Inorder(tree)) && AllNodes(p) == old(Nodes(tree))
        invariant p.mid.Branch? && Whole(p, key) == Splayed(old(tree), key) && turns + Turns(p.mid, key) == Turns(old(tree), key)
        decreases |Inorder(p.mid)|
      {
        turns := turns + 1;
        Look(p, key, left, right, sent);
        var more;
        if key < root.key {
          more, right, p := GoLeft(root.left != null && key < root.left.key, p, key, left, right, sent);
        } else {
          more, left, p := GoRight(root.right != null && key > root.right.key, p, key, left, right, sent);
        }
        if !more {
          break;
        }
      }
      Look(p, key, left, right, sent);
      Finish(left, right, sent, p, key);
    }

    /** The end of both loops. */
    method Finish(left: Node, right: Node, sent: Node, ghost p: Parts, ghost k: int)
      requires Split(p, left, right, sent) && Sorted(p, k) && Settled(p.mid, k) && Increasing(Order(p))
      modifies this, left`right, right`left, p.mid.node
      ensures Valid() && Inorder(tree) == Order(p) && Nodes(tree) == AllNodes(p) && Splits(tree, k)
      ensures tree == Whole(p, k)
    {
      SettledWhole(p, k);
      AssembledOrder(p, k);
      SettledSplits(p, k);
      IncreasingIsOrdered(Assembled(p));
      Assemble(left, right, sent, p, k);
    }

    /** SPLAY_MINMAX; the source calls it with SPLAY_NEGINF and SPLAY_INF only,
        and would not end for 0. */
    method SplayMinMax(comp: int) returns (ghost turns: nat)
      requires Valid() && root != null && comp != 0
      modifies this, Nodes(tree)
      ensures Valid() && Inorder(tree) == old(Inorder(tree)) && Nodes(tree) == old(Nodes(tree))
      ensures tree.Branch? && (comp < 0 ==> tree.left.Leaf?) && (comp > 0 ==> tree.right.Leaf?)
      ensures tree == Splayed(old(tree), Extreme(old(tree), comp)) && turns == Turns(old(tree), Extreme(old(tree), comp))
    {
      hide Split, Sorted, Holds, Order, AllNodes, Settled, Increasing, Whole, Splayed, Turns;
      ghost var k := Extreme(tree, comp);
      Beyond(tree, comp);
      var sent; ghost var p;
      sent, p := Start(k);
      turns := 0;
      var left, right := sent, sent;
      while true
        invariant Split(p, left, right, sent) && Sorted(p, k) && fresh(sent)
        invariant Order(p) == old(Inorder(tree)) && AllNodes(p) == old(Nodes(tree))
        invariant p.mid.Branch? && Whole(p, k) == Splayed(old(tree), k) && turns + Turns(p.mid, k) == Turns(old(tree), k)
        decreases |Inorder(p.mid)|
      {
        turns := turns + 1;
        Look(p, k, left, right, sent);
        var more;
        if comp < 0 {
          more, right, p := GoLeft(true, p, k, left, right, sent);
        } else {
          more, left, p := GoRight(true, p, k, left, right, sent);
        }
        if !more {
          break;
        }
      }
      Look(p, k, left, right, sent);
      Finish(left, right, sent, p, k);
      BeyondSplits(tree, k, comp);
    }

    /** SPLAY_FIND */
    method Find(key: int) returns (found: Node?, ghost turns: nat)
      requires Valid()
      modifies this, Nodes(tree)
      ensures Valid() && Inorder(tree) == old(Inorder(tree)) && Nodes(tree) == old(Nodes(tree))
      ensures found != null ==> found in Nodes(tree) && found.key == key && found == root
      ensures found == null ==> forall m :: m in Nodes(tree) ==> m.key != key
      ensures tree == After(old(tree), Seek(key)) && turns == Cost(old(tree), Seek(key))
    {
      hide Splayed, Turns;
      if root == null {
        return null, 0;
      }
      turns := Splay(key);
      found := if key == root.key then root else null;
    }

    /** SPLAY_INSERT */
    method Insert(elm: Node) returns (found: Node?, ghost turns: nat)
      requires Valid()
      modifies this, Nodes(tree), elm
      ensures Valid()
      ensures found == null <==> forall m :: m in old(Nodes(tree)) ==> m.key != elm.key
      ensures elm in old(Nodes(tree)) ==> found == elm
      ensures found == null ==> Inorder(tree) == Inserted(old(Inorder(tree)), elm) && root == elm
      ensures found == null ==> Nodes(tree) == old(Nodes(tree)) + {elm}
      ensures found != null ==> Inorder(tree) == old(Inorder(tree)) && Nodes(tree) == old(Nodes(tree))
      ensures found != null ==> found in Nodes(tree) && found.key == elm.key && found == root
      ensures tree == After(old(tree), Put(elm)) && turns == Cost(old(tree), Put(elm))
    {
      hide Splayed, Turns, Inserted;
      if root == null {
        elm.left, elm.right := null, null;
        root := elm;
        tree := Branch(Leaf, elm, Black, Leaf);
        FirstInserted(elm);
        return null, 0;
      }
      turns := Splay(elm.key);
      if elm.key == root.key {
        return root, turns;
      }
      ToppedNodes(tree, elm);
      InsertedOrder(tree, elm);
      PutTop(elm);
      found := null;
    }

    /** The two ways to put a new node on top. */
    method PutTop(elm: Node)
      requires Valid() && elm !in Nodes(tree) && Splits(tree, elm.key) && elm.key != tree.node.key
      modifies this, tree.node, elm
      ensures Valid() && tree == Topped(old(tree), elm)
    {
      ghost var t := tree;
      OrderedApart(t);
      ToppedNodes(t, elm);
      if elm.key < root.key {
        elm.left := root.left;
        elm.right := root;
        root.left := null;
      } else {
        elm.right := root.right;
        elm.left := root;
        root.right := null;
      }
      root := elm;
      tree := Topped(t, elm);
      assert Holds(t.left) && Holds(t.right);
    }

    /** SPLAY_REMOVE; what it returns is its argument, even if another node with
        the same key was the one taken out. */
    method Remove(elm: Node) returns (r: Node?, ghost gone: Node?, ghost turns: nat)
      requires Valid()
      modifies this, Nodes(tree)
      ensures Valid()
      ensures r == if gone == null then null else elm
      ensures gone == null <==> forall m :: m in old(Nodes(tree)) ==> m.key != elm.key
      ensures gone == null ==> Inorder(tree) == old(Inorder(tree)) && Nodes(tree) == old(Nodes(tree))
      ensures gone != null ==> gone in old(Nodes(tree)) && gone.key == elm.key
      ensures gone != null ==> Inorder(tree) == Without(old(Inorder(tree)), gone) && Nodes(tree) == old(Nodes(tree)) - {gone}
      ensures tree == After(old(tree), Drop(elm)) && turns == Cost(old(tree), Drop(elm))
    {
      hide Splayed, Turns, Beheaded, BeheadTurns, Without, Inorder;
      if root == null {
        return null, null, 0;
      }
      turns := Splay(elm.key);
      if elm.key != root.key {
        return null, null, turns;
      }
      ghost var more;
      gone, more := TakeRoot(elm);
      turns := turns + more;
      r := elm;
    }

    /** The root is the node sought. */
    method TakeRoot(elm: Node) returns (ghost gone: Node, ghost turns: nat)
      requires Valid() && tree.Branch? && Splits(tree, elm.key) && elm.key == tree.node.key
      modifies this, Nodes(tree)
      ensures Valid() && gone == old(tree).node && gone in old(Nodes(tree))
      ensures Inorder(tree) == Without(old(Inorder(tree)), gone) && Nodes(tree) == old(Nodes(tree)) - {gone}
      ensures tree == Beheaded(old(tree), elm.key) && turns == BeheadTurns(old(tree), elm.key)
    {
      hide Splayed, Turns, Beheaded, BeheadTurns;
      gone := root;
      ghost var t := tree;
      turns := DropRoot(elm);
      SplicedOrder(Top, t, tree);
      NodesWithout(t, tree, gone);
    }

    /** The root comes out of the tree; its left subtree is splayed and takes the
        right one. */
    method DropRoot(elm: Node) returns (ghost turns: nat)
      requires Valid() && tree.Branch? && Splits(tree, elm.key) && elm.key == tree.node.key
      modifies this, Nodes(tree)
      ensures Valid() && Inorder(tree) == Inorder(old(tree).left) + Inorder(old(tree).right)
      ensures tree == Beheaded(old(tree), elm.key) && turns == BeheadTurns(old(tree), elm.key)
    {
      ghost var t := tree;
      if root.left == null {
        root := root.right;
        tree := t.right;
        return 0;
      }
      OrderedApart(t);
      assert allocated(Nodes(t.right));
      var tmp := root.right;
      root := root.left;
      tree := t.left;
      turns := Splay(elm.key);
      NothingRight(tree, elm.key);
      Rejoin(tmp, t);
    }

    method Rejoin(tmp: Node?, ghost t: Tree)
      requires Valid() && tree.Branch? && tree.right.Leaf?
      requires t.Branch? && Ordered(t) && Apart(t) && Inorder(tree) == Inorder(t.left) && Nodes(tree) == Nodes(t.left)
      requires tmp == Root(t.right) && Holds(t.right)
      modifies this, tree.node
      ensures Valid() && Inorder(tree) == Inorder(t.left) + Inorder(t.right)
      ensures tree == Branch(old(tree).left, old(tree).node, old(tree).color, t.right)
    {
      ghost var l := tree;
      OrderedApart(l);
      assert l.node in Nodes(l);
      root.right := tmp;
      tree := l.(right := t.right);
      assert Holds(l.left) && Holds(t.right);
      assert Inorder(l) == Inorder(l.left) + [l.node];
      assert forall m :: m in Nodes(t.right) ==> l.node.key < t.node.key < m.key;
    }

    /** SPLAY_MIN (val < 0) and SPLAY_MAX (val > 0) */
    method MinMax(val: int) returns (r: Node?, ghost turns: nat)
      requires Valid() && val != 0
      modifies this, Nodes(tree)
      ensures Valid() && Inorder(tree) == old(Inorder(tree)) && Nodes(tree) == old(Nodes(tree))
      ensures var s := Inorder(tree); r == RbWalk.Nth(s, if val < 0 then 0 else |s| - 1)
      ensures r == null <==> old(tree).Leaf?
      ensures tree == After(old(tree), Ends(val)) && turns == Cost(old(tree), Ends(val))
    {
      hide Splayed, Turns;
      if root == null {
        return null, 0;
      }
      turns := SplayMinMax(val);
      assert Inorder(tree) == Inorder(tree.left) + [root] + Inorder(tree.right);
      r := root;
    }

    /** SPLAY_NEXT: the element after elm, which must be in the tree. The walk to
        it is paid when it is splayed next, but not when it is not. */
    method Next(elm: Node) returns (r: Node?, ghost turns: nat, ghost walked: nat)
      requires Valid() && elm in Nodes(tree)
      modifies this, Nodes(tree)
      ensures Valid() && Inorder(tree) == old(Inorder(tree)) && Nodes(tree) == old(Nodes(tree))
      ensures var s := Inorder(tree); forall i :: 0 <= i < |s| && s[i] == elm ==> r == RbWalk.Nth(s, i + 1)
      ensures tree == Splayed(old(tree), elm.key) && turns == Turns(old(tree), elm.key) && walked == LeftDepth(tree.right)
      ensures walked <= if r == null then 0 else 2 * Turns(tree, r.key)
    {
      hide Splayed, Turns;
      turns := Splay(elm.key);
      assert elm == root;
      ghost var a, b := Inorder(tree.left), Inorder(tree.right);
      OrderedIsIncreasing(tree);
      RbWalk.PositionIn(a, elm, b);
      r, walked := elm.right, 0;
      if r == null {
        return;
      }
      ghost var t := tree.right;
      while r.left != null
        invariant r != null && r == Root(t) && Holds(t) && Inorder(t)[0] == b[0]
        invariant walked + LeftDepth(t) == LeftDepth(tree.right) && Leftmost(t) == Leftmost(tree.right)
        decreases t
      {
        r := r.left;
        t := t.left;
        walked := walked + 1;
      }
      NextTurns(tree);
    }

    lemma Bounded()
      requires Valid()
      ensures var n := |Inorder(tree)|;
        VisitCost(tree) + 6 * Potential(Visited(tree)) <= 6 * Potential(tree) + (n + 1) * (18 * Lg(n) + 6)
    {
      VisitBound(tree);
    }

    /** SPLAY_FOREACH visits every node once, in order, while the tree is
        splayed at each step. All turns of its loops together are bounded by the
        number of nodes times its logarithm. */
    method ForEach() returns (visited: seq<Node>, ghost cost: nat)
      requires Valid()
      modifies this, Nodes(tree)
      ensures Valid() && Inorder(tree) == old(Inorder(tree)) && Nodes(tree) == old(Nodes(tree))
      ensures visited == Inorder(tree)
      ensures tree == Visited(old(tree)) && cost == VisitCost(old(tree))
      ensures var n := |visited|; cost + 6 * Potential(tree) <= 6 * Potential(old(tree)) + (n + 1) * (18 * Lg(n) + 6)
    {
      hide Valid, Inorder, Nodes, Splayed, Turns, Potential, Lg, Extreme, Walked, WalkCost;
      Bounded();
      ghost var s, t0 := Inorder(tree), tree;
      visited := [];
      var x;
      x, cost := MinMax(-1);
      assert s[0..] == s;
      while x != null
        invariant Valid() && Inorder(tree) == s && Nodes(tree) == old(Nodes(tree)) && tree.Leaf? == t0.Leaf?
        invariant |visited| <= |s| && visited == s[..|visited|] && x == RbWalk.Nth(s, |visited|)
        invariant tree.Leaf? ==> x == null && cost == 0
        invariant tree.Branch? ==> Walked(tree, s[|visited|..]) == Visited(t0) && cost + WalkCost(tree, s[|visited|..]) == VisitCost(t0)
        decreases |s| - |visited|
      {
        InorderNode(tree, x);
        WalkNext(tree, s, |visited|);
        visited := visited + [x];
        ghost var turns, walked;
        x, turns, walked := Next(x);
        cost := cost + turns + walked;
      }
      AllWalked(tree, s);
    }

    /** Nodes inserted in increasing order, and a search for the first of them: a tree
        in which the walk to the second is past half of all. */
    method SlowTree(s: seq<Node>)
      requires Valid() && tree.Leaf? && Increasing(s) && |s| >= 2
      modifies this, s
      ensures Valid() && tree == Splayed(LeftSpine(s), s[0].key) && tree.node == s[0] && LeftDepth(tree.right) == |s| / 2 - 1
    {
      hide Valid, Splayed, Turns, LeftSpine, Increasing, LeftDepth;
      InsertSpine(s);
      SpineNodes(s);
      SpineSplayed(s);
      var found; ghost var turns;
      found, turns := Find(s[0].key);
    }

    method InsertSpine(s: seq<Node>)
      requires Valid() && tree.Leaf? && Increasing(s) && s != []
      modifies this, s
      ensures Valid() && tree == LeftSpine(s)
    {
      hide Valid, Splayed, Turns, Inserted, Topped, After, LeftSpine, Inorder;
      NoSpine();
      for i := 0 to |s|
        invariant Valid() && tree == LeftSpine(s[..i])
      {
        SpineNodes(s[..i]);
        var found; ghost var turns;
        found, turns := Insert(s[i]);
        SpineGrows(s[..i], s[i]);
        assert s[..i + 1] == s[..i] + [s[i]];
      }
      assert s[..|s|] == s;
    }

    /** Any operations in any order. */
    method RunAll(ops: seq<Access>) returns (ghost turns: nat)
      requires Valid() && forall i :: 0 <= i < |ops| && ops[i].Ends? ==> ops[i].val != 0
      modifies this, Nodes(tree), Given(ops)
      ensures Valid() && tree == AfterAll(old(tree), ops) && turns == CostAll(old(tree), ops)
      ensures turns + 2 * Potential(tree) <=
        2 * Potential(old(tree)) + |ops| * (12 * Lg(Size(old(tree)) + Puts(ops)) + 4)
    {
      hide Inorder, Nodes, Given, Lg, Potential, Inserted, Without, Size, Puts, After, Cost, AfterAll, CostAll;
      RunBound(tree, ops, Size(tree) + Puts(ops));
      GivenNodes(ops);
      ghost var t0 := tree;
      assert ops[0..] == ops;
      turns := 0;
      for i := 0 to |ops|
        invariant Valid() && Nodes(tree) <= old(Nodes(tree)) + Given(ops)
        invariant AfterAll(tree, ops[i..]) == AfterAll(t0, ops) && turns + CostAll(tree, ops[i..]) == CostAll(t0, ops)
      {
        RunNext(tree, ops, i);
        ghost var m;
        match ops[i] {
          case Seek(key) => var found; found, m := Find(key);
          case Put(node) => var found; found, m := Insert(node);
          case Drop(node) => var r; ghost var gone; r, gone, m := Remove(node);
          case Ends(val) =>
            var r; r, m := MinMax(val);
        }
        turns := turns + m;
      }
      RunDone(tree, ops);
    }
  }

  /** The nodes to be inserted. */
  ghost function Given(ops: seq<Access>): set<Node> {
    set op | op in ops && op.Put? :: op.node
  }

  lemma GivenNodes(ops: seq<Access>)
    ensures forall i :: 0 <= i < |ops| && ops[i].Put? ==> ops[i].node in Given(ops)
  {
    assert forall i :: 0 <= i < |ops| ==> ops[i] in ops;
  }
}
