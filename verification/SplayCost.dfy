/**
  What splaying costs: the turns of the top-down loops as a function of tree and
  key, and the amortised bound that the header of tree.h claims.
 */
module SplayCost {
  import opened RbShape
  import opened Define

  // ---------------------------------------------------------------- splaying as a function

  /** t after the rotation at the start of a turn, when there is one. */
  ghost function Turned(t: Tree, k: int): (u: Tree)
    requires t.Branch?
    ensures u.Branch? && Size(u) == Size(t)
  {
    if k < t.node.key && t.left.Branch? && k < t.left.node.key then RotatedRight(t)
    else if k > t.node.key && t.right.Branch? && k > t.right.node.key then RotatedLeft(t)
    else t
  }

  /** What a turn leaves in the middle; nothing when it is the last. */
  ghost function Inner(t: Tree, k: int): (inner: Tree)
    requires t.Branch?
    ensures Size(inner) < Size(t)
  {
    if k < t.node.key then Turned(t, k).left else if k > t.node.key then Turned(t, k).right else Leaf
  }

  ghost function Size(t: Tree): nat {
    if t.Leaf? then 0 else Size(t.left) + 1 + Size(t.right)
  }

  /** What a turn cut off, and a splayed middle, put together again. */
  ghost function JoinedHigh(u: Tree, s: Tree): Tree
    requires u.Branch? && s.Branch?
  {
    Branch(s.left, s.node, s.color, Branch(s.right, u.node, u.color, u.right))
  }

  ghost function JoinedLow(u: Tree, s: Tree): Tree
    requires u.Branch? && s.Branch?
  {
    Branch(Branch(u.left, u.node, u.color, s.left), s.node, s.color, s.right)
  }

  /** The tree after the loops and the assembly. */
  ghost function Splayed(t: Tree, k: int): (r: Tree)
    requires t.Branch?
    ensures r.Branch? && Size(r) == Size(t)
    decreases Size(t)
  {
    var (u, inner) := (Turned(t, k), Inner(t, k));
    if inner.Leaf? then u
    else
      var s := Splayed(inner, k);
      if k < t.node.key then JoinedHigh(u, s) else JoinedLow(u, s)
  }

  /** How often the body of the loop runs; each time it compares at most twice. */
  ghost function Turns(t: Tree, k: int): nat
    requires t.Branch?
    decreases Size(t)
  {
    if k == t.node.key then 0 else 1 + if Inner(t, k).Leaf? then 0 else Turns(Inner(t, k), k)
  }

  /** The root separates the keys around k; so it has k, or is next to it. */
  ghost predicate Splits(t: Tree, k: int) {
    t.Branch? && (forall m :: m in Nodes(t.left) ==> m.key < k) && (forall m :: m in Nodes(t.right) ==> k < m.key)
  }

  /** Splaying keeps the order, and its root separates the keys. */
  lemma {:induction false} SplayedFacts(t: Tree, k: int)
    requires t.Branch? && Ordered(t)
    ensures var s := Splayed(t, k); Inorder(s) == Inorder(t) && Nodes(s) == Nodes(t) && Ordered(s) && Splits(s, k)
    decreases Size(t)
  {
    TurnedFacts(t, k);
    if Inner(t, k).Branch? {
      SplayedFacts(Inner(t, k), k);
      var (u, s) := (Turned(t, k), Splayed(Inner(t, k), k));
      if k < t.node.key {
        JoinedHighFacts(u, s, k);
      } else {
        JoinedLowFacts(u, s, k);
      }
    }
  }

  lemma TurnedFacts(t: Tree, k: int)
    requires t.Branch? && Ordered(t)
    ensures var u := Turned(t, k); Inorder(u) == Inorder(t) && Nodes(u) == Nodes(t) && Ordered(u)
    ensures Inner(t, k).Leaf? ==> Splits(Turned(t, k), k)
  {
    if Turned(t, k) != t {
      if k < t.node.key {
        RotatedRightFacts(t);
        RotatedRightOrdered(t);
      } else {
        RotatedLeftFacts(t);
        RotatedLeftOrdered(t);
      }
    }
  }

  lemma {:induction false} JoinedHighFacts(u: Tree, s: Tree, k: int)
    requires u.Branch? && Ordered(u) && k < u.node.key && Ordered(s) && Splits(s, k)
    requires Inorder(s) == Inorder(u.left) && Nodes(s) == Nodes(u.left)
    ensures var r := JoinedHigh(u, s); Inorder(r) == Inorder(u) && Nodes(r) == Nodes(u) && Ordered(r) && Splits(r, k)
  {
    var r := JoinedHigh(u, s);
    Regrouped(Inorder(s.left), [s.node], Inorder(s.right), [u.node], Inorder(u.right));
    assert Nodes(r.right) == Nodes(s.right) + {u.node} + Nodes(u.right) && Ordered(r.right);
  }

  lemma {:induction false} JoinedLowFacts(u: Tree, s: Tree, k: int)
    requires u.Branch? && Ordered(u) && k > u.node.key && Ordered(s) && Splits(s, k)
    requires Inorder(s) == Inorder(u.right) && Nodes(s) == Nodes(u.right)
    ensures var r := JoinedLow(u, s); Inorder(r) == Inorder(u) && Nodes(r) == Nodes(u) && Ordered(r) && Splits(r, k)
  {
    var r := JoinedLow(u, s);
    Regrouped(Inorder(u.left), [u.node], Inorder(s.left), [s.node], Inorder(s.right));
    assert Nodes(r.left) == Nodes(u.left) + {u.node} + Nodes(s.left) && Ordered(r.left);
  }

  lemma Regrouped(a: seq<Node>, x: seq<Node>, b: seq<Node>, y: seq<Node>, c: seq<Node>)
    ensures a + x + (b + y + c) == (a + x + b) + y + c
  {
  }

  /** All of t is below k, so nothing is right of a root that splits it around k. */
  lemma NothingRight(t: Tree, k: int)
    requires Splits(t, k) && forall m :: m in Nodes(t) ==> m.key < k
    ensures t.right.Leaf?
  {
    assert t.right.Branch? ==> t.right.node in Nodes(t.right);
  }

  // ---------------------------------------------------------------- the potential

  /** The logarithm to base 2, rounded down. */
  function Lg(n: nat): nat {
    if n <= 1 then 0 else 1 + Lg(n / 2)
  }

  lemma {:induction false} LgIs(n: nat)
    requires n > 0
    ensures Pow2(Lg(n)) <= n < 2 * Pow2(Lg(n))
  {
    if n > 1 {
      LgIs(n / 2);
    }
  }

  ghost function Potential(t: Tree): nat {
    if t.Leaf? then 0 else Potential(t.left) + Lg(Size(t)) + Potential(t.right)
  }

  lemma {:induction false} LgGrows(a: nat, b: nat)
    requires a <= b
    ensures Lg(a) <= Lg(b)
  {
    if a > 1 {
      LgGrows(a / 2, b / 2);
    }
  }

  /** The potential a tree can start with. */
  lemma {:induction false} PotentialBound(t: Tree, n: nat)
    requires Size(t) <= n
    ensures Potential(t) <= Size(t) * Lg(n)
  {
    if t.Branch? {
      PotentialBound(t.left, n);
      PotentialBound(t.right, n);
      LgGrows(Size(t), n);
      Distribute(Size(t.left), Size(t.right), Lg(n));
    }
  }

  lemma Distribute(a: nat, b: nat, c: nat)
    ensures (a + 1 + b) * c == a * c + c + b * c
  {
  }

  /** Two parts of a whole cannot both have its logarithm. */
  lemma {:induction false} LgParts(a: nat, b: nat, n: nat)
    requires 0 < a && 0 < b && a + b <= n
    ensures Lg(a) + Lg(b) + 1 <= 2 * Lg(n)
  {
    var m := if a <= b then a else b;
    assert Lg(2 * m) == Lg(m) + 1;
    LgGrows(2 * m, n);
    LgGrows(a, n);
    LgGrows(b, n);
  }

  /** Splaying t for k costs at most `more` above six times its logarithm. */
  ghost predicate Paid(t: Tree, k: int, more: nat)
    requires t.Branch?
  {
    Turns(t, k) + 2 * Potential(Splayed(t, k)) <= 2 * Potential(t) + 6 * Lg(Size(t)) + more
  }

  /** The two rotations of a zig-zig turn. */
  lemma {:induction false} ZigZigSizes(inner: nat, low: nat, high: nat, rest: nat, n: nat)
    requires 0 < inner <= low && inner + rest <= n && 0 < rest && high <= n
    ensures 2 * Lg(high) + 2 * Lg(rest) + 4 * Lg(inner) + 2 <= 2 * Lg(low) + 6 * Lg(n)
  {
    hide Lg;
    LgParts(inner, rest, n);
    LgGrows(inner, low);
    LgGrows(high, n);
    LgGrows(inner, n);
  }

  /** A turn with a rotation pays for itself and for one more. */
  lemma {:induction false} ZigZig(t: Tree, k: int)
    requires t.Branch? && Turned(t, k) != t && Inner(t, k).Branch? && Paid(Inner(t, k), k, 2)
    ensures Paid(t, k, 1)
  {
    hide Lg;
    var (inner, s) := (Inner(t, k), Splayed(Inner(t, k), k));
    if k < t.node.key {
      var x := Branch(t.left.right, t.node, t.color, t.right);
      var y := Branch(s.right, t.left.node, t.left.color, x);
      assert inner == t.left.left && Splayed(t, k) == Branch(s.left, s.node, s.color, y);
      ZigZigSizes(Size(inner), Size(t.left), Size(y), Size(x), Size(t));
      assert Potential(y) == Potential(s.right) + Lg(Size(y)) + Potential(x);
      assert Potential(t.left) == Potential(inner) + Lg(Size(t.left)) + Potential(t.left.right);
    } else {
      var x := Branch(t.left, t.node, t.color, t.right.left);
      var y := Branch(x, t.right.node, t.right.color, s.left);
      assert inner == t.right.right && Splayed(t, k) == Branch(y, s.node, s.color, s.right);
      ZigZigSizes(Size(inner), Size(t.right), Size(y), Size(x), Size(t));
      assert Potential(y) == Potential(x) + Lg(Size(y)) + Potential(s.left);
      assert Potential(t.right) == Potential(t.right.left) + Lg(Size(t.right)) + Potential(inner);
    }
  }

  /** A turn without rotation in front of one that pays for it. */
  lemma {:induction false} Zig(t: Tree, k: int)
    requires t.Branch? && Turned(t, k) == t && Inner(t, k).Branch? && Paid(Inner(t, k), k, 1)
    ensures Paid(t, k, 2)
  {
    var s := Splayed(Inner(t, k), k);
    var x := if k < t.node.key then Branch(s.right, t.node, t.color, t.right) else Branch(t.left, t.node, t.color, s.left);
    LgGrows(Size(x), Size(t));
    LgGrows(Size(Inner(t, k)), Size(t));
  }

  /** Two turns without rotation, to one side and then to the other. */
  lemma {:induction false} ZigZag(t: Tree, k: int)
    requires t.Branch? && Turned(t, k) == t && Inner(t, k).Branch?
    requires var y := Inner(t, k); Turned(y, k) == y && Inner(y, k).Branch? && Paid(Inner(y, k), k, 2)
    ensures Paid(t, k, 2)
  {
    var y := Inner(t, k);
    var s := Splayed(Inner(y, k), k);
    var (a, b) := if k < t.node.key then
        (Branch(y.left, y.node, y.color, s.left), Branch(s.right, t.node, t.color, t.right))
      else
        (Branch(t.left, t.node, t.color, s.left), Branch(s.right, y.node, y.color, y.right));
    assert Splayed(t, k) == Branch(a, s.node, s.color, b);
    LgParts(Size(a), Size(b), Size(t));
    LgGrows(Size(Inner(y, k)), Size(y));
    LgGrows(Size(y), Size(t));
  }

  /** The last turn. */
  lemma {:induction false} LastTurn(t: Tree, k: int)
    requires t.Branch? && Inner(t, k).Leaf?
    ensures Paid(t, k, 1)
  {
    var u := Turned(t, k);
    if u != t {
      LgGrows(Size(if k < t.node.key then u.right else u.left), Size(t));
      LgGrows(2, Size(t));
    }
  }

  /** The amortised cost of one splay is logarithmic. */
  lemma {:induction false} Amortised(t: Tree, k: int)
    requires t.Branch?
    ensures Turns(t, k) + 2 * Potential(Splayed(t, k)) <= 2 * Potential(t) + 6 * Lg(Size(t)) + 2
    decreases Size(t)
  {
    var y := Inner(t, k);
    if y.Leaf? {
      LastTurn(t, k);
    } else if Turned(t, k) != t {
      Amortised(y, k);
      ZigZig(t, k);
    } else if Inner(y, k).Leaf? {
      LastTurn(y, k);
      Zig(t, k);
    } else {
      Amortised(Inner(y, k), k);
      if Turned(y, k) != y {
        ZigZig(y, k);
        Zig(t, k);
      } else {
        ZigZag(t, k);
      }
    }
  }

  // ---------------------------------------------------------------- the operations

  /** What an operation on a tree of at most n nodes may cost: its turns and the
      change of the potential. */
  ghost predicate Affordable(t: Tree, t': Tree, turns: nat, n: nat) {
    turns + 2 * Potential(t') <= 2 * Potential(t) + 12 * Lg(n) + 4
  }

  /** A splay, as SPLAY_FIND, SPLAY_MIN and SPLAY_MAX need it. */
  lemma SplayAffordable(t: Tree, k: int, n: nat)
    requires t.Branch? && Size(t) <= n
    ensures Affordable(t, Splayed(t, k), Turns(t, k), n)
  {
    Amortised(t, k);
    LgGrows(Size(t), n);
  }

  lemma {:induction false} StayAffordable(t: Tree, n: nat)
    ensures Affordable(t, t, 0, n)
  {
  }

  /** A splayed tree cut in two under a new root. */
  lemma {:induction false} NewRoot(l: Tree, x: Node, r: Tree, t: Tree)
    requires t.Branch? && Size(l) + Size(r) == Size(t)
    requires (l == t.left && r == t.(left := Leaf)) || (l == t.(right := Leaf) && r == t.right)
    ensures Size(Branch(l, x, Black, r)) == Size(t) + 1
    ensures Potential(Branch(l, x, Black, r)) <= Potential(t) + Lg(Size(t) + 1)
  {
    hide Lg;
    LgGrows(Size(l), Size(t));
    LgGrows(Size(r), Size(t));
    assert Potential(Branch(l, x, Black, r)) == Potential(l) + Lg(Size(l) + 1 + Size(r)) + Potential(r);
    assert Potential(Leaf) == 0;
    if l == t.left {
      assert Potential(t.(left := Leaf)) == Potential(Leaf) + Lg(Size(t.(left := Leaf))) + Potential(t.right);
    }
    if r == t.right {
      assert Potential(t.(right := Leaf)) == Potential(t.left) + Lg(Size(t.(right := Leaf))) + Potential(Leaf);
    }
  }

  lemma {:induction false} InsertAffordable(t: Tree, k: int, l: Tree, x: Node, r: Tree)
    requires t.Branch? && var s := Splayed(t, k);
      (l == s.left && r == s.(left := Leaf)) || (l == s.(right := Leaf) && r == s.right)
    ensures Affordable(t, Branch(l, x, Black, r), Turns(t, k), Size(t) + 1)
  {
    hide Lg, Splayed, Turns;
    Amortised(t, k);
    NewRoot(l, x, r, Splayed(t, k));
    LgGrows(Size(t), Size(t) + 1);
  }

  /** What SPLAY_REMOVE leaves when the root of the splayed tree is the node sought. */
  ghost function Beheaded(s: Tree, k: int): Tree
    requires s.Branch?
  {
    if s.left.Leaf? then s.right
    else
      var l := Splayed(s.left, k);
      Branch(l.left, l.node, l.color, s.right)
  }

  ghost function BeheadTurns(s: Tree, k: int): nat
    requires s.Branch?
  {
    if s.left.Leaf? then 0 else Turns(s.left, k)
  }

  lemma {:induction false} Beheading(s: Tree, k: int)
    requires s.Branch? && (s.left.Branch? ==> Splayed(s.left, k).right.Leaf?)
    ensures Size(Beheaded(s, k)) + 1 == Size(s)
    ensures BeheadTurns(s, k) + 2 * Potential(Beheaded(s, k)) <= 2 * Potential(s) + 6 * Lg(Size(s)) + 2
  {
    hide Splayed, Turns, Lg;
    if s.left.Branch? {
      Amortised(s.left, k);
      var l := Splayed(s.left, k);
      assert Size(l) == Size(l.left) + 1 && Potential(l) == Potential(l.left) + Lg(Size(l));
      LgGrows(Size(s.left), Size(s));
      LgGrows(Size(s) - 1, Size(s));
    }
  }

  lemma {:induction false} RemoveAffordable(t: Tree, k: int)
    requires t.Branch? && var s := Splayed(t, k); s.left.Branch? ==> Splayed(s.left, k).right.Leaf?
    ensures Affordable(t, Beheaded(Splayed(t, k), k), Turns(t, k) + BeheadTurns(Splayed(t, k), k), Size(t))
  {
    hide Lg, Splayed, Turns, Beheaded, BeheadTurns;
    Amortised(t, k);
    Beheading(Splayed(t, k), k);
  }

  // ---------------------------------------------------------------- walking to the next node

  /** The turns of the loop in SPLAY_NEXT. */
  ghost function LeftDepth(t: Tree): nat {
    if t.Leaf? || t.left.Leaf? then 0 else 1 + LeftDepth(t.left)
  }

  ghost function Leftmost(t: Tree): Node
    requires t.Branch?
  {
    if t.left.Leaf? then t.node else Leftmost(t.left)
  }

  lemma {:induction false} LeftmostIn(t: Tree)
    requires t.Branch?
    ensures Leftmost(t) in Nodes(t)
  {
    if t.left.Branch? {
      LeftmostIn(t.left);
    }
  }

  /** The walk to the leftmost node is at most twice what splaying it will cost. */
  lemma {:induction false} LeftmostTurns(t: Tree)
    requires t.Branch? && Ordered(t)
    ensures LeftDepth(t) <= 2 * Turns(t, Leftmost(t).key)
    decreases t
  {
    if t.left.Branch? {
      LeftmostIn(t.left);
      if t.left.left.Branch? {
        LeftmostIn(t.left.left);
        LeftmostTurns(t.left.left);
      }
    }
  }

  lemma {:induction false} NextTurns(t: Tree)
    requires t.Branch? && t.right.Branch? && Ordered(t)
    ensures LeftDepth(t.right) <= 2 * Turns(t, Leftmost(t.right).key)
  {
    var k := Leftmost(t.right).key;
    LeftmostIn(t.right);
    LeftmostTurns(t.right);
    LeftmostLeast(t.right);
    assert Inner(t, k) == t.right;
  }

  lemma {:induction false} LeftmostLeast(t: Tree)
    requires t.Branch? && Ordered(t)
    ensures forall m :: m in Nodes(t) ==> Leftmost(t).key <= m.key
  {
    if t.left.Branch? {
      LeftmostLeast(t.left);
      LeftmostIn(t.left);
    }
  }
}
