/**
  Operations on a splay tree as functions of the tree, with the turns of their
  loops, and the bounds that hold for every run of them.
 */
module SplayRuns {
  import opened RbShape
  import opened SplayCost

  // ---------------------------------------------------------------- operations

  /** SPLAY_FIND, SPLAY_INSERT, SPLAY_REMOVE, and SPLAY_MIN (val < 0) or SPLAY_MAX */
  datatype Access = Seek(key: int) | Put(node: Node) | Drop(node: Node) | Ends(val: int)

  /** A key below (comp < 0) or above all keys of t. */
  ghost function Extreme(t: Tree, comp: int): int
    requires t.Branch?
  {
    var s := Inorder(t);
    if comp < 0 then s[0].key - 1 else s[|s| - 1].key + 1
  }

  lemma Beyond(t: Tree, comp: int)
    requires Ordered(t) && t.Branch?
    ensures forall m :: m in Nodes(t) ==> if comp < 0 then Extreme(t, comp) < m.key else m.key < Extreme(t, comp)
  {
    OrderedIsIncreasing(t);
    forall m | m in Nodes(t) ensures if comp < 0 then Extreme(t, comp) < m.key else m.key < Extreme(t, comp) {
      InorderNode(t, m);
    }
  }

  lemma BeyondSplits(t: Tree, k: int, comp: int)
    requires Splits(t, k) && comp != 0
    requires forall m :: m in Nodes(t) ==> if comp < 0 then k < m.key else m.key < k
    ensures (comp < 0 ==> t.left.Leaf?) && (comp > 0 ==> t.right.Leaf?)
  {
    assert t.left.Branch? ==> t.left.node in Nodes(t.left);
    assert t.right.Branch? ==> t.right.node in Nodes(t.right);
  }

  ghost function KeyOf(t: Tree, op: Access): int
    requires t.Branch?
  {
    match op
    case Seek(key) => key
    case Put(n) => n.key
    case Drop(n) => n.key
    case Ends(val) => Extreme(t, val)
  }

  /** t cut in two around the key of n, with n on top. */
  ghost function Topped(t: Tree, n: Node): Tree
    requires t.Branch?
  {
    if n.key < t.node.key then Branch(t.left, n, Black, t.(left := Leaf)) else Branch(t.(right := Leaf), n, Black, t.right)
  }

  lemma ToppedNodes(t: Tree, n: Node)
    requires Ordered(t) && Splits(t, n.key) && n.key != t.node.key
    ensures Ordered(Topped(t, n)) && Nodes(Topped(t, n)) == Nodes(t) + {n}
    ensures forall m :: m in Nodes(t) ==> m.key != n.key
  {
    if n.key < t.node.key {
      var r := t.(left := Leaf);
      assert Nodes(r) == {t.node} + Nodes(t.right) && Ordered(r);
    } else {
      var l := t.(right := Leaf);
      assert Nodes(l) == Nodes(t.left) + {t.node} && Ordered(l);
    }
  }

  /** The tree after an operation. */
  ghost function After(t: Tree, op: Access): Tree {
    if t.Leaf? then if op.Put? then Branch(Leaf, op.node, Black, Leaf) else Leaf
    else
      var (k, s) := (KeyOf(t, op), Splayed(t, KeyOf(t, op)));
      if op.Put? && k != s.node.key then Topped(s, op.node)
      else if op.Drop? && k == s.node.key then Beheaded(s, k)
      else s
  }

  /** The turns of its loops. */
  ghost function Cost(t: Tree, op: Access): nat {
    if t.Leaf? then 0
    else
      var (k, s) := (KeyOf(t, op), Splayed(t, KeyOf(t, op)));
      Turns(t, k) + if op.Drop? && k == s.node.key then BeheadTurns(s, k) else 0
  }

  lemma BeheadedOrdered(s: Tree, k: int)
    requires s.Branch? && Ordered(s) && Splits(s, k) && s.node.key == k
    ensures Ordered(Beheaded(s, k)) && (s.left.Branch? ==> Splayed(s.left, k).right.Leaf?)
  {
    if s.left.Branch? {
      SplayedFacts(s.left, k);
      var l := Splayed(s.left, k);
      NothingRight(l, k);
      assert l.node in Nodes(l);
    }
  }

  lemma ToppedAffordable(t: Tree, n: Node)
    requires t.Branch?
    ensures var t' := Topped(Splayed(t, n.key), n); Size(t') <= Size(t) + 1 && Affordable(t, t', Turns(t, n.key), Size(t) + 1)
  {
    hide Splayed, Turns, Affordable, Lg;
    var t' := Topped(Splayed(t, n.key), n);
    NewRoot(t'.left, n, t'.right, Splayed(t, n.key));
    InsertAffordable(t, n.key, t'.left, n, t'.right);
  }

  lemma FirstAffordable(n: Node)
    ensures var t := Branch(Leaf, n, Black, Leaf); Size(t) == 1 && Affordable(Leaf, t, 0, 1)
  {
    var t := Branch(Leaf, n, Black, Leaf);
    assert Size(t) == 1 && Potential(t) == Potential(Leaf) + Lg(1) + Potential(Leaf);
  }

  ghost function Grows(op: Access): nat {
    if op.Put? then 1 else 0
  }

  /** Each operation keeps the order and costs no more than it may. */
  lemma {:induction false} AfterFacts(t: Tree, op: Access)
    requires Ordered(t)
    ensures Ordered(After(t, op)) && Size(After(t, op)) <= Size(t) + Grows(op)
    ensures Affordable(t, After(t, op), Cost(t, op), Size(t) + Grows(op))
  {
    hide Ordered, Splayed, Turns, Affordable, Beheaded, BeheadTurns, Topped, Splits;
    if t.Leaf? {
      EmptyAfter(op);
    } else {
      var k := KeyOf(t, op);
      var s := Splayed(t, k);
      SplayedFacts(t, k);
      if op.Put? && k != s.node.key {
        ToppedNodes(s, op.node);
        ToppedAffordable(t, op.node);
      } else if op.Drop? && k == s.node.key {
        BeheadedOrdered(s, k);
        Beheading(s, k);
        RemoveAffordable(t, k);
      } else {
        SplayAffordable(t, k, Size(t) + Grows(op));
      }
    }
  }

  lemma EmptyAfter(op: Access)
    ensures Ordered(After(Leaf, op)) && Size(After(Leaf, op)) <= Grows(op)
    ensures Affordable(Leaf, After(Leaf, op), Cost(Leaf, op), Grows(op)) && Size(Leaf) == 0
  {
    hide Affordable;
    if op.Put? {
      FirstAffordable(op.node);
    } else {
      StayAffordable(Leaf, 0);
    }
  }

  // ---------------------------------------------------------------- runs

  ghost function AfterAll(t: Tree, ops: seq<Access>): Tree
    decreases |ops|
  {
    if ops == [] then t else AfterAll(After(t, ops[0]), ops[1..])
  }

  ghost function CostAll(t: Tree, ops: seq<Access>): nat
    decreases |ops|
  {
    if ops == [] then 0 else Cost(t, ops[0]) + CostAll(After(t, ops[0]), ops[1..])
  }

  ghost function Puts(ops: seq<Access>): nat {
    if ops == [] then 0 else Grows(ops[0]) + Puts(ops[1..])
  }

  lemma {:induction false} Wider(t: Tree, t': Tree, turns: nat, m: nat, n: nat)
    requires Affordable(t, t', turns, m) && m <= n
    ensures Affordable(t, t', turns, n)
  {
    LgGrows(m, n);
  }

  /** Any operations in any order on any tree: all their turns together are at most
      their number times twelve logarithms, and four, of the largest size there can
      be, and what the potential pays, which is nothing for an empty tree. */
  lemma {:induction false} RunBound(t: Tree, ops: seq<Access>, n: nat)
    requires Ordered(t) && Size(t) + Puts(ops) <= n
    ensures Ordered(AfterAll(t, ops))
    ensures CostAll(t, ops) + 2 * Potential(AfterAll(t, ops)) <= 2 * Potential(t) + |ops| * (12 * Lg(n) + 4)
    decreases |ops|
  {
    hide Ordered, After, Cost, Potential, Lg;
    if ops != [] {
      var t1 := After(t, ops[0]);
      AfterFacts(t, ops[0]);
      Wider(t, t1, Cost(t, ops[0]), Size(t) + Grows(ops[0]), n);
      RunBound(t1, ops[1..], n);
      OneMore(|ops|, 12 * Lg(n) + 4);
    }
  }

  lemma RunNext(t: Tree, ops: seq<Access>, i: nat)
    requires i < |ops|
    ensures AfterAll(t, ops[i..]) == AfterAll(After(t, ops[i]), ops[i + 1..])
    ensures CostAll(t, ops[i..]) == Cost(t, ops[i]) + CostAll(After(t, ops[i]), ops[i + 1..])
  {
    assert ops[i..][1..] == ops[i + 1..];
  }

  lemma RunDone(t: Tree, ops: seq<Access>)
    ensures AfterAll(t, ops[|ops|..]) == t && CostAll(t, ops[|ops|..]) == 0
  {
  }

  lemma OneMore(m: nat, c: nat)
    requires m > 0
    ensures m * c == c + (m - 1) * c
  {
  }

  // ---------------------------------------------------------------- walks

  /** The tree after SPLAY_NEXT of each of the nodes s. */
  ghost function Walked(t: Tree, s: seq<Node>): (r: Tree)
    requires t.Branch?
    ensures r.Branch? && Size(r) == Size(t)
    decreases |s|
  {
    if s == [] then t else Walked(Splayed(t, s[0].key), s[1..])
  }

  /** The turns of both loops of these calls. */
  ghost function WalkCost(t: Tree, s: seq<Node>): nat
    requires t.Branch?
    decreases |s|
  {
    if s == [] then 0
    else
      var t' := Splayed(t, s[0].key);
      Turns(t, s[0].key) + LeftDepth(t'.right) + WalkCost(t', s[1..])
  }

  lemma {:induction false} LeftmostFirst(t: Tree)
    requires t.Branch?
    ensures Inorder(t) != [] && Leftmost(t) == Inorder(t)[0]
  {
    if t.left.Branch? {
      LeftmostFirst(t.left);
    }
  }

  /** The walk from the root to the next node is paid by the splay of that node. */
  lemma NextPaid(t: Tree, full: seq<Node>, i: nat)
    requires t.Branch? && Ordered(t) && Inorder(t) == full && i < |full| && t.node == full[i]
    ensures LeftDepth(t.right) <= if i + 1 < |full| then 2 * Turns(t, full[i + 1].key) else 0
  {
    hide Turns, Ordered;
    OrderedIsIncreasing(t);
    var a := |Inorder(t.left)|;
    assert full[a] == t.node;
    assert a == i;
    if t.right.Branch? {
      LeftmostFirst(t.right);
      assert full[i + 1] == Inorder(t.right)[0];
      NextTurns(t);
    }
  }

  /** From node i on, with a walk to it still to be paid. */
  lemma {:induction false} WalkBound(t: Tree, full: seq<Node>, i: nat, walked: nat)
    requires t.Branch? && Ordered(t) && Inorder(t) == full && i <= |full|
    requires walked <= if i < |full| then 2 * Turns(t, full[i].key) else 0
    ensures walked + WalkCost(t, full[i..]) + 6 * Potential(Walked(t, full[i..])) <=
            6 * Potential(t) + (|full| - i) * (18 * Lg(Size(t)) + 6)
    decreases |full| - i
  {
    hide Ordered, Turns, Splayed, Potential, Lg, Splits;
    if i == |full| {
      assert full[i..] == [];
    } else {
      var k := full[i].key;
      var t' := Splayed(t, k);
      SplayedFacts(t, k);
      RootIs(t', full, i);
      NextPaid(t', full, i);
      Amortised(t, k);
      WalkBound(t', full, i + 1, LeftDepth(t'.right));
      WalkNext(t, full, i);
      OneMore(|full| - i, 18 * Lg(Size(t)) + 6);
    }
  }

  lemma WalkNext(t: Tree, full: seq<Node>, i: nat)
    requires t.Branch? && i < |full|
    ensures var t' := Splayed(t, full[i].key);
      && WalkCost(t, full[i..]) == Turns(t, full[i].key) + LeftDepth(t'.right) + WalkCost(t', full[i + 1..])
      && Walked(t, full[i..]) == Walked(t', full[i + 1..])
  {
    assert full[i..][1..] == full[i + 1..];
  }

  lemma AllWalked(t: Tree, full: seq<Node>)
    ensures t.Branch? ==> Walked(t, full[|full|..]) == t && WalkCost(t, full[|full|..]) == 0
  {
  }

  lemma RootIs(t: Tree, full: seq<Node>, i: nat)
    requires t.Branch? && Ordered(t) && Inorder(t) == full && i < |full| && Splits(t, full[i].key)
    ensures t.node == full[i]
  {
    InorderNode(t, full[i]);
    assert full[i] in full;
  }

  /** What SPLAY_FOREACH leaves and costs: SPLAY_MIN, then SPLAY_NEXT of every node. */
  ghost function Visited(t: Tree): Tree {
    if t.Leaf? then Leaf else Walked(Splayed(t, Extreme(t, -1)), Inorder(t))
  }

  ghost function VisitCost(t: Tree): nat {
    if t.Leaf? then 0 else Turns(t, Extreme(t, -1)) + WalkCost(Splayed(t, Extreme(t, -1)), Inorder(t))
  }

  /** All turns of a SPLAY_FOREACH over any tree: the number of its nodes, and one,
      times 18 logarithms, and 6, and what the potential pays. */
  lemma {:induction false} VisitBound(t: Tree)
    requires Ordered(t)
    ensures var n := |Inorder(t)|;
      VisitCost(t) + 6 * Potential(Visited(t)) <= 6 * Potential(t) + (n + 1) * (18 * Lg(n) + 6)
  {
    hide Ordered, Turns, Splayed, Potential, Lg, Extreme, Walked, WalkCost;
    SizeIsLength(t);
    if t.Branch? {
      var k := Extreme(t, -1);
      Amortised(t, k);
      SplayedFacts(t, k);
      WalkBound(Splayed(t, k), Inorder(t), 0, 0);
      assert Inorder(t)[0..] == Inorder(t);
      OneMore(|Inorder(t)| + 1, 18 * Lg(Size(t)) + 6);
    }
  }

  lemma {:induction false} SizeIsLength(t: Tree)
    ensures Size(t) == |Inorder(t)|
  {
    if t.Branch? {
      SizeIsLength(t.left);
      SizeIsLength(t.right);
    }
  }

  // ---------------------------------------------------------------- SPLAY_NEXT alone

  /** The nodes of s down the left links. */
  ghost function LeftSpine(s: seq<Node>): Tree {
    if s == [] then Leaf else Branch(LeftSpine(s[..|s| - 1]), s[|s| - 1], Black, Leaf)
  }

  lemma NoSpine()
    ensures LeftSpine([]) == Leaf
  {
  }

  lemma RootStays(t: Tree)
    requires t.Branch?
    ensures Splayed(t, t.node.key) == t && Turns(t, t.node.key) == 0
  {
  }

  lemma {:induction false} SpineNodes(s: seq<Node>)
    ensures Nodes(LeftSpine(s)) == (set m | m in s) && Size(LeftSpine(s)) == |s|
  {
    if s != [] {
      SpineNodes(s[..|s| - 1]);
      assert s == s[..|s| - 1] + [s[|s| - 1]];
    }
  }

  /** Nodes inserted in increasing order hang together on left links. */
  lemma SpineGrows(s: seq<Node>, n: Node)
    requires s != [] ==> s[|s| - 1].key < n.key
    ensures After(LeftSpine(s), Put(n)) == LeftSpine(s + [n])
  {
    assert (s + [n])[..|s|] == s;
    assert s != [] ==> Splayed(LeftSpine(s), n.key) == LeftSpine(s);
  }

  /** Looking for the first of them leaves every other one on the left links below
      its right child. */
  lemma {:induction false} SpineSplayed(s: seq<Node>)
    requires Increasing(s) && |s| >= 2
    ensures var t := Splayed(LeftSpine(s), s[0].key);
      t.node == s[0] && t.right.Branch? && LeftDepth(t.right) == |s| / 2 - 1
  {
    var k, l, x := s[0].key, s[..|s| - 1], s[|s| - 1];
    if |s| == 2 {
      assert LeftSpine(l) == Branch(LeftSpine(l[..0]), s[0], Black, Leaf) && LeftSpine(l[..0]) == Leaf;
      assert Splayed(LeftSpine(l), k) == LeftSpine(l);
    } else {
      var l', y := l[..|l| - 1], l[|l| - 1];
      assert k < y.key < x.key && l' != [] && l'[0] == s[0];
      assert LeftSpine(l) == Branch(LeftSpine(l'), y, Black, Leaf);
      var r := Splayed(LeftSpine(l'), k);
      assert Splayed(LeftSpine(s), k) == Branch(r.left, r.node, r.color, Branch(r.right, y, Black, Branch(Leaf, x, Black, Leaf)));
      if |s| > 3 {
        SpineSplayed(l');
      } else {
        assert LeftSpine(l') == Branch(LeftSpine(l'[..0]), s[0], Black, Leaf) && LeftSpine(l'[..0]) == Leaf;
      }
    }
  }

  /** The header promises a logarithmic amortised cost for every operation. SPLAY_NEXT
      does not keep that: any number of calls for the node after the first one of this
      tree each walk past half of all nodes, and none changes the tree. */
  lemma {:induction false} NextUnpaid(s: seq<Node>, times: nat)
    requires Increasing(s) && |s| >= 2
    ensures var t := Splayed(LeftSpine(s), s[0].key);
      && t.node == s[0] && Walked(t, Again(s[0], times)) == t
      && WalkCost(t, Again(s[0], times)) == times * (|s| / 2 - 1)
  {
    hide LeftSpine, Splayed, Turns;
    SpineSplayed(s);
    var t := Splayed(LeftSpine(s), s[0].key);
    if times > 0 {
      RootStays(t);
      NextUnpaid(s, times - 1);
      assert Again(s[0], times)[1..] == Again(s[0], times - 1);
      OneMore(times, |s| / 2 - 1);
    }
  }

  /** The same node, so many times. */
  function Again(n: Node, times: nat): (r: seq<Node>)
    ensures |r| == times && (times > 0 ==> r[0] == n)
  {
    seq(times, _ => n)
  }
}
