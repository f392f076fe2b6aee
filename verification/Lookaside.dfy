/**
  lookaside_allocator: nodes cut from pool blocks, the free ones chained
  through their next links.
 */
module Lookaside {
  import opened Wrappers

  /** lookaside_node: `size` bytes, of which only the first is looked at here, and
      the link. */
  class Node {
    const size: nat
    var first: int
    var next: Node?

    constructor (size: nat)
      ensures this.size == size
    {
      this.size := size;
      first, next := 0, null;
    }
  }

  /** stPool: a block of nodes. */
  class Pool {
    const nodes: seq<Node>
    var next: Pool?

    constructor (nodes: seq<Node>, next: Pool?)
      ensures this.nodes == nodes && this.next == next
    {
      this.nodes, this.next := nodes, next;
    }
  }

  /** gLookasideAllocSize, shared by all allocators. */
  class Counter {
    var size: int

    constructor ()
      ensures size == 0
    {
      size := 0;
    }
  }

  /** The next links spell out s from `first` on, and end after it. */
  ghost predicate Chained(first: Node?, s: seq<Node>)
    reads s
  {
    if s == [] then first == null else first == s[0] && Chained(s[0].next, s[1..])
  }

  ghost predicate PoolsChained(first: Pool?, s: seq<Pool>)
    reads s
  {
    if s == [] then first == null else first == s[0] && PoolsChained(s[0].next, s[1..])
  }

  /** The nodes of all pools. */
  ghost function AllNodes(pools: seq<Pool>): seq<Node> {
    if pools == [] then [] else pools[0].nodes + AllNodes(pools[1..])
  }

  ghost predicate Sized(s: seq<Node>, size: nat) {
    forall i :: 0 <= i < |s| ==> s[i].size == size
  }

  ghost function Elements<T>(s: seq<T>): set<T> {
    set x | x in s
  }

  lemma Push<T>(x: T, s: seq<T>)
    requires Distinct(s) && x !in s
    ensures Distinct([x] + s) && Elements([x] + s) == {x} + Elements(s) && ([x] + s)[1..] == s
  {
  }

  lemma Pop<T>(s: seq<T>)
    requires Distinct(s) && s != []
    ensures Distinct(s[1..]) && s[0] !in Elements(s[1..]) && Elements(s) == {s[0]} + Elements(s[1..])
  {
  }

  lemma Join<T>(s: seq<T>, t: seq<T>)
    requires Distinct(s) && Distinct(t) && Elements(s) !! Elements(t)
    ensures Distinct(s + t) && Elements(s + t) == Elements(s) + Elements(t)
  {
    forall i, j | 0 <= i < j < |s + t| ensures (s + t)[i] != (s + t)[j] {
      assert i < |s| <= j ==> s[i] in Elements(s) && t[j - |s|] in Elements(t);
    }
  }

  lemma {:induction false} CountDistinct<T>(s: seq<T>)
    requires Distinct(s)
    ensures |Elements(s)| == |s|
  {
    if s != [] {
      CountDistinct(s[1..]);
      assert Elements(s) == {s[0]} + Elements(s[1..]);
    }
  }

  lemma {:induction false} CountNodes(pools: seq<Pool>, n: nat)
    requires forall i :: 0 <= i < |pools| ==> |pools[i].nodes| == n
    ensures |AllNodes(pools)| == |pools| * n
  {
    if pools != [] {
      CountNodes(pools[1..], n);
    }
  }

  class LookasideAllocator {
    const elemSize: nat       // sizeof(_Ty)
    const blockNodeNum: nat
    const poolSize: nat       // sizeof(stPool)
    const counter: Counter
    var freePool: Node?       // m_freePool
    var mPools: Pool?
    ghost var free: seq<Node>
    ghost var pools: seq<Pool>
    ghost var held: set<Node> // what clients hold

    /** Free and held nodes together are the nodes of all pools; none is both,
        and the free list runs through each free node once. */
    ghost predicate Valid()
      reads this, free, pools
    {
      && 0 < blockNodeNum
      && Chained(freePool, free) && Distinct(free) && PoolsChained(mPools, pools)
      && (forall i :: 0 <= i < |pools| ==> |pools[i].nodes| == blockNodeNum)
      && Distinct(AllNodes(pools)) && Sized(AllNodes(pools), elemSize)
      && Elements(free) !! held && Elements(free) + held == Elements(AllNodes(pools))
    }

    constructor (elemSize: nat, blockNodeNum: nat, poolSize: nat, counter: Counter)
      requires 0 < blockNodeNum
      ensures Valid() && pools == [] && free == [] && held == {} && this.counter == counter
      ensures this.elemSize == elemSize && this.blockNodeNum == blockNodeNum && this.poolSize == poolSize
    {
      this.elemSize := elemSize;
      this.blockNodeNum, this.poolSize, this.counter := blockNodeNum, poolSize, counter;
      freePool, mPools, free, pools, held := null, null, [], [], {};
    }

    /** Nothing is lost: each node of each pool is free or held. */
    lemma Conserved()
      requires Valid()
      ensures |free| + |held| == blockNodeNum * |pools|
    {
      CountDistinct(free);
      CountDistinct(AllNodes(pools));
      CountNodes(pools, blockNodeNum);
    }

    method AddPoolBlock()
      requires Valid() && free == []
      modifies this`freePool, this`mPools, this`free, this`pools, counter
      ensures Valid() && free != [] && held == old(held)
      ensures |pools| == |old(pools)| + 1 && pools[1..] == old(pools) && fresh(pools[0])
      ensures forall n :: n in free ==> fresh(n)
      ensures Elements(AllNodes(pools)) == Elements(AllNodes(old(pools))) + Elements(free)
      ensures counter.size == old(counter.size) + poolSize
    {
      assert allocated(AllNodes(pools)) && allocated(pools);
      var pool := NewBlock();
      ghost var p := pool.nodes;
      assert forall n :: n in AllNodes(pools) ==> n !in p;
      Join(p, AllNodes(pools));
      counter.size := counter.size + poolSize;
      mPools := pool;
      freePool := pool.nodes[0];
      assert PoolsChained(pool.next, pools);
      free, pools := p, [pool] + pools;
      assert pools[1..] == old(pools) && AllNodes(pools) == p + AllNodes(old(pools));
    }

    /** malloc of a block, with its loop. */
    method NewBlock() returns (pool: Pool)
      requires 0 < blockNodeNum
      ensures fresh(pool) && pool.next == mPools && |pool.nodes| == blockNodeNum && Distinct(pool.nodes)
      ensures Sized(pool.nodes, elemSize)
      ensures Chained(pool.nodes[0], pool.nodes) && forall k :: 0 <= k < |pool.nodes| ==> fresh(pool.nodes[k])
    {
      var p := NewNodes(blockNodeNum);
      pool := new Pool(p, mPools);
      LinkNodes(p);
    }

    /** The nodes of a block, at places of their own. */
    method NewNodes(n: nat) returns (p: seq<Node>)
      ensures |p| == n && Distinct(p) && Sized(p, elemSize) && forall k :: 0 <= k < n ==> fresh(p[k])
    {
      p := [];
      for i := 0 to n
        invariant |p| == i && Distinct(p) && Sized(p, elemSize) && forall k :: 0 <= k < i ==> fresh(p[k])
      {
        var node := new Node(elemSize);
        assert node !in p;
        p := p + [node];
      }
    }

    /** The loop that threads a new block. */
    method LinkNodes(p: seq<Node>)
      requires p != [] && Distinct(p)
      modifies p
      ensures Chained(p[0], p)
    {
      var i := 0;
      while i < |p| - 1
        invariant 0 <= i <= |p| - 1
        invariant forall k :: 0 <= k < i ==> p[k].next == p[k + 1]
      {
        p[i].next := p[i + 1];
        i := i + 1;
      }
      p[|p| - 1].next := null;
      LinkedIsChained(p);
    }

    /** A node no client holds. */
    method Allocate() returns (node: Node)
      requires Valid()
      modifies this`freePool, this`mPools, this`free, this`pools, this`held, counter, free`next
      ensures Valid() && node !in old(held) && held == old(held) + {node} && node.next == null
      ensures node in Elements(old(free)) || fresh(node)
      ensures node.size == elemSize
      ensures forall x :: x in Elements(AllNodes(pools)) ==> x in Elements(AllNodes(old(pools))) || fresh(x)
      ensures Elements(AllNodes(old(pools))) <= Elements(AllNodes(pools))
      ensures old(free) != [] ==> pools == old(pools) && counter.size == old(counter.size)
      ensures old(free) == [] ==> |pools| == |old(pools)| + 1 && counter.size == old(counter.size) + poolSize
      ensures forall b :: b in pools ==> b in old(pools) || fresh(b)
    {
      if freePool == null {
        AddPoolBlock();
      }
      Pop(free);
      node := freePool;
      freePool := freePool.next;
      node.next := null;
      free, held := free[1..], held + {node};
    }

    /** A client gives back a node it holds. */
    method Deallocate(node: Node)
      requires Valid() && node in held
      modifies this`freePool, this`free, this`held, node`next
      ensures Valid() && held == old(held) - {node} && free == [node] + old(free) && pools == old(pools)
    {
      assert node !in Elements(free);
      Push(node, free);
      node.next := freePool;
      freePool := node;
      free, held := [node] + free, held - {node};
      assert Chained(node.next, old(free));
    }

    method FreeAll()
      requires Valid()
      modifies this`freePool, this`mPools, this`free, this`pools, this`held, counter
      ensures Valid() && pools == [] && free == [] && held == {}
      ensures counter.size == old(counter.size) - poolSize * |old(pools)|
    {
      ghost var left := pools;
      while mPools != null
        invariant PoolsChained(mPools, left) && |left| <= |old(pools)|
        invariant counter.size == old(counter.size) - poolSize * (|old(pools)| - |left|)
        decreases |left|
      {
        mPools := mPools.next;
        counter.size := counter.size - poolSize;
        left := left[1..];
      }
      freePool := null;
      free, pools, held := [], [], {};
    }
  }

  lemma {:induction false} LinkedIsChained(p: seq<Node>)
    requires p != [] && p[|p| - 1].next == null
    requires forall k :: 0 <= k < |p| - 1 ==> p[k].next == p[k + 1]
    ensures Chained(p[0], p)
  {
    if |p| > 1 {
      assert forall k :: 0 <= k < |p[1..]| - 1 ==> p[1..][k].next == p[k + 1].next;
      LinkedIsChained(p[1..]);
    } else {
      assert p[1..] == [];
    }
  }
}
