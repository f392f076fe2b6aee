/**
  CSimpleAllocator: blocks of any size from six lookaside allocators and from two
  general ones, each with a tag byte in front from which its source is found again.
 */
module SimpleAllocator {
  import opened Wrappers
  import opened Define
  import opened Lookaside

  // ---------------------------------------------------------------- sizes and tags

  /** Where a block comes from: std::allocator with its size, one of the six
      lookaside allocators, or malloc. */
  datatype Source = Small(size: nat) | Pooled(k: nat) | Heap

  /** nbufsize, in 32-bit arithmetic; the bound on n is that of an int. */
  function BufSize(n: int): int {
    Int32(n + 1 + 3) / 4 * 4
  }

  /** The element size of lookaside allocator k, from 0 to 5. */
  function PooledSize(k: nat): nat {
    if k == 0 then 256 else 512 * k
  }

  function NodesPerBlock(k: nat): (n: nat)
    ensures 0 < n
  {
    if k == 0 then 64 else if k == 1 then 48 else if k == 2 then 32 else 16
  }

  /** sizeof(stPool) of allocator k: its nodes, each with a link, and a link. */
  function PoolSize(k: nat): nat {
    NodesPerBlock(k) * (PooledSize(k) + 8) + 8
  }

  /** The branches of allocate. */
  function SourceFor(n: int): (source: Source)
    ensures source.Pooled? ==> source.k < 6
  {
    var size := BufSize(n);
    if size <= 128 then Small(size % 0x100)
    else if size <= 256 then Pooled(0)
    else if size <= 512 then Pooled(1)
    else if size <= 512 * 2 then Pooled(2)
    else if size <= 512 * 3 then Pooled(3)
    else if size <= 512 * 4 then Pooled(4)
    else if size <= 512 * 5 then Pooled(5)
    else Heap
  }

  /** The byte allocate writes in front of the block. */
  function Tag(n: int): (tag: nat)
    ensures tag < 0x100
  {
    match SourceFor(n)
    case Small(size) => size
    case Pooled(k) => (128 + 1 + k) % 0x100
    case Heap => 0xff
  }

  /** The switch of deallocate. */
  function SourceOf(tag: nat): Option<Source> {
    if 128 + 1 <= tag <= 128 + 6 then Some(Pooled(tag - 128 - 1))
    else if tag == 0xff then Some(Heap)
    else if tag <= 128 then Some(Small(tag))
    else None
  }

  function Bytes(source: Source, n: int): int {
    match source
    case Small(size) => size
    case Pooled(k) => PooledSize(k)
    case Heap => BufSize(n)
  }

  lemma BufSizeFits(n: int)
    requires 0 <= n < 0x7fff_fffc
    ensures n + 1 <= BufSize(n) <= n + 4 && BufSize(n) % 4 == 0
  {
  }

  const POOLED := [256, 512, 1024, 1536, 2048, 2560]
  const POOL_NODES := [64, 48, 32, 16, 16, 16]

  /** The source is the smallest with room for the n bytes and the tag, rounded up to
      four: exactly that many bytes up to 128, then the least node size, and the
      heap only when no node has room. */
  lemma SourceLeast(n: int)
    requires 0 <= n < 0x7fff_fffc
    ensures n + 1 <= BufSize(n) <= n + 4 && BufSize(n) % 4 == 0
    ensures forall k :: 0 <= k < 6 ==> PooledSize(k) == POOLED[k] && NodesPerBlock(k) == POOL_NODES[k]
    ensures BufSize(n) <= 128 ==> SourceFor(n) == Small(BufSize(n))
    ensures BufSize(n) > 128 ==> match SourceFor(n)
      case Small(_) => false
      case Pooled(k) => k < 6 && Bytes(SourceFor(n), n) == POOLED[k] >= BufSize(n) && forall j :: 0 <= j < k ==> POOLED[j] < BufSize(n)
      case Heap => Bytes(SourceFor(n), n) == BufSize(n) && forall j :: 0 <= j < 6 ==> POOLED[j] < BufSize(n)
  {
    BufSizeFits(n);
    hide BufSize;
  }

  /** For every int: there is room for n bytes behind the tag unless rounding up
      overflows, which is so for the four largest only. Then the block has no byte
      at all. */
  lemma RoomFor(n: int)
    requires -0x8000_0000 <= n < 0x8000_0000
    ensures Bytes(SourceFor(n), n) >= n + 1 <==> n < 0x7fff_fffc
    ensures n >= 0x7fff_fffc ==> SourceFor(n) == Small(0)
  {
    if 0 <= n < 0x7fff_fffc {
      hide BufSize;
      BufSizeFits(n);
    } else if n >= 0x7fff_fffc {
      assert BufSize(n) == -0x8000_0000;
    } else {
      hide BufSize;
    }
  }

  /** The size fits the tag: it is not negative once it is rounded, or its low byte
      is a small one. */
  predicate Taggable(n: int) {
    BufSize(n) >= 0 || BufSize(n) % 0x100 <= 128
  }

  /** The tag leads back to the source exactly for these; so it does for every size
      that is not negative. */
  lemma TagLeadsBack(n: int)
    requires -0x8000_0000 <= n < 0x8000_0000
    ensures SourceOf(Tag(n)) == Some(SourceFor(n)) <==> Taggable(n)
    ensures 0 <= n ==> Taggable(n)
  {
    hide BufSize;
    if 0 <= n {
      NotNegative(n);
    }
  }

  lemma NotNegative(n: int)
    requires 0 <= n < 0x8000_0000
    ensures Taggable(n)
  {
    if n < 0x7fff_fffc {
      BufSizeFits(n);
    } else {
      assert BufSize(n) == -0x8000_0000;
    }
  }

  // ---------------------------------------------------------------- blocks

  /** std::allocator<char> and malloc: memory in blocks of the size asked for. */
  class Memory {
    ghost var live: set<Node>

    constructor ()
      ensures live == {}
    {
      live := {};
    }

    method Allocate(size: nat) returns (p: Node)
      modifies this
      ensures fresh(p) && p.size == size && live == old(live) + {p}
    {
      p := new Node(size);
      live := live + {p};
    }

    /** A block is given back once, with its size. */
    method Deallocate(p: Node, size: int)
      requires p in live && size == p.size
      modifies this
      ensures live == old(live) - {p}
    {
      live := live - {p};
    }
  }

  /** The nodes of an allocator. */
  ghost function NodesOf(a: LookasideAllocator): set<Node>
    reads a
  {
    Elements(AllNodes(a.pools))
  }

  ghost predicate FreeInside(a: LookasideAllocator)
    reads a
  {
    (forall i :: 0 <= i < |a.free| ==> a.free[i] in NodesOf(a) && a.free[i] !in a.held) && a.held <= NodesOf(a)
  }

  lemma FreeKnown(a: LookasideAllocator)
    requires a.Valid()
    ensures FreeInside(a) && a.held <= NodesOf(a) && forall x :: x in a.free ==> x in NodesOf(a)
  {
    assert forall x :: x in a.free ==> x in Elements(a.free);
    assert forall i :: 0 <= i < |a.free| ==> a.free[i] in Elements(a.free);
  }

  lemma NodesKept(a: LookasideAllocator, pools: seq<Pool>)
    requires a.pools == pools
    ensures NodesOf(a) == Elements(AllNodes(pools))
  {
  }

  lemma NoNodes(a: LookasideAllocator)
    requires a.pools == []
    ensures NodesOf(a) == {}
  {
  }

  /** The template arguments. */
  predicate Shaped(a: LookasideAllocator, k: nat) {
    a.elemSize == PooledSize(k) && a.blockNodeNum == NodesPerBlock(k) && a.poolSize == PoolSize(k)
  }

  /** The six allocators. */
  method NewPools(c: Counter) returns (ps: seq<LookasideAllocator>)
    ensures |ps| == 6 && Distinct(ps)
    ensures forall j :: 0 <= j < 6 ==> fresh(ps[j]) && ps[j].Valid() && ps[j].counter == c && Shaped(ps[j], j)
    ensures forall j :: 0 <= j < 6 ==> ps[j].pools == [] && ps[j].free == [] && ps[j].held == {}
    ensures c.size == old(c.size)
  {
    hide LookasideAllocator.Valid;
    ps := [];
    for k := 0 to 6
      invariant |ps| == k && Distinct(ps)
      invariant forall j :: 0 <= j < k ==> fresh(ps[j]) && ps[j].Valid() && ps[j].counter == c && Shaped(ps[j], j)
      invariant forall j :: 0 <= j < k ==> ps[j].pools == [] && ps[j].free == [] && ps[j].held == {}
    {
      var a := new LookasideAllocator(PooledSize(k), NodesPerBlock(k), PoolSize(k), c);
      ps := ps + [a];
    }
  }

  class CSimpleAllocator {
    const pools: seq<LookasideAllocator>  // _ty_alloc_128 to _ty_alloc_512x4
    const small: Memory                   // _ty_alloc_0_128
    const heap: Memory                    // malloc and free
    const counter: Counter
    ghost var repr: set<object>
    ghost var owner: map<Node, nat>       // which allocator a block belongs to

    /** Allocator k keeps its own invariant, and its nodes belong to it. */
    ghost predicate Sound(k: nat)
      requires k < |pools|
      reads this, repr
    {
      var a := pools[k];
      && a in repr && (forall x :: x in a.free ==> x in repr) && (forall x :: x in a.pools ==> x in repr) && a.held <= repr
      && a.Valid() && a.counter == counter && Shaped(a, k)
      && NodesOf(a) == Owned(owner, k)
    }

    ghost predicate AllSound()
      reads this, repr
    {
      this !in repr && |pools| == 6 && Distinct(pools) && forall k :: 0 <= k < 6 ==> Sound(k)
    }

    /** Each block that a client has belongs to the source that counts it as handed
        out, and carries its tag. */
    ghost predicate Tagged()
      reads this, pools, small, heap, Live()
    {
      && (forall k, x :: 0 <= k < |pools| && x in pools[k].held ==> x.first == 129 + k)
      && (forall x :: x in small.live ==> x in owner && owner[x] == 6 && x.first == x.size <= 128)
      && (forall x :: x in heap.live ==> x in owner && owner[x] == 7 && x.first == 0xff)
    }

    /** The blocks clients have. */
    ghost function Live(): set<Node>
      reads this, pools, small, heap
    {
      (set k, x | 0 <= k < |pools| && x in pools[k].held :: x) + small.live + heap.live
    }

    ghost function Counts(): (counts: seq<nat>)
      requires |pools| == 6
      reads pools
      ensures |counts| == 6 && forall k :: 0 <= k < 6 ==> counts[k] == |pools[k].pools|
    {
      [|pools[0].pools|, |pools[1].pools|, |pools[2].pools|, |pools[3].pools|, |pools[4].pools|, |pools[5].pools|]
    }

    /** What a block comes and goes with. */
    ghost predicate Handed()
      reads this, repr, pools, small, heap, Live()
    {
      AllSound() && Tagged() && small != heap
    }

    /** And the counter holds the size of all pool blocks. */
    ghost predicate Valid()
      reads this, repr, pools, small, heap, counter, Live()
    {
      Handed() && counter.size == Footprint(Counts())
    }

    constructor ()
      ensures Valid() && Live() == {}
      ensures forall k :: 0 <= k < |pools| ==> pools[k].held == {} && pools[k].pools == []
      ensures fresh(repr) && fresh(small) && fresh(heap) && fresh(counter)
    {
      hide LookasideAllocator.Valid, CSimpleAllocator.Valid, Live, Shaped, NodesOf, AllNodes, HandedOut, Counts;
      var c := new Counter();
      var s := new Memory();
      var h := new Memory();
      small, heap, counter := s, h, c;
      var ps := NewPools(c);
      pools := ps;
      repr, owner := set a | a in ps :: a as object, map[];
      new;
      assert forall k :: 0 <= k < 6 ==> ps[k] in ps;
      AllNew();
    }

    lemma AllNew()
      requires |pools| == 6 && Distinct(pools) && owner == map[] && this !in repr && small != heap && counter.size == 0
      requires forall k :: 0 <= k < 6 ==> pools[k] in repr && pools[k].Valid() && pools[k].counter == counter && Shaped(pools[k], k)
      requires forall k :: 0 <= k < 6 ==> pools[k].pools == [] && pools[k].free == [] && pools[k].held == {}
      requires small.live == {} && heap.live == {}
      ensures Valid() && Live() == {}
    {
      hide LookasideAllocator.Valid, Footprint, Live, NodesOf, Shaped;
      forall k | 0 <= k < 6 ensures Sound(k) {
        NoNodes(pools[k]);
      }
      NoFootprint(Counts());
      NothingLive();
    }

    lemma NothingLive()
      requires small.live == {} && heap.live == {} && forall k :: 0 <= k < |pools| ==> pools[k].held == {}
      ensures Live() == {} && Tagged()
    {
    }

    /** LOOKASIDE_GETMEM on allocator k: the others do not notice. */
    method TakePooled(k: nat) returns (p: Node)
      requires k < |pools| && Distinct(pools) && forall j :: 0 <= j < |pools| ==> Sound(j)
      modifies pools[k], counter, pools[k].free`next
      ensures pools[k].Valid() && p !in old(pools[k].held) && pools[k].held == old(pools[k].held) + {p}
      ensures p.size == PooledSize(k) && p in NodesOf(pools[k]) && (p in old(pools[k].free) || fresh(p))
      ensures forall x :: x in NodesOf(pools[k]) ==> x in old(NodesOf(pools[k])) || fresh(x)
      ensures old(NodesOf(pools[k])) <= NodesOf(pools[k])
      ensures forall b :: b in pools[k].pools ==> b in old(pools[k].pools) || fresh(b)
      ensures |pools[k].pools| == |old(pools[k].pools)| + Missing(old(pools[k].free))
      ensures counter.size == old(counter.size) + PoolSize(k) * Missing(old(pools[k].free))
      ensures forall j :: 0 <= j < |pools| && j != k ==> pools[j].Valid() && NodesOf(pools[j]) == old(NodesOf(pools[j]))
    {
      hide LookasideAllocator.Valid;
      var a := pools[k];
      assert Sound(k);
      forall j | 0 <= j < |pools| && j != k ensures pools[j].Valid() && ApartFree(pools[j], a) {
        assert Sound(j);
        FreeKnown(a);
        FreeKnown(pools[j]);
      }
      label before: p := a.Allocate();
      forall j | 0 <= j < |pools| && j != k
        ensures pools[j].Valid() && NodesOf(pools[j]) == old@before(NodesOf(pools[j]))
      {
        assert pools[j] != a;
        var f := pools[j].free;
        assert forall i :: 0 <= i < |f| ==> f[i] in f && f[i] !in old@before(a.free);
      }
      FreeKnown(a);
    }

    /** The same with the books kept: new nodes belong to allocator k. */
    method OwnPooled(k: nat) returns (p: Node)
      requires AllSound() && k < 6
      modifies this`repr, this`owner, pools[k], counter, pools[k].free`next
      ensures AllSound() && p in owner && owner[p] == k && p.size == PooledSize(k)
      ensures p !in old(pools[k].held) && pools[k].held == old(pools[k].held) + {p}
      ensures p in old(pools[k].free) || fresh(p)
      ensures forall x :: x in old(owner) ==> x in owner && owner[x] == old(owner)[x]
      ensures forall x :: x in repr ==> x in old(repr) || fresh(x)
      ensures |pools[k].pools| == |old(pools[k].pools)| + Missing(old(pools[k].free))
      ensures counter.size == old(counter.size) + PoolSize(k) * Missing(old(pools[k].free))
    {
      hide NodesOf, LookasideAllocator.Valid, Owned, WithOwned;
      var a := pools[k];
      assert Sound(k);
      OwnedIs(owner, k);
      NodesInRepr(k);
      p := TakePooled(k);
      FreeKnown(a);
      OwnedGrows(owner, NodesOf(a), k);
      owner := WithOwned(owner, NodesOf(a), k);
      repr := repr + NodesOf(a) + (set x | x in a.pools :: x as object);
      assert Sound(k);
      forall j | 0 <= j < 6 && j != k ensures Sound(j) {
        assert old(Sound(j));
      }
    }

    /** The tag goes into the first byte of a block that no allocator has free. */
    method WriteTag(p: Node, tag: nat)
      requires AllSound() && forall j :: 0 <= j < 6 ==> NotFree(pools[j], p)
      modifies p`first
      ensures AllSound() && p.first == tag
    {
      p.first := tag;
      hide LookasideAllocator.Valid;
      forall j | 0 <= j < 6 ensures Sound(j) {
        assert old(Sound(j));
        var f := pools[j].free;
        assert forall i :: 0 <= i < |f| ==> f[i] in f && f[i] != p;
      }
    }

    /** A node of allocator k, with the books kept and its tag written. */
    method TagPooled(k: nat) returns (p: Node)
      requires AllSound() && k < 6
      modifies this`repr, this`owner, pools[k], counter, pools[k].free
      ensures AllSound() && p in owner && owner[p] == k && p.size == PooledSize(k) && p.first == 129 + k
      ensures p !in old(pools[k].held) && pools[k].held == old(pools[k].held) + {p}
      ensures p in old(pools[k].free) || fresh(p)
      ensures forall x :: x in old(owner) ==> x in owner && owner[x] == old(owner)[x]
      ensures forall j :: 0 <= j < 6 && j != k ==> pools[j].held == old(pools[j].held)
      ensures forall x :: x in repr ==> x in old(repr) || fresh(x)
      ensures forall x: Node :: allocated(x) && old(allocated(x)) && x != p ==> x.first == old(x.first)
      ensures |pools[k].pools| == |old(pools[k].pools)| + Missing(old(pools[k].free))
      ensures counter.size == old(counter.size) + PoolSize(k) * Missing(old(pools[k].free))
    {
      hide LookasideAllocator.Valid, NodesOf, Owned;
      p := OwnPooled(k);
      OwnedHeld();
      WriteTag(p, 129 + k);
    }

    /** A block of allocator k, with its tag. */
    method GetPooled(k: nat) returns (p: Node)
      requires Handed() && k < 6
      modifies this`repr, this`owner, pools[k], counter, pools[k].free
      ensures Handed() && p.size == PooledSize(k) && p.first == 129 + k && p !in old(Live())
      ensures HandedOut(Pooled(k), p) && Live() == old(Live()) + {p}
      ensures forall source, x :: x in old(Live()) && old(HandedOut(source, x)) ==> HandedOut(source, x)
      ensures (p in old(repr) || fresh(p)) && forall x :: x in repr ==> x in old(repr) || fresh(x)
      ensures forall j :: 0 <= j < 6 ==>
        && pools[j].held == old(pools[j].held) + (if k == j then {p} else {})
        && |pools[j].pools| == |old(pools[j].pools)| + if k == j then Missing(old(pools[j].free)) else 0
      ensures counter.size == old(counter.size) + PoolSize(k) * Missing(old(pools[k].free))
    {
      hide LookasideAllocator.Valid, NodesOf, Owned, Sound;
      InRepr();
      OwnedHeld();
      p := TagPooled(k);
    }

    /** A new block of memory, under its tag and with its owner in the books. */
    method OwnMemory(memory: Memory, size: nat, tag: nat) returns (p: Node)
      requires AllSound() && memory in {small, heap}
      modifies this`owner, memory
      ensures AllSound() && fresh(p) && p.size == size && p.first == tag
      ensures memory.live == old(memory.live) + {p} && owner == old(owner)[p := if memory == small then 6 else 7]
    {
      hide LookasideAllocator.Valid, NodesOf, Owned, WithOwned;
      var k := if memory == small then 6 else 7;
      p := memory.Allocate(size);
      p.first := tag;
      OwnedIs(owner, k);
      OwnedOne(owner, p, k);
      owner := owner[p := k];
      forall j | 0 <= j < 6 ensures Sound(j) {
        assert old(Sound(j));
      }
    }

    /** A block from std::allocator or malloc, with its tag. */
    method GetMemory(memory: Memory, size: nat, tag: nat) returns (p: Node)
      requires Handed() && memory in {small, heap}
      requires small != heap && if memory == small then tag == size <= 128 else tag == 0xff
      modifies this`owner, memory
      ensures Handed() && p !in old(Live()) && p.size == size && p.first == tag
      ensures memory.live == old(memory.live) + {p} && Live() == old(Live()) + {p}
      ensures fresh(p)
      ensures HandedOut(if memory == small then Small(size) else Heap, p)
      ensures forall source, x :: x in old(Live()) && old(HandedOut(source, x)) ==> HandedOut(source, x)
    {
      hide LookasideAllocator.Valid, NodesOf, Owned, Sound;
      p := OwnMemory(memory, size, tag);
    }

    lemma NodesInRepr(k: nat)
      requires k < |pools| && Sound(k)
      ensures NodesOf(pools[k]) <= repr
    {
      var a := pools[k];
      forall x | x in NodesOf(a) ensures x in repr {
        assert x in Elements(a.free) || x in a.held;
      }
    }

    lemma InRepr()
      requires Handed()
      ensures |pools| == 6 && small != heap
      ensures forall k :: 0 <= k < 6 ==> pools[k] in pools && pools[k] in repr && forall x :: x in pools[k].free ==> x in repr
    {
      forall k | 0 <= k < 6 ensures pools[k] in pools && pools[k] in repr && forall x :: x in pools[k].free ==> x in repr {
        assert Sound(k);
      }
    }

    /** Which source has handed out p. */
    ghost predicate HandedOut(source: Source, p: Node)
      reads this, pools, small, heap
    {
      match source
      case Small(size) => p in small.live && p.size == size
      case Pooled(k) => k < |pools| && p in pools[k].held
      case Heap => p in heap.live
    }

    /** The branches of allocate. */
    method AllocateBlock(n: int) returns (p: Node)
      requires Handed() && -0x8000_0000 <= n < 0x8000_0000 && Taggable(n)
      modifies this`repr, this`owner, pools, small, heap, counter, repr
      ensures Handed() && p !in old(Live()) && Live() == old(Live()) + {p}
      ensures p.first == Tag(n) && HandedOut(SourceFor(n), p) && SourceOf(p.first) == Some(SourceFor(n))
      ensures p.size >= n + 1 <==> n < 0x7fff_fffc
      ensures forall source, x :: x in old(Live()) && old(HandedOut(source, x)) ==> HandedOut(source, x)
      ensures (p in old(repr) || fresh(p)) && forall x :: x in repr ==> x in old(repr) || fresh(x)
      ensures forall j :: 0 <= j < 6 ==>
        && pools[j].held == old(pools[j].held) + (if SourceFor(n) == Pooled(j) then {p} else {})
        && |pools[j].pools| == |old(pools[j].pools)| + if SourceFor(n) == Pooled(j) then Missing(old(pools[j].free)) else 0
      ensures counter.size == old(counter.size) +
        if SourceFor(n).Pooled? then PoolSize(SourceFor(n).k) * Missing(old(pools[SourceFor(n).k].free)) else 0
    {
      hide Handed, Live, BufSize, HandedOut, Missing, PoolSize, PooledSize;
      InRepr();
      RoomFor(n);
      TagLeadsBack(n);
      var size := BufSize(n);
      if size <= 128 {
        p := GetMemory(small, size % 0x100, size % 0x100);
      } else if size <= 256 {
        p := GetPooled(0);
      } else if size <= 512 {
        p := GetPooled(1);
      } else if size <= 512 * 2 {
        p := GetPooled(2);
      } else if size <= 512 * 3 {
        p := GetPooled(3);
      } else if size <= 512 * 4 {
        p := GetPooled(4);
      } else if size <= 512 * 5 {
        p := GetPooled(5);
      } else {
        p := GetMemory(heap, size, 0xff);
      }
    }

    /** allocate: a block nobody has, handed out by the source for its size and
        with its tag. There is room for n bytes behind the tag, but for the last
        four sizes an int can hold. */
    method Allocate(n: int) returns (p: Node)
      requires Valid() && -0x8000_0000 <= n < 0x8000_0000 && Taggable(n)
      modifies this`repr, this`owner, pools, small, heap, counter, repr
      ensures Valid() && p !in old(Live()) && Live() == old(Live()) + {p}
      ensures p.first == Tag(n) && HandedOut(SourceFor(n), p) && SourceOf(p.first) == Some(SourceFor(n))
      ensures p.size >= n + 1 <==> n < 0x7fff_fffc
      ensures forall source, x :: x in old(Live()) && old(HandedOut(source, x)) ==> HandedOut(source, x)
      ensures (p in old(repr) || fresh(p)) && forall x :: x in repr ==> x in old(repr) || fresh(x)
      ensures forall j :: 0 <= j < 6 ==>
        && pools[j].held == old(pools[j].held) + (if SourceFor(n) == Pooled(j) then {p} else {})
        && |pools[j].pools| == |old(pools[j].pools)| + if SourceFor(n) == Pooled(j) then Missing(old(pools[j].free)) else 0
    {
      hide Handed, Live, Footprint, PoolSize, SourceFor, HandedOut, Tag, SourceOf;
      InRepr();
      ghost var counts := Counts();
      p := AllocateBlock(n);
      if SourceFor(n).Pooled? && Missing(old(pools[SourceFor(n).k].free)) == 1 {
        FootprintGrows(counts, SourceFor(n).k);
        assert Counts() == counts[SourceFor(n).k := counts[SourceFor(n).k] + 1];
      } else {
        assert Counts() == counts;
      }
    }

    /** Whom the blocks that clients have belong to. */
    lemma OwnedHeld()
      requires AllSound()
      ensures forall j, x :: 0 <= j < 6 && x in pools[j].held ==> x in owner && owner[x] == j && NotFree(pools[j], x)
      ensures forall j, x :: 0 <= j < 6 && x in owner && owner[x] != j ==> NotFree(pools[j], x)
    {
      forall j | 0 <= j < 6 ensures NodesOf(pools[j]) == Owned(owner, j) && FreeInside(pools[j]) {
        assert Sound(j);
        FreeKnown(pools[j]);
      }
    }

    /** freemem on allocator k: the others do not notice. */
    method ReturnPooled(k: nat, p: Node)
      requires AllSound() && k < 6 && p in pools[k].held
      modifies pools[k], p`next
      ensures AllSound() && pools[k].held == old(pools[k].held) - {p} && pools[k].free == [p] + old(pools[k].free)
      ensures pools[k].pools == old(pools[k].pools)
    {
      hide LookasideAllocator.Valid, NodesOf, Owned;
      assert Sound(k) && p in repr;
      OwnedHeld();
      NodesKept(pools[k], pools[k].pools);
      assert p in pools[k].held && p in owner && owner[p] == k;
      assert forall j :: 0 <= j < 6 && j != k ==> NotFree(pools[j], p);
      label before: pools[k].Deallocate(p);
      NodesKept(pools[k], old(pools[k].pools));
      forall j | 0 <= j < 6 && j != k ensures Sound(j) {
        assert old@before(Sound(j)) && old@before(NotFree(pools[j], p));
        var f := pools[j].free;
        assert forall i :: 0 <= i < |f| ==> f[i] in f && f[i] != p;
      }
      assert Sound(k);
    }

    /** And the block is no client's any more. */
    method FreePooled(k: nat, p: Node)
      requires Handed() && k < 6 && p in pools[k].held
      modifies pools[k], p`next
      ensures Handed() && pools[k].held == old(pools[k].held) - {p} && Live() == old(Live()) - {p}
      ensures pools[k].free == [p] + old(pools[k].free)
      ensures pools[k].pools == old(pools[k].pools)
      ensures forall source, x :: x in Live() && old(HandedOut(source, x)) ==> HandedOut(source, x)
    {
      hide LookasideAllocator.Valid, NodesOf, Owned, Sound;
      OwnedHeld();
      OwnerOnly(p);
      LiveIs();
      ReturnPooled(k, p);
      LiveIs();
      assert p !in Live();
    }

    /** A block is with one source only. */
    lemma OwnerOnly(p: Node)
      requires Handed() && p in owner
      ensures forall j :: 0 <= j < 6 && p in pools[j].held ==> owner[p] == j
      ensures p in small.live ==> owner[p] == 6
      ensures p in heap.live ==> owner[p] == 7
    {
      OwnedHeld();
    }

    /** free, or std::allocator's deallocate with the size that the tag gives. */
    method FreeMemory(memory: Memory, p: Node, size: int)
      requires Handed() && memory in {small, heap} && p in memory.live && size == p.size
      modifies memory
      ensures Handed() && memory.live == old(memory.live) - {p} && Live() == old(Live()) - {p}
      ensures forall source, x :: x in Live() && old(HandedOut(source, x)) ==> HandedOut(source, x)
    {
      hide LookasideAllocator.Valid, NodesOf, Owned;
      OwnedHeld();
      OwnerOnly(p);
      memory.Deallocate(p, size);
      forall j | 0 <= j < 6 ensures Sound(j) {
        assert old(Sound(j));
      }
    }

    /** The branches of deallocate. */
    method DeallocateBlock(p: Node)
      requires Handed() && p in Live()
      modifies repr, small, heap, p`next
      ensures Handed() && Live() == old(Live()) - {p} && repr == old(repr)
      ensures forall k :: 0 <= k < 6 ==> pools[k].held == old(pools[k].held) - {p}
      ensures forall k :: 0 <= k < 6 && p in old(pools[k].held) ==> pools[k].free == [p] + old(pools[k].free)
      ensures small.live == old(small.live) - {p} && heap.live == old(heap.live) - {p}
      ensures forall source, x :: x in Live() && old(HandedOut(source, x)) ==> HandedOut(source, x)
      ensures forall k :: 0 <= k < 6 ==> pools[k].pools == old(pools[k].pools)
      ensures counter.size == old(counter.size)
    {
      hide LookasideAllocator.Valid, NodesOf, Owned, Sound, HandedOut;
      InRepr();
      OwnedHeld();
      LiveIs();
      OwnerOnly(p);
      var size := p.first;
      if 128 + 1 <= size <= 128 + 6 {
        FreePooled(size - 128 - 1, p);
      } else if size == 0xff {
        FreeMemory(heap, p, p.size);
      } else if size <= 128 {
        FreeMemory(small, p, size);
      }
    }

    /** deallocate: a block that a client has goes back to the source that handed it
        out, found from its tag alone; a small one with its own size. */
    method Deallocate(p: Node)
      requires Valid() && p in Live()
      modifies repr, small, heap, p`next
      ensures Valid() && Live() == old(Live()) - {p} && repr == old(repr)
      ensures forall k :: 0 <= k < 6 ==> pools[k].held == old(pools[k].held) - {p}
      ensures forall k :: 0 <= k < 6 && p in old(pools[k].held) ==> pools[k].free == [p] + old(pools[k].free)
      ensures small.live == old(small.live) - {p} && heap.live == old(heap.live) - {p}
      ensures forall source, x :: x in Live() && old(HandedOut(source, x)) ==> HandedOut(source, x)
      ensures forall k :: 0 <= k < 6 ==> pools[k].pools == old(pools[k].pools)
    {
      hide Handed, Live, Footprint, HandedOut;
      InRepr();
      ghost var counts := Counts();
      DeallocateBlock(p);
      assert Counts() == counts;
    }

    /** No block is with two sources. */
    lemma OneSource(p: Node, s: Source, t: Source)
      requires Handed() && HandedOut(s, p) && HandedOut(t, p)
      ensures s == t
    {
      hide NodesOf, Owned, Sound, LookasideAllocator.Valid;
      OwnedHeld();
      OwnerOnly(p);
    }

    /** An allocator has no free node exactly when clients have all of its nodes. */
    lemma FreeGone(k: nat)
      requires Handed() && k < 6
      ensures |pools[k].held| <= NodesPerBlock(k) * |pools[k].pools|
      ensures pools[k].free == [] <==> |pools[k].held| == NodesPerBlock(k) * |pools[k].pools|
    {
      assert Sound(k);
      pools[k].Conserved();
    }

    /** Which allocator's node a block is. */
    lemma HeldWhere(source: Source, p: Node)
      requires Handed() && HandedOut(source, p)
      ensures forall k :: 0 <= k < 6 ==> (p in pools[k].held <==> source == Pooled(k))
    {
      hide NodesOf, Owned, Sound, LookasideAllocator.Valid;
      OwnedHeld();
      OwnerOnly(p);
    }

    lemma LiveIs()
      ensures forall x :: x in Live() ==>
        (exists k :: 0 <= k < |pools| && x in pools[k].held) || x in small.live || x in heap.live
      ensures forall k, x :: 0 <= k < |pools| && x in pools[k].held ==> x in Live()
    {
    }
  }

  /** Whether a pool block is missing. */
  function Missing<T>(free: seq<T>): nat {
    if free == [] then 1 else 0
  }

  /** The size of that many pool blocks of each kind. */
  function Footprint(counts: seq<nat>): int
    requires |counts| == 6
  {
    PoolSize(0) * counts[0] + PoolSize(1) * counts[1] + PoolSize(2) * counts[2]
    + PoolSize(3) * counts[3] + PoolSize(4) * counts[4] + PoolSize(5) * counts[5]
  }

  lemma FootprintGrows(counts: seq<nat>, k: nat)
    requires |counts| == 6 && k < 6
    ensures Footprint(counts[k := counts[k] + 1]) == Footprint(counts) + PoolSize(k)
  {
    assert PoolSize(k) * (counts[k] + 1) == PoolSize(k) * counts[k] + PoolSize(k);
  }

  lemma NoFootprint(counts: seq<nat>)
    requires |counts| == 6 && forall k :: 0 <= k < 6 ==> counts[k] == 0
    ensures Footprint(counts) == 0
  {
  }

  ghost predicate NotFree(a: LookasideAllocator, x: Node)
    reads a
  {
    forall i :: 0 <= i < |a.free| ==> a.free[i] != x
  }

  /** The blocks of source k. */
  ghost function Owned(owner: map<Node, nat>, k: nat): set<Node> {
    set x | x in owner && owner[x] == k
  }

  ghost function WithOwned(owner: map<Node, nat>, nodes: set<Node>, k: nat): map<Node, nat> {
    map x | x in owner.Keys + nodes :: if x in nodes then k else owner[x]
  }

  lemma OwnedIs(owner: map<Node, nat>, k: nat)
    ensures forall x :: x in Owned(owner, k) <==> x in owner && owner[x] == k
  {
  }

  lemma OwnedOne(owner: map<Node, nat>, x: Node, k: nat)
    requires x !in owner
    ensures forall j :: j != k ==> Owned(owner[x := k], j) == Owned(owner, j)
  {
  }

  lemma OwnedGrows(owner: map<Node, nat>, nodes: set<Node>, k: nat)
    requires Owned(owner, k) <= nodes && forall x :: x in nodes && x in owner ==> owner[x] == k
    ensures var owner' := WithOwned(owner, nodes, k);
      && Owned(owner', k) == nodes && owner'.Keys == owner.Keys + nodes
      && (forall j :: j != k ==> Owned(owner', j) == Owned(owner, j))
      && (forall x :: x in owner ==> owner'[x] == owner[x]) && (forall x :: x in nodes ==> owner'[x] == k)
  {
  }

  ghost predicate ApartFree(a: LookasideAllocator, b: LookasideAllocator)
    reads a, b
  {
    forall i :: 0 <= i < |a.free| ==> a.free[i] !in b.free
  }

  // ---------------------------------------------------------------- every history

  /** What clients do: ask for n bytes, or give back one of the blocks they have. */
  datatype Call = Get(n: int) | Put(i: nat)

  /** A block that a client has, and the size it asked for. */
  datatype Block = Block(n: int, p: Node)

  ghost predicate Kept(a: CSimpleAllocator, blocks: seq<Block>)
    reads a, a.pools, a.small, a.heap
  {
    && (forall i :: 0 <= i < |blocks| ==> a.HandedOut(SourceFor(blocks[i].n), blocks[i].p))
    && (forall i, j :: 0 <= i < j < |blocks| ==> blocks[i].p != blocks[j].p)
    && Places(blocks) == a.Live()
  }

  ghost function Places(blocks: seq<Block>): set<Node> {
    set b | b in blocks :: b.p
  }

  lemma NoPlaces()
    ensures Places([]) == {}
  {
  }

  lemma AnyPlace(blocks: seq<Block>)
    ensures forall i :: 0 <= i < |blocks| ==> blocks[i].p in Places(blocks)
  {
    assert forall i :: 0 <= i < |blocks| ==> blocks[i] in blocks;
  }

  lemma OnePlaceMore(blocks: seq<Block>, b: Block)
    ensures Places(blocks + [b]) == Places(blocks) + {b.p}
  {
  }

  lemma OnePlaceLess(blocks: seq<Block>, i: nat)
    requires i < |blocks| && forall j, k :: 0 <= j < k < |blocks| ==> blocks[j].p != blocks[k].p
    ensures Places(blocks[..i] + blocks[i + 1..]) == Places(blocks) - {blocks[i].p}
  {
    var rest := blocks[..i] + blocks[i + 1..];
    forall b | b in blocks && b.p != blocks[i].p ensures b in rest {
      var j :| 0 <= j < |blocks| && blocks[j] == b;
      assert b == if j < i then rest[j] else rest[j - 1];
    }
  }

  function Sizes(blocks: seq<Block>): (sizes: seq<int>)
    ensures |sizes| == |blocks| && forall i :: 0 <= i < |blocks| ==> sizes[i] == blocks[i].n
  {
    seq(|blocks|, i requires 0 <= i < |blocks| => blocks[i].n)
  }

  /** The sizes of the blocks that clients have after the calls. */
  function Held(calls: seq<Call>): seq<int> {
    if calls == [] then [] else HeldAfter(Held(calls[..|calls| - 1]), calls[|calls| - 1])
  }

  function HeldAfter(held: seq<int>, call: Call): seq<int> {
    match call
    case Get(n) => held + [n]
    case Put(i) => if i < |held| then held[..i] + held[i + 1..] else held
  }

  /** How many of them are nodes of allocator k. */
  function Count(sizes: seq<int>, k: nat): nat {
    if sizes == [] then 0 else (if SourceFor(sizes[0]) == Pooled(k) then 1 else 0) + Count(sizes[1..], k)
  }

  /** And how many there were at most at any time. */
  function Peak(calls: seq<Call>, k: nat): nat {
    if calls == [] then 0 else Max(Peak(calls[..|calls| - 1], k), Count(Held(calls), k))
  }

  lemma {:induction false} CountJoin(s: seq<int>, t: seq<int>, k: nat)
    ensures Count(s + t, k) == Count(s, k) + Count(t, k)
  {
    if s == [] {
      assert s + t == t;
    } else {
      assert (s + t)[1..] == s[1..] + t;
      CountJoin(s[1..], t, k);
    }
  }

  lemma CountOne(n: int, k: nat)
    ensures Count([n], k) == if SourceFor(n) == Pooled(k) then 1 else 0
  {
  }

  lemma CountLess(s: seq<int>, i: nat, k: nat)
    requires i < |s|
    ensures Count(s, k) == Count(s[..i] + s[i + 1..], k) + if SourceFor(s[i]) == Pooled(k) then 1 else 0
  {
    hide Count, SourceFor;
    assert s == s[..i] + ([s[i]] + s[i + 1..]);
    CountJoin(s[..i], [s[i]] + s[i + 1..], k);
    CountJoin([s[i]], s[i + 1..], k);
    CountJoin(s[..i], s[i + 1..], k);
    CountOne(s[i], k);
  }

  /** That many pool blocks hold `peak` nodes, and no fewer would. */
  predicate Enough(blocks: nat, peak: nat, k: nat) {
    peak <= NodesPerBlock(k) * blocks < peak + NodesPerBlock(k)
  }

  /** What allocator k says about the calls. */
  ghost predicate Accounted(a: LookasideAllocator, calls: seq<Call>, k: nat)
    reads a
  {
    |a.held| == Count(Held(calls), k) <= Peak(calls, k) && Enough(|a.pools|, Peak(calls, k), k)
  }

  lemma NothingHeld(k: nat)
    ensures Held([]) == [] && Count([], k) == 0 == Peak([], k) && Enough(0, 0, k)
  {
  }

  lemma HeldNext(calls: seq<Call>, c: nat)
    requires c < |calls|
    ensures Held(calls[..c + 1]) == HeldAfter(Held(calls[..c]), calls[c])
  {
    assert calls[..c + 1][..c] == calls[..c];
  }

  lemma PeakNext(calls: seq<Call>, c: nat, k: nat)
    requires c < |calls|
    ensures Peak(calls[..c + 1], k) == Max(Peak(calls[..c], k), Count(Held(calls[..c + 1]), k))
  {
    assert calls[..c + 1][..c] == calls[..c];
  }

  /** One pool block more is fetched when, and only when, the peak needs it. */
  lemma EnoughNext(blocks: nat, held: nat, peak: nat, k: nat)
    requires Enough(blocks, peak, k) && held <= peak
    ensures Enough(if held == NodesPerBlock(k) * blocks then blocks + 1 else blocks, Max(peak, held + 1), k)
  {
    assert NodesPerBlock(k) * (blocks + 1) == NodesPerBlock(k) * blocks + NodesPerBlock(k);
  }

  /** Any calls in any order on a new allocator. The blocks clients have are of the
      sizes asked for and not given back, distinct, and exactly those counted as
      handed out, each by the source for its size. Each pool counts as held the
      nodes of its sizes, and has as many blocks as their peak needs and no more: so
      every node given back has gone to the pool it is from, and is used again. */
  method RunCalls(calls: seq<Call>) returns (a: CSimpleAllocator, blocks: seq<Block>)
    requires forall i :: 0 <= i < |calls| && calls[i].Get? ==> -0x8000_0000 <= calls[i].n < 0x8000_0000 && Taggable(calls[i].n)
    ensures a.Valid() && Kept(a, blocks) && Sizes(blocks) == Held(calls)
    ensures forall k :: 0 <= k < 6 ==> Accounted(a.pools[k], calls, k)
  {
    hide CSimpleAllocator.Handed, CSimpleAllocator.HandedOut, CSimpleAllocator.Live, Footprint, Places;
    hide Held, Sizes, Accounted, Taggable;
    a := new CSimpleAllocator();
    blocks := [];
    NoPlaces();
    assert calls[..0] == [];
    NothingSaid(a);
    for c := 0 to |calls|
      invariant a.Valid() && Kept(a, blocks) && Sizes(blocks) == Held(calls[..c]) && Fits(a, calls[..c])
      invariant fresh(a) && fresh(a.repr) && fresh(a.small) && fresh(a.heap) && fresh(a.counter)
      invariant forall b :: b in blocks ==> fresh(b.p)
    {
      a.InRepr();
      match calls[c]
      case Get(n) => blocks := RunGet(a, n, blocks, calls, c);
      case Put(i) => blocks := RunPut(a, i, blocks, calls, c);
    }
    assert calls[..|calls|] == calls;
  }

  ghost predicate Fits(a: CSimpleAllocator, calls: seq<Call>)
    reads a, a.pools
  {
    |a.pools| == 6 && forall k :: 0 <= k < 6 ==> Accounted(a.pools[k], calls, k)
  }

  lemma NothingSaid(a: CSimpleAllocator)
    requires a.Valid() && forall k :: 0 <= k < |a.pools| ==> a.pools[k].held == {} && a.pools[k].pools == []
    ensures Fits(a, []) && Sizes([]) == Held([])
  {
    forall k | 0 <= k < 6 ensures Accounted(a.pools[k], [], k) {
      NothingHeld(k);
    }
  }

  lemma SizesMore(blocks: seq<Block>, b: Block)
    ensures Sizes(blocks + [b]) == Sizes(blocks) + [b.n]
  {
  }

  lemma SizesLess(blocks: seq<Block>, i: nat)
    requires i < |blocks|
    ensures Sizes(blocks[..i] + blocks[i + 1..]) == Sizes(blocks)[..i] + Sizes(blocks)[i + 1..]
  {
  }

  method GetBlock(a: CSimpleAllocator, n: int, blocks: seq<Block>) returns (p: Node)
    requires -0x8000_0000 <= n < 0x8000_0000 && Taggable(n)
    requires a.Valid() && Kept(a, blocks) && |a.pools| == 6
    modifies a, a.pools, a.repr, a.small, a.heap, a.counter
    ensures a.Valid() && Kept(a, blocks + [Block(n, p)])
    ensures forall x :: x in a.repr ==> x in old(a.repr) || fresh(x)
    ensures p in old(a.repr) || fresh(p)
    ensures forall j :: 0 <= j < 6 ==>
      && |a.pools[j].held| == |old(a.pools[j].held)| + (if SourceFor(n) == Pooled(j) then 1 else 0)
      && |a.pools[j].pools| == |old(a.pools[j].pools)| + if SourceFor(n) == Pooled(j) then Missing(old(a.pools[j].free)) else 0
  {
    hide CSimpleAllocator.Handed, CSimpleAllocator.HandedOut, CSimpleAllocator.Live, Footprint, Places;
    hide Taggable, SourceFor, Missing;
    a.LiveIs();
    AnyPlace(blocks);
    p := a.Allocate(n);
    OnePlaceMore(blocks, Block(n, p));
  }

  method RunGet(a: CSimpleAllocator, n: int, blocks: seq<Block>, ghost calls: seq<Call>, ghost c: nat)
    returns (blocks': seq<Block>)
    requires c < |calls| && calls[c] == Get(n) && -0x8000_0000 <= n < 0x8000_0000 && Taggable(n)
    requires a.Valid() && Kept(a, blocks) && Sizes(blocks) == Held(calls[..c]) && Fits(a, calls[..c])
    modifies a, a.pools, a.repr, a.small, a.heap, a.counter
    ensures a.Valid() && Kept(a, blocks') && Sizes(blocks') == Held(calls[..c + 1]) && Fits(a, calls[..c + 1])
    ensures forall x :: x in a.repr ==> x in old(a.repr) || fresh(x)
    ensures forall b :: b in blocks' ==> b in blocks || b.p in old(a.repr) || fresh(b.p)
  {
    hide CSimpleAllocator.Handed, Kept, Footprint, Sizes, Held, Taggable, SourceFor, Count, Peak, Enough, NodesPerBlock;
    forall k | 0 <= k < 6
      ensures |a.pools[k].held| <= NodesPerBlock(k) * |a.pools[k].pools|
      ensures a.pools[k].free == [] <==> |a.pools[k].held| == NodesPerBlock(k) * |a.pools[k].pools|
    {
      a.FreeGone(k);
    }
    var p := GetBlock(a, n, blocks);
    HeldNext(calls, c);
    SizesMore(blocks, Block(n, p));
    blocks' := blocks + [Block(n, p)];
    forall k | 0 <= k < 6 ensures Accounted(a.pools[k], calls[..c + 1], k) {
      AccountedGet(calls, c, k, |old(a.pools[k].held)|, |old(a.pools[k].pools)|, |a.pools[k].held|, |a.pools[k].pools|);
    }
  }

  lemma AccountedGet(calls: seq<Call>, c: nat, k: nat, held: nat, blocks: nat, held': nat, blocks': nat)
    requires c < |calls| && calls[c].Get? && held == Count(Held(calls[..c]), k) <= Peak(calls[..c], k)
    requires Enough(blocks, Peak(calls[..c], k), k)
    requires var one := if SourceFor(calls[c].n) == Pooled(k) then 1 else 0;
      held' == held + one && blocks' == if one == 1 && held == NodesPerBlock(k) * blocks then blocks + 1 else blocks
    ensures held' == Count(Held(calls[..c + 1]), k) <= Peak(calls[..c + 1], k) && Enough(blocks', Peak(calls[..c + 1], k), k)
  {
    hide Count, Held, Peak, SourceFor, Enough, NodesPerBlock;
    HeldNext(calls, c);
    PeakNext(calls, c, k);
    CountJoin(Held(calls[..c]), [calls[c].n], k);
    CountOne(calls[c].n, k);
    EnoughNext(blocks, held, Peak(calls[..c], k), k);
  }

  method PutBlock(a: CSimpleAllocator, i: nat, blocks: seq<Block>)
    requires a.Valid() && Kept(a, blocks) && |a.pools| == 6 && i < |blocks|
    modifies a.repr, a.small, a.heap, set b | b in blocks :: b.p
    ensures a.Valid() && Kept(a, blocks[..i] + blocks[i + 1..]) && a.repr == old(a.repr)
    ensures forall k :: 0 <= k < 6 ==>
      && |a.pools[k].held| == |old(a.pools[k].held)| - (if SourceFor(blocks[i].n) == Pooled(k) then 1 else 0)
      && a.pools[k].pools == old(a.pools[k].pools)
  {
    hide CSimpleAllocator.Handed, CSimpleAllocator.HandedOut, CSimpleAllocator.Live, Footprint, Places, SourceFor;
    AnyPlace(blocks);
    OnePlaceLess(blocks, i);
    assert blocks[i] in blocks;
    a.HeldWhere(SourceFor(blocks[i].n), blocks[i].p);
    a.Deallocate(blocks[i].p);
  }

  method RunPut(a: CSimpleAllocator, i: nat, blocks: seq<Block>, ghost calls: seq<Call>, ghost c: nat)
    returns (blocks': seq<Block>)
    requires c < |calls| && calls[c] == Put(i)
    requires a.Valid() && Kept(a, blocks) && Sizes(blocks) == Held(calls[..c]) && Fits(a, calls[..c])
    modifies a.repr, a.small, a.heap, set b | b in blocks :: b.p
    ensures a.Valid() && Kept(a, blocks') && Sizes(blocks') == Held(calls[..c + 1]) && Fits(a, calls[..c + 1])
    ensures a.repr == old(a.repr) && forall b :: b in blocks' ==> b in blocks
  {
    hide CSimpleAllocator.Handed, Kept, Footprint, Sizes, Held, SourceFor, Count, Peak, Enough, NodesPerBlock;
    HeldNext(calls, c);
    blocks' := blocks;
    assert |Sizes(blocks)| == |blocks|;
    if i < |blocks| {
      SizesLess(blocks, i);
      PutBlock(a, i, blocks);
      blocks' := blocks[..i] + blocks[i + 1..];
    }
    forall k | 0 <= k < 6 ensures Accounted(a.pools[k], calls[..c + 1], k) {
      AccountedPut(calls, c, k, |old(a.pools[k].held)|, |a.pools[k].pools|, |a.pools[k].held|);
    }
  }

  lemma AccountedPut(calls: seq<Call>, c: nat, k: nat, held: nat, blocks: nat, held': nat)
    requires c < |calls| && calls[c].Put? && held == Count(Held(calls[..c]), k) <= Peak(calls[..c], k)
    requires Enough(blocks, Peak(calls[..c], k), k)
    requires var (i, s) := (calls[c].i, Held(calls[..c]));
      held' == if i < |s| && SourceFor(s[i]) == Pooled(k) then held - 1 else held
    ensures held' == Count(Held(calls[..c + 1]), k) <= Peak(calls[..c + 1], k) && Enough(blocks, Peak(calls[..c + 1], k), k)
  {
    hide Count, Held, Peak, SourceFor, Enough;
    HeldNext(calls, c);
    PeakNext(calls, c, k);
    if calls[c].i < |Held(calls[..c])| {
      CountLess(Held(calls[..c]), calls[c].i, k);
    }
  }
}
