/**
  CLoopList: a bounded ring.
 */
module LoopList {
  import opened Wrappers
  import opened Define

  const DEFAULT_LEN := 1024  // _Default_Len_

  /** What push_back makes of a queue of at most cap elements. */
  function Pushed<T>(s: seq<T>, cap: nat, x: T): seq<T> {
    if |s| < cap then s + [x] else s
  }

  /** How many elements merge moves from `src` to a queue of n elements. */
  function Moved(n: nat, cap: nat, src: nat): (r: nat)
    ensures r <= src && (n <= cap ==> n + r <= cap && (n + r == cap || r == src))
  {
    if n < cap then Min(cap - n, src) else 0
  }

  class LoopList<T(0)> {
    var head: nat      // m_head
    var tail: nat      // m_tail
    var size: nat      // m_size
    var capacity: nat  // m_capacity
    var buf: array<T>  // pBuf

    ghost predicate Valid()
      reads this
    {
      && 0 < capacity == buf.Length
      && head < capacity && size <= capacity
      && tail == Slot(head, size, capacity)
    }

    /** The queued elements, oldest first. */
    ghost function Contents(): (s: seq<T>)
      requires Valid()
      reads this, buf
      ensures |s| == size
    {
      Elements(buf[..], head, size)
    }

    constructor (bufsize: nat)
      ensures Valid() && Contents() == [] && fresh(buf)
      ensures capacity == if bufsize < 1 then DEFAULT_LEN else bufsize
    {
      head, tail, size := 0, 0, 0;
      capacity := if bufsize < 1 then DEFAULT_LEN else bufsize;
      buf := new T[if bufsize < 1 then DEFAULT_LEN else bufsize];
    }

    predicate IsFull()
      reads this
    {
      size >= capacity
    }

    predicate IsEmpty()
      reads this
    {
      size == 0
    }

    method PopFront() returns (r: Option<T>)
      requires Valid()
      modifies this
      ensures Valid() && buf == old(buf) && capacity == old(capacity)
      ensures r == if old(Contents()) == [] then None else Some(old(Contents())[0])
      ensures Contents() == if old(Contents()) == [] then [] else old(Contents())[1..]
    {
      if IsEmpty() {
        return None;
      }
      var oldHead := head;
      Wraps(head, size, capacity);
      SlotsShift(head, capacity);
      assert Elements(buf[..], Slot(head, 1, capacity), size - 1) == Contents()[1..];
      head := (head + 1) % capacity;
      size := size - 1;
      return Some(buf[oldHead]);
    }

    method PushBack(item: T) returns (ok: bool)
      requires Valid()
      modifies this, buf
      ensures Valid() && buf == old(buf) && capacity == old(capacity)
      ensures ok == (|old(Contents())| < capacity)
      ensures Contents() == if ok then old(Contents()) + [item] else old(Contents())
    {
      if IsFull() {
        return false;
      }
      SlotsDiffer(head, size, capacity);
      Wraps(head, size, capacity);
      buf[tail] := item;
      tail := (tail + 1) % capacity;
      size := size + 1;
      assert Contents() == old(Contents()) + [item];
      return true;
    }

    /** Moves elements from the front of `other` until this ring is full or
        `other` is empty. Merging a ring with itself ends only when it is empty
        or full. */
    method Merge(other: LoopList<T>) returns (ok: bool)
      requires Valid() && other.Valid()
      requires if other == this then |Contents()| == 0 || |Contents()| == capacity else other.buf != buf
      modifies this, buf, other
      ensures Valid() && buf == old(buf) && capacity == old(capacity)
      ensures other.Valid() && other.buf == old(other.buf) && other.capacity == old(other.capacity)
      ensures var n := Moved(|old(Contents())|, capacity, |old(other.Contents())|);
        && ok == (n > 0)
        && Contents() == old(Contents()) + old(other.Contents())[..n]
        && other.Contents() == old(other.Contents())[n..]
    {
      hide Elements;
      ghost var mine, theirs := Contents(), other.Contents();
      if IsFull() {
        assert Contents() == mine + theirs[..0];
        return false;
      }
      if other.IsEmpty() {
        assert Contents() == mine + theirs[..0];
        return false;
      }
      MoveAll(other);
      return true;
    }

    /** Its loop. */
    method MoveAll(other: LoopList<T>)
      requires Valid() && other.Valid() && other != this && other.buf != buf
      requires |Contents()| < capacity && |other.Contents()| > 0
      modifies this, buf, other
      ensures Valid() && buf == old(buf) && capacity == old(capacity)
      ensures other.Valid() && other.buf == old(other.buf) && other.capacity == old(other.capacity)
      ensures var n := Moved(|old(Contents())|, capacity, |old(other.Contents())|);
        Contents() == old(Contents()) + old(other.Contents())[..n] && other.Contents() == old(other.Contents())[n..]
    {
      hide Elements;
      ghost var mine, theirs := Contents(), other.Contents();
      ghost var n := 0;
      while true
        invariant Valid() && buf == old(buf) && capacity == old(capacity)
        invariant other.Valid() && other.buf == old(other.buf) && other.capacity == old(other.capacity)
        invariant n < Moved(|mine|, capacity, |theirs|)
        invariant Contents() == mine + theirs[..n] && other.Contents() == theirs[n..]
        decreases |theirs| - n
      {
        var item := other.PopFront();
        var pushed := PushBack(item.value);
        n := n + 1;
        assert mine + theirs[..n - 1] + [theirs[n - 1]] == mine + theirs[..n];
        if IsFull() || other.IsEmpty() {
          break;
        }
      }
    }
  }

  // ---------------------------------------------------------------- slots

  /** The n elements of a ring from `head` on. */
  function Elements<T>(b: seq<T>, head: nat, n: nat): (s: seq<T>)
    requires head < |b| && n <= |b|
    ensures |s| == n
  {
    seq(n, i requires 0 <= i < n => b[Slot(head, i, |b|)])
  }

  /** The place of element i of a ring. */
  function Slot(head: nat, i: nat, capacity: nat): (r: nat)
    requires head < capacity && i <= capacity
    ensures r < capacity
  {
    if head + i < capacity then head + i else head + i - capacity
  }

  lemma Wraps(head: nat, size: nat, capacity: nat)
    requires head < capacity && size <= capacity
    ensures (head + 1) % capacity == Slot(head, 1, capacity)
    ensures (Slot(head, size, capacity) + 1) % capacity ==
            if size < capacity then Slot(head, size + 1, capacity) else Slot(head, 1, capacity)
  {
    SmallMod(head + 1, capacity);
    SmallMod(Slot(head, size, capacity) + 1, capacity);
  }

  lemma SmallMod(x: nat, c: nat)
    requires 0 < c && x <= c
    ensures x % c == if x < c then x else 0
  {
  }

  lemma SlotsShift(head: nat, capacity: nat)
    requires head < capacity
    ensures forall i :: 0 <= i < capacity ==> Slot(Slot(head, 1, capacity), i, capacity) == Slot(head, i + 1, capacity)
  {
  }

  lemma SlotsDiffer(head: nat, size: nat, capacity: nat)
    requires head < capacity && size < capacity
    ensures forall i :: 0 <= i < size ==> Slot(head, i, capacity) != Slot(head, size, capacity)
  {
  }
}
