/**
  The frame allocator: a bump allocator over one buffer with nested scopes that
  set its cursor back, and malloc when the buffer is full. Addresses are numbers.
 */
module FrameAllocator {
  import opened Define

  datatype Range = Range(at: int, size: nat)

  ghost predicate Within(r: Range, from: int, to: int) {
    from <= r.at && r.at + r.size <= to
  }

  /** The blocks lie in [from, to), each behind the one before. */
  ghost predicate Stacked(blocks: seq<Range>, from: int, to: int) {
    && (forall i :: 0 <= i < |blocks| ==> Within(blocks[i], from, to))
    && forall i, j :: 0 <= i < j < |blocks| ==> blocks[i].at + blocks[i].size <= blocks[j].at
  }

  /** The blocks among malloc's answers. */
  ghost function Bag(answers: seq<int>): multiset<int> {
    if answers == [] then multiset{} else (if answers[0] != 0 then multiset{answers[0]} else multiset{}) + Bag(answers[1..])
  }

  lemma {:induction false} BagJoined(s: seq<int>, t: seq<int>)
    ensures Bag(s + t) == Bag(s) + Bag(t)
  {
    if s == [] {
      assert s + t == t;
    } else {
      assert (s + t)[1..] == s[1..] + t;
      BagJoined(s[1..], t);
    }
  }

  lemma BagOne(p: int)
    ensures Bag([p]) == if p != 0 then multiset{p} else multiset{}
  {
  }

  /** malloc and free. */
  class System {
    var live: set<int>               // blocks handed out and not yet freed
    ghost var log: seq<int>          // every answer of malloc, null included
    ghost var freed: multiset<int>   // every block freed

    /** Each block handed out is freed once, or still in use. */
    ghost predicate Valid()
      reads this
    {
      Bag(log) == freed + multiset(live)
    }

    constructor ()
      ensures Valid() && live == {} && log == []
    {
      live, log, freed := {}, [], multiset{};
    }

    /** Null, or a block not in use outside of [beg, end), which is in use. */
    method Malloc(size: nat, beg: int, end: int) returns (p: int)
      requires Valid()
      modifies this
      ensures Valid() && (p == 0 || (p !in old(live) && !(beg <= p < end)))
      ensures live == (if p == 0 then old(live) else old(live) + {p}) && freed == old(freed) && log == old(log) + [p]
    {
      p := *;
      if p in live || beg <= p < end {
        p := 0;
      }
      BagJoined(log, [p]);
      BagOne(p);
      log := log + [p];
      if p != 0 {
        live := live + {p};
      }
    }

    /** A block may be freed only while it is in use. */
    method Free(p: int)
      requires Valid() && p in live
      modifies this
      ensures Valid() && live == old(live) - {p} && freed == old(freed) + multiset{p} && log == old(log)
    {
      live, freed := live - {p}, freed + multiset{p};
    }
  }

  class MallocState {
    const system: System
    const beg: int                // m_beg
    const end: int                // m_end
    var cur: int                  // m_cur
    var last: int                 // m_last
    const maxSize: int            // m_nMaxSize
    var maxFrame: int             // m_nMaxFrameAllocation
    ghost var blocks: seq<Range>  // the blocks in use in the buffer

    /** An initialised frame. */
    ghost predicate Valid()
      reads this
    {
      0 < beg && beg <= cur < end && maxSize == end - beg && Stacked(blocks, beg, cur) && 0 <= maxFrame < maxSize
    }

    constructor (beg: int, size: nat, system: System)
      requires 0 < beg && 0 < size
      ensures Valid() && blocks == [] && cur == beg && this.system == system && end == beg + size
    {
      this.beg, end, cur, last, maxSize, maxFrame := beg, beg + size, beg, 0, size, 0;
      blocks := [];
      this.system := system;
    }

    /** alloc */
    method Alloc(size: nat) returns (p: int)
      requires Valid() && system.Valid()
      modifies this`cur, this`last, this`maxFrame, this`blocks, system
      ensures Valid() && system.Valid() && system.freed == old(system.freed)
      ensures old(cur) + size < end ==>
        && p == old(cur) && cur == p + size && blocks == old(blocks) + [Range(p, size)]
        && maxFrame == Max(old(maxFrame), cur - beg)
        && system.live == old(system.live) && system.log == old(system.log)
      ensures old(cur) + size >= end ==>
        && cur == old(cur) && blocks == old(blocks) && maxFrame == old(maxFrame) && system.log == old(system.log) + [p]
        && (p == 0 || (p !in old(system.live) && IsSysMalloc(p)))
        && system.live == if p == 0 then old(system.live) else old(system.live) + {p}
    {
      if cur + size < end {
        last := cur;
        cur := cur + size;
        var curSize := cur - beg;
        if curSize > maxFrame {
          maxFrame := curSize;
        }
        blocks := blocks + [Range(last, size)];
        return last;
      } else {
        p := system.Malloc(size, beg, end);
      }
    }

    predicate IsSysMalloc(p: int)
      reads this
    {
      !(beg <= p < end)
    }

    /** _free: nothing for a block of the buffer. */
    method Free(p: int)
      requires Valid() && system.Valid() && (IsSysMalloc(p) && p != 0 ==> p in system.live)
      modifies system
      ensures system.Valid() && system.live == old(system.live) - (if IsSysMalloc(p) && p != 0 then {p} else {})
      ensures system.freed == old(system.freed) + (if IsSysMalloc(p) && p != 0 then multiset{p} else multiset{})
      ensures system.log == old(system.log)
    {
      if beg <= p < end {
      } else if p != 0 {
        system.Free(p);
      }
    }

    /** setCurSize: the cursor at a watermark, if that lies in the buffer; `keep`
        blocks lie below it. */
    method SetCurSize(waterMark: int, ghost keep: nat)
      requires Valid() && keep <= |blocks| && (0 <= waterMark < maxSize ==> Stacked(blocks[..keep], beg, beg + waterMark))
      modifies this`cur, this`blocks
      ensures Valid()
      ensures 0 <= waterMark < maxSize ==> cur == beg + waterMark && blocks == old(blocks)[..keep]
      ensures !(0 <= waterMark < maxSize) ==> cur == old(cur) && blocks == old(blocks)
    {
      if waterMark >= 0 && waterMark < maxSize {
        cur := beg + waterMark;
        blocks := blocks[..keep];
      }
    }
  }

  // ---------------------------------------------------------------- scopes

  /** SetFrameAllocator */
  class SetFrameAllocator {
    const state: MallocState
    const waterMark: int         // m_dwWaterMark
    var vps: seq<int>            // m_vps
    ghost const depth: nat       // the blocks there were when the scope was entered
    ghost const before: set<int> // what malloc had handed out then

    /** The blocks of outer scopes are untouched, and the blocks from malloc that
        came since are those noted down. */
    ghost predicate Valid()
      reads this, state, state.system
    {
      && state.Valid() && state.system.Valid() && state.system != this as object
      && depth <= |state.blocks| && Stacked(state.blocks[..depth], state.beg, state.beg + waterMark)
      && 0 <= waterMark <= state.cur - state.beg
      && Noted(vps, before, state.beg, state.end) && state.system.live == before + NonNull(vps)
    }

    constructor (state: MallocState)
      requires state.Valid() && state.system.Valid()
      ensures Valid() && this.state == state && vps == [] && waterMark == state.cur - state.beg
      ensures depth == |state.blocks| && before == state.system.live
    {
      this.state := state;
      waterMark := state.cur - state.beg;
      vps, depth, before := [], |state.blocks|, state.system.live;
      new;
      assert state.blocks[..depth] == state.blocks;
    }

    /** A block behind all others in the buffer, or one from malloc, noted down. */
    method Alloc(size: nat) returns (p: int)
      requires Valid()
      modifies this`vps, state, state.system
      ensures Valid() && state.system.freed == old(state.system.freed)
      ensures state.IsSysMalloc(p) <==> old(state.cur) + size >= state.end
      ensures !state.IsSysMalloc(p) ==>
        && p == old(state.cur) && state.blocks == old(state.blocks) + [Range(p, size)]
        && state.cur == p + size && state.maxFrame == Max(old(state.maxFrame), state.cur - state.beg)
        && vps == old(vps) && state.system.live == old(state.system.live) && state.system.log == old(state.system.log)
      ensures state.IsSysMalloc(p) ==>
        && state.cur == old(state.cur) && state.blocks == old(state.blocks) && vps == old(vps) + [p]
        && state.maxFrame == old(state.maxFrame) && state.system.log == old(state.system.log) + [p]
        && (p == 0 || p !in old(state.system.live))
        && state.system.live == old(state.system.live) + if p == 0 then {} else {p}
    {
      hide Noted, NonNull, Stacked, Bag, System.Valid;
      p := state.Alloc(size);
      if state.IsSysMalloc(p) {
        NotedMore(vps, before, p, state.beg, state.end);
        vps := vps + [p];
      }
      assert state.blocks[..depth] == old(state.blocks)[..depth];
    }

    /** The destructor: the cursor goes back, and each block noted down is freed once. */
    method Leave()
      requires Valid()
      modifies this`vps, state, state.system
      ensures state.Valid() && state.system.Valid() && state.cur == state.beg + waterMark
      ensures state.blocks == old(state.blocks)[..depth] && state.system.live == before
      ensures state.system.freed == old(state.system.freed) + multiset(NonNull(old(vps)))
      ensures state.system.log == old(state.system.log) && state.maxFrame == old(state.maxFrame)
    {
      state.SetCurSize(waterMark, depth);
      FreeAll();
      vps := [];
    }

    /** The loop over the blocks from malloc. */
    method FreeAll()
      requires state.Valid() && state.system.Valid() && state.system.live == before + NonNull(vps)
      requires Noted(vps, before, state.beg, state.end)
      modifies state.system
      ensures state.system.Valid() && state.system.live == before
      ensures state.system.freed == old(state.system.freed) + multiset(NonNull(vps)) && state.system.log == old(state.system.log)
    {
      hide NonNull, Noted;
      var i := 0;
      assert vps[0..] == vps;
      while i < |vps|
        invariant 0 <= i <= |vps| && state.system.Valid() && state.system.live == before + NonNull(vps[i..])
        invariant state.system.log == old(state.system.log)
        invariant state.system.freed + multiset(NonNull(vps[i..])) == old(state.system.freed) + multiset(NonNull(vps))
      {
        var p := vps[i];
        NonNullHead(vps, before, state.beg, state.end, i);
        if p != 0 {
          state.Free(p);
        }
        i := i + 1;
      }
      NonNullEnd(vps);
    }
  }

  /** Addresses from malloc, each new and noted once; null may come again. */
  ghost predicate Noted(vps: seq<int>, before: set<int>, beg: int, end: int) {
    && (forall i :: 0 <= i < |vps| ==> !(beg <= vps[i] < end) && (vps[i] == 0 || vps[i] !in before))
    && forall i, j :: 0 <= i < j < |vps| ==> vps[i] != vps[j] || vps[i] == 0
  }

  lemma NotedMore(vps: seq<int>, before: set<int>, p: int, beg: int, end: int)
    requires Noted(vps, before, beg, end) && !(beg <= p < end) && (p == 0 || p !in before + NonNull(vps))
    ensures Noted(vps + [p], before, beg, end) && NonNull(vps + [p]) == NonNull(vps) + if p == 0 then {} else {p}
  {
    forall i | 0 <= i < |vps| ensures vps[i] != p || p == 0 {
      assert vps[i] in vps;
    }
  }

  lemma NonNullEnd(vps: seq<int>)
    ensures NonNull(vps[|vps|..]) == {}
  {
  }

  lemma NonNullHead(s: seq<int>, before: set<int>, beg: int, end: int, i: nat)
    requires i < |s| && Noted(s, before, beg, end)
    ensures NonNull(s[i..]) == NonNull(s[i + 1..]) + if s[i] != 0 then {s[i]} else {}
    ensures s[i] !in NonNull(s[i + 1..]) && (s[i] != 0 ==> s[i] !in before) && !(beg <= s[i] < end)
    ensures multiset(NonNull(s[i..])) == multiset(NonNull(s[i + 1..])) + if s[i] != 0 then multiset{s[i]} else multiset{}
  {
    var rest := s[i + 1..];
    assert s[i..] == [s[i]] + rest;
    forall x | x in NonNull(rest) ensures x != s[i] {
      var j :| 0 <= j < |rest| && rest[j] == x;
      assert s[i + 1 + j] == x;
    }
  }

  ghost function NonNull(s: seq<int>): set<int> {
    set p | p in s && p != 0
  }

  /** What a program does between entering and leaving a scope: it allocates
      through the scope, or opens a scope within. */
  datatype Step = Request(size: nat) | Scope(body: seq<Step>)

  /** How many requests there are. */
  function Requests(body: seq<Step>): nat {
    if body == [] then 0
    else
      (match body[0]
       case Request(size) => 1
       case Scope(inner) => Requests(inner)) + Requests(body[1..])
  }

  /** A moment right after a request for `size` bytes gave p: the blocks in the
      buffer and those from malloc that the open scopes have given out. */
  datatype Moment = Moment(size: nat, p: int, blocks: seq<Range>, heap: set<int>)

  predicate Covers(r: Range, x: int) {
    r.at <= x < r.at + r.size
  }

  /** No address is in two blocks. */
  ghost predicate Disjoint(blocks: seq<Range>) {
    forall i, j, x :: 0 <= i < j < |blocks| && Covers(blocks[i], x) ==> !Covers(blocks[j], x)
  }

  /** The request was met by a new block: behind all others in the buffer, or from
      malloc, or malloc failed; all blocks are apart and inside the buffer, or
      outside of it. */
  ghost predicate Sound(m: Moment, beg: int, end: int) {
    && Disjoint(m.blocks) && (forall r :: r in m.blocks ==> Within(r, beg, end))
    && (forall q :: q in m.heap ==> !(beg <= q < end))
    && if beg <= m.p < end then m.blocks != [] && m.blocks[|m.blocks| - 1] == Range(m.p, m.size)
       else m.p == 0 || m.p in m.heap
  }

  ghost predicate AllSound(trace: seq<Moment>, beg: int, end: int) {
    forall i :: 0 <= i < |trace| ==> Sound(trace[i], beg, end)
  }

  /** The frame, the blocks in it, and the blocks from malloc that open scopes have
      given out. */
  datatype Frame = Frame(beg: int, end: int, cur: int, blocks: seq<Range>, heap: set<int>)

  /** Where a request for `size` bytes is met: at the cursor when there is room;
      otherwise p is what malloc answers. */
  ghost function Given(f: Frame, size: nat, p: int): Moment {
    if f.cur + size < f.end then Moment(size, f.cur, f.blocks + [Range(f.cur, size)], f.heap)
    else Moment(size, p, f.blocks, f.heap + if p == 0 then {} else {p})
  }

  ghost function After(f: Frame, m: Moment): Frame {
    f.(cur := if f.cur + m.size < f.end then f.cur + m.size else f.cur, blocks := m.blocks, heap := m.heap)
  }

  /** malloc answers null, or a new block outside of the buffer. */
  ghost predicate Answer(f: Frame, p: int) {
    !(f.beg <= p < f.end) && (p == 0 || p !in f.heap)
  }

  /** The trace of a program that starts in f. What comes after an inner scope
      starts where that scope did. */
  ghost predicate Follows(body: seq<Step>, f: Frame, trace: seq<Moment>)
    decreases body
  {
    if body == [] then trace == []
    else
      match body[0]
      case Request(size) =>
        && trace != [] && trace[0] == Given(f, size, trace[0].p)
        && (f.cur + size >= f.end ==> Answer(f, trace[0].p))
        && Follows(body[1..], After(f, trace[0]), trace[1..])
      case Scope(inner) =>
        var n := Requests(inner);
        n <= |trace| && Follows(inner, f, trace[..n]) && Follows(body[1..], f, trace[n..])
  }

  /** Every run: at each moment the blocks in use are apart. */
  lemma {:induction false} FollowsSound(body: seq<Step>, f: Frame, trace: seq<Moment>)
    requires Follows(body, f, trace) && f.beg <= f.cur < f.end && Stacked(f.blocks, f.beg, f.cur)
    requires forall q :: q in f.heap ==> !(f.beg <= q < f.end)
    ensures AllSound(trace, f.beg, f.end) && |trace| == Requests(body)
    decreases body
  {
    hide Stacked, Sound, AllSound, Given, After, Answer;
    if body == [] {
      NothingSound(f.beg, f.end);
    } else {
      match body[0]
      case Request(size) =>
        GivenSound(f, size, trace[0].p);
        FollowsSound(body[1..], After(f, trace[0]), trace[1..]);
        OneSound(trace[0], f.beg, f.end);
        assert trace[..1] == [trace[0]];
        SoundJoined(trace, 1, f.beg, f.end);
      case Scope(inner) =>
        var n := Requests(inner);
        FollowsSound(inner, f, trace[..n]);
        FollowsSound(body[1..], f, trace[n..]);
        SoundJoined(trace, n, f.beg, f.end);
    }
  }

  lemma NothingSound(beg: int, end: int)
    ensures AllSound([], beg, end)
  {
  }

  lemma OneSound(m: Moment, beg: int, end: int)
    requires Sound(m, beg, end)
    ensures AllSound([m], beg, end)
  {
  }

  lemma SoundJoined(trace: seq<Moment>, n: nat, beg: int, end: int)
    requires n <= |trace| && AllSound(trace[..n], beg, end) && AllSound(trace[n..], beg, end)
    ensures AllSound(trace, beg, end)
  {
    hide Sound;
    forall i | 0 <= i < |trace| ensures Sound(trace[i], beg, end) {
      assert trace[i] == if i < n then trace[..n][i] else trace[n..][i - n];
    }
  }

  lemma GivenSound(f: Frame, size: nat, p: int)
    requires f.beg <= f.cur < f.end && Stacked(f.blocks, f.beg, f.cur) && (f.cur + size >= f.end ==> Answer(f, p))
    requires forall q :: q in f.heap ==> !(f.beg <= q < f.end)
    ensures var (m, f') := (Given(f, size, p), After(f, Given(f, size, p)));
      && Sound(m, f.beg, f.end) && f'.beg == f.beg && f'.end == f.end && f.beg <= f'.cur < f.end && Stacked(f'.blocks, f.beg, f'.cur)
      && forall q :: q in f'.heap ==> !(f.beg <= q < f.end)
  {
    var f' := After(f, Given(f, size, p));
    assert Stacked(f'.blocks, f.beg, f'.cur);
    StackedDisjoint(f'.blocks, f.beg, f'.cur, f.end);
    hide Disjoint;
  }

  /** What malloc answered. */
  ghost function Outside(trace: seq<Moment>, beg: int, end: int): seq<int> {
    if trace == [] then []
    else (if beg <= trace[0].p < end then [] else [trace[0].p]) + Outside(trace[1..], beg, end)
  }

  /** The high-water mark, from an earlier one on. */
  ghost function HighWater(trace: seq<Moment>, beg: int, end: int, mark: int): int {
    if trace == [] then mark
    else
      var (p, size) := (trace[0].p, trace[0].size);
      HighWater(trace[1..], beg, end, if beg <= p < end then Max(mark, p + size - beg) else mark)
  }

  lemma OutsideNext(trace: seq<Moment>, beg: int, end: int)
    requires trace != []
    ensures Outside(trace, beg, end) == (if beg <= trace[0].p < end then [] else [trace[0].p]) + Outside(trace[1..], beg, end)
  {
  }

  lemma OutsideNone(beg: int, end: int)
    ensures Outside([], beg, end) == []
  {
  }

  lemma {:induction false} OutsideJoined(s: seq<Moment>, t: seq<Moment>, beg: int, end: int)
    ensures Outside(s + t, beg, end) == Outside(s, beg, end) + Outside(t, beg, end)
  {
    hide Outside;
    if s == [] {
      assert s + t == t;
      OutsideNone(beg, end);
    } else {
      assert (s + t)[1..] == s[1..] + t;
      OutsideNext(s, beg, end);
      OutsideNext(s + t, beg, end);
      OutsideJoined(s[1..], t, beg, end);
    }
  }

  lemma {:induction false} HighWaterJoined(s: seq<Moment>, t: seq<Moment>, beg: int, end: int, mark: int)
    ensures HighWater(s + t, beg, end, mark) == HighWater(t, beg, end, HighWater(s, beg, end, mark))
  {
    if s == [] {
      assert s + t == t;
    } else {
      assert (s + t)[1..] == s[1..] + t;
      var (p, size) := (s[0].p, s[0].size);
      HighWaterJoined(s[1..], t, beg, end, if beg <= p < end then Max(mark, p + size - beg) else mark);
    }
  }

  lemma EmptyTrace(f: Frame, beg: int, end: int, mark: int)
    ensures Follows([], f, []) && Outside([], beg, end) == [] && HighWater([], beg, end, mark) == mark
  {
  }

  lemma FollowsRequest(body: seq<Step>, f: Frame, m: Moment, rest: seq<Moment>)
    requires body != [] && body[0].Request? && m == Given(f, body[0].size, m.p)
    requires (f.cur + body[0].size >= f.end ==> Answer(f, m.p)) && Follows(body[1..], After(f, m), rest)
    ensures Follows(body, f, [m] + rest)
  {
    assert ([m] + rest)[1..] == rest;
  }

  lemma FollowsScope(body: seq<Step>, f: Frame, more: seq<Moment>, rest: seq<Moment>)
    requires body != [] && body[0].Scope? && Follows(body[0].body, f, more) && Follows(body[1..], f, rest)
    ensures Follows(body, f, more + rest)
  {
    LengthOf(body[0].body, f, more);
    assert (more + rest)[..|more|] == more && (more + rest)[|more|..] == rest;
  }

  /** The frame as the blocks of `base`, which no open scope has given out, leave it. */
  ghost function FrameOf(state: MallocState, base: set<int>): Frame
    reads state, state.system
  {
    Frame(state.beg, state.end, state.cur, state.blocks, state.system.live - base)
  }

  /** A scope: the requests of its body are met where the values say and at every
      moment the blocks its clients have are apart; it leaves the cursor and all
      blocks exactly as it found them, and each block that malloc handed out in
      the run has been freed, once. */
  method RunScope(state: MallocState, body: seq<Step>, ghost base: set<int>) returns (ghost trace: seq<Moment>)
    requires state.Valid() && state.system.Valid()
    requires base <= state.system.live && forall q :: q in state.system.live - base ==> state.IsSysMalloc(q)
    modifies state, state.system
    ensures state.Valid() && state.system.Valid()
    ensures Follows(body, old(FrameOf(state, base)), trace) && AllSound(trace, state.beg, state.end)
    ensures state.cur == old(state.cur) && state.blocks == old(state.blocks) && state.system.live == old(state.system.live)
    ensures state.maxFrame == HighWater(trace, state.beg, state.end, old(state.maxFrame))
    ensures state.system.log == old(state.system.log) + Outside(trace, state.beg, state.end)
    ensures state.system.freed == old(state.system.freed) + Bag(Outside(trace, state.beg, state.end))
    decreases body, 1
  {
    hide Sound, Noted, Stacked, NonNull, AllSound, Follows, HighWater, Outside, Bag;
    var scope := new SetFrameAllocator(state);
    trace := RunBody(scope, body, base);
    scope.Leave();
    FollowsSound(body, old(FrameOf(state, base)), trace);
    Balanced(old(state.system.log), Outside(trace, state.beg, state.end),
             state.system.freed, old(state.system.freed), multiset(state.system.live));
  }

  /** What is done within a scope, one step after the other. */
  method RunBody(scope: SetFrameAllocator, body: seq<Step>, ghost base: set<int>) returns (ghost trace: seq<Moment>)
    requires scope.Valid() && base <= scope.before
    requires forall q :: q in scope.before - base ==> scope.state.IsSysMalloc(q)
    modifies scope`vps, scope.state, scope.state.system
    ensures scope.Valid() && scope.state.blocks[..scope.depth] == old(scope.state.blocks[..scope.depth])
    ensures Follows(body, old(FrameOf(scope.state, base)), trace)
    ensures scope.state.maxFrame == HighWater(trace, scope.state.beg, scope.state.end, old(scope.state.maxFrame))
    ensures scope.state.system.log == old(scope.state.system.log) + Outside(trace, scope.state.beg, scope.state.end)
    decreases body, 0
  {
    hide Noted, Stacked, NonNull, AllSound, Sound, Given, Bag, Follows, Outside, HighWater, Answer;
    ghost var beg, end, mark, f := scope.state.beg, scope.state.end, scope.state.maxFrame, FrameOf(scope.state, base);
    trace := [];
    if body == [] {
      EmptyTrace(f, beg, end, mark);
      return;
    }
    HeapOutside(scope, base);
    ghost var first := [];
    match body[0] {
      case Request(size) =>
        ghost var m := AllocStep(scope, size, base);
        first := [m];
        trace := RunBody(scope, body[1..], base);
        FollowsRequest(body, f, m, trace);
      case Scope(inner) =>
        first := RunScope(scope.state, inner, base);
        trace := RunBody(scope, body[1..], base);
        FollowsScope(body, f, first, trace);
    }
    OutsideJoined(first, trace, beg, end);
    HighWaterJoined(first, trace, beg, end, mark);
    trace := first + trace;
  }

  lemma {:induction false} LengthOf(body: seq<Step>, f: Frame, trace: seq<Moment>)
    requires Follows(body, f, trace)
    ensures |trace| == Requests(body)
    decreases body
  {
    if body != [] {
      match body[0]
      case Request(size) => LengthOf(body[1..], After(f, trace[0]), trace[1..]);
      case Scope(inner) =>
        LengthOf(inner, f, trace[..Requests(inner)]);
        LengthOf(body[1..], f, trace[Requests(inner)..]);
    }
  }

  /** One request through a scope. */
  method AllocStep(scope: SetFrameAllocator, size: nat, ghost base: set<int>) returns (ghost m: Moment)
    requires scope.Valid() && base <= scope.state.system.live
    modifies scope`vps, scope.state, scope.state.system
    ensures scope.Valid() && scope.state.blocks[..scope.depth] == old(scope.state.blocks[..scope.depth])
    ensures m == Given(old(FrameOf(scope.state, base)), size, m.p) && FrameOf(scope.state, base) == After(old(FrameOf(scope.state, base)), m)
    ensures old(scope.state.cur) + size >= scope.state.end ==> Answer(old(FrameOf(scope.state, base)), m.p)
    ensures scope.state.maxFrame == HighWater([m], scope.state.beg, scope.state.end, old(scope.state.maxFrame))
    ensures scope.state.system.log == old(scope.state.system.log) + Outside([m], scope.state.beg, scope.state.end)
  {
    hide Stacked, NonNull, Noted;
    var p := scope.Alloc(size);
    m := Moment(size, p, scope.state.blocks, scope.state.system.live - base);
  }

  lemma StackedDisjoint(blocks: seq<Range>, from: int, to: int, end: int)
    requires Stacked(blocks, from, to) && to <= end
    ensures Disjoint(blocks) && forall r :: r in blocks ==> Within(r, from, end)
  {
  }

  lemma HeapOutside(scope: SetFrameAllocator, base: set<int>)
    requires scope.Valid() && forall q :: q in scope.before - base ==> scope.state.IsSysMalloc(q)
    ensures forall q :: q in scope.state.system.live - base ==> scope.state.IsSysMalloc(q)
  {
  }

  lemma Balanced(log: seq<int>, more: seq<int>, freed: multiset<int>, freed0: multiset<int>, live: multiset<int>)
    requires Bag(log + more) == freed + live && Bag(log) == freed0 + live
    ensures freed == freed0 + Bag(more)
  {
    BagJoined(log, more);
    Cancelled(Bag(log), Bag(more), freed, freed0, live);
  }

  lemma Cancelled(b: multiset<int>, more: multiset<int>, freed: multiset<int>, freed0: multiset<int>, live: multiset<int>)
    requires b + more == freed + live && b == freed0 + live
    ensures freed == freed0 + more
  {
    forall q ensures freed[q] == (freed0 + more)[q] {
      assert (b + more)[q] == (freed + live)[q] && b[q] == (freed0 + live)[q];
    }
  }
}
