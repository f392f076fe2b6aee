/**
  Whole runs of a receiver: bytes arrive in any chunks, packet_getcmd is called
  at any moments, and the messages come out as they were sent.
 */
module Stream {
  import opened Define
  import opened Packet
  import opened LoopBuf
  import opened Codec

  /** A message on its way: the message, the plaintext packet that carries it,
      and the packet's length in blocks. */
  datatype Sent = Sent(msg: seq<byte>, plain: seq<byte>, blocks: nat)

  ghost predicate Sendable(cfg: Config, p: Sent, max: int) {
    && Carries(cfg.zlib, p.plain, p.blocks, p.msg)
    && 0 < |p.msg| <= max && SizeField(p.plain) <= max
  }

  ghost predicate AllSendable(cfg: Config, ps: seq<Sent>, max: int) {
    forall i :: 0 <= i < |ps| ==> Sendable(cfg, ps[i], max)
  }

  ghost function Wire(cfg: Config, p: Sent): (w: seq<byte>)
    requires |p.plain| == 8 * p.blocks
    ensures |w| == 8 * p.blocks
  {
    cfg.cipher.Blocks(true, p.plain, p.blocks)
  }

  /** What the sender puts on the wire. */
  ghost function WireAll(cfg: Config, ps: seq<Sent>): seq<byte>
    requires forall i :: 0 <= i < |ps| ==> |ps[i].plain| == 8 * ps[i].blocks
  {
    if ps == [] then [] else Wire(cfg, ps[0]) + WireAll(cfg, ps[1..])
  }

  ghost function Messages(ps: seq<Sent>): (ms: seq<seq<byte>>)
    ensures |ms| == |ps|
  {
    seq(|ps|, i requires 0 <= i < |ps| => ps[i].msg)
  }

  lemma {:induction false} WireAppend(cfg: Config, ps: seq<Sent>, p: Sent)
    requires |p.plain| == 8 * p.blocks && forall i :: 0 <= i < |ps| ==> |ps[i].plain| == 8 * ps[i].blocks
    ensures WireAll(cfg, ps + [p]) == WireAll(cfg, ps) + Wire(cfg, p)
    decreases |ps|
  {
    if ps == [] {
      assert [p][1..] == [] && Wire(cfg, p) + [] == Wire(cfg, p) && [] + [p] == [p];
    } else {
      WireAppend(cfg, ps[1..], p);
      assert (ps + [p])[1..] == ps[1..] + [p];
    }
  }

  lemma WireNone(cfg: Config)
    ensures WireAll(cfg, []) == []
  {
  }

  lemma WireOf(cfg: Config, p: Sent)
    requires |p.plain| == 8 * p.blocks
    ensures Wire(cfg, p) == cfg.cipher.Blocks(true, p.plain, p.blocks)
  {
  }

  /** packetbuf on one message after the other, each in a buffer of its own: what
      goes on the wire is what a receiver can be owed. */
  method SendAll(cfg: Config, msgs: seq<seq<byte>>, level: int, split: bool, maxLen: nat)
    returns (ok: bool, wire: seq<byte>, ghost ps: seq<Sent>)
    requires cfg.zlib.Inverts() && 10 <= maxLen < 0x7fff_fff0
    ensures forall i :: 0 <= i < |ps| ==> Carries(cfg.zlib, ps[i].plain, ps[i].blocks, ps[i].msg)
    ensures Messages(ps) <= msgs && (ok <==> Messages(ps) == msgs)
    ensures (forall i :: 0 <= i < |ps| ==> |ps[i].plain| == 8 * ps[i].blocks) && wire == WireAll(cfg, ps)
    ensures ok <==> forall i :: 0 <= i < |msgs| ==> Packs(cfg, msgs[i], level, maxLen)
    ensures !ok ==> !Packs(cfg, msgs[|ps|], level, maxLen)
  {
    hide Carries, Wire, WireAll, Packs;
    ok, wire, ps := true, [], [];
    WireNone(cfg);
    for i := 0 to |msgs|
      invariant |ps| == i && forall j :: 0 <= j < i ==> ps[j].msg == msgs[j]
      invariant forall j :: 0 <= j < i ==> Carries(cfg.zlib, ps[j].plain, ps[j].blocks, ps[j].msg)
      invariant (forall j :: 0 <= j < i ==> |ps[j].plain| == 8 * ps[j].blocks) && wire == WireAll(cfg, ps)
      invariant forall j :: 0 <= j < i ==> Packs(cfg, msgs[j], level, maxLen)
    {
      var pout := new byte[maxLen](_ => 0);
      var ret, overrun; ghost var plain;
      ret, overrun, plain := PacketBuf(msgs[i], pout, maxLen, cfg, level, split);
      if ret <= 0 {
        return false, wire, ps;
      }
      ghost var p := Sent(msgs[i], plain, ret / 8);
      WireOf(cfg, p);
      WireAppend(cfg, ps, p);
      wire, ps := wire + pout[..ret], ps + [p];
    }
  }

  // ---------------------------------------------------------------- one packet

  /** A stretch of blocks of a ciphertext. */
  lemma CipherSlice(cipher: Cipher, plain: seq<byte>, n: nat, i: nat, j: nat)
    requires |plain| == 8 * n && i <= j <= n
    ensures cipher.Blocks(true, plain, n)[8 * i..8 * j] == cipher.Blocks(true, plain[8 * i..8 * j], j - i)
  {
    var a, b, c := plain[..8 * i], plain[8 * i..8 * j], plain[8 * j..];
    assert plain == a + (b + c);
    cipher.BlocksConcat(true, a, i, b + c, n - i);
    cipher.BlocksConcat(true, b, j - i, c, n - j);
  }

  /** Blocks i to j of a packet, still encrypted, behind i decrypted ones. */
  ghost predicate Mixed(cfg: Config, p: Sent, b: seq<byte>, i: nat, j: nat)
    requires |p.plain| == 8 * p.blocks
  {
    && i <= j <= p.blocks && 8 * j <= |b|
    && (forall x :: 0 <= x < 8 * i ==> b[x] == p.plain[x])
    && (forall x :: 8 * i <= x < 8 * j ==> b[x] == Wire(cfg, p)[x])
  }

  /** Decrypting the first blocks that are still encrypted. */
  lemma DecryptMixed(cfg: Config, p: Sent, b: seq<byte>, i: nat, j: nat, l: nat)
    requires |p.plain| == 8 * p.blocks && cfg.cipher.Inverts() && Mixed(cfg, p, b, i, l) && i <= j <= l
    ensures var c := Worked(cfg.cipher, false, b, 8 * i, j - i);
      Mixed(cfg, p, c, j, l) && (forall x :: 8 * j <= x < |b| ==> c[x] == b[x])
  {
    var c, w := Worked(cfg.cipher, false, b, 8 * i, j - i), Wire(cfg, p);
    CipherSlice(cfg.cipher, p.plain, p.blocks, i, j);
    cfg.cipher.BlocksInverse(p.plain[8 * i..8 * j], j - i);
    assert b[8 * i..8 * j] == w[8 * i..8 * j];
    assert forall x :: 0 <= x < 8 * i ==> c[x] == b[x];
    assert forall x :: 8 * i <= x < 8 * j ==> c[x] == p.plain[8 * i..8 * j][x - 8 * i];
    assert forall x :: 8 * j <= x < |b| ==> c[x] == b[x];
  }

  /** A decrypted first block shows the packet's header. */
  lemma MixedHeader(cfg: Config, p: Sent, b: seq<byte>, i: nat, l: nat)
    requires |p.plain| == 8 * p.blocks && Mixed(cfg, p, b, i, l) && 0 < i
    ensures SizeField(b) == SizeField(p.plain) && IsCompressed(b) == IsCompressed(p.plain)
    ensures PacketSize(b) == PacketSize(p.plain) && BodyOffset(b) == BodyOffset(p.plain)
  {
    assert b[..8] == p.plain[..8];
    HeaderOnly(b, p.plain);
  }

  /** The first block of a packet, then the rest of what is there. */
  lemma FirstMixed(cfg: Config, p: Sent, b: seq<byte>, k: nat, m: nat)
    requires |p.plain| == 8 * p.blocks && cfg.cipher.Inverts() && Mixed(cfg, p, b, k, m) && 0 < m
    ensures var c := FirstBlock(cfg.cipher, b, k); var k1 := if k == 0 then 1 else k;
      Mixed(cfg, p, c, k1, m) && (forall x :: 8 * m <= x < |b| ==> c[x] == b[x])
  {
    if k == 0 {
      DecryptMixed(cfg, p, b, 0, 1, m);
    }
  }

  /** The source's size arithmetic picks exactly the blocks that are there. */
  lemma NextMixed(cfg: Config, p: Sent, b: seq<byte>, k: nat)
    requires Carries(cfg.zlib, p.plain, p.blocks, p.msg)
    requires 0 < k <= p.blocks && 8 * k <= |b| && Mixed(cfg, p, b, k, Min(|b| / 8, p.blocks))
    ensures NextBlocks(b, k) == Min(|b| / 8, p.blocks) - k
  {
    MixedHeader(cfg, p, b, k, Min(|b| / 8, p.blocks));
    BlocksLeft(|b|, p.blocks, k);
  }

  /** getmsg2buf decrypts every whole block of the packet that is there. */
  lemma AdvancedMixed(cfg: Config, p: Sent, b: seq<byte>, k: nat, m: nat)
    requires Carries(cfg.zlib, p.plain, p.blocks, p.msg) && cfg.cipher.Inverts()
    requires 8 * k + 8 <= |b| && k < p.blocks && m == Min(|b| / 8, p.blocks) && Mixed(cfg, p, b, k, m)
    ensures var c := Advanced(cfg.cipher, b, k).0;
      Advanced(cfg.cipher, b, k).1 == m && Mixed(cfg, p, c, m, m) && (forall x :: 8 * m <= x < |b| ==> c[x] == b[x])
  {
    hide Worked, FirstBlock, NextBlocks, Mixed;
    FirstMixed(cfg, p, b, k, m);
    var k1, b1 := if k == 0 then 1 else k, FirstBlock(cfg.cipher, b, k);
    NextMixed(cfg, p, b1, k1);
    DecryptMixed(cfg, p, b1, k1, m, m);
  }

  lemma BlocksLeft(len: nat, n: nat, k: nat)
    requires 8 * k <= len && k <= n && 8 * n < WORD
    ensures var room := (8 * n - 8 * k) % WORD;
      (if len - 8 * k <= room then len - 8 * k else room) / 8 == Min(len / 8, n) - k
  {
    assert (8 * n - 8 * k) % WORD == 8 * (n - k);
  }

  /** A packet is full exactly when its last block is there. */
  lemma FullAtLast(cfg: Config, p: Sent, m: nat)
    requires Carries(cfg.zlib, p.plain, p.blocks, p.msg)
    ensures IsFull(p.plain, 8 * m) <==> p.blocks <= m
  {
    Round8Small(PacketSize(p.plain));
  }

  ghost predicate Receiving(cfg: Config, max: int) {
    cfg.cipher.Inverts() && 2 <= max < 0x8000_0000
  }

  /** A call before the packet is there in full: every whole block that is there
      ends up decrypted, and nothing is delivered. */
  lemma GetPartial(cfg: Config, p: Sent, max: int, b: seq<byte>, k: nat)
    requires Receiving(cfg, max) && Sendable(cfg, p, max) && Pending(b, k)
    requires 8 * k <= |b| < 8 * p.blocks && Mixed(cfg, p, b, k, |b| / 8)
    ensures var g, m := GetMsg(cfg, b, k, max), |b| / 8;
      g.ret == 0 && g.blocks == m && g.worked == m - k && |g.bytes| == |b| && Mixed(cfg, p, g.bytes, m, m) &&
      (forall x :: 8 * m <= x < |b| ==> g.bytes[x] == b[x])
  {
    var m := |b| / 8;
    if 8 * k + 8 <= |b| {
      AdvancedMixed(cfg, p, b, k, m);
      MixedHeader(cfg, p, Advanced(cfg.cipher, b, k).0, m, m);
      FullAtLast(cfg, p, m);
    }
  }

  lemma BodyMixed(cfg: Config, p: Sent, c: seq<byte>)
    requires Carries(cfg.zlib, p.plain, p.blocks, p.msg) && Mixed(cfg, p, c, p.blocks, p.blocks)
    ensures SizeField(c) == SizeField(p.plain) && IsCompressed(c) == IsCompressed(p.plain)
    ensures BodyOffset(c) + SizeField(c) <= |c| && Body(c) == Body(p.plain)
  {
    MixedHeader(cfg, p, c, p.blocks, p.blocks);
    assert forall x :: 0 <= x < SizeField(c) ==> Body(c)[x] == Body(p.plain)[x];
  }

  lemma DeliveredMixed(cfg: Config, p: Sent, c: seq<byte>, worked: nat, max: int)
    requires Carries(cfg.zlib, p.plain, p.blocks, p.msg) && Mixed(cfg, p, c, p.blocks, p.blocks) && max < 0x8000_0000
    ensures FullAt(c, p.blocks) && Complete(c, p.blocks)
    ensures IsCompressed(c) == IsCompressed(p.plain) && (!IsCompressed(c) ==> |p.msg| == SizeField(p.plain))
    ensures Delivered(cfg, c, p.blocks, worked, max) ==
            if !IsCompressed(c) && |p.msg| > max then Got(0, c, 0, p.blocks, worked, [], true)
            else if IsCompressed(c) && |p.msg| > max then Got(-3, c, 8 * p.blocks, 0, worked, [], false)
            else Got(|p.msg|, c, 8 * p.blocks, 0, worked, p.msg, false)
  {
    BodyMixed(cfg, p, c);
    MixedHeader(cfg, p, c, p.blocks, p.blocks);
  }

  /** A call once the packet is there in full delivers its message, if the
      buffer of the caller takes the message and, unless an earlier call has
      decrypted it all, the body; and it leaves what follows the packet untouched.
      Otherwise it fails, or copies a plain body too long for the buffer. */
  lemma GetFull(cfg: Config, p: Sent, max: int, b: seq<byte>, k: nat)
    requires cfg.cipher.Inverts() && Carries(cfg.zlib, p.plain, p.blocks, p.msg) && max < 0x8000_0000
    requires k <= p.blocks && 8 * p.blocks <= |b| && Mixed(cfg, p, b, k, p.blocks)
    ensures var g := GetMsg(cfg, b, k, max);
      if 2 <= max && (k < p.blocks ==> SizeField(p.plain) <= max) && |p.msg| <= max then
        && g.ret == |p.msg| && g.msg == p.msg && g.taken == 8 * p.blocks && !g.overrun
        && g.blocks == 0 && g.worked == p.blocks - k && |g.bytes| == |b|
        && (forall x :: 8 * p.blocks <= x < |b| ==> g.bytes[x] == b[x])
      else if 2 <= max && k == p.blocks && !IsCompressed(p.plain) then g.overrun
      else g.ret < 0 && !g.overrun
  {
    hide Worked, Advanced, Mixed, Delivered;
    if k < p.blocks {
      AdvancedMixed(cfg, p, b, k, p.blocks);
      DeliveredMixed(cfg, p, Advanced(cfg.cipher, b, k).0, p.blocks - k, max);
      MixedHeader(cfg, p, Advanced(cfg.cipher, b, k).0, p.blocks, p.blocks);
      if 0 < k {
        MixedHeader(cfg, p, b, k, p.blocks);
        FullAtLast(cfg, p, k);
      }
    } else {
      MixedHeader(cfg, p, b, k, p.blocks);
      DeliveredMixed(cfg, p, b, 0, max);
    }
    FullAtLast(cfg, p, p.blocks);
  }

  // ---------------------------------------------------------------- runs

  /** Something that happens to a receiver. */
  datatype Event = Arrive(chunk: seq<byte>) | Take

  /** The receiver between events: the readable bytes, how many blocks of them
      are decrypted, how many blocks have been dropped before them, and the
      numbers of the blocks decrypted so far, in that order. */
  datatype Receiver = Receiver(q: seq<byte>, k: nat, base: nat, log: seq<nat>)

  /** How a run ends: regularly, with bytes refused for the cap of the buffer,
      or with an error code from packet_getcmd. */
  datatype Outcome = Fine | Refused | Failed

  const Start := Receiver([], 0, 0, [])

  function Range(from: nat, n: nat): (s: seq<nat>)
    ensures |s| == n
  {
    seq(n, i requires 0 <= i < n => from + i)
  }

  ghost predicate Ready(st: Receiver) {
    8 * st.k <= |st.q| && Pending(st.q, st.k)
  }

  /** LoopBuf::putData on the receiver. */
  ghost function Arrived(st: Receiver, chunk: seq<byte>): (st': Receiver)
    requires Ready(st)
    ensures Ready(st')
  {
    PendingGrows(st.q, st.k, chunk);
    st.(q := st.q + chunk)
  }

  lemma PendingGrows(q: seq<byte>, k: nat, chunk: seq<byte>)
    requires 8 * k <= |q| && Pending(q, k)
    ensures Pending(q + chunk, k)
  {
    if 0 < k {
      assert (q + chunk)[..8] == q[..8];
      HeaderOnly(q + chunk, q);
    }
  }

  /** packet_getcmd on the receiver, when it does not fail. */
  ghost function Taken(cfg: Config, max: int, st: Receiver): (st': Receiver)
    requires Ready(st) && max < 0x8000_0000 && GetMsg(cfg, st.q, st.k, max).ret >= 0
    ensures Ready(st')
  {
    var g := GetMsg(cfg, st.q, st.k, max);
    GetMsgTaken(cfg, st.q, st.k, max);
    TooLongTwice(cfg, st.q, st.k, max);
    hide GetMsg;
    var log := st.log + Range(st.base + st.k, g.worked);
    if g.ret > 0 then Receiver(g.bytes[g.taken..], 0, st.base + g.taken / 8, log)
    else Receiver(g.bytes, g.blocks, st.base, log)
  }

  ghost function Run(cfg: Config, max: int, st: Receiver, events: seq<Event>): (r: (Receiver, seq<seq<byte>>, Outcome))
    requires Ready(st) && max < 0x8000_0000
    ensures Ready(r.0)
    decreases |events|
  {
    if events == [] then (st, [], Fine)
    else match events[0]
      case Arrive(chunk) =>
        if |st.q| + |chunk| > DEF_LOOPBUF_MAX_RESIZE then (st, [], Refused)
        else Run(cfg, max, Arrived(st, chunk), events[1..])
      case Take =>
        var g := GetMsg(cfg, st.q, st.k, max);
        if g.ret < 0 then (st, [], Failed)
        else
          var (st', outs, end) := Run(cfg, max, Taken(cfg, max, st), events[1..]);
          (st', if g.ret > 0 then [g.msg] + outs else outs, end)
  }

  function Chunks(events: seq<Event>): seq<byte> {
    if events == [] then []
    else (if events[0].Arrive? then events[0].chunk else []) + Chunks(events[1..])
  }

  /** The receiver has still to deliver ps, of whose wire bytes `future` has
      still to arrive; every block before is decrypted, once and in order. */
  ghost predicate Owes(cfg: Config, max: int, ps: seq<Sent>, future: seq<byte>, st: Receiver) {
    && AllSendable(cfg, ps, max)
    && st.log == Range(0, st.base + st.k)
    && 8 * st.k <= |st.q|
    && var w := WireAll(cfg, ps);
      && |st.q| <= |w| && future == w[|st.q|..]
      && (ps == [] ==> st.k == 0)
      && (ps != [] ==> st.k < ps[0].blocks && forall x :: 0 <= x < 8 * st.k ==> st.q[x] == ps[0].plain[x])
      && (forall x :: 8 * st.k <= x < |st.q| ==> st.q[x] == w[x])
  }

  lemma OwesArrived(cfg: Config, max: int, ps: seq<Sent>, chunk: seq<byte>, more: seq<byte>, st: Receiver)
    requires Ready(st) && Owes(cfg, max, ps, chunk + more, st)
    ensures Owes(cfg, max, ps, more, Arrived(st, chunk))
  {
    hide GetMsg;
    var w, q := WireAll(cfg, ps), st.q + chunk;
    assert forall x :: |st.q| <= x < |q| ==> q[x] == chunk[x - |st.q|] == (chunk + more)[x - |st.q|] == w[x];
    assert |chunk + more| == |w| - |st.q|;
    assert more == (chunk + more)[|chunk|..] == w[|q|..];
  }

  /** The undelivered bytes begin with the first undelivered packet. */
  lemma OwesMixed(cfg: Config, max: int, ps: seq<Sent>, future: seq<byte>, st: Receiver)
    requires Owes(cfg, max, ps, future, st) && ps != []
    ensures Sendable(cfg, ps[0], max) && Mixed(cfg, ps[0], st.q, st.k, Min(|st.q| / 8, ps[0].blocks))
  {
    assert WireAll(cfg, ps) == Wire(cfg, ps[0]) + WireAll(cfg, ps[1..]);
  }

  lemma TakenPartial(cfg: Config, max: int, ps: seq<Sent>, future: seq<byte>, st: Receiver)
    requires Ready(st) && Receiving(cfg, max) && Owes(cfg, max, ps, future, st)
    requires ps == [] || |st.q| < 8 * ps[0].blocks
    ensures GetMsg(cfg, st.q, st.k, max).ret == 0
    ensures var st' := Taken(cfg, max, st);
      && st'.base == st.base && |st'.q| == |st.q| && st.k <= st'.k
      && st'.log == st.log + Range(st.base + st.k, st'.k - st.k)
      && (ps == [] ==> st' == st)
      && (ps != [] ==> st'.k == |st.q| / 8 && Mixed(cfg, ps[0], st'.q, st'.k, st'.k) &&
                       forall x :: 8 * st'.k <= x < |st.q| ==> st'.q[x] == st.q[x])
  {
    if ps != [] {
      OwesMixed(cfg, max, ps, future, st);
      GetPartial(cfg, ps[0], max, st.q, st.k);
    } else {
      assert st.log + [] == st.log;
    }
  }

  lemma OwesTakenPartial(cfg: Config, max: int, ps: seq<Sent>, future: seq<byte>, st: Receiver)
    requires Ready(st) && Receiving(cfg, max) && Owes(cfg, max, ps, future, st)
    requires ps == [] || |st.q| < 8 * ps[0].blocks
    ensures GetMsg(cfg, st.q, st.k, max).ret == 0 && Owes(cfg, max, ps, future, Taken(cfg, max, st))
    ensures Taken(cfg, max, st).base == st.base
  {
    hide GetMsg, Taken;
    TakenPartial(cfg, max, ps, future, st);
    var st' := Taken(cfg, max, st);
    assert Range(0, st.base + st.k) + Range(st.base + st.k, st'.k - st.k) == Range(0, st.base + st'.k);
  }

  lemma TakenFull(cfg: Config, max: int, ps: seq<Sent>, future: seq<byte>, st: Receiver)
    requires Ready(st) && Receiving(cfg, max) && Owes(cfg, max, ps, future, st)
    requires ps != [] && 8 * ps[0].blocks <= |st.q|
    ensures var g, n := GetMsg(cfg, st.q, st.k, max), ps[0].blocks;
      && g.ret > 0 && g.msg == ps[0].msg && |g.bytes| == |st.q|
      && (forall x :: 8 * n <= x < |st.q| ==> g.bytes[x] == st.q[x])
      && Taken(cfg, max, st) == Receiver(g.bytes[8 * n..], 0, st.base + n, st.log + Range(st.base + st.k, n - st.k))
  {
    OwesMixed(cfg, max, ps, future, st);
    GetFull(cfg, ps[0], max, st.q, st.k);
  }

  lemma OwesTakenFull(cfg: Config, max: int, ps: seq<Sent>, future: seq<byte>, st: Receiver)
    requires Ready(st) && Receiving(cfg, max) && Owes(cfg, max, ps, future, st)
    requires ps != [] && 8 * ps[0].blocks <= |st.q|
    ensures var g := GetMsg(cfg, st.q, st.k, max); g.ret > 0 && g.msg == ps[0].msg
    ensures Taken(cfg, max, st).base == st.base + ps[0].blocks
    ensures Owes(cfg, max, ps[1..], future, Taken(cfg, max, st))
  {
    hide GetMsg;
    TakenFull(cfg, max, ps, future, st);
    var st' := Taken(cfg, max, st);
    OwesNext(cfg, max, ps, future, st, st');
  }

  /** Owing the rest once the first packet is dropped. */
  lemma OwesNext(cfg: Config, max: int, ps: seq<Sent>, future: seq<byte>, st: Receiver, st': Receiver)
    requires Owes(cfg, max, ps, future, st) && ps != [] && st.k < ps[0].blocks
    requires |st.q| == 8 * ps[0].blocks + |st'.q| && st'.k == 0 && st'.base == st.base + ps[0].blocks
    requires forall x :: 0 <= x < |st'.q| ==> st'.q[x] == st.q[8 * ps[0].blocks + x]
    requires st'.log == st.log + Range(st.base + st.k, ps[0].blocks - st.k)
    ensures Owes(cfg, max, ps[1..], future, st')
  {
    hide GetMsg;
    var n, w, w' := 8 * ps[0].blocks, WireAll(cfg, ps), WireAll(cfg, ps[1..]);
    assert w == Wire(cfg, ps[0]) + w';
    assert w[|st.q|..] == w'[|st'.q|..];
    assert forall x :: 0 <= x < |w'| ==> w'[x] == w[n + x];
    assert ps[1..] != [] ==> Sendable(cfg, ps[1..][0], max);
  }

  lemma MessagesNext(ps: seq<Sent>, outs: seq<seq<byte>>)
    requires ps != [] && |outs| < |ps| && outs == Messages(ps[1..])[..|outs|]
    ensures [ps[0].msg] + outs == Messages(ps)[..|outs| + 1]
    ensures ps[1..][|outs|..] == ps[|outs| + 1..]
  {
    assert Messages(ps)[1..] == Messages(ps[1..]);
    assert Messages(ps) == [ps[0].msg] + Messages(ps[1..]);
  }

  /** A run from st that owes ps: it delivers a first part of ps and owes the rest. */
  ghost predicate Delivers(cfg: Config, max: int, ps: seq<Sent>, more: seq<byte>, st: Receiver,
                           r: (Receiver, seq<seq<byte>>, Outcome))
  {
    && r.2 != Failed && |r.1| <= |ps| && r.1 == Messages(ps)[..|r.1|]
    && AllSendable(cfg, ps, max)
    && (r.2 == Fine ==>
          && Owes(cfg, max, ps[|r.1|..], more, r.0)
          && 8 * r.0.base + |WireAll(cfg, ps[|r.1|..])| == 8 * st.base + |WireAll(cfg, ps)|)
  }

  lemma DeliversSame(cfg: Config, max: int, ps: seq<Sent>, more: seq<byte>, st: Receiver, st1: Receiver,
                     r: (Receiver, seq<seq<byte>>, Outcome))
    requires Delivers(cfg, max, ps, more, st1, r) && st1.base == st.base
    ensures Delivers(cfg, max, ps, more, st, r)
  {
  }

  lemma DeliversRefused(cfg: Config, max: int, ps: seq<Sent>, more: seq<byte>, st: Receiver, future: seq<byte>)
    requires Owes(cfg, max, ps, future, st)
    ensures Delivers(cfg, max, ps, more, st, (st, [], Refused))
  {
  }

  /** A call of packet_getcmd as the first event of a run. */
  lemma TakeFirst(cfg: Config, max: int, ps: seq<Sent>, future: seq<byte>, st: Receiver, events: seq<Event>)
    returns (st1: Receiver)
    requires Ready(st) && Receiving(cfg, max) && Owes(cfg, max, ps, future, st)
    requires events != [] && events[0].Take?
    ensures Ready(st1)
    ensures var r := Run(cfg, max, st1, events[1..]);
      if ps == [] || |st.q| < 8 * ps[0].blocks then
        Owes(cfg, max, ps, future, st1) && st1.base == st.base && Run(cfg, max, st, events) == r
      else
        Owes(cfg, max, ps[1..], future, st1) && st1.base == st.base + ps[0].blocks && AllSendable(cfg, ps, max) &&
        Run(cfg, max, st, events) == (r.0, [ps[0].msg] + r.1, r.2)
  {
    hide GetMsg;
    if ps == [] || |st.q| < 8 * ps[0].blocks {
      OwesTakenPartial(cfg, max, ps, future, st);
    } else {
      OwesTakenFull(cfg, max, ps, future, st);
    }
    st1 := Taken(cfg, max, st);
  }

  lemma DeliversNothing(cfg: Config, max: int, ps: seq<Sent>, more: seq<byte>, st: Receiver)
    requires Owes(cfg, max, ps, more, st)
    ensures Delivers(cfg, max, ps, more, st, (st, [], Fine))
  {
    assert ps[0..] == ps;
  }

  /** Putting the first message in front of a run that delivers the others. */
  lemma DeliversNext(cfg: Config, max: int, ps: seq<Sent>, more: seq<byte>, st: Receiver, st1: Receiver,
                     r: (Receiver, seq<seq<byte>>, Outcome))
    requires ps != [] && AllSendable(cfg, ps, max) && Delivers(cfg, max, ps[1..], more, st1, r)
    requires st1.base == st.base + ps[0].blocks
    ensures Delivers(cfg, max, ps, more, st, (r.0, [ps[0].msg] + r.1, r.2))
  {
    hide GetMsg;
    MessagesNext(ps, r.1);
    assert WireAll(cfg, ps) == Wire(cfg, ps[0]) + WireAll(cfg, ps[1..]);
  }

  /** Any run delivers a first part of what is owed, and owes the rest. */
  lemma {:induction false} RunDelivers(cfg: Config, max: int, ps: seq<Sent>, st: Receiver, events: seq<Event>, more: seq<byte>)
    requires Ready(st) && Receiving(cfg, max) && Owes(cfg, max, ps, Chunks(events) + more, st)
    ensures Delivers(cfg, max, ps, more, st, Run(cfg, max, st, events))
    decreases |events|
  {
    hide GetMsg, Owes, Delivers;
    if events == [] {
      assert [] + more == more;
      DeliversNothing(cfg, max, ps, more, st);
    } else if events[0].Arrive? {
      var chunk := events[0].chunk;
      assert Chunks(events) + more == chunk + (Chunks(events[1..]) + more);
      if |st.q| + |chunk| > DEF_LOOPBUF_MAX_RESIZE {
        DeliversRefused(cfg, max, ps, more, st, Chunks(events) + more);
      } else {
        OwesArrived(cfg, max, ps, chunk, Chunks(events[1..]) + more, st);
        RunDelivers(cfg, max, ps, Arrived(st, chunk), events[1..], more);
        DeliversSame(cfg, max, ps, more, st, Arrived(st, chunk), Run(cfg, max, Arrived(st, chunk), events[1..]));
      }
    } else {
      var future := Chunks(events[1..]) + more;
      assert Chunks(events) == Chunks(events[1..]);
      var st1 := TakeFirst(cfg, max, ps, future, st, events);
      var rest := events[1..];
      if ps == [] || |st.q| < 8 * ps[0].blocks {
        RunDelivers(cfg, max, ps, st1, rest, more);
        DeliversSame(cfg, max, ps, more, st, st1, Run(cfg, max, st1, rest));
      } else {
        RunDelivers(cfg, max, ps[1..], st1, rest, more);
        DeliversNext(cfg, max, ps, more, st, st1, Run(cfg, max, st1, rest));
      }
    }
  }

  lemma StartOwes(cfg: Config, max: int, ps: seq<Sent>)
    requires AllSendable(cfg, ps, max)
    ensures Ready(Start) && Owes(cfg, max, ps, WireAll(cfg, ps), Start)
  {
  }

  /** Once every byte has arrived, a further call finds nothing exactly when
      nothing is owed. */
  lemma OwesAtEnd(cfg: Config, max: int, ps: seq<Sent>, st: Receiver)
    requires Ready(st) && Receiving(cfg, max) && Owes(cfg, max, ps, [], st)
    ensures GetMsg(cfg, st.q, st.k, max).ret == 0 <==> ps == []
    ensures ps == [] ==> st.q == [] && st.k == 0
  {
    hide GetMsg;
    if ps == [] {
      OwesTakenPartial(cfg, max, ps, [], st);
    } else {
      assert WireAll(cfg, ps) == Wire(cfg, ps[0]) + WireAll(cfg, ps[1..]);
      OwesTakenFull(cfg, max, ps, [], st);
    }
  }

  lemma DeliversAll(cfg: Config, max: int, ps: seq<Sent>, r: (Receiver, seq<seq<byte>>, Outcome))
    requires Ready(r.0) && Receiving(cfg, max) && Delivers(cfg, max, ps, [], Start, r) && r.2 == Fine
    ensures GetMsg(cfg, r.0.q, r.0.k, max).ret == 0 <==> r.1 == Messages(ps)
    ensures r.1 == Messages(ps) ==>
      r.0.q == [] && 8 * |r.0.log| == |WireAll(cfg, ps)| && r.0.log == Range(0, |r.0.log|)
  {
    hide GetMsg;
    OwesAtEnd(cfg, max, ps[|r.1|..], r.0);
    assert |r.1| == |ps| ==> Messages(ps)[..|ps|] == Messages(ps);
  }

  /** However the sent bytes are cut into chunks and whenever packet_getcmd is
      called in between: unless the buffer cap refuses bytes, the run delivers
      exactly a first part of the sent messages, in order; once a further call
      finds nothing, it has delivered all of them, left no byte behind, and
      decrypted every block of the stream exactly once, in order. */
  lemma FragmentationIndependence(cfg: Config, max: int, ps: seq<Sent>, events: seq<Event>)
    requires Receiving(cfg, max) && AllSendable(cfg, ps, max) && Chunks(events) == WireAll(cfg, ps)
    ensures Ready(Start)
    ensures var (st, outs, end) := Run(cfg, max, Start, events);
      && end != Failed && |outs| <= |ps| && outs == Messages(ps)[..|outs|]
      && (end == Fine ==> (GetMsg(cfg, st.q, st.k, max).ret == 0 <==> outs == Messages(ps)))
      && (end == Fine && outs == Messages(ps) ==>
            st.q == [] && 8 * |st.log| == |WireAll(cfg, ps)| && st.log == Range(0, |st.log|))
  {
    hide GetMsg;
    StartOwes(cfg, max, ps);
    assert Chunks(events) + [] == WireAll(cfg, ps);
    RunDelivers(cfg, max, ps, Start, events, []);
    if Run(cfg, max, Start, events).2 == Fine {
      DeliversAll(cfg, max, ps, Run(cfg, max, Start, events));
    }
  }

  // ---------------------------------------------------------------- the real buffer

  /** LoopBuf::putData as the step of a run; false when the bytes are refused. */
  method ArriveStep(buf: LoopBuf, chunk: seq<byte>, ghost st: Receiver) returns (ok: bool)
    requires buf.Valid() && Ready(st) && buf.Readable() == st.q && |chunk| < 0x8000_0000
    modifies buf, buf.begin
    ensures buf.Valid() && (buf.begin == old(buf.begin) || fresh(buf.begin))
    ensures ok <==> |st.q| + |chunk| <= DEF_LOOPBUF_MAX_RESIZE
    ensures ok ==> buf.Readable() == Arrived(st, chunk).q && Arrived(st, chunk).k == st.k
  {
    hide GetMsg, Pending;
    assert st.q + [] == st.q;
    var n := buf.PutData(chunk);
    ok := n == |chunk|;
  }

  /** packet_getcmd as the step of a run. */
  method TakeStep(buf: LoopBuf, cfg: Config, max: int, ghost st: Receiver, deSize0: nat)
    returns (ret: int, deSize: nat, msg: seq<byte>)
    requires buf.Valid() && Ready(st) && buf.Readable() == st.q && deSize0 == 8 * st.k && max < 0x8000_0000
    modifies buf, buf.begin
    ensures buf.Valid() && buf.begin == old(buf.begin)
    ensures var g := GetMsg(cfg, st.q, st.k, max); ret == g.ret && msg == g.msg
    ensures ret >= 0 ==> buf.Readable() == Taken(cfg, max, st).q && deSize == 8 * Taken(cfg, max, st).k
  {
    hide GetMsg, Pending;
    GetMsgTaken(cfg, st.q, st.k, max);
    ghost var g;
    var overrun;
    TooLongTwice(cfg, st.q, st.k, max);
    ret, deSize, msg, overrun, g := PacketGetCmd(buf, cfg, st.k, deSize0, max);
  }

  /** The events of a run on a LoopBuf and packet_getcmd themselves: the same
      messages and the same end as on values. The length of a chunk is an int. */
  method Drive(cfg: Config, max: int, events: seq<Event>) returns (outs: seq<seq<byte>>, end: Outcome)
    requires max < 0x8000_0000
    requires forall i :: 0 <= i < |events| && events[i].Arrive? ==> |events[i].chunk| < 0x8000_0000
    ensures Ready(Start)
    ensures (outs, end) == (Run(cfg, max, Start, events).1, Run(cfg, max, Start, events).2)
  {
    hide GetMsg, Run, Taken, Arrived;
    var buf := new LoopBuf();
    var deSize, i := 0, 0;
    ghost var st := Start;
    outs := [];
    ghost var whole := Run(cfg, max, Start, events);
    assert events[0..] == events;
    while i < |events|
      invariant 0 <= i <= |events| && fresh(buf) && fresh(buf.begin) && buf.Valid()
      invariant Ready(st) && buf.Readable() == st.q && deSize == 8 * st.k
      invariant Extended(whole, outs, Run(cfg, max, st, events[i..]))
    {
      RunStep(cfg, max, st, events, i, whole, outs);
      if events[i].Arrive? {
        var ok := ArriveStep(buf, events[i].chunk, st);
        if !ok {
          return outs, Refused;
        }
        st := Arrived(st, events[i].chunk);
      } else {
        var ret, msg;
        ret, deSize, msg := TakeStep(buf, cfg, max, st, deSize);
        if ret < 0 {
          return outs, Failed;
        }
        st := Taken(cfg, max, st);
        if ret > 0 {
          outs := outs + [msg];
        }
      }
      i := i + 1;
    }
    RunEnd(cfg, max, st, events[i..], whole, outs);
    end := Fine;
  }

  lemma RunEnd(cfg: Config, max: int, st: Receiver, rest: seq<Event>,
               whole: (Receiver, seq<seq<byte>>, Outcome), outs: seq<seq<byte>>)
    requires Ready(st) && max < 0x8000_0000 && rest == []
    requires Extended(whole, outs, Run(cfg, max, st, rest))
    ensures whole.1 == outs && whole.2 == Fine
  {
    hide GetMsg;
    assert outs + [] == outs;
  }

  /** One event of a run. */
  lemma RunStep(cfg: Config, max: int, st: Receiver, events: seq<Event>, i: nat,
                whole: (Receiver, seq<seq<byte>>, Outcome), outs: seq<seq<byte>>)
    requires Ready(st) && max < 0x8000_0000 && i < |events|
    requires Extended(whole, outs, Run(cfg, max, st, events[i..]))
    ensures events[i].Arrive? ==>
      if |st.q| + |events[i].chunk| > DEF_LOOPBUF_MAX_RESIZE then whole.1 == outs && whole.2 == Refused
      else Extended(whole, outs, Run(cfg, max, Arrived(st, events[i].chunk), events[i + 1..]))
    ensures events[i].Take? ==>
      var g := GetMsg(cfg, st.q, st.k, max);
      if g.ret < 0 then whole.1 == outs && whole.2 == Failed
      else Extended(whole, if g.ret > 0 then outs + [g.msg] else outs, Run(cfg, max, Taken(cfg, max, st), events[i + 1..]))
  {
    hide GetMsg, Taken;
    var rest := events[i..];
    assert rest[0] == events[i] && rest[1..] == events[i + 1..];
    assert outs + [] == outs;
    if events[i].Take? && GetMsg(cfg, st.q, st.k, max).ret > 0 {
      var m, o := GetMsg(cfg, st.q, st.k, max).msg, Run(cfg, max, Taken(cfg, max, st), rest[1..]).1;
      assert outs + ([m] + o) == outs + [m] + o;
    }
  }

  /** r is what r' is once `outs` has been delivered. */
  ghost predicate Extended(r: (Receiver, seq<seq<byte>>, Outcome), outs: seq<seq<byte>>, r': (Receiver, seq<seq<byte>>, Outcome)) {
    r.1 == outs + r'.1 && r.2 == r'.2
  }
}
