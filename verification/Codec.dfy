/**
  msgpack.cpp: packing a message into an encrypted packet, and taking packets
  out of a receive buffer, where a packet is decrypted in place as it arrives.
 */
module Codec {
  import opened Wrappers
  import opened Define
  import opened Packet
  import opened LoopBuf

  /** compresszlib and uncompresszlib, as far as they produce output. */
  datatype Zlib = Zlib(compress: (seq<byte>, int) -> Option<seq<byte>>, uncompress: seq<byte> -> Option<seq<byte>>)
  {
    /** What zlib is trusted for. */
    ghost predicate Inverts() {
      forall m, level :: compress(m, level).Some? ==> uncompress(compress(m, level).value) == Some(m)
    }
  }

  datatype Config = Config(cipher: Cipher, zlib: Zlib)

  // ---------------------------------------------------------------- sending

  const MIN_PACKET_SIZE := 8   // ROUNDNUM2 of the header size
  const MINZLIBPACKSIZE := 54  // 64 less the header and the raw length

  /** cmd() and the size field of a packet that is there in full. */
  ghost function Body(b: seq<byte>): seq<byte>
    requires |b| >= HEADER_SIZE && BodyOffset(b) + SizeField(b) <= |b|
  {
    b[BodyOffset(b)..BodyOffset(b) + SizeField(b)]
  }

  /** A plaintext packet of n blocks that carries message m: its header gives
      its length, up to the padding of the last block. */
  ghost predicate Carries(zlib: Zlib, plain: seq<byte>, n: nat, m: seq<byte>) {
    && |plain| == 8 * n && 0 < n
    && BodyOffset(plain) + SizeField(plain) == PacketSize(plain) <= |plain| == Round8(PacketSize(plain))
    && if IsCompressed(plain) then zlib.uncompress(Body(plain)) == Some(m) else Body(plain) == m
  }

  /** Whether packetbuf tries to compress. */
  predicate Compresses(level: int, len: nat) {
    (level >= 1 || level == -1) && len > MINZLIBPACKSIZE
  }

  /** init(iszlib, issplit) with the size fields filled in. */
  function Header(size: nat, zip: bool, split: bool, cmdLen: nat): (h: seq<byte>)
    ensures |h| == 10
  {
    SizeBytes(size) + [0, (if zip then PACKET_ZIP else 0) + (if split then 0x40 else 0)] +
    (if zip then SizeBytes(cmdLen) else [0, 0, 0, 0])
  }

  /** Header and body written one after the other make up a packet. */
  lemma PackedFacts(p: seq<byte>, body: seq<byte>, zip: bool, split: bool, cmdLen: nat)
    requires var at := if zip then 10 else HEADER_SIZE;
      at + |body| < WORD - 8 && |p| == Round8(at + |body|) && |p| >= at + |body| &&
      p[..6] == Header(|body|, zip, split, cmdLen)[..6] && p[at..at + |body|] == body
    ensures IsCompressed(p) == zip && SizeField(p) == |body|
    ensures BodyOffset(p) + SizeField(p) == PacketSize(p) && Body(p) == body && |p| == Round8(PacketSize(p))
  {
    var h := Header(|body|, zip, split, cmdLen);
    assert p[5] == p[..6][5] == h[..6][5] == h[5];
    assert p[..4] == p[..6][..4] == h[..6][..4] == SizeBytes(|body|);
    SizeRoundTrip(|body|, p);
  }

  method WriteBytes(data: array<byte>, at: nat, p: seq<byte>)
    requires at + |p| <= data.Length
    modifies data
    ensures data[..] == old(data[..])[..at] + p + old(data[..])[at + |p|..]
  {
    forall i | 0 <= i < |p| {
      data[at + i] := p[i];
    }
  }

  /** init and the copy of the body to cmd(). */
  method WritePacket(pout: array<byte>, body: seq<byte>, zip: bool, split: bool, cmdLen: nat)
    requires 10 <= pout.Length && (if zip then 10 else HEADER_SIZE) + |body| <= pout.Length
    modifies pout
    ensures pout[..6] == Header(|body|, zip, split, cmdLen)[..6]
    ensures var at := if zip then 10 else HEADER_SIZE; pout[at..at + |body|] == body
    ensures zip ==> pout[6..10] == SizeBytes(cmdLen)
  {
    var at := if zip then 10 else HEADER_SIZE;
    WriteBytes(pout, 0, Header(|body|, zip, split, cmdLen));
    ghost var x := pout[..];
    WriteBytes(pout, at, body);
    assert pout[..6] == x[..6];
    if zip {
      assert pout[6..10] == x[6..10];
      assert x[..10] == Header(|body|, zip, split, cmdLen) && x[6..10] == x[..10][6..10];
    }
  }

  /** The tail of packetbuf: header, body and encryption. */
  method Seal(pout: array<byte>, body: seq<byte>, zip: bool, split: bool, cmdLen: nat, retSize: nat, cipher: Cipher)
    returns (ghost plain: seq<byte>)
    requires var at := if zip then 10 else HEADER_SIZE;
      at + |body| < WORD - 8 && retSize == Round8(at + |body|) && at + |body| <= retSize && retSize % 8 == 0
    requires retSize <= pout.Length && 10 <= pout.Length
    modifies pout
    ensures |plain| == retSize && pout[..retSize] == cipher.Blocks(true, plain, retSize / 8)
    ensures retSize >= HEADER_SIZE && IsCompressed(plain) == zip && SizeField(plain) == |body|
    ensures plain[..6] == Header(|body|, zip, split, cmdLen)[..6]
    ensures zip ==> |plain| >= 10 && plain[6..10] == SizeBytes(cmdLen)
    ensures BodyOffset(plain) + SizeField(plain) == PacketSize(plain) && Body(plain) == body
    ensures |plain| == Round8(PacketSize(plain))
  {
    WritePacket(pout, body, zip, split, cmdLen);
    plain := pout[..retSize];
    var at := if zip then 10 else HEADER_SIZE;
    assert plain[..6] == pout[..6] && plain[at..at + |body|] == pout[at..at + |body|];
    assert zip ==> plain[6..10] == pout[6..10];
    PackedFacts(plain, body, zip, split, cmdLen);
    ghost var s := pout[..];
    assert s[0..8 * (retSize / 8)] == plain;
    EncDec(pout, 0, retSize / 8, cipher, true);
  }

  /** The messages that packetbuf packs into a buffer of maxLen bytes: what it puts
      behind the header, the message or its compressed form, must fit the buffer in
      whole blocks. */
  predicate Packs(cfg: Config, pin: seq<byte>, level: int, maxLen: nat) {
    && pin != [] && |pin| + MIN_PACKET_SIZE <= maxLen
    && if Compresses(level, |pin|) then
         var z := cfg.zlib.compress(pin, if level < 9 then level else 9);
         z.Some? && |z.value| <= maxLen && RoundNum2(|z.value| + 10, 8) <= maxLen
       else RoundNum2(|pin| + HEADER_SIZE, 8) <= maxLen
  }

  /** Those whose compressed form fits the buffer, but not behind the header. */
  predicate Spills(cfg: Config, pin: seq<byte>, level: int, maxLen: nat) {
    && pin != [] && |pin| + MIN_PACKET_SIZE <= maxLen && Compresses(level, |pin|)
    && var z := cfg.zlib.compress(pin, if level < 9 then level else 9);
       z.Some? && |z.value| <= maxLen < |z.value| + 10
  }

  /** The bytes of a packet: size of the body, type and flags; of a compressed one
      then the length of the message; and the body. */
  ghost predicate Layout(cfg: Config, pin: seq<byte>, level: int, split: bool, plain: seq<byte>) {
    if (level >= 1 || level == -1) && |pin| > 54 then
      var z := cfg.zlib.compress(pin, if level < 9 then level else 9);
      && z.Some? && |plain| >= 10 + |z.value| && plain[..4] == SizeBytes(|z.value|)
      && plain[4] == 0 && plain[5] == (if split then 0xc0 else 0x80)
      && plain[6..10] == SizeBytes(|pin|) && plain[10..10 + |z.value|] == z.value
    else
      && |plain| >= 6 + |pin| && plain[..4] == SizeBytes(|pin|) && plain[4] == 0 && plain[5] == (if split then 0x40 else 0)
      && plain[6..6 + |pin|] == pin
  }

  lemma LayoutIs(cfg: Config, pin: seq<byte>, level: int, split: bool, plain: seq<byte>, body: seq<byte>)
    requires var zip := Compresses(level, |pin|);
      && (zip ==> cfg.zlib.compress(pin, if level < 9 then level else 9) == Some(body)) && (!zip ==> body == pin)
      && |plain| >= (if zip then 10 else 6) + |body| && IsCompressed(plain) == zip && SizeField(plain) == |body|
      && plain[..6] == Header(|body|, zip, split, |pin|)[..6] && (zip ==> plain[6..10] == SizeBytes(|pin|)) && Body(plain) == body
    ensures Layout(cfg, pin, level, split, plain)
  {
    var h := Header(|body|, Compresses(level, |pin|), split, |pin|);
    assert plain[..4] == plain[..6][..4] && h[..6][..4] == SizeBytes(|body|);
    assert plain[4] == plain[..6][4] && plain[5] == plain[..6][5];
  }

  lemma CarriesIs(cfg: Config, pin: seq<byte>, level: int, plain: seq<byte>, body: seq<byte>)
    requires cfg.zlib.Inverts() && |plain| >= HEADER_SIZE && |plain| % 8 == 0 && |plain| == Round8(PacketSize(plain))
    requires BodyOffset(plain) + SizeField(plain) == PacketSize(plain) <= |plain| && Body(plain) == body
    requires if IsCompressed(plain) then cfg.zlib.compress(pin, if level < 9 then level else 9) == Some(body) else body == pin
    ensures Carries(cfg.zlib, plain, |plain| / 8, pin)
  {
  }

  /** packetbuf. The bytes that pout holds beyond the packet end up as padding. zlib
      is told that there is room for maxLen bytes, but writes behind the header: with
      `overrun` it has written past them, by ten bytes at most. */
  method PacketBuf(pin: seq<byte>, pout: array<byte>, maxLen: nat, cfg: Config, level: int, split: bool)
    returns (ret: int, overrun: bool, ghost plain: seq<byte>)
    requires maxLen <= pout.Length && 10 <= pout.Length && maxLen < 0x7fff_fff0
    modifies pout
    ensures ret > 0 ==> ret <= maxLen && ret % 8 == 0 && |plain| == 8 * (ret / 8) &&
                        pout[..ret] == cfg.cipher.Blocks(true, plain, ret / 8)
    ensures ret > 0 ==> Layout(cfg, pin, level, split, plain)
    ensures ret > 0 && cfg.zlib.Inverts() ==> Carries(cfg.zlib, plain, ret / 8, pin)
    ensures ret > 0 <==> Packs(cfg, pin, level, maxLen)
    ensures overrun <==> Spills(cfg, pin, level, maxLen)
    ensures overrun ==> ret == -4
    ensures ret == 0 <==> pin == []
    ensures ret == -1 <==> |pin| > maxLen && pin != []
    ensures ret == -2 <==> |pin| <= maxLen < |pin| + MIN_PACKET_SIZE && pin != []
    ensures !Compresses(level, |pin|) && pin != [] && |pin| + 8 <= maxLen ==>
      ret == (if RoundNum2(|pin| + 6, 8) <= maxLen then RoundNum2(|pin| + 6, 8) else -4)
    ensures Compresses(level, |pin|) && |pin| + 8 <= maxLen ==>
      var z := cfg.zlib.compress(pin, if level < 9 then level else 9);
      ret == if z.None? || |z.value| > maxLen then -3
             else if RoundNum2(|z.value| + 10, 8) <= maxLen then RoundNum2(|z.value| + 10, 8) else -4
  {
    hide Header, Layout, Carries;
    plain, overrun := [], false;
    if |pin| == 0 {
      return 0, overrun, plain;
    }
    if |pin| > maxLen {
      return -1, overrun, plain;
    }
    if maxLen < |pin| + MIN_PACKET_SIZE {
      return -2, overrun, plain;
    }
    var zip, body := Compresses(level, |pin|), pin;
    if zip {
      var z := cfg.zlib.compress(pin, if level < 9 then level else 9);
      if z.None? || |z.value| > maxLen {
        return -3, overrun, plain;
      }
      body := z.value;
      overrun := maxLen < |body| + 10;
    }
    var at := if zip then 10 else HEADER_SIZE;
    Round8Small(at + |body|);
    var retSize := Round8(at + |body|);
    if maxLen < retSize {
      return -4, overrun, plain;
    }
    plain := Seal(pout, body, zip, split, |pin|, retSize, cfg.cipher);
    LayoutIs(cfg, pin, level, split, plain, body);
    if cfg.zlib.Inverts() {
      CarriesIs(cfg, pin, level, plain, body);
    }
    return retSize, overrun, plain;
  }

  // ---------------------------------------------------------------- receiving

  /** What one call of getmsg2buf does to the bytes at hand: its return value,
      the bytes with more of them decrypted, how many bytes the caller may
      drop, the blocks of what remains that are decrypted, the blocks decrypted
      in this call, and the message. With `overrun` the source copies a body past
      the end of the caller's buffer, or reads one past the packet; then nothing
      is said about what follows. */
  datatype Got = Got(ret: int, bytes: seq<byte>, taken: nat, blocks: nat, worked: nat, msg: seq<byte>, overrun: bool)

  /** The state a receiver is in between calls: k blocks of b are decrypted and
      do not yet make up a packet. */
  ghost predicate Pending(b: seq<byte>, k: nat) {
    0 < k && 8 * k <= |b| ==> !IsFull(b, 8 * k)
  }

  /** How many of the available blocks of the current packet are decrypted next:
      the source's min and rounding, with its unsigned subtraction. */
  function NextBlocks(b: seq<byte>, k: nat): (n: nat)
    requires 0 < k && 8 * k <= |b|
    ensures 8 * (k + n) <= |b|
  {
    var size := |b| - 8 * k;
    var room := (Round8(PacketSize(b)) - 8 * k) % WORD;
    (if size <= room then size else room) / 8
  }

  /** The first block if none is decrypted yet. */
  ghost function FirstBlock(cipher: Cipher, b: seq<byte>, k: nat): (c: seq<byte>)
    requires 8 <= |b|
    ensures |c| == |b|
  {
    if k == 0 then Worked(cipher, false, b, 0, 1) else b
  }

  /** The first block if none is decrypted, then what there is of the packet. */
  ghost function Advanced(cipher: Cipher, b: seq<byte>, k: nat): (r: (seq<byte>, nat))
    requires 8 * k + 8 <= |b|
    ensures |r.0| == |b| && k <= r.1 && 0 < r.1 && 8 * r.1 <= |b|
  {
    var k1 := if k == 0 then 1 else k;
    var b1 := FirstBlock(cipher, b, k);
    var n := NextBlocks(b1, k1);
    (Worked(cipher, false, b1, 8 * k1, n), k1 + n)
  }

  /** Exactly the blocks of one packet, whose body lies inside them, are decrypted. */
  ghost predicate FullAt(b: seq<byte>, k: nat) {
    0 < k && 8 * k <= |b| && 8 * k == Round8(PacketSize(b)) && BodyOffset(b) + SizeField(b) == PacketSize(b) <= 8 * k
  }

  /** The 32-bit packet size is less than what the size field says. */
  predicate Wrapped(b: seq<byte>)
    requires |b| >= HEADER_SIZE
  {
    BodyOffset(b) + SizeField(b) >= WORD
  }

  /** k blocks are decrypted and make up a packet, as far as its size tells. */
  ghost predicate Complete(b: seq<byte>, k: nat) {
    0 < k && 8 * k <= |b| && IsFull(b, 8 * k)
  }

  /** The last lines of getmsg2buf, which do not look at max again: the body of a
      packet that is there in full. */
  ghost function Delivered(cfg: Config, c: seq<byte>, n: nat, worked: nat, max: int): Got
    requires Complete(c, n) && max < 0x8000_0000
  {
    CompleteFacts(c, n);
    var taken := Round8(PacketSize(c));
    if Wrapped(c) || (!IsCompressed(c) && SizeField(c) > max) then Got(0, c, 0, n, worked, [], true)
    else if IsCompressed(c) then
      var m := cfg.zlib.uncompress(Body(c));
      if m.None? || |m.value| > max then Got(-3, c, taken, n - taken / 8, worked, [], false)
      else Got(|m.value|, c, taken, n - taken / 8, worked, m.value, false)
    else Got(SizeField(c), c, taken, n - taken / 8, worked, Body(c), false)
  }

  lemma CompleteFacts(c: seq<byte>, n: nat)
    requires Complete(c, n)
    ensures Round8(PacketSize(c)) <= 8 * n && Round8(PacketSize(c)) % 8 == 0
    ensures !Wrapped(c) ==> BodyOffset(c) + SizeField(c) == PacketSize(c) <= |c|
    ensures FullAt(c, n) ==> Round8(PacketSize(c)) == 8 * n && !Wrapped(c)
  {
    hide SizeField, IsCompressed;
  }

  /** getmsg2buf on values, whatever its arguments. */
  ghost function GetMsg(cfg: Config, b: seq<byte>, k: nat, max: int): Got
    requires max < 0x8000_0000
  {
    if b == [] then Got(0, b, 0, k, 0, [], false)
    else if 8 * k > |b| || max < 2 then Got(-1, b, 0, k, 0, [], false)
    else if 0 < k && IsFull(b, 8 * k) then Delivered(cfg, b, k, 0, max)
    else if |b| - 8 * k < 8 then Got(0, b, 0, k, 0, [], false)
    else
      var (c, n) := Advanced(cfg.cipher, b, k);
      if SizeField(c) > max then Got(-2, c, 0, n, n - k, [], false)
      else if !IsFull(c, 8 * n) then Got(0, c, 0, n, n - k, [], false)
      else Delivered(cfg, c, n, n - k, max)
  }

  /** Exactly when a body is copied past the end of the caller's buffer, or read
      past the packet: a complete packet was left behind by an earlier call, and
      it is plain and too long, or its 32-bit size wraps around. A compressed one of
      that last kind counts although uncompress, which is handed a length far beyond
      the packet, may stop inside it. */
  lemma Overruns(cfg: Config, b: seq<byte>, k: nat, max: int)
    requires max < 0x8000_0000
    ensures GetMsg(cfg, b, k, max).overrun <==>
      2 <= max && Complete(b, k) && (Wrapped(b) || (!IsCompressed(b) && SizeField(b) > max))
    ensures FullAt(b, k) && 2 <= max ==>
      (GetMsg(cfg, b, k, max).overrun <==> !IsCompressed(b) && SizeField(b) > max)
  {
    if b != [] && 8 * k + 8 <= |b| && 2 <= max && !Complete(b, k) {
      var (c, n) := Advanced(cfg.cipher, b, k);
      if SizeField(c) <= max && IsFull(c, 8 * n) {
        AdvancedFull(cfg.cipher, b, k);
      }
    }
  }

  /** What a call leaves behind when none did so before: between calls the packet
      at hand is incomplete, but for exactly one case. When a call finds a packet
      too long whose blocks are all there, it returns -2 with the packet complete
      and in place; and a further call with the same room copies it all the same. */
  lemma TooLongTwice(cfg: Config, b: seq<byte>, k: nat, max: int)
    requires Pending(b, k) && max < 0x8000_0000
    ensures var g := GetMsg(cfg, b, k, max); !g.overrun && g.taken <= |g.bytes| && (g.ret > 0 ==> 0 < g.taken && g.blocks == 0)
    ensures var g := GetMsg(cfg, b, k, max);
      if g.ret == -2 && IsFull(g.bytes, 8 * g.blocks) then
        && Complete(g.bytes, g.blocks) && SizeField(g.bytes) > max
        && (GetMsg(cfg, g.bytes, g.blocks, max).overrun <==> Wrapped(g.bytes) || !IsCompressed(g.bytes))
      else Pending(if g.ret > 0 then g.bytes[g.taken..] else g.bytes, g.blocks)
  {
    hide Advanced;
    var g := GetMsg(cfg, b, k, max);
    Overruns(cfg, b, k, max);
    if b != [] && 8 * k + 8 <= |b| && 2 <= max {
      var (c, n) := Advanced(cfg.cipher, b, k);
      if SizeField(c) <= max && IsFull(c, 8 * n) {
        AdvancedFull(cfg.cipher, b, k);
      }
    }
    if g.ret == -2 {
      Overruns(cfg, g.bytes, g.blocks, max);
    }
  }

  /** A header above the limit is refused as soon as it is decrypted, whether the
      rest is there or not; and only the arguments give -1. */
  lemma TooLongAtOnce(cfg: Config, b: seq<byte>, k: nat, max: int)
    requires max < 0x8000_0000
    ensures GetMsg(cfg, b, k, max).ret == -1 <==> b != [] && (8 * k > |b| || max < 2)
    ensures GetMsg(cfg, b, k, max).ret == -2 <==>
      2 <= max && 8 * k + 8 <= |b| && !Complete(b, k) && SizeField(FirstBlock(cfg.cipher, b, k)) > max
  {
    if 8 * k + 8 <= |b| && !Complete(b, k) {
      var k1 := if k == 0 then 1 else k;
      var b1 := FirstBlock(cfg.cipher, b, k);
      WorkedHeader(cfg.cipher, b1, k1, NextBlocks(b1, k1));
    }
  }

  /** A packet that is there in full gives its message, or -3 when uncompressing
      fails or gives more than there is room for; its bytes can be dropped then too. */
  lemma FullCodes(cfg: Config, b: seq<byte>, k: nat, max: int)
    requires 2 <= max < 0x8000_0000 && FullAt(b, k)
    ensures var (g, m) := (GetMsg(cfg, b, k, max), if IsCompressed(b) then cfg.zlib.uncompress(Body(b)) else Some(Body(b)));
      && (m.Some? && |m.value| <= max ==> g.ret == |m.value| && g.msg == m.value && !g.overrun)
      && (IsCompressed(b) && (m.None? || |m.value| > max) ==> g.ret == -3 && g.msg == [] && !g.overrun)
      && (!g.overrun ==> g.taken == 8 * k && g.blocks == 0 && g.bytes == b)
  {
  }

  /** It does happen: a plain packet of ten bytes, asked for with room for two. */
  lemma OverrunHappens(cfg: Config)
    requires cfg.cipher.NoCipher?
    ensures var b: seq<byte> := [10, 0, 0, 0, 0, 0, 0, 0, 0, 0, 0, 0, 0, 0, 0, 0];
      var g := GetMsg(cfg, b, 0, 2);
      g.ret == -2 && g.bytes == b && g.blocks == 2 && FullAt(b, 2) && GetMsg(cfg, b, 2, 2).overrun
  {
    hide Advanced, FullAt, SizeField, IsCompressed;
    var b: seq<byte> := [10, 0, 0, 0, 0, 0, 0, 0, 0, 0, 0, 0, 0, 0, 0, 0];
    TenBytes(cfg);
    Overruns(cfg, b, 2, 2);
  }

  lemma TenBytes(cfg: Config)
    requires cfg.cipher.NoCipher?
    ensures var b: seq<byte> := [10, 0, 0, 0, 0, 0, 0, 0, 0, 0, 0, 0, 0, 0, 0, 0];
      SizeField(b) == 10 && !IsCompressed(b) && FullAt(b, 2) && Advanced(cfg.cipher, b, 0) == (b, 2)
  {
    var b: seq<byte> := [10, 0, 0, 0, 0, 0, 0, 0, 0, 0, 0, 0, 0, 0, 0, 0];
    WorkedNot(cfg.cipher, false, b, 0, 1);
    WorkedNot(cfg.cipher, false, b, 8, 1);
    assert SizeField(b) == 10 && PacketSize(b) == 16 && NextBlocks(b, 1) == 1;
  }

  lemma WorkedHeader(cipher: Cipher, b: seq<byte>, k: nat, n: nat)
    requires 0 < k && 8 * (k + n) <= |b|
    ensures var c := Worked(cipher, false, b, 8 * k, n);
      SizeField(c) == SizeField(b) && IsCompressed(c) == IsCompressed(b) &&
      PacketSize(c) == PacketSize(b) && BodyOffset(c) == BodyOffset(b)
  {
    var c := Worked(cipher, false, b, 8 * k, n);
    assert c[..8 * k] == b[..8 * k];
    assert c[..8] == c[..8 * k][..8] && b[..8] == b[..8 * k][..8];
    HeaderOnly(c, b);
  }

  lemma FullBlocks(len: nat, size: nat, k: nat)
    requires 8 * k <= len && size < WORD - 8 && 8 * k <= Round8(size)
    ensures var room := (Round8(size) - 8 * k) % WORD;
            var n := (if len - 8 * k <= room then len - 8 * k else room) / 8;
      size <= 8 * (k + n) ==> 8 * (k + n) == Round8(size)
  {
    Round8Small(size);
    var q := Round8(size) / 8;
    assert Round8(size) == 8 * q;
    var room := Round8(size) - 8 * k;
    assert room == 8 * (q - k) && room % WORD == room;
  }

  /** When the packet is full, exactly its rounded size is decrypted. */
  lemma AdvancedFull(cipher: Cipher, b: seq<byte>, k: nat)
    requires 8 * k + 8 <= |b| && Pending(b, k)
    requires var (c, n) := Advanced(cipher, b, k); SizeField(c) < 0x8000_0000 && IsFull(c, 8 * n)
    ensures var (c, n) := Advanced(cipher, b, k); FullAt(c, n)
  {
    var k1 := if k == 0 then 1 else k;
    var b1 := FirstBlock(cipher, b, k);
    WorkedHeader(cipher, b1, k1, NextBlocks(b1, k1));
    Round8Small(PacketSize(b1));
    FullBlocks(|b1|, PacketSize(b1), k1);
  }

  lemma SliceSlice(s: seq<byte>, at: nat, len: nat, i: nat, j: nat)
    requires i <= j <= len && at + len <= |s|
    ensures s[at..at + len][i..j] == s[at + i..at + j]
  {
    var t, u := s[at..at + len][i..j], s[at + i..at + j];
    assert forall k :: 0 <= k < j - i ==> t[k] == s[at + (i + k)] == u[k];
  }

  lemma WorkedSlice(cipher: Cipher, encrypt: bool, s: seq<byte>, at: nat, len: nat, from: nat, n: nat)
    requires at + len <= |s| && from + 8 * n <= len
    ensures var w := Worked(cipher, encrypt, s, at + from, n);
      w[..at] == s[..at] && w[at + len..] == s[at + len..] &&
      w[at..at + len] == Worked(cipher, encrypt, s[at..at + len], from, n)
  {
    var t := s[at..at + len];
    SliceSlice(s, at, len, from, from + 8 * n);
    SliceSlice(s, at, len, 0, from);
    SliceSlice(s, at, len, from + 8 * n, len);
    WindowSlice(s[..at], s[at..at + from], cipher.Blocks(encrypt, s[at + from..at + from + 8 * n], n),
                s[at + from + 8 * n..at + len], s[at + len..]);
    assert s[..at + from] == s[..at] + s[at..at + from];
    assert s[at + from + 8 * n..] == s[at + from + 8 * n..at + len] + s[at + len..];
  }

  lemma WindowSlice(a: seq<byte>, b: seq<byte>, c: seq<byte>, d: seq<byte>, e: seq<byte>)
    ensures var w := (a + b) + c + (d + e); var i := |a| + |b| + |c| + |d|;
      w[..|a|] == a && w[i..] == e && w[|a|..i] == b + c + d
  {
  }

  /** EncDec seen through the window data[at..at + len]. */
  method DecryptWindow(data: array<byte>, at: nat, ghost len: nat, from: nat, n: nat, cipher: Cipher)
    requires 0 < n && at + len <= data.Length && from + 8 * n <= len
    modifies data
    ensures data[..at] == old(data[..at]) && data[at + len..] == old(data[at + len..])
    ensures data[at..at + len] == Worked(cipher, false, old(data[at..at + len]), from, n)
  {
    WorkedSlice(cipher, false, data[..], at, len, from, n);
    ghost var s := data[..];
    assert s[..at] == data[..at] && s[at + len..] == data[at + len..] && s[at..at + len] == data[at..at + len];
    EncDec(data, at + from, n, cipher, false);
    ghost var w := data[..];
    assert w[..at] == data[..at] && w[at + len..] == data[at + len..] && w[at..at + len] == data[at..at + len];
  }

  /** How many bytes getmsg2buf decrypts after the first block. */
  method NextSize(packet: seq<byte>, ghost k: nat, deSize: nat) returns (size: nat)
    requires deSize == 8 * k && 0 < k && deSize <= |packet|
    ensures size / 8 == NextBlocks(packet, k) && (size < 8 || size == 8 * (size / 8))
  {
    size := |packet| - deSize;
    var room := (Round8(PacketSize(packet)) - deSize) % WORD;
    size := if size <= room then size else room;
    RoundDown(size);
    if size > 8 {
      size := RoundNum2(size - 7, 8);
    }
  }

  /** The decrypting lines of getmsg2buf after the first block. */
  method AdvanceRest(data: array<byte>, at: nat, len: nat, cipher: Cipher, ghost k: nat, deSize0: nat) returns (deSize: nat)
    requires at + len <= data.Length && deSize0 == 8 * k && 0 < k && deSize0 <= len
    modifies data
    ensures data[..at] == old(data[..at]) && data[at + len..] == old(data[at + len..])
    ensures var b := old(data[at..at + len]); var n := NextBlocks(b, k);
      data[at..at + len] == Worked(cipher, false, b, 8 * k, n) && deSize == 8 * (k + n)
  {
    deSize := deSize0;
    var size := NextSize(data[at..at + len], k, deSize);
    ghost var n := NextBlocks(data[at..at + len], k);
    if size >= 8 {
      DecryptWindow(data, at, len, deSize, size / 8, cipher);
      deSize := deSize + size;
    } else {
      WorkedNot(cipher, false, data[at..at + len], deSize, n);
    }
  }

  /** The decrypting lines of getmsg2buf. */
  method Advance(data: array<byte>, at: nat, len: nat, cipher: Cipher, ghost k: nat, deSize0: nat) returns (deSize: nat)
    requires at + len <= data.Length && deSize0 == 8 * k && deSize0 + 8 <= len
    modifies data
    ensures data[..at] == old(data[..at]) && data[at + len..] == old(data[at + len..])
    ensures data[at..at + len] == Advanced(cipher, old(data[at..at + len]), k).0
    ensures deSize == 8 * Advanced(cipher, old(data[at..at + len]), k).1
  {
    deSize := deSize0;
    if deSize == 0 {
      DecryptWindow(data, at, len, 0, 1, cipher);
      deSize := deSize + 8;
    }
    deSize := AdvanceRest(data, at, len, cipher, if k == 0 then 1 else k, deSize);
  }

  /** The rounding of the available size: down to whole blocks. */
  lemma RoundDown(size: nat)
    ensures size < 8 ==> size / 8 == 0
    ensures size > 8 ==> RoundNum2(size - 7, 8) == 8 * (size / 8)
  {
  }

  /** The last lines of getmsg2buf; `overrun` stands for the copy that the source
      makes although the body does not fit. */
  method Deliver(packet: seq<byte>, cfg: Config, ghost n: nat, ghost worked: nat, max: int)
    returns (ret: int, taken: nat, msg: seq<byte>, overrun: bool)
    requires Complete(packet, n) && max < 0x8000_0000
    ensures overrun == Delivered(cfg, packet, n, worked, max).overrun
    ensures var g := Delivered(cfg, packet, n, worked, max); !overrun ==>
      ret == g.ret && taken == g.taken <= 8 * n && taken % 8 == 0 && g.blocks == n - taken / 8 && msg == g.msg && g.bytes == packet
  {
    CompleteFacts(packet, n);
    taken := Round8(PacketSize(packet));
    if Wrapped(packet) {
      return 0, 0, [], true;
    }
    if IsCompressed(packet) {
      var m := cfg.zlib.uncompress(packet[BodyOffset(packet)..BodyOffset(packet) + SizeField(packet)]);
      if m.None? || |m.value| > max {
        return -3, taken, [], false;
      }
      return |m.value|, taken, m.value, false;
    }
    if SizeField(packet) > max {
      return 0, 0, [], true;
    }
    return SizeField(packet), taken, packet[BodyOffset(packet)..BodyOffset(packet) + SizeField(packet)], false;
  }

  /** getmsg2buf on the stretch of a buffer that holds the received bytes. */
  method GetMsg2Buf(data: array<byte>, at: nat, nbuflen: nat, cfg: Config, ghost k: nat, deSize0: nat, max: int)
    returns (ret: int, taken: nat, deSize: nat, msg: seq<byte>, overrun: bool)
    requires at + nbuflen <= data.Length && max < 0x8000_0000 && deSize0 == 8 * k
    modifies data
    ensures overrun == GetMsg(cfg, old(data[at..at + nbuflen]), k, max).overrun
    ensures !overrun ==> data[..at] == old(data[..at]) && data[at + nbuflen..] == old(data[at + nbuflen..])
    ensures var g := GetMsg(cfg, old(data[at..at + nbuflen]), k, max); !overrun ==>
      ret == g.ret && data[at..at + nbuflen] == g.bytes && taken == g.taken && deSize == 8 * g.blocks && msg == g.msg
  {
    hide Advanced, Delivered;
    ret, taken, deSize, msg, overrun := 0, 0, deSize0, [], false;
    if nbuflen == 0 {
      return;
    }
    if deSize > nbuflen || max < 2 {
      return -1, taken, deSize, msg, false;
    }
    var size := nbuflen - deSize;
    ghost var b, n := data[at..at + nbuflen], k;
    if deSize < 8 || !IsFull(data[at..at + nbuflen], deSize) {
      if size < 8 {
        return;
      }
      deSize := Advance(data, at, nbuflen, cfg.cipher, k, deSize);
      n := Advanced(cfg.cipher, b, k).1;
      if SizeField(data[at..at + nbuflen]) > max {
        return -2, taken, deSize, msg, false;
      }
      if !IsFull(data[at..at + nbuflen], deSize) {
        return;
      }
    }
    ret, taken, msg, overrun := Deliver(data[at..at + nbuflen], cfg, n, n - k, max);
    if !overrun {
      deSize := deSize - taken;
    }
  }

  /** packet_getcmd: one attempt to take a message out of the receive buffer, at
      any time. */
  method PacketGetCmd(pbuf: LoopBuf, cfg: Config, ghost k: nat, deSize0: nat, max: int)
    returns (ret: int, deSize: nat, msg: seq<byte>, overrun: bool, ghost g: Got)
    requires pbuf.Valid() && max < 0x8000_0000 && deSize0 == 8 * k
    modifies pbuf, pbuf.begin
    ensures g == GetMsg(cfg, old(pbuf.Readable()), k, max) && overrun == g.overrun
    ensures !overrun ==> pbuf.Valid() && pbuf.begin == old(pbuf.begin)
    ensures !overrun ==> ret == g.ret && msg == g.msg && deSize == 8 * g.blocks && g.taken <= |g.bytes|
    ensures !overrun ==> pbuf.Readable() == if ret > 0 then g.bytes[g.taken..] else g.bytes
  {
    hide GetMsg;
    g := GetMsg(cfg, pbuf.Readable(), k, max);
    GetMsgTaken(cfg, pbuf.Readable(), k, max);
    var nlen := pbuf.readLeft;
    if nlen == 0 {
      return 0, deSize0, [], false, g;
    }
    var taken;
    ret, taken, deSize, msg, overrun := GetMsg2Buf(pbuf.begin, pbuf.ptrRead, nlen, cfg, k, deSize0, max);
    if !overrun && ret > 0 {
      var r := pbuf.SetReadPtr(taken);
    }
  }

  lemma GetMsgTaken(cfg: Config, b: seq<byte>, k: nat, max: int)
    requires max < 0x8000_0000
    ensures var g := GetMsg(cfg, b, k, max);
      |g.bytes| == |b| && g.taken <= |b| && (b == [] ==> g == Got(0, b, 0, k, 0, [], false))
    ensures var g := GetMsg(cfg, b, k, max); 8 * k <= |b| && g.ret <= 0 ==> 8 * g.blocks <= |b|
  {
    hide Advanced;
  }
}
