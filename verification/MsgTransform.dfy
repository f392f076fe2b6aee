/**
  msg_transform.cpp: one message to one packet and back.
 */
module MsgTransform {
  import opened Wrappers
  import opened Define
  import opened Packet
  import opened Codec
  import Stream

  const MAX_SEND_PACKET_SIZE := 0xfffff - 8 - 1024
  const MAX_ACCEPTED := 1024 * 1024 * 10

  /** The size check of getpackethdr, made on the bytes as they came in. */
  predicate SizeAccepted(data: seq<byte>)
    requires |data| >= HEADER_SIZE
  {
    2 <= SizeField(data) < MAX_ACCEPTED
  }

  /** getcmdsize(): the size field, or the raw length behind the header. */
  function CmdSize(p: seq<byte>): nat
    requires |p| >= HEADER_SIZE && (IsCompressed(p) ==> |p| >= 10)
  {
    if IsCompressed(p) then p[6] as int + p[7] as int * 0x100 + p[8] as int * 0x1_0000 + p[9] as int * 0x100_0000
    else SizeField(p)
  }

  /** tmpMsgBufferSize: 32-bit unsigned arithmetic, then an int. */
  function BufferSize(cmdSize: nat): (size: int)
    ensures size < 0x8000_0000
    ensures cmdSize < 0x7fff_ff80 ==> size % 64 == 0 && cmdSize + 64 <= size < cmdSize + 128
  {
    var u := (cmdSize + 64 + 63) % WORD / 64 * 64;
    if u < 0x8000_0000 then u else u - WORD
  }

  /** A message, a refusal, or memory behind the message read or overwritten. */
  datatype Decoded = Message(msg: seq<byte>) | Refused | Overrun

  /** What decodeMessage makes of the bytes of a TcpMessage. The raw length of a
      compressed packet lies behind the first block. */
  ghost function Decode(cfg: Config, data: seq<byte>): Decoded
  {
    if |data| < 8 || !SizeAccepted(data) then Refused
    else
      var b := FirstBlock(cfg.cipher, data, 0);
      if !IsFull(b, |b|) then Refused
      else if IsCompressed(b) && |b| < 10 then Overrun
      else
        var g := GetMsg(cfg, b, 1, BufferSize(CmdSize(b)));
        if g.overrun then Overrun else if g.ret > 0 then Message(g.msg) else Refused
  }

  /** Exactly when memory is overrun: the size field passed the check as it came
      over the wire, and decrypted it makes the 32-bit packet size wrap around to
      the first block. So it never happens without a cipher. */
  lemma DecodeOverruns(cfg: Config, data: seq<byte>)
    ensures Decode(cfg, data) == Overrun <==>
      && |data| >= 8 && SizeAccepted(data)
      && (var b := FirstBlock(cfg.cipher, data, 0);
          && Wrapped(b) && IsFull(b, |b|)
          && ((IsCompressed(b) && |b| < 10) || (IsFull(b, 8) && 2 <= BufferSize(CmdSize(b)))))
    ensures cfg.cipher.NoCipher? ==> Decode(cfg, data) != Overrun
  {
    if |data| >= 8 && SizeAccepted(data) {
      var b := FirstBlock(cfg.cipher, data, 0);
      if IsFull(b, |b|) && !(IsCompressed(b) && |b| < 10) {
        Overruns(cfg, b, 1, BufferSize(CmdSize(b)));
      }
      if cfg.cipher.NoCipher? {
        WorkedNot(cfg.cipher, false, data, 0, 1);
      }
    }
  }

  /** getpackethdr: checks the size, decrypts the first block if nothing is yet
      decrypted and says whether the packet is there in full. */
  method GetPacketHdr(data: array<byte>, cipher: Cipher, deSize0: nat)
    returns (found: bool, deSize: nat, full: bool, error: bool)
    requires data.Length < WORD
    modifies data
    ensures error <==> old(|data[..]| >= 8 && !SizeAccepted(data[..]))
    ensures found <==> data.Length >= 8 && !error && (deSize0 == 0 || 8 <= deSize0)
    ensures deSize == if found && deSize0 == 0 then 8 else deSize0
    ensures data[..] == if found && deSize0 == 0 then FirstBlock(cipher, old(data[..]), 0) else old(data[..])
    ensures full == (found && IsFull(data[..], data.Length))
  {
    full, error, deSize := false, false, deSize0;
    if data.Length >= 8 {
      if SizeField(data[..]) >= MAX_ACCEPTED || SizeField(data[..]) < 2 {
        return false, deSize, full, true;
      }
    }
    if deSize == 0 && data.Length >= 8 {
      EncDec(data, deSize, 1, cipher, false);
      deSize := deSize + 8;
    }
    if deSize >= 8 && data.Length >= 8 {
      full := IsFull(data[..], data.Length);
      return true, deSize, full, false;
    }
    return false, deSize, false, false;
  }

  /** decodeMessage; `memory` is whether NewPacketBuffer finds some. */
  method DecodeMessage(data: array<byte>, cfg: Config, memory: bool) returns (msg: Decoded)
    requires data.Length < WORD
    modifies data
    ensures memory ==> msg == Decode(cfg, old(data[..]))
    ensures !memory ==> !msg.Message? && (msg.Overrun? ==> Decode(cfg, old(data[..])) == Overrun)
  {
    hide GetMsg;
    var found, deSize, full, error := GetPacketHdr(data, cfg.cipher, 0);
    if error {
      return Refused;
    } else if full {
      ghost var b := data[..];
      if IsCompressed(data[..]) && data.Length < 10 {
        return Overrun;
      }
      var size := BufferSize(CmdSize(data[..]));
      if !memory {
        return Refused;
      }
      assert data[0..0 + data.Length] == b;
      var ret, taken, m, overrun;
      ret, taken, deSize, m, overrun := GetMsg2Buf(data, 0, data.Length, cfg, 1, deSize, size);
      if overrun {
        return Overrun;
      }
      if ret > 0 {
        return Message(m);
      }
    }
    return Refused;
  }

  /** encodeMessage: the packet in a thread-local buffer, then a copy of it. */
  method EncodeMessage(pbuf: seq<byte>, buffer: array<byte>, level: int, cfg: Config)
    returns (data: Option<seq<byte>>, ghost plain: seq<byte>)
    requires buffer.Length == MAX_SEND_PACKET_SIZE + 1
    modifies buffer
    ensures data.Some? ==> |data.value| % 8 == 0 && |plain| == 8 * (|data.value| / 8) && |data.value| <= buffer.Length
    ensures data.Some? ==> data.value == cfg.cipher.Blocks(true, plain, |data.value| / 8)
    ensures data.Some? && cfg.zlib.Inverts() ==> Carries(cfg.zlib, plain, |data.value| / 8, pbuf)
    ensures data.Some? ==> Layout(cfg, pbuf, level, false, plain)
    ensures data.Some? <==> Packs(cfg, pbuf, level, buffer.Length)
  {
    plain := [];
    if |pbuf| > buffer.Length {
      return None, plain;
    }
    var len, overrun;
    len, overrun, plain := PacketBuf(pbuf, buffer, buffer.Length, cfg, level, false);
    if len > 0 {
      return Some(buffer[..len]), plain;
    }
    return None, plain;
  }

  /** The room decodeMessage makes for the message of a packet. */
  ghost function Room(cfg: Config, data: seq<byte>): int
    requires |data| >= 8
  {
    var b := FirstBlock(cfg.cipher, data, 0);
    if IsCompressed(b) && |b| < 10 then 0 else BufferSize(CmdSize(b))
  }

  /** Exactly when a packet comes back as the message it carries: the size check
      of getpackethdr is passed, on the bytes as they are on the wire, and the
      message and, if it takes more than one block, the body fit the room that
      decodeMessage makes. */
  lemma DecodeInverts(cfg: Config, plain: seq<byte>, n: nat, m: seq<byte>)
    requires cfg.cipher.Inverts() && Carries(cfg.zlib, plain, n, m) && m != []
    ensures var data := cfg.cipher.Blocks(true, plain, n);
      |data| >= 8 &&
      (Decode(cfg, data) == Message(m) <==>
        SizeAccepted(data) && (1 < n ==> SizeField(plain) <= Room(cfg, data)) && |m| <= Room(cfg, data))
  {
    hide GetMsg, Carries;
    CarriesFacts(cfg, plain, n, m);
    var p, data := Stream.Sent(m, plain, n), cfg.cipher.Blocks(true, plain, n);
    var b := FirstBlock(cfg.cipher, data, 0);
    Stream.FirstMixed(cfg, p, data, 0, n);
    Stream.MixedHeader(cfg, p, b, 1, n);
    Stream.FullAtLast(cfg, p, n);
    BufferSizeSteps(if IsCompressed(b) && |b| < 10 then 0 else CmdSize(b));
    Stream.GetFull(cfg, p, Room(cfg, data), b, 1);
  }

  lemma CarriesFacts(cfg: Config, plain: seq<byte>, n: nat, m: seq<byte>)
    requires Carries(cfg.zlib, plain, n, m)
    ensures |plain| == 8 * n >= 8 && PacketSize(plain) <= |plain| < WORD
    ensures IsCompressed(plain) ==> |plain| >= 10
    ensures !IsCompressed(plain) ==> |m| == SizeField(plain)
  {
  }

  lemma BufferSizeSteps(cmdSize: nat)
    ensures 1 <= BufferSize(cmdSize) ==> 64 <= BufferSize(cmdSize)
  {
  }

  /** The length that decodeMessage makes room for. It is read when one block is
      decrypted, so with a cipher the upper half of a raw length is still encrypted. */
  lemma RoomIs(cfg: Config, plain: seq<byte>, n: nat, m: seq<byte>)
    requires cfg.cipher.Inverts() && Carries(cfg.zlib, plain, n, m)
    ensures var data := cfg.cipher.Blocks(true, plain, n);
      |plain| >= 8 && (IsCompressed(plain) ==> |plain| >= 10) &&
      Room(cfg, data) == BufferSize(
        if IsCompressed(plain) then plain[6] as int + plain[7] as int * 0x100 + data[8] as int * 0x1_0000 + data[9] as int * 0x100_0000
        else SizeField(plain))
  {
    hide GetMsg, Carries, BufferSize;
    CarriesFacts(cfg, plain, n, m);
    var p, data := Stream.Sent(m, plain, n), cfg.cipher.Blocks(true, plain, n);
    var b := FirstBlock(cfg.cipher, data, 0);
    Stream.FirstMixed(cfg, p, data, 0, n);
    Stream.MixedHeader(cfg, p, b, 1, n);
    assert b[6] == plain[6] && b[7] == plain[7];
    assert |data| >= 10 ==> b[8] == data[8] && b[9] == data[9];
  }

  /** Compression without cipher: what packetbuf makes of m comes back exactly when
      the compressed form passes the size check and fits the room for m. */
  lemma CompressedRoundTrip(cfg: Config, plain: seq<byte>, n: nat, m: seq<byte>, level: int)
    requires cfg.cipher.NoCipher? && cfg.zlib.Inverts() && |m| < 0x7fff_ff80
    requires Compresses(level, |m|) && Layout(cfg, m, level, false, plain) && Carries(cfg.zlib, plain, n, m)
    ensures var z := cfg.zlib.compress(m, if level < 9 then level else 9);
      && z.Some? && (Decode(cfg, plain) == Message(m) <==>
        2 <= |z.value| < 0xa0_0000 && |z.value| <= RoundNum2(|m| + 64, 64))
  {
    hide Decode, Carries, BufferSize, Room;
    var z := cfg.zlib.compress(m, if level < 9 then level else 9).value;
    CompressedFields(cfg, plain, m, level);
    CarriesFacts(cfg, plain, n, m);
    RoomIs(cfg, plain, n, m);
    DecodeInverts(cfg, plain, n, m);
    BufferIs(|m|);
  }

  lemma BufferIs(len: nat)
    requires len < 0x7fff_ff80
    ensures BufferSize(len) == RoundNum2(len + 64, 64)
  {
  }

  lemma CompressedFields(cfg: Config, plain: seq<byte>, m: seq<byte>, level: int)
    requires Compresses(level, |m|) && Layout(cfg, m, level, false, plain) && |m| < WORD
    ensures var z := cfg.zlib.compress(m, if level < 9 then level else 9);
      z.Some? && IsCompressed(plain) && |plain| >= 10
      && (|z.value| < WORD ==> SizeField(plain) == |z.value|)
      && |m| == plain[6] as int + plain[7] as int * 0x100 + plain[8] as int * 0x1_0000 + plain[9] as int * 0x100_0000
  {
    var z := cfg.zlib.compress(m, if level < 9 then level else 9).value;
    if |z| < WORD {
      SizeRoundTrip(|z|, plain);
    }
    assert forall i :: 0 <= i < 4 ==> plain[6 + i] == plain[6..10][i] == SizeBytes(|m|)[i];
  }

  /** Without cipher and compression: exactly the messages of two bytes or more
      that are shorter than 10 MiB come back. */
  lemma PlainRoundTrip(cfg: Config, plain: seq<byte>, n: nat, m: seq<byte>)
    requires cfg.cipher.NoCipher? && Carries(cfg.zlib, plain, n, m) && !IsCompressed(plain) && m != []
    ensures Decode(cfg, plain) == Message(m) <==> 2 <= |m| < 0xa0_0000
  {
    hide Decode, Carries, Room, BufferSize;
    CarriesFacts(cfg, plain, n, m);
    DecodeInverts(cfg, plain, n, m);
    if SizeField(plain) < MAX_ACCEPTED {
      PlainRoom(cfg, plain);
    }
  }

  lemma PlainRoom(cfg: Config, plain: seq<byte>)
    requires cfg.cipher.NoCipher? && |plain| >= 8 && !IsCompressed(plain) && SizeField(plain) < MAX_ACCEPTED
    ensures SizeField(plain) <= Room(cfg, plain)
  {
    WorkedNot(cfg.cipher, false, plain, 0, 1);
  }

  /** A cipher that turns blocks around. */
  const TURNED := BlockCipher(Turn, Turn)

  function Turn(b: Block): Block {
    [b[7], b[6], b[5], b[4], b[3], b[2], b[1], b[0]]
  }

  lemma TwoZeros(cfg: Config, level: int, plain: seq<byte>)
    requires Layout(cfg, [0, 0], level, false, plain) && Carries(cfg.zlib, plain, 1, [0, 0])
    ensures plain == [2, 0, 0, 0, 0, 0, 0, 0]
  {
    var h := SizeBytes(2);
    assert h[0] == 2 && h[1] == 0 && h[2] == 0 && h[3] == 0;
    assert forall i :: 0 <= i < 4 ==> plain[i] == plain[..4][i] == h[i];
    assert plain[6..6 + 2][0] == plain[6] && plain[6..6 + 2][1] == plain[7];
  }

  lemma TurnedWire()
    ensures TURNED.Blocks(true, [2, 0, 0, 0, 0, 0, 0, 0], 1) == [0, 0, 0, 0, 0, 0, 0, 2]
  {
    var plain: seq<byte> := [2, 0, 0, 0, 0, 0, 0, 0];
    assert plain[..8] == plain && plain[8..] == [];
    assert TURNED.Blocks(true, plain, 1) == Turn(plain) + [];
  }

  lemma TurnedTwice()
    ensures TURNED.Inverts()
  {
  }

  /** With a cipher the check can refuse what encodeMessage made: the packet of two
      zero bytes shows a size of zero on the wire. */
  lemma DecodeRefuses(zlib: Zlib, level: int, plain: seq<byte>)
    requires Layout(Config(TURNED, zlib), [0, 0], level, false, plain) && Carries(zlib, plain, 1, [0, 0])
    ensures TURNED.Inverts() && |plain| == 8
    ensures Decode(Config(TURNED, zlib), TURNED.Blocks(true, plain, 1)) == Refused
  {
    hide Carries, Layout;
    TwoZeros(Config(TURNED, zlib), level, plain);
    TurnedWire();
    TurnedTwice();
  }
}
