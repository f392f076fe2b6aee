/**
  The wire format: the packet header of packet.h and the block cipher of
  encdec.cpp.
 */
module Packet {
  import opened Define

  type byte = b: int | 0 <= b < 0x100
  type Block = s: seq<byte> | |s| == 8 witness [0, 0, 0, 0, 0, 0, 0, 0]

  const WORD := 0x1_0000_0000
  const HEADER_SIZE := 6   // _PACK_HDR_SIZE_: size, type and flag, packed
  const CMDLEN_SIZE := 4   // the raw length that a compressed packet also carries
  const PACKET_ZIP := 0x80

  // ---------------------------------------------------------------- rounding

  /** ROUNDNUM2(value, 8) on 32-bit unsigned values. */
  function Round8(value: nat): (r: nat)
  {
    (value + 7) % WORD / 8 * 8
  }

  lemma Round8Small(value: nat)
    requires value < WORD - 7
    ensures Round8(value) == RoundNum2(value, 8)
    ensures Round8(value) % 8 == 0 && value <= Round8(value) < value + 8
  {
  }

  // ---------------------------------------------------------------- header

  /** The size field: four bytes, low byte first. */
  function SizeField(p: seq<byte>): (size: nat)
    requires |p| >= HEADER_SIZE
    ensures size < WORD
  {
    p[0] as int + p[1] as int * 0x100 + p[2] as int * 0x1_0000 + p[3] as int * 0x100_0000
  }

  function SizeBytes(size: nat): (p: seq<byte>)
    ensures |p| == 4
    ensures size < WORD ==> size == p[0] as int + p[1] as int * 0x100 + p[2] as int * 0x1_0000 + p[3] as int * 0x100_0000
  {
    assert size / 0x1_0000 == size / 0x100 / 0x100 && size / 0x100_0000 == size / 0x1_0000 / 0x100;
    [size % 0x100, size / 0x100 % 0x100, size / 0x1_0000 % 0x100, size / 0x100_0000 % 0x100]
  }

  lemma SizeRoundTrip(size: nat, p: seq<byte>)
    requires size < WORD && |p| >= HEADER_SIZE && p[..4] == SizeBytes(size)
    ensures SizeField(p) == size
  {
    assert p[0] == p[..4][0] && p[1] == p[..4][1] && p[2] == p[..4][2] && p[3] == p[..4][3];
    var a, b, c := size / 0x100, size / 0x1_0000, size / 0x100_0000;
    assert size == 0x100 * a + p[0];
    assert a == 0x100 * b + p[1];
    assert b == 0x100 * c + p[2];
    assert c == p[3];
  }

  /** iscompress(): bit 7 of the flag byte. */
  predicate IsCompressed(p: seq<byte>)
    requires |p| >= HEADER_SIZE
  {
    p[5] >= PACKET_ZIP
  }

  /** Where cmd() points to. */
  function BodyOffset(p: seq<byte>): nat
    requires |p| >= HEADER_SIZE
  {
    if IsCompressed(p) then HEADER_SIZE + CMDLEN_SIZE else HEADER_SIZE
  }

  /** getpacketsize(), in 32 bits. */
  function PacketSize(p: seq<byte>): nat
    requires |p| >= HEADER_SIZE
  {
    (SizeField(p) + BodyOffset(p)) % WORD
  }

  /** isfullpacket(n) */
  predicate IsFull(p: seq<byte>, n: nat)
    requires |p| >= HEADER_SIZE
  {
    PacketSize(p) <= n
  }

  /** Only the first eight bytes matter to the header. */
  lemma HeaderOnly(p: seq<byte>, p': seq<byte>)
    requires |p| >= 8 && |p'| >= 8 && p[..8] == p'[..8]
    ensures SizeField(p) == SizeField(p') && IsCompressed(p) == IsCompressed(p')
    ensures PacketSize(p) == PacketSize(p') && BodyOffset(p) == BodyOffset(p')
  {
    assert forall i :: 0 <= i < 8 ==> p[i] == p[..8][i] && p'[i] == p'[..8][i];
  }

  // ---------------------------------------------------------------- cipher

  /** CEncrypt: without a method nothing happens; with one, encdec works on each
      eight-byte block by itself. */
  datatype Cipher = NoCipher | BlockCipher(enc: Block -> Block, dec: Block -> Block)
  {
    /** What the key schedule of the cipher is trusted for. */
    ghost predicate Inverts() {
      BlockCipher? ==> forall b: Block :: dec(enc(b)) == b
    }

    function One(encrypt: bool, b: Block): Block
      requires BlockCipher?
    {
      if encrypt then enc(b) else dec(b)
    }

    /** The n blocks of s, each by itself. */
    function Blocks(encrypt: bool, s: seq<byte>, n: nat): (r: seq<byte>)
      requires |s| == 8 * n
      ensures |r| == |s|
    {
      if NoCipher? || n == 0 then s else One(encrypt, s[..8]) + Blocks(encrypt, s[8..], n - 1)
    }

    lemma {:induction false} BlocksConcat(encrypt: bool, a: seq<byte>, m: nat, b: seq<byte>, n: nat)
      requires |a| == 8 * m && |b| == 8 * n
      ensures Blocks(encrypt, a + b, m + n) == Blocks(encrypt, a, m) + Blocks(encrypt, b, n)
      decreases m
    {
      if NoCipher? {
      } else if m == 0 {
        assert a + b == b;
      } else {
        var h, t := a[..8], a[8..];
        BlocksConcat(encrypt, t, m - 1, b, n);
        assert (a + b)[..8] == h && (a + b)[8..] == t + b;
        assert Blocks(encrypt, a + b, m + n) == One(encrypt, h) + Blocks(encrypt, t + b, m - 1 + n);
      }
    }

    /** Decrypting undoes encrypting, whatever the cipher does inside a block. */
    lemma {:induction false} BlocksInverse(s: seq<byte>, n: nat)
      requires Inverts() && |s| == 8 * n
      ensures Blocks(false, Blocks(true, s, n), n) == s
      decreases n
    {
      if BlockCipher? && n > 0 {
        BlocksInverse(s[8..], n - 1);
        var t := Blocks(true, s, n);
        assert t[..8] == enc(s[..8]) && t[8..] == Blocks(true, s[8..], n - 1);
        assert s == s[..8] + s[8..];
      }
    }
  }

  /** One turn of the loop of encdec_des, on values. */
  ghost function Stepped(cipher: Cipher, encrypt: bool, x: seq<byte>, k: nat): (r: seq<byte>)
    requires cipher.BlockCipher? && k + 8 <= |x|
    ensures |r| == |x|
  {
    x[..k] + cipher.One(encrypt, x[k..k + 8]) + x[k + 8..]
  }

  ghost function SteppedTo(cipher: Cipher, encrypt: bool, s: seq<byte>, at: nat, n: nat): (r: seq<byte>)
    requires cipher.BlockCipher? && at + 8 * n <= |s|
    ensures |r| == |s|
  {
    if n == 0 then s else Stepped(cipher, encrypt, SteppedTo(cipher, encrypt, s, at, n - 1), at + 8 * (n - 1))
  }

  /** DES_encrypt1 on the block at position k. */
  method DesEncrypt1(data: array<byte>, k: nat, cipher: Cipher, encrypt: bool)
    requires k + 8 <= data.Length && cipher.BlockCipher?
    modifies data
    ensures data[..] == Stepped(cipher, encrypt, old(data[..]), k)
  {
    var r := cipher.One(encrypt, data[k..k + 8]);
    forall j | 0 <= j < 8 {
      data[k + j] := r[j];
    }
  }

  /** encdec_des: the loop over n blocks. The source subtracts eight from an
      unsigned length: without a block it would run off the buffer. */
  method EncDecDes(data: array<byte>, at: nat, n: nat, cipher: Cipher, encrypt: bool)
    requires 0 < n && at + 8 * n <= data.Length && cipher.BlockCipher?
    modifies data
    ensures data[..] == SteppedTo(cipher, encrypt, old(data[..]), at, n)
  {
    var len, offset := 8 * n, 0;
    ghost var i := 0;
    while offset <= len - 8
      invariant offset == 8 * i && i <= n
      invariant data[..] == SteppedTo(cipher, encrypt, old(data[..]), at, i)
    {
      hide SteppedTo;
      SteppedNext(cipher, encrypt, old(data[..]), at, i);
      DesEncrypt1(data, at + offset, cipher, encrypt);
      offset := offset + 8;
      i := i + 1;
    }
  }

  lemma SteppedNext(cipher: Cipher, encrypt: bool, s: seq<byte>, at: nat, i: nat)
    requires cipher.BlockCipher? && at + 8 * (i + 1) <= |s|
    ensures SteppedTo(cipher, encrypt, s, at, i + 1) ==
            Stepped(cipher, encrypt, SteppedTo(cipher, encrypt, s, at, i), at + 8 * i)
  {
  }

  /** CEncrypt::encdec on n blocks of a buffer. */
  method EncDec(data: array<byte>, at: nat, n: nat, cipher: Cipher, encrypt: bool)
    requires 0 < n && at + 8 * n <= data.Length
    modifies data
    ensures data[..] == Worked(cipher, encrypt, old(data[..]), at, n)
  {
    if cipher.NoCipher? {
      WorkedNot(cipher, encrypt, data[..], at, n);
    } else {
      SteppedIsWorked(cipher, encrypt, data[..], at, n);
      EncDecDes(data, at, n, cipher, encrypt);
    }
  }

  lemma {:induction false} SteppedIsWorked(cipher: Cipher, encrypt: bool, s: seq<byte>, at: nat, n: nat)
    requires cipher.BlockCipher? && at + 8 * n <= |s|
    ensures SteppedTo(cipher, encrypt, s, at, n) == Worked(cipher, encrypt, s, at, n)
  {
    if n == 0 {
      WorkedNot(cipher, encrypt, s, at, 0);
    } else {
      SteppedIsWorked(cipher, encrypt, s, at, n - 1);
      WorkedStep(cipher, encrypt, s, at, n - 1);
    }
  }

  /** s with n blocks from position `at` on encrypted or decrypted. */
  ghost function Worked(cipher: Cipher, encrypt: bool, s: seq<byte>, at: nat, n: nat): (r: seq<byte>)
    requires at + 8 * n <= |s|
    ensures |r| == |s|
  {
    s[..at] + cipher.Blocks(encrypt, s[at..at + 8 * n], n) + s[at + 8 * n..]
  }

  lemma WorkedNot(cipher: Cipher, encrypt: bool, s: seq<byte>, at: nat, n: nat)
    requires at + 8 * n <= |s| && (cipher.NoCipher? || n == 0)
    ensures Worked(cipher, encrypt, s, at, n) == s
  {
  }

  lemma WorkedStep(cipher: Cipher, encrypt: bool, s: seq<byte>, at: nat, i: nat)
    requires cipher.BlockCipher? && at + 8 * (i + 1) <= |s|
    ensures var x, k := Worked(cipher, encrypt, s, at, i), at + 8 * i;
      Worked(cipher, encrypt, s, at, i + 1) == x[..k] + cipher.One(encrypt, x[k..k + 8]) + x[k + 8..]
  {
    var k := at + 8 * i;
    var a, b, c := s[..at], cipher.Blocks(encrypt, s[at..k], i), s[k..];
    BlockAppended(cipher, encrypt, s[at..k], i, s[k..k + 8]);
    assert s[at..k] + s[k..k + 8] == s[at..k + 8];
    CutAt(a + b, c, k);
    assert c[..8] == s[k..k + 8] && c[8..] == s[k + 8..];
    assert a + (b + cipher.One(encrypt, c[..8])) == (a + b) + cipher.One(encrypt, c[..8]);
  }

  lemma CutAt(a: seq<byte>, b: seq<byte>, k: nat)
    requires |a| == k && |b| >= 8
    ensures (a + b)[..k] == a && (a + b)[k..k + 8] == b[..8] && (a + b)[k + 8..] == b[8..]
  {
  }

  lemma BlockAppended(cipher: Cipher, encrypt: bool, a: seq<byte>, n: nat, b: Block)
    requires cipher.BlockCipher? && |a| == 8 * n
    ensures cipher.Blocks(encrypt, a + b, n + 1) == cipher.Blocks(encrypt, a, n) + cipher.One(encrypt, b)
  {
    cipher.BlocksConcat(encrypt, a, n, b, 1);
    assert b[..8] == b && b[8..] == [];
    assert cipher.Blocks(encrypt, [], 0) == [];
  }
}
