/**
  LoopBuf: a growing byte buffer whose readable bytes always lie in one piece.
 */
module LoopBuf {
  import opened Define
  import opened Packet

  const DEF_LOOPBUF_MAX_RESIZE := 1024 * 1024 * 20
  const DEF_LOOPBUF_SIZE1 := 1024 * 2 + 16 - 1

  class LoopBuf {
    var allSize: int      // m_nAllSize
    var perpendLeft: int  // m_nPerpendLeft: free bytes in front
    var readLeft: int     // m_nReadLeft: readable bytes
    var writLeft: int     // m_nWritLeft: free bytes at the end
    var begin: array<byte>
    var ptrRead: int      // offsets from begin
    var ptrWrite: int

    ghost predicate Valid()
      reads this
    {
      && 0 <= perpendLeft && 0 <= readLeft && 0 <= writLeft
      && perpendLeft + readLeft + writLeft == allSize == begin.Length <= DEF_LOOPBUF_MAX_RESIZE
      && ptrRead == perpendLeft && ptrWrite == perpendLeft + readLeft
    }

    /** The byte queue this buffer stands for. */
    ghost function Readable(): (s: seq<byte>)
      requires Valid()
      reads this, begin
      ensures |s| == readLeft
    {
      begin[ptrRead..ptrWrite]
    }

    constructor (bufSize: int := DEF_LOOPBUF_SIZE1)
      requires 0 <= bufSize <= DEF_LOOPBUF_MAX_RESIZE
      ensures Valid() && Readable() == [] && allSize == bufSize && fresh(begin)
    {
      allSize, readLeft, writLeft, perpendLeft := bufSize, 0, bufSize, 0;
      begin := new byte[bufSize](_ => 0);
      ptrRead, ptrWrite := 0, 0;
    }

    /** Appends all of p or, when readable bytes and p together exceed the cap, nothing. */
    method PutData(p: seq<byte>) returns (n: int)
      requires Valid() && |p| < 0x8000_0000
      modifies this, begin
      ensures Valid() && (begin == old(begin) || fresh(begin)) && allSize >= old(allSize)
      ensures old(readLeft) + |p| <= DEF_LOOPBUF_MAX_RESIZE ==> n == |p| && Readable() == old(Readable()) + p
      ensures old(readLeft) + |p| > DEF_LOOPBUF_MAX_RESIZE ==> n == 0 && Readable() == old(Readable())
    {
      if |p| <= 0 {
        assert Readable() + p == Readable();
        return 0;
      }
      if writLeft < |p| {
        if writLeft + perpendLeft > Int32(|p| * 2) {
          RestructuringData();
        } else {
          ResizeNewAllData(|p|);
        }
      }
      n := PutRightData(p);
    }

    method PutRightData(p: seq<byte>) returns (n: int)
      requires Valid()
      modifies this, begin
      ensures Valid() && begin == old(begin) && allSize == old(allSize)
      ensures |p| <= old(writLeft) ==> n == |p| && Readable() == old(Readable()) + p
      ensures |p| > old(writLeft) ==> n == 0 && Readable() == old(Readable())
    {
      if writLeft < |p| {
        return 0;
      }
      if |p| <= 0 {
        assert Readable() + p == Readable();
        return 0;
      }
      ghost var s := Readable();
      forall i | 0 <= i < |p| {
        begin[ptrWrite + i] := p[i];
      }
      assert begin[ptrRead..ptrWrite + |p|] == s + p;
      ptrWrite := ptrWrite + |p|;
      writLeft := writLeft - |p|;
      readLeft := readLeft + |p|;
      return |p|;
    }

    /** Drops nlen readable bytes, or all of them if there are no more. */
    method SetReadPtr(nlen: int) returns (r: int)
      requires Valid()
      modifies this
      ensures Valid() && begin == old(begin) && allSize == old(allSize)
      ensures nlen <= 0 ==> Readable() == old(Readable())
      ensures 0 < nlen <= old(readLeft) ==> Readable() == old(Readable())[nlen..]
      ensures nlen > old(readLeft) ==> Readable() == []
      ensures r == if 0 < nlen < old(readLeft) then nlen else 0
    {
      if nlen <= 0 || readLeft <= 0 {
        return 0;
      }
      if readLeft <= nlen {
        ptrRead, ptrWrite := 0, 0;
        readLeft, writLeft, perpendLeft := 0, allSize, 0;
        return readLeft;
      }
      ptrRead := ptrRead + nlen;
      perpendLeft := perpendLeft + nlen;
      readLeft := readLeft - nlen;
      return nlen;
    }

    /** memmove of the readable bytes to the front. */
    method RestructuringData()
      requires Valid()
      modifies this, begin
      ensures Valid() && begin == old(begin) && allSize == old(allSize)
      ensures Readable() == old(Readable()) && writLeft == allSize - readLeft && readLeft == old(readLeft)
    {
      ghost var s := Readable();
      var moved := begin[ptrRead..ptrRead + readLeft];
      forall i | 0 <= i < readLeft {
        begin[i] := moved[i];
      }
      assert begin[..readLeft] == s;
      ptrRead, ptrWrite := 0, readLeft;
      perpendLeft := 0;
      writLeft := allSize - readLeft;
    }

    /** A new block of twice the size and room for ninLen bytes, up to the cap. */
    method ResizeNewAllData(ninLen: int)
      requires Valid() && 0 < ninLen && (allSize + ninLen) + allSize < 0x8000_0000 - 1024  // an int
      modifies this
      ensures Valid() && fresh(begin) && allSize >= old(allSize)
      ensures Readable() == old(Readable()) && readLeft == old(readLeft)
      ensures writLeft == allSize - readLeft
      ensures allSize == DEF_LOOPBUF_MAX_RESIZE || allSize >= readLeft + ninLen
      ensures allSize == Min(RoundNum2(2 * old(allSize) + ninLen, 1024), 0x140_0000)
    {
      RoundNum2Least((allSize + ninLen) + allSize, 1024);
      var nAll := RoundNum2((allSize + ninLen) + allSize, 1024);
      if nAll > DEF_LOOPBUF_MAX_RESIZE {
        nAll := DEF_LOOPBUF_MAX_RESIZE;
      }
      var pNew := new byte[nAll](_ => 0);
      forall i | 0 <= i < readLeft {
        pNew[i] := begin[ptrRead + i];
      }
      assert pNew[..readLeft] == Readable();
      writLeft, allSize, perpendLeft := nAll - readLeft, nAll, 0;
      begin := pNew;
      ptrRead, ptrWrite := 0, readLeft;
    }
  }
}
