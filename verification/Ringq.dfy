/** The growing ring queue. `servp` and `endp` are offsets into `buf`; the queue is empty
    when they meet, so it holds at most one byte less than the buffer. */
module Ringq {
  import opened Bits

  const B_SHIFT: nat := 4

  /** getBinBlockSize. */
  method GetBinBlockSize(size: nat) returns (r: nat)
    ensures r == Pow2(B_SHIFT + Width(size / 16))
    ensures r > size && r >= 16
  {
    var s: nat, q := size / 16, 0;
    while s != 0
      invariant q + Width(s) == Width(size / 16)
      decreases s
    {
      s := s / 2;
      q := q + 1;
    }
    r := Pow2(B_SHIFT + q);
    WidthBounds(size / 16);
    Times16(q);
  }

  lemma Times16(q: nat)
    ensures Pow2(B_SHIFT + q) == 16 * Pow2(q)
  {
    assert Pow2(1 + q) == 2 * Pow2(q) && Pow2(2 + q) == 2 * Pow2(1 + q);
    assert Pow2(3 + q) == 2 * Pow2(2 + q) && Pow2(4 + q) == 2 * Pow2(3 + q);
  }

  lemma {:induction false} WidthOfPow2(k: nat)
    ensures Width(Pow2(k)) == k + 1
  {
    if k == 0 {
      assert Width(1) == 1 + Width(0);
    } else {
      WidthOfPow2(k - 1);
      assert Pow2(k) / 2 == Pow2(k - 1);
    }
  }

  /** getBinBlockSize of twice a power of two is four times it: the source's comment speaks of
      doubling the increment, and it quadruples. */
  lemma IncrementQuadruples(q: nat)
    ensures Pow2(B_SHIFT + Width(2 * Pow2(B_SHIFT + q) / 16)) == 4 * Pow2(B_SHIFT + q)
  {
    Times16(q);
    assert 2 * Pow2(B_SHIFT + q) / 16 == Pow2(q + 1);
    WidthOfPow2(q + 1);
    Times16(q + 2);
    assert Pow2(q + 2) == 2 * Pow2(q + 1) && Pow2(q + 1) == 2 * Pow2(q);
  }

  function Min(a: int, b: int): (m: int)
    ensures m <= a && m <= b && (m == a || m == b)
  {
    if a < b then a else b
  }

  lemma PrefixTransitive(a: seq<char>, b: seq<char>, c: seq<char>)
    requires a <= b && b <= c
    ensures a <= c
  {
  }

  lemma NextPart(all: seq<char>, k: nat, n: nat, taken: seq<char>, rest: seq<char>, part: seq<char>, rest': seq<char>)
    requires k + n <= |all| && taken == all[..k] && rest == all[k..]
    requires part == rest[..n] && rest' == rest[n..]
    ensures taken + part == all[..k + n] && rest' == all[k + n..]
  {
  }

  lemma AppendPart(before: seq<char>, data: seq<char>, k: nat, n: nat)
    requires k + n <= |data|
    ensures before + data[..k] + data[k..k + n] == before + data[..k + n]
  {
    assert data[..k] + data[k..k + n] == data[..k + n];
  }

  class Ring {
    var buf: array<char>
    var servp: nat
    var endp: nat
    var increment: nat
    var maxsize: int

    ghost predicate Valid()
      reads this
    {
      servp < buf.Length && endp < buf.Length && increment > 0
    }

    /** The bytes in the queue, oldest first. */
    ghost function Contents(): (s: seq<char>)
      requires Valid()
      reads this, buf
      ensures |s| == Len() < buf.Length
    {
      if servp <= endp then buf[servp..endp] else buf[servp..] + buf[..endp]
    }

    /** The buffer is the old one or a new one. */
    twostate predicate SameOrFresh()
      reads this
    {
      buf == old(buf) || fresh(buf)
    }

    /** ringqOpen. */
    constructor (initSize: nat, maxsize: int)
      ensures Valid() && fresh(buf) && Contents() == [] && this.maxsize == maxsize
      ensures servp == endp == 0 && buf.Length > initSize && buf.Length >= 16
      ensures increment == buf.Length == Pow2(B_SHIFT + Width(initSize / 16))
    {
      var inc := GetBinBlockSize(initSize);
      buf := new char[inc](_ => '\0');
      this.maxsize := maxsize;
      increment := inc;
      servp, endp := 0, 0;
    }

    /** ringqLen. */
    function Len(): nat
      requires Valid()
      reads this
    {
      if servp > endp then buf.Length + endp - servp else endp - servp
    }

    /** ringqPutBlkMax: room for one straight copy, up to the end of the buffer or the byte that
        is left free. */
    function PutBlkMax(): (n: nat)
      requires Valid()
      reads this
      ensures endp + n <= buf.Length && Len() + n < buf.Length
      ensures endp + n == buf.Length || Len() + n == buf.Length - 1
    {
      Min(buf.Length - endp, buf.Length - Len() - 1)
    }

    /** ringqGetBlkMax: bytes in one straight line, up to the end of the buffer or the last byte. */
    function GetBlkMax(): (n: nat)
      requires Valid()
      reads this
      ensures servp + n <= buf.Length && n <= Len()
      ensures servp + n == buf.Length || n == Len()
    {
      Min(buf.Length - servp, Len())
    }

    /** ringqFlush. */
    method Flush()
      requires Valid()
      modifies this`servp, this`endp, buf
      ensures Valid() && Contents() == [] && servp == endp == 0
    {
      servp, endp := 0, 0;
      buf[0] := '\0';
    }

    /** ringqGetc: the front byte, or -1. */
    method Getc() returns (c: int)
      requires Valid()
      modifies this`servp
      ensures Valid()
      ensures old(Contents()) == [] ==> c == -1 && Contents() == []
      ensures old(Contents()) != [] ==> c == old(Contents())[0] as int && Contents() == old(Contents())[1..]
    {
      if servp == endp {
        return -1;
      }
      c := buf[servp] as int;
      servp := servp + 1;
      if servp >= buf.Length {
        servp := 0;
      }
    }

    /** A straight copy of `n` bytes from the front. */
    method GetLine(n: nat) returns (bytes: seq<char>)
      requires Valid() && n <= GetBlkMax()
      modifies this`servp
      ensures Valid() && bytes == old(Contents())[..n] && Contents() == old(Contents())[n..]
    {
      bytes := buf[servp..servp + n];
      servp := servp + n;
      if servp >= buf.Length {
        servp := 0;
      }
    }

    /** ringqGetBlk: up to `size` bytes from the front, in at most two straight copies. */
    method GetBlk(size: nat) returns (bytes: seq<char>)
      requires Valid()
      modifies this`servp
      ensures Valid()
      ensures var n := Min(size, |old(Contents())|);
              bytes == old(Contents())[..n] && Contents() == old(Contents())[n..]
    {
      bytes := [];
      var left, chunk := size, GetBlkMax();
      ghost var all, k := Contents(), 0;
      while left > 0 && chunk > 0
        invariant Valid() && 0 <= left && k + left == size && k <= |all| && chunk == GetBlkMax()
        invariant bytes == all[..k] && Contents() == all[k..]
        decreases left
      {
        chunk := Min(chunk, left);
        ghost var before := Contents();
        var part := GetLine(chunk);
        NextPart(all, k, chunk, bytes, before, part, Contents());
        bytes := bytes + part;
        left, k := left - chunk, k + chunk;
        chunk := GetBlkMax();
      }
      assert |Contents()| == |all| - k;
    }

    /** memcpy of `data` to the end position, inside the free space. */
    method CopyIn(data: seq<char>)
      requires Valid() && |data| <= PutBlkMax()
      modifies buf
      ensures Contents() == old(Contents()) && buf[endp..endp + |data|] == data
    {
      var at := endp;
      for i := 0 to |data|
        invariant forall j :: 0 <= j < i ==> buf[at + j] == data[j]
        invariant forall j :: 0 <= j < buf.Length && !(at <= j < at + i) ==> buf[j] == old(buf[j])
      {
        buf[at + i] := data[i];
      }
      if servp <= endp {
        assert buf[servp..endp] == old(buf[servp..endp]);
      } else {
        assert buf[servp..] == old(buf[servp..]) && buf[..endp] == old(buf[..endp]);
      }
    }

    /** ringqPutBlkAdj: account for bytes that were copied in directly behind the end. */
    method PutBlkAdj(size: nat)
      requires Valid() && size <= PutBlkMax()
      modifies this`endp
      ensures Valid() && Contents() == old(Contents()) + buf[old(endp)..old(endp) + size]
      ensures endp == if old(endp) + size == buf.Length then 0 else old(endp) + size
    {
      endp := endp + size;
      if endp >= buf.Length {
        endp := endp - buf.Length;
      }
    }

    /** A straight copy of `data` behind the last byte. */
    method PutLine(data: seq<char>)
      requires Valid() && |data| <= PutBlkMax()
      modifies this`endp, buf
      ensures Valid() && Contents() == old(Contents()) + data
    {
      CopyIn(data);
      PutBlkAdj(|data|);
    }

    /** ringqGrow: a larger buffer with the same bytes in a straight line from its start.
        False when the size limit has been reached. */
    method Grow() returns (grown: bool)
      requires Valid()
      modifies this
      ensures Valid() && Contents() == old(Contents()) && maxsize == old(maxsize)
      ensures grown <==> !(maxsize >= 0 && old(buf.Length) >= maxsize)
      ensures grown ==> fresh(buf) && buf.Length == old(buf.Length) + old(increment) && servp == 0
      ensures grown ==> increment == Pow2(B_SHIFT + Width(2 * old(increment) / 16))
      ensures !grown ==> buf == old(buf) && servp == old(servp) && endp == old(endp) && increment == old(increment)
    {
      if maxsize >= 0 && buf.Length >= maxsize {
        return false;
      }
      var len := Len();
      var size := buf.Length + increment;
      var bytes := GetBlk(len);
      var newbuf := new char[size](i => if 0 <= i < |bytes| then bytes[i] else '\0');
      buf := newbuf;
      servp, endp := 0, len;
      assert buf[0..len] == bytes;
      increment := GetBinBlockSize(2 * increment);
      return true;
    }

    /** Whether one more byte fits, growing if need be. */
    method MakeRoom() returns (ok: bool)
      requires Valid()
      modifies this
      ensures Valid() && Contents() == old(Contents()) && SameOrFresh() && maxsize == old(maxsize)
      ensures ok ==> PutBlkMax() >= 1
      ensures !ok ==> buf == old(buf) && |Contents()| == buf.Length - 1 && 0 <= maxsize <= buf.Length
      ensures old(servp) == 0 ==> servp == 0
    {
      if PutBlkMax() >= 1 {
        return true;
      }
      ok := Grow();
    }

    /** ringqPutc: one byte at the end; -1 and no change when full and at the limit. */
    method Putc(c: char) returns (rc: int)
      requires Valid()
      modifies this, buf
      ensures Valid() && SameOrFresh() && maxsize == old(maxsize) && rc in {0, -1}
      ensures rc == 0 ==> Contents() == old(Contents()) + [c]
      ensures rc == -1 ==> Contents() == old(Contents()) && |Contents()| == buf.Length - 1 && 0 <= maxsize <= buf.Length
      ensures old(servp) == 0 ==> servp == 0
    {
      var ok := MakeRoom();
      if !ok {
        return -1;
      }
      PutLine([c]);
      return 0;
    }

    /** ringqInsertc: one byte in front of the first. */
    method Insertc(c: char) returns (rc: int)
      requires Valid()
      modifies this, buf
      ensures Valid() && SameOrFresh() && maxsize == old(maxsize) && rc in {0, -1}
      ensures rc == 0 ==> Contents() == [c] + old(Contents())
      ensures rc == -1 ==> Contents() == old(Contents()) && |Contents()| == buf.Length - 1 && 0 <= maxsize <= buf.Length
    {
      var ok := MakeRoom();
      if !ok {
        return -1;
      }
      ghost var before := Contents();
      ghost var s0 := servp;
      var at := (if servp <= 0 then buf.Length else servp) - 1;
      buf[at] := c;
      servp := at;
      if s0 <= endp {
        assert buf[s0..endp] == before;
        if s0 == 0 {
          assert buf[at..] == [c] && buf[..endp] == before;
        } else {
          assert buf[at..endp] == [c] + buf[s0..endp];
        }
      } else {
        assert buf[s0..] + buf[..endp] == before;
        assert buf[at..] == [c] + buf[s0..];
      }
      return 0;
    }

    /** ringqPutBlk: appends as much of `data` as fits, growing as needed, and returns how
        much that was: all of it unless the size limit stops it. */
    method PutBlk(data: seq<char>) returns (n: nat)
      requires Valid()
      modifies this, buf
      ensures Valid() && SameOrFresh() && maxsize == old(maxsize)
      ensures n <= |data| && Contents() == old(Contents()) + data[..n]
      ensures n < |data| ==> |Contents()| == buf.Length - 1 && 0 <= maxsize <= buf.Length
    {
      n := 0;
      ghost var before := Contents();
      while n < |data|
        invariant Valid() && SameOrFresh() && maxsize == old(maxsize)
        invariant 0 <= n <= |data| && Contents() == before + data[..n]
        decreases |data| - n
      {
        var ok := MakeRoom();
        if !ok {
          break;
        }
        var chunk := Min(PutBlkMax(), |data| - n);
        AppendPart(before, data, n, chunk);
        PutLine(data[n..n + chunk]);
        n := n + chunk;
      }
    }

    /** ringqGetBlkAdj: drop bytes that were copied out directly. */
    method GetBlkAdj(size: nat)
      requires Valid() && 0 < size <= Len()
      modifies this`servp
      ensures Valid() && Contents() == old(Contents())[size..]
    {
      servp := servp + size;
      if servp >= buf.Length {
        servp := servp - buf.Length;
      }
    }
  }
}
