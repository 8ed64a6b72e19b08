/** Streaming MD5: a message fed in any portions is compressed in exactly the blocks of its
    padding by sections 3.1 and 3.2 of RFC 1321. */
module Md5 {
  import opened Seqs

  type byte = x: int | 0 <= x < 256

  const WORD: nat := 0x1_0000_0000
  const WORD2: nat := 0x1_0000_0000_0000_0000

  // ----- the padded message

  /** The k low-order bytes of n, least significant first. */
  function Little(n: nat, k: nat): (r: seq<byte>)
    ensures |r| == k
  {
    if k == 0 then [] else [n % 256] + Little(n / 256, k - 1)
  }

  function Zeros(n: nat): (r: seq<byte>)
    ensures |r| == n
  {
    seq(n, _ => 0)
  }

  /** How many zero bytes bring message and mark to 56 modulo 64. */
  function Gap(n: nat): nat {
    (119 - n % 64) % 64
  }

  function Padded(m: seq<byte>): (r: seq<byte>)
    ensures |r| % 64 == 0
  {
    assert (|m| + 1 + Gap(|m|) + 8) % 64 == 0;
    m + [0x80] + Zeros(Gap(|m|)) + Little(8 * |m| % WORD2, 8)
  }

  /** The number that the four bytes from position `i` on stand for, least significant first. */
  function Word(s: seq<byte>, i: nat): nat
    requires i + 4 <= |s|
  {
    s[i] as int + 0x100 * s[i + 1] as int + 0x1_0000 * s[i + 2] as int + 0x100_0000 * s[i + 3] as int
  }

  lemma LittleDigits(n: nat, k: nat)
    ensures k > 0 ==> Little(n, k)[0] == n % 256
    ensures forall i :: 1 <= i < k ==> Little(n, k)[i] == Little(n / 256, k - 1)[i - 1]
  {
  }

  lemma LittleFour(n: nat)
    requires n < WORD
    ensures Word(Little(n, 4), 0) == n
  {
    LittleDigits(n, 4);
    LittleDigits(n / 256, 3);
    LittleDigits(n / 256 / 256, 2);
    LittleDigits(n / 256 / 256 / 256, 1);
  }

  /** Section 3.1 and 3.2 of RFC 1321: the message, a byte 0x80, as few zero bytes as bring the
      length to a multiple of 64, and the number of message bits modulo 2^64. */
  lemma PaddedIs(m: seq<byte>)
    ensures var r, n := Padded(m), |Padded(m)|;
            && n % 64 == 0 && |m| + 9 <= n < |m| + 9 + 64
            && r[..|m|] == m && r[|m|] == 0x80
            && (forall i :: |m| < i < n - 8 ==> r[i] == 0)
            && Word(r, n - 8) + 0x1_0000_0000 * Word(r, n - 4) == 8 * |m| % 0x1_0000_0000_0000_0000
  {
    var bits, r := 8 * |m| % WORD2, Padded(m);
    var n := |r|;
    assert bits == Count(bits / WORD, bits % WORD);
    LittlePair(bits / WORD, bits % WORD);
    LittleFour(bits / WORD);
    LittleFour(bits % WORD);
    assert r[n - 8..n - 4] == Little(bits % WORD, 4);
    assert r[n - 4..] == Little(bits / WORD, 4);
    WordOf(r, n - 8);
    WordOf(r, n - 4);
  }

  lemma WordOf(s: seq<byte>, i: nat)
    requires i + 4 <= |s|
    ensures Word(s, i) == Word(s[i..i + 4], 0)
  {
  }

  /** Compressing all whole blocks of `s` in order, from the initial state. */
  function Fold<S>(compress: (S, seq<byte>) -> S, init: S, s: seq<byte>): S
    decreases |s|
  {
    if |s| < 64 then init else compress(Fold(compress, init, s[..|s| - 64]), s[|s| - 64..])
  }

  lemma FoldBlock<S>(compress: (S, seq<byte>) -> S, init: S, s: seq<byte>, block: seq<byte>)
    requires |block| == 64
    ensures Fold(compress, init, s + block) == compress(Fold(compress, init, s), block)
  {
    assert (s + block)[..|s|] == s && (s + block)[|s|..] == block;
  }

  // ----- the bit counter in two words

  function Count(hi: nat, lo: nat): nat {
    hi * WORD + lo
  }

  /** Adding to the low word and carrying into the high one when it wrapped. */
  lemma CarryAdds(hi: nat, lo: nat, k: nat)
    requires hi < WORD && lo < WORD && k < WORD
    ensures var n := (lo + k) % WORD;
            var h := if n < lo then (hi + 1) % WORD else hi;
            Count(h, n) == (Count(hi, lo) + k) % WORD2
  {
    if lo + k < WORD {
      assert Count(hi, lo) + k < WORD2;
    } else {
      assert (lo + k) % WORD == lo + k - WORD;
      if hi + 1 < WORD {
        assert Count(hi, lo) + k == Count(hi + 1, lo + k - WORD) < WORD2;
      } else {
        assert Count(hi, lo) + k == WORD2 + (lo + k - WORD);
        assert (WORD2 + (lo + k - WORD)) % WORD2 == lo + k - WORD;
      }
    }
  }

  /** The two words hold the number of bits in n bytes, modulo 2^64. */
  ghost predicate Counted(hi: nat, lo: nat, n: nat) {
    hi < WORD && lo < WORD && Count(hi, lo) == 8 * n % WORD2
  }

  lemma ModAdd(a: nat, k: nat)
    ensures (a % WORD2 + k) % WORD2 == (a + k) % WORD2
  {
    assert a == WORD2 * (a / WORD2) + a % WORD2;
  }

  lemma CountedStep(hi: nat, lo: nat, n: nat, k: nat)
    requires Counted(hi, lo, n) && 8 * k < WORD
    ensures var m := (lo + 8 * k) % WORD; Counted(if m < lo then (hi + 1) % WORD else hi, m, n + k)
  {
    CarryAdds(hi, lo, 8 * k);
    ModAdd(8 * n, 8 * k);
  }

  function Pow256(j: nat): nat {
    if j == 0 then 1 else 256 * Pow256(j - 1)
  }

  /** The bytes of a number are the bytes of its low part and then of its high part. */
  lemma {:induction false} LittleConcat(hi: nat, lo: nat, j: nat, k: nat)
    requires lo < Pow256(j)
    ensures Little(hi * Pow256(j) + lo, j + k) == Little(lo, j) + Little(hi, k)
    decreases j
  {
    if j == 0 {
      assert hi * 1 + lo == hi;
      assert Little(lo, 0) + Little(hi, k) == Little(hi, k);
    } else {
      var p := Pow256(j - 1);
      var n := hi * Pow256(j) + lo;
      assert n == 256 * (hi * p) + lo by { assert hi * (256 * p) == 256 * (hi * p); }
      assert n % 256 == lo % 256 && n / 256 == hi * p + lo / 256;
      LittleConcat(hi, lo / 256, j - 1, k);
    }
  }

  lemma LittlePair(hi: nat, lo: nat)
    requires lo < WORD
    ensures Little(Count(hi, lo), 8) == Little(lo, 4) + Little(hi, 4)
  {
    Pow256Four();
    LittleConcat(hi, lo, 4, 4);
  }

  lemma Pow256Four()
    ensures Pow256(4) == WORD
  {
    assert Pow256(2) == 65536;
  }

  /** The length words complete the padding. */
  lemma PaddedEnd(m: seq<byte>, body: seq<byte>, hi: nat, lo: nat)
    requires body == m + [0x80] + Zeros(Gap(|m|)) && Counted(hi, lo, |m|)
    ensures (body + Little(lo, 4)) + Little(hi, 4) == Padded(m)
  {
    LittlePair(hi, lo);
    Assoc(body, Little(lo, 4), Little(hi, 4));
  }

  lemma ZerosAdd(p: seq<byte>, a: nat, b: nat)
    ensures (p + Zeros(a)) + Zeros(b) == p + Zeros(a + b)
  {
  }

  lemma GapIs(n: nat, c: nat, whole: nat)
    requires n == whole + c && c < 64 && whole % 64 == 0
    ensures Gap(n) == if c + 1 > 56 then (64 - (c + 1)) + 56 else 56 - (c + 1)
  {
    assert n % 64 == c;
  }

  // ----- the context

  class Context<S> {
    const compress: (S, seq<byte>) -> S
    const init: S
    var state: S
    var curlen: nat
    var lengthHi: nat
    var lengthLo: nat
    var buf: array<byte>
    ghost var blocks: seq<byte>    // everything compressed so far

    /** What has been compressed is whole blocks, all of them counted; the rest is buffered. */
    ghost predicate Valid()
      reads this, buf
    {
      && buf.Length == 64 && curlen < 64
      && |blocks| % 64 == 0 && state == Fold(compress, init, blocks)
      && Counted(lengthHi, lengthLo, |blocks|)
    }

    /** The message fed so far. */
    ghost function Message(): seq<byte>
      requires curlen <= buf.Length
      reads this, buf
    {
      blocks + buf[..curlen]
    }

    /** psMd5Init. */
    constructor (compress: (S, seq<byte>) -> S, init: S)
      ensures Valid() && fresh(buf) && Message() == [] && this.compress == compress && this.init == init
    {
      this.compress, this.init, state := compress, init, init;
      curlen, lengthHi, lengthLo, blocks := 0, 0, 0, [];
      buf := new byte[64];
    }

    /** memcpy of a portion behind what is buffered. */
    method Fill(data: seq<byte>)
      requires buf.Length == 64 && curlen + |data| <= 64
      modifies this`curlen, buf
      ensures curlen == old(curlen) + |data| && buf[..curlen] == old(buf[..curlen]) + data
    {
      var at := curlen;
      for i := 0 to |data|
        modifies buf
        invariant buf[..at + i] == old(buf[..curlen]) + data[..i]
      {
        buf[at + i] := data[i];
        assert data[..i + 1] == data[..i] + [data[i]];
      }
      assert data[..|data|] == data;
      curlen := at + |data|;
    }

    /** md5_compress on a full buffer. */
    method Compress()
      requires buf.Length == 64 && curlen == 64 && |blocks| % 64 == 0 && state == Fold(compress, init, blocks)
      modifies this`state, this`curlen, this`blocks
      ensures curlen == 0 && blocks == old(blocks) + buf[..]
      ensures |blocks| % 64 == 0 && state == Fold(compress, init, blocks)
    {
      FoldBlock(compress, init, blocks, buf[..]);
      state := compress(state, buf[..]);
      blocks := blocks + buf[..];
      curlen := 0;
    }

    /** Adds the bits of `bytes` more bytes to the count. */
    method AddLength(bytes: nat, ghost n: nat)
      requires Counted(lengthHi, lengthLo, n) && bytes <= 64
      modifies this`lengthHi, this`lengthLo
      ensures Counted(lengthHi, lengthLo, n + bytes)
    {
      CountedStep(lengthHi, lengthLo, n, bytes);
      var m := (lengthLo + 8 * bytes) % WORD;
      if m < lengthLo {
        lengthHi := (lengthHi + 1) % WORD;
      }
      lengthLo := m;
    }

    /** One turn of the loop: as much as the buffer takes. */
    method Feed(part: seq<byte>)
      requires Valid() && curlen + |part| <= 64
      modifies this`state, this`curlen, this`blocks, this`lengthHi, this`lengthLo, buf
      ensures Valid() && Message() == old(Message()) + part
    {
      Assoc(blocks, buf[..curlen], part);
      Fill(part);
      if curlen == 64 {
        assert buf[..64] == buf[..];
        ghost var n := |blocks|;
        Compress();
        AddLength(64, n);
        assert blocks + buf[..0] == blocks;
      }
    }

    /** psMd5Update: any portion, however it lies across block boundaries. */
    method Update(data: seq<byte>)
      requires Valid()
      modifies this`state, this`curlen, this`blocks, this`lengthHi, this`lengthLo, buf
      ensures Valid() && Message() == old(Message()) + data
    {
      var i := 0;
      assert data[..0] == [];
      while i < |data|
        invariant 0 <= i <= |data| && Valid()
        invariant Message() == old(Message()) + data[..i]
      {
        var n := if |data| - i < 64 - curlen then |data| - i else 64 - curlen;
        Assoc(old(Message()), data[..i], data[i..i + n]);
        assert data[..i + n] == data[..i] + data[i..i + n];
        Feed(data[i..i + n]);
        i := i + n;
      }
      assert data[..|data|] == data;
    }

    /** Appends bytes that stay inside the block being padded. */
    method Pad(data: seq<byte>)
      requires buf.Length == 64 && curlen + |data| <= 64
      modifies this`curlen, buf
      ensures curlen == old(curlen) + |data| && Message() == old(Message()) + data
    {
      Assoc(blocks, buf[..curlen], data);
      Fill(data);
    }

    /** Zeros to the end of the block, which is then compressed. */
    method PadBlock()
      requires buf.Length == 64 && curlen <= 64 && |blocks| % 64 == 0 && state == Fold(compress, init, blocks)
      modifies this`state, this`curlen, this`blocks, buf
      ensures curlen == 0 && |blocks| % 64 == 0 && state == Fold(compress, init, blocks)
      ensures Message() == old(Message()) + Zeros(64 - old(curlen))
    {
      Pad(Zeros(64 - curlen));
      assert buf[..64] == buf[..];
      Compress();
      assert blocks + buf[..0] == blocks;
    }

    /** The mark and the zeros up to position 56 of a block. */
    method PadZeros(ghost m: seq<byte>)
      requires buf.Length == 64 && curlen < 64 && |blocks| % 64 == 0 && state == Fold(compress, init, blocks)
      requires Message() == m
      modifies this`state, this`curlen, this`blocks, buf
      ensures curlen == 56 && |blocks| % 64 == 0 && state == Fold(compress, init, blocks)
      ensures Message() == m + [0x80] + Zeros(Gap(|m|))
    {
      GapIs(|m|, curlen, |blocks|);
      Pad([0x80]);
      if curlen > 56 {
        ghost var z := 64 - curlen;
        PadBlock();
        Pad(Zeros(56));
        ZerosAdd(m + [0x80], z, 56);
      } else {
        Pad(Zeros(56 - curlen));
      }
    }

    /** The two length words fill the block. */
    method PadLength(ghost m: seq<byte>)
      requires buf.Length == 64 && curlen == 56 && Counted(lengthHi, lengthLo, |m|)
      requires Message() == m + [0x80] + Zeros(Gap(|m|))
      modifies this`curlen, buf
      ensures curlen == 64 && Message() == Padded(m)
    {
      ghost var body := Message();
      Pad(Little(lengthLo, 4));
      Pad(Little(lengthHi, 4));
      PaddedEnd(m, body, lengthHi, lengthLo);
    }

    /** psMd5Final: the state after compressing the padded message. */
    method Final() returns (digest: S)
      requires Valid()
      modifies this`state, this`curlen, this`blocks, this`lengthHi, this`lengthLo, buf
      ensures digest == Fold(compress, init, Padded(old(Message())))
    {
      ghost var m := Message();
      AddLength(curlen, |blocks|);
      PadZeros(m);
      PadLength(m);
      assert buf[..64] == buf[..];
      Compress();
      digest := state;
    }
  }

  /** The digest of a message fed in the given portions is that of the whole message. */
  method DigestOf<S>(compress: (S, seq<byte>) -> S, init: S, parts: seq<seq<byte>>) returns (digest: S)
    ensures digest == Fold(compress, init, Padded(Concat(parts)))
  {
    var ctx := new Context(compress, init);
    assert parts[..0] == [];
    for i := 0 to |parts|
      invariant ctx.Valid() && ctx.Message() == Concat(parts[..i]) && fresh(ctx) && fresh(ctx.buf)
      invariant ctx.compress == compress && ctx.init == init
    {
      assert parts[..i + 1][..i] == parts[..i];
      ctx.Update(parts[i]);
    }
    assert parts[..|parts|] == parts;
    digest := ctx.Final();
  }

  function Concat(parts: seq<seq<byte>>): seq<byte> {
    if parts == [] then [] else Concat(parts[..|parts| - 1]) + parts[|parts| - 1]
  }
}
