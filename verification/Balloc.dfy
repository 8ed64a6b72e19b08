/** The size-class block allocator: pool carving, class queues linked through the block
    headers, and large or overflow blocks from malloc. */
module Balloc {
  import opened Bits

  const B_SHIFT: nat := 4
  const B_MAX_CLASS: nat := 13
  const HEADER: nat := 8
  const NULL: int := -1

  /** The values the flags word of a header takes: the integrity mark alone, with the
      malloc bit, or the fill word of a queued block. */
  datatype Flags = InUse | Malloced | Filled

  function FlagBits(f: Flags): bv32 {
    match f
    case InUse => 0x0812_4000
    case Malloced => 0x8000_0000 | 0x0812_4000
    case Filled => 0x7777_7777
  }

  /** A block header: the union holds the payload size of a block in use or the link of a
      queued one. */
  datatype Header = Header(u: int, flags: Flags)

  predicate Intact(f: Flags) {
    f != Filled
  }

  /** The tests bfree makes on the bits tell the three values apart. */
  lemma FlagTests(f: Flags)
    ensures FlagBits(f) & 0x0FFF_F000 == 0x0812_4000 <==> Intact(f)
    ensures Intact(f) ==> (FlagBits(f) & 0x8000_0000 != 0 <==> f == Malloced)
  {
  }

  // ----- size classes

  /** Bytes a block of class q offers, and takes with its header. */
  function Payload(q: nat): nat { Pow2(B_SHIFT + q) }
  function MemSize(q: nat): nat { Payload(q) + HEADER }

  function Class(size: nat): nat {
    Width(if size == 0 then 0 else (size - 1) / 16)
  }

  /** ballocGetSize. */
  method GetSize(size: nat) returns (memSize: nat, q: nat)
    ensures q == Class(size) && memSize == MemSize(q)
    ensures size + 8 <= memSize && (if q == 0 then memSize == 16 + 8 else memSize < 2 * size + 8)
  {
    ClassIsLeast(size);
    PayloadIs(Class(size));
    if Class(size) > 0 { PayloadIs(Class(size) - 1); }
    var mask: nat := if size == 0 then 0 else (size - 1) / 16;
    q := 0;
    while mask != 0
      invariant q + Width(mask) == Class(size)
      decreases mask
    {
      mask := mask / 2;
      q := q + 1;
    }
    memSize := Pow2(B_SHIFT + q) + HEADER;
  }

  lemma PayloadIs(q: nat)
    ensures Payload(q) == 16 * Pow2(q)
  {
    assert Pow2(1 + q) == 2 * Pow2(q) && Pow2(2 + q) == 2 * Pow2(1 + q);
    assert Pow2(3 + q) == 2 * Pow2(2 + q) && Pow2(4 + q) == 2 * Pow2(3 + q);
  }

  lemma PayloadFits(size: nat)
    ensures size <= Payload(Class(size))
  {
    ClassIsLeast(size);
  }

  /** The class of a size is the least whose blocks are big enough. */
  lemma ClassIsLeast(size: nat)
    ensures size <= Payload(Class(size))
    ensures Class(size) > 0 ==> Payload(Class(size) - 1) < size
  {
    var mask := if size == 0 then 0 else (size - 1) / 16;
    WidthBounds(mask);
    PayloadIs(Class(size));
    if Class(size) > 0 { PayloadIs(Class(size) - 1); }
  }

  lemma {:induction false} WidthOfOnes(q: nat)
    ensures Width(Pow2(q) - 1) == q
  {
    if q > 0 {
      assert (Pow2(q) - 1) / 2 == Pow2(q - 1) - 1;
      WidthOfOnes(q - 1);
    }
  }

  /** The class recomputed from the stored payload size is the class allocated from. */
  lemma ClassOfPayload(q: nat)
    ensures Class(Payload(q)) == q
  {
    PayloadIs(q);
    assert (Payload(q) - 1) / 16 == Pow2(q) - 1;
    WidthOfOnes(q);
  }

  // ----- queues and tiling

  /** The queue starting at `head`, linked through the headers, is exactly `s`. */
  ghost predicate Chain(hdr: map<int, Header>, head: int, s: seq<int>)
    decreases |s|
  {
    if s == [] then head == NULL
    else head == s[0] && s[0] in hdr && Chain(hdr, hdr[s[0]].u, s[1..])
  }

  ghost predicate NoDup(s: seq<int>) {
    forall i, j :: 0 <= i < j < |s| ==> s[i] != s[j]
  }

  lemma {:induction false} ChainFrame(hdr: map<int, Header>, hdr': map<int, Header>, head: int, s: seq<int>)
    requires Chain(hdr, head, s)
    requires forall i :: 0 <= i < |s| ==> s[i] in hdr ==> s[i] in hdr' && hdr'[s[i]].u == hdr[s[i]].u
    ensures Chain(hdr', head, s)
    decreases |s|
  {
    if s != [] {
      forall i | 0 <= i < |s[1..]|
        ensures s[1..][i] in hdr ==> s[1..][i] in hdr' && hdr'[s[1..][i]].u == hdr[s[1..][i]].u
      {
        assert s[1..][i] == s[i + 1];
      }
      ChainFrame(hdr, hdr', hdr[s[0]].u, s[1..]);
    }
  }

  /** `order` lists block addresses that follow each other without gap or overlap from the
      start of the pool up to `end`. */
  ghost predicate Tiled(order: seq<int>, carved: map<int, nat>, end: int) {
    if order == [] then end == 0
    else
      var last := order[|order| - 1];
      last in carved && end == last + MemSize(carved[last]) && Tiled(order[..|order| - 1], carved, last)
  }

  /** The bytes of the listed blocks, headers included. */
  ghost function Bytes(order: seq<int>, carved: map<int, nat>): nat
    requires forall a :: a in order ==> a in carved
  {
    if order == [] then 0
    else
      var last := order[|order| - 1];
      assert last in order;
      Bytes(order[..|order| - 1], carved) + MemSize(carved[last])
  }

  lemma {:induction false} TiledBytes(order: seq<int>, carved: map<int, nat>, end: int)
    requires Tiled(order, carved, end) && forall a :: a in order ==> a in carved
    ensures Bytes(order, carved) == end
    decreases |order|
  {
    if order != [] { TiledBytes(order[..|order| - 1], carved, order[|order| - 1]); }
  }

  lemma {:induction false} TiledBounds(order: seq<int>, carved: map<int, nat>, end: int)
    requires Tiled(order, carved, end)
    ensures end >= 0
    ensures forall i :: 0 <= i < |order| ==>
              order[i] in carved && 0 <= order[i] && order[i] + MemSize(carved[order[i]]) <= end
    ensures forall i, j :: 0 <= i < j < |order| ==> order[i] + MemSize(carved[order[i]]) <= order[j]
    decreases |order|
  {
    if order != [] {
      var n := |order| - 1;
      TiledBounds(order[..n], carved, order[n]);
      forall i | 0 <= i < n
        ensures order[i] in carved && 0 <= order[i] && order[i] + MemSize(carved[order[i]]) <= order[n]
      {
        assert order[..n][i] == order[i];
      }
      forall i, j | 0 <= i < j < n
        ensures order[i] + MemSize(carved[order[i]]) <= order[j]
      {
        assert order[..n][i] == order[i] && order[..n][j] == order[j];
      }
    }
  }

  lemma {:induction false} TiledFrame(order: seq<int>, carved: map<int, nat>, carved': map<int, nat>, end: int)
    requires Tiled(order, carved, end)
    requires forall a :: a in carved ==> a in carved' && carved'[a] == carved[a]
    ensures Tiled(order, carved', end)
    decreases |order|
  {
    if order != [] { TiledFrame(order[..|order| - 1], carved, carved', order[|order| - 1]); }
  }

  /** One more block at the end. */
  lemma TiledMore(order: seq<int>, carved: map<int, nat>, end: int, q: nat)
    requires Tiled(order, carved, end) && end !in carved && forall a :: a in carved <==> a in order
    ensures Tiled(order + [end], carved[end := q], end + MemSize(q))
    ensures forall a :: a in carved[end := q] <==> a in order + [end]
  {
    TiledFrame(order, carved, carved[end := q], end);
    assert (order + [end])[..|order|] == order;
  }

  // ----- the invariant and what keeps it

  /** Every queue is linked as recorded and holds only free blocks of its own class. */
  ghost predicate QueueOk(hdr: map<int, Header>, head: int, s: seq<int>, carved: map<int, nat>, q: nat) {
    && Chain(hdr, head, s) && NoDup(s)
    && forall i :: 0 <= i < |s| ==> s[i] in carved && carved[s[i]] == q && s[i] in hdr && hdr[s[i]].flags == Filled
  }

  /** A carved block is in use with its payload size recorded, or free and queued. */
  ghost predicate BlockOk(hdr: map<int, Header>, free: seq<seq<int>>, a: int, q: nat) {
    && a in hdr && q < B_MAX_CLASS && |free| == B_MAX_CLASS
    && (hdr[a] == Header(Payload(q), InUse) || (hdr[a].flags == Filled && a in free[q]))
  }

  ghost predicate Inv(hdr: map<int, Header>, qhead: seq<int>, carved: map<int, nat>, free: seq<seq<int>>,
                      heap: set<int>) {
    && |qhead| == |free| == B_MAX_CLASS
    && (forall q :: 0 <= q < B_MAX_CLASS ==> QueueOk(hdr, qhead[q], free[q], carved, q))
    && (forall a :: a in carved ==> BlockOk(hdr, free, a, carved[a]))
    && (forall a :: a in heap ==> a in hdr && a !in carved && hdr[a].flags == Malloced)
    && hdr.Keys == carved.Keys + heap
  }

  lemma QueueFrame(hdr: map<int, Header>, hdr': map<int, Header>, head: int, s: seq<int>, carved: map<int, nat>, q: nat)
    requires QueueOk(hdr, head, s, carved, q)
    requires forall i :: 0 <= i < |s| ==> s[i] in hdr' && hdr'[s[i]] == hdr[s[i]]
    ensures QueueOk(hdr', head, s, carved, q)
  {
    ChainFrame(hdr, hdr', head, s);
  }

  /** A block of class q, or none at all, is on no queue of another class. */
  lemma OnOwnQueue(hdr: map<int, Header>, head: int, s: seq<int>, carved: map<int, nat>, q: nat, a: int)
    requires QueueOk(hdr, head, s, carved, q)
    requires a in carved ==> carved[a] != q || (a in hdr && hdr[a].flags != Filled)
    ensures forall i :: 0 <= i < |s| ==> s[i] != a
  {
  }

  /** Writing the header of a block outside a queue leaves that queue alone. */
  lemma OtherQueues(hdr: map<int, Header>, h: Header, qhead: seq<int>, carved: map<int, nat>, free: seq<seq<int>>,
                    heap: set<int>,
                    a: int, except: int)
    requires Inv(hdr, qhead, carved, free, heap)
    requires a in carved ==> carved[a] == except || (a in hdr && hdr[a].flags != Filled)
    ensures forall q :: 0 <= q < B_MAX_CLASS && q != except ==> QueueOk(hdr[a := h], qhead[q], free[q], carved, q)
  {
    forall q | 0 <= q < B_MAX_CLASS && q != except
      ensures QueueOk(hdr[a := h], qhead[q], free[q], carved, q)
    {
      OnOwnQueue(hdr, qhead[q], free[q], carved, q, a);
      QueueFrame(hdr, hdr[a := h], qhead[q], free[q], carved, q);
    }
  }

  /** Taking the first block off its queue. */
  lemma TakeKeeps(hdr: map<int, Header>, qhead: seq<int>, carved: map<int, nat>, free: seq<seq<int>>, heap: set<int>,
                  q: nat)
    requires Inv(hdr, qhead, carved, free, heap) && q < B_MAX_CLASS && qhead[q] != NULL
    ensures free[q] != [] && qhead[q] == free[q][0] && qhead[q] in hdr
    ensures var a := qhead[q];
            Inv(hdr[a := Header(Payload(q), InUse)], qhead[q := hdr[a].u], carved, free[q := free[q][1..]], heap)
  {
    var s, a := free[q], qhead[q];
    assert QueueOk(hdr, qhead[q], s, carved, q);
    assert s != [] && a == s[0] && a in carved && carved[a] == q;
    var h := Header(Payload(q), InUse);
    var hdr', qhead', free' := hdr[a := h], qhead[q := hdr[a].u], free[q := s[1..]];
    OtherQueues(hdr, h, qhead, carved, free, heap, a, q);
    ChainFrame(hdr, hdr', hdr[a].u, s[1..]);
    assert QueueOk(hdr', qhead'[q], free'[q], carved, q);
    forall b | b in carved
      ensures BlockOk(hdr', free', b, carved[b])
    {
      assert BlockOk(hdr, free, b, carved[b]);
      if b != a && carved[b] == q && b in s {
        var i :| 0 <= i < |s| && s[i] == b;
        assert s[1..][i - 1] == b;
      }
    }
  }

  /** Putting a block in use on the front of its queue. */
  lemma PushKeeps(hdr: map<int, Header>, qhead: seq<int>, carved: map<int, nat>, free: seq<seq<int>>, heap: set<int>,
                  a: int, q: nat)
    requires Inv(hdr, qhead, carved, free, heap) && a in carved && carved[a] == q < B_MAX_CLASS
    requires a in hdr && hdr[a].flags == InUse
    ensures Inv(hdr[a := Header(qhead[q], Filled)], qhead[q := a], carved, free[q := [a] + free[q]], heap)
  {
    var h := Header(qhead[q], Filled);
    var hdr', free' := hdr[a := h], free[q := [a] + free[q]];
    OtherQueues(hdr, h, qhead, carved, free, heap, a, -1);
    var s := free'[q];
    assert s[1..] == free[q];
    assert QueueOk(hdr', qhead[q], free[q], carved, q);
    OnOwnQueue(hdr, qhead[q], free[q], carved, q, a);
    assert QueueOk(hdr', a, s, carved, q);
    forall b | b in carved
      ensures BlockOk(hdr', free', b, carved[b])
    {
      assert BlockOk(hdr, free, b, carved[b]);
    }
  }

  /** A header at a new address: a block carved from the pool. */
  lemma CarveKeeps(hdr: map<int, Header>, qhead: seq<int>, carved: map<int, nat>, free: seq<seq<int>>, heap: set<int>,
                   a: int, q: nat)
    requires Inv(hdr, qhead, carved, free, heap) && a !in hdr && q < B_MAX_CLASS
    ensures Inv(hdr[a := Header(Payload(q), InUse)], qhead, carved[a := q], free, heap)
  {
    var h := Header(Payload(q), InUse);
    var hdr', carved' := hdr[a := h], carved[a := q];
    OtherQueues(hdr, h, qhead, carved, free, heap, a, -1);
    forall p | 0 <= p < B_MAX_CLASS
      ensures QueueOk(hdr', qhead[p], free[p], carved', p)
    {
      assert QueueOk(hdr', qhead[p], free[p], carved, p);
      OnOwnQueue(hdr, qhead[p], free[p], carved, p, a);
    }
    forall b | b in carved'
      ensures BlockOk(hdr', free, b, carved'[b])
    {
      if b != a { assert BlockOk(hdr, free, b, carved[b]); }
    }
  }

  /** A header at a new address: a block from malloc. */
  lemma MallocKeeps(hdr: map<int, Header>, qhead: seq<int>, carved: map<int, nat>, free: seq<seq<int>>,
                    heap: set<int>, a: int, u: int)
    requires Inv(hdr, qhead, carved, free, heap) && a !in hdr
    ensures Inv(hdr[a := Header(u, Malloced)], qhead, carved, free, heap + {a})
  {
    var h := Header(u, Malloced);
    OtherQueues(hdr, h, qhead, carved, free, heap, a, -1);
    forall b | b in carved
      ensures BlockOk(hdr[a := h], free, b, carved[b])
    {
      assert BlockOk(hdr, free, b, carved[b]);
    }
  }

  /** Returning a malloced block to the system. */
  lemma ReleaseKeeps(hdr: map<int, Header>, qhead: seq<int>, carved: map<int, nat>, free: seq<seq<int>>,
                     heap: set<int>, a: int)
    requires Inv(hdr, qhead, carved, free, heap) && a in heap
    ensures Inv(hdr - {a}, qhead, carved, free, heap - {a})
  {
    var hdr' := hdr - {a};
    forall q | 0 <= q < B_MAX_CLASS
      ensures QueueOk(hdr', qhead[q], free[q], carved, q)
    {
      OnOwnQueue(hdr, qhead[q], free[q], carved, q, a);
      QueueFrame(hdr, hdr', qhead[q], free[q], carved, q);
    }
    forall b | b in carved
      ensures BlockOk(hdr', free, b, carved[b])
    {
      assert BlockOk(hdr, free, b, carved[b]);
    }
  }

  /** The allocator between bopen and bclose. Addresses are offsets into the pool; malloc
      hands out addresses outside it. */
  class Allocator {
    const bFreeSize: nat
    const useMalloc: bool
    var bFreeNext: int
    var bFreeLeft: int
    var bQhead: seq<int>
    var hdr: map<int, Header>
    ghost var carved: map<int, nat>     // class of every block ever carved
    ghost var order: seq<int>           // the same blocks by address
    ghost var free: seq<seq<int>>       // contents of the class queues
    ghost var heap: set<int>            // blocks from malloc not yet returned

    ghost predicate Valid()
      reads this
    {
      && Inv(hdr, bQhead, carved, free, heap)
      && Tiled(order, carved, bFreeNext)
      && (forall a :: a in carved <==> a in order)
      && bFreeNext + bFreeLeft == bFreeSize && bFreeLeft >= 0
      && forall a :: a in heap ==> a >= bFreeSize
    }

    /** bopen with a pool of the given size. */
    constructor (size: nat, useMalloc: bool)
      ensures Valid() && bFreeSize == size && this.useMalloc == useMalloc
      ensures bFreeLeft == size && carved == map[] && heap == {} && free == seq(B_MAX_CLASS, _ => [])
    {
      bFreeSize, this.useMalloc := size, useMalloc;
      bFreeNext, bFreeLeft := 0, size;
      bQhead := seq(B_MAX_CLASS, _ => NULL);
      hdr, carved, order, heap := map[], map[], [], {};
      free := seq(B_MAX_CLASS, _ => []);
    }

    /** What malloc may return: null, or an address behind the pool that is not in use. */
    ghost predicate MallocResult(m: int)
      reads this
    {
      m == NULL || (m !in hdr && m >= bFreeSize)
    }

    /** No block is touched. */
    twostate predicate Same()
      reads this
    {
      hdr == old(hdr) && bQhead == old(bQhead) && bFreeNext == old(bFreeNext) && bFreeLeft == old(bFreeLeft)
      && carved == old(carved) && order == old(order) && free == old(free) && heap == old(heap)
    }

    /** A block obtained from malloc and marked so. */
    method FromMalloc(q: nat, m: int) returns (bp: int)
      requires Valid() && MallocResult(m)
      modifies this
      ensures Valid() && bp == (if useMalloc then m else NULL)
      ensures bp == NULL ==> Same()
      ensures bp != NULL ==> heap == old(heap) + {bp} && hdr == old(hdr)[bp := Header(Payload(q), Malloced)]
      ensures carved == old(carved) && free == old(free) && bFreeLeft == old(bFreeLeft)
    {
      if !useMalloc || m == NULL {
        return NULL;
      }
      MallocKeeps(hdr, bQhead, carved, free, heap, m, Payload(q));
      hdr := hdr[m := Header(Payload(q), Malloced)];
      heap := heap + {m};
      return m;
    }

    lemma NextIsNew()
      requires Valid() && bFreeLeft > 0
      ensures bFreeNext >= 0 && bFreeNext !in carved && bFreeNext !in hdr
    {
      TiledBounds(order, carved, bFreeNext);
      assert bFreeNext !in carved;
    }

    /** The next block off the front of the free pool. */
    method Carve(q: nat) returns (bp: int)
      requires Valid() && q < B_MAX_CLASS && bFreeLeft > MemSize(q)
      modifies this
      ensures Valid() && bp == old(bFreeNext) >= 0 && bp !in old(hdr)
      ensures carved == old(carved)[bp := q] && order == old(order) + [bp] && free == old(free) && heap == old(heap)
      ensures hdr == old(hdr)[bp := Header(Payload(q), InUse)]
      ensures bFreeLeft == old(bFreeLeft) - MemSize(q)
    {
      bp := bFreeNext;
      NextIsNew();
      CarveKeeps(hdr, bQhead, carved, free, heap, bp, q);
      TiledMore(order, carved, bFreeNext, q);
      bFreeNext := bFreeNext + MemSize(q);
      bFreeLeft := bFreeLeft - MemSize(q);
      hdr := hdr[bp := Header(Payload(q), InUse)];
      carved := carved[bp := q];
      order := order + [bp];
    }

    lemma HeadOf(q: nat)
      requires Valid() && q < B_MAX_CLASS
      ensures bQhead[q] == NULL <==> free[q] == []
      ensures free[q] != [] ==> bQhead[q] == free[q][0] >= 0
    {
      assert QueueOk(hdr, bQhead[q], free[q], carved, q);
      TiledBounds(order, carved, bFreeNext);
      if free[q] != [] { assert free[q][0] in order; }
    }

    /** The first block off its class queue. */
    method Take(q: nat) returns (bp: int)
      requires Valid() && q < B_MAX_CLASS && free[q] != []
      modifies this
      ensures Valid() && bp == old(free)[q][0] >= 0 && free == old(free)[q := old(free)[q][1..]]
      ensures carved == old(carved) && order == old(order) && heap == old(heap)
      ensures bFreeLeft == old(bFreeLeft) && bFreeNext == old(bFreeNext)
      ensures bp in old(hdr) && old(hdr)[bp].flags == Filled && hdr == old(hdr)[bp := Header(Payload(q), InUse)]
    {
      HeadOf(q);
      assert QueueOk(hdr, bQhead[q], free[q], carved, q);
      TakeKeeps(hdr, bQhead, carved, free, heap, q);
      bp := bQhead[q];
      bQhead := bQhead[q := hdr[bp].u];
      hdr := hdr[bp := Header(Payload(q), InUse)];
      free := free[q := free[q][1..]];
    }

    /** Which block of a class is handed out, and what that changes. */
    twostate predicate Gives(q: nat, m: int, bp: int)
      requires old(Valid())
      reads this
    {
      if q < B_MAX_CLASS && old(free)[q] != [] then
        bp == old(free)[q][0] && free == old(free)[q := old(free)[q][1..]]
        && carved == old(carved) && heap == old(heap) && bFreeLeft == old(bFreeLeft)
      else if q < B_MAX_CLASS && old(bFreeLeft) > MemSize(q) then
        bp == old(bFreeNext) && carved == old(carved)[bp := q] && bFreeLeft == old(bFreeLeft) - MemSize(q)
        && free == old(free) && heap == old(heap)
      else if useMalloc && m != NULL then
        bp == m && heap == old(heap) + {m}
        && free == old(free) && carved == old(carved) && bFreeLeft == old(bFreeLeft)
      else bp == NULL
    }

    /** A block of the class, or null. */
    method OfClass(q: nat, m: int) returns (bp: int)
      requires Valid() && MallocResult(m)
      modifies this
      ensures Valid() && (bp == NULL ==> Same()) && (bp != NULL ==> bp >= 0) && Gives(q, m, bp)
      ensures bp != NULL ==>
                && bp in hdr && Intact(hdr[bp].flags) && hdr[bp].u == Payload(q) && hdr == old(hdr)[bp := hdr[bp]]
                && (bp in old(hdr) ==> !Intact(old(hdr)[bp].flags))
    {
      if q >= B_MAX_CLASS {
        bp := FromMalloc(q, m);
        return;
      }
      HeadOf(q);
      if bQhead[q] != NULL {
        bp := Take(q);
      } else if bFreeLeft > MemSize(q) {
        bp := Carve(q);
      } else {
        bp := FromMalloc(q, m);
      }
    }

    /** balloc: the payload address, or null. A queued block of the class is taken first,
        then the pool is carved, then malloc is asked. */
    method Balloc(size: int, m: int) returns (mp: int)
      requires Valid() && MallocResult(m)
      modifies this
      ensures Valid() && (size < 0 ==> mp == NULL) && (mp == NULL ==> Same())
      ensures size >= 0 ==> Gives(Class(size), m, if mp == NULL then NULL else mp - HEADER)
      ensures mp != NULL ==>
                var bp := mp - HEADER;
                && size >= 0 && bp in hdr && Intact(hdr[bp].flags) && hdr[bp].u == Payload(Class(size)) >= size
                && hdr == old(hdr)[bp := hdr[bp]]
                && (bp in old(hdr) ==> !Intact(old(hdr)[bp].flags))
    {
      if size < 0 {
        return NULL;
      }
      var memSize, q := GetSize(size);
      PayloadFits(size);
      var bp := OfClass(q, m);
      if bp == NULL {
        return NULL;
      }
      mp := bp + HEADER;
      assert mp - HEADER == bp;
    }

    /** bfree: a block in use goes to the front of the queue of its class or back to the
        system; freeing a block that is still queued changes nothing. */
    method Bfree(mp: int)
      requires Valid() && mp - HEADER in hdr
      modifies this
      ensures Valid() && bFreeLeft == old(bFreeLeft) && carved == old(carved)
      ensures var bp := mp - HEADER;
              match old(hdr)[bp].flags
              case Filled => Same()
              case Malloced => heap == old(heap) - {bp} && hdr == old(hdr) - {bp} && free == old(free)
              case InUse => var q := old(carved)[bp];
                            bp in old(carved) && q < B_MAX_CLASS
                            && free == old(free)[q := [bp] + old(free)[q]] && heap == old(heap)
                            && bp in hdr && !Intact(hdr[bp].flags) && hdr == old(hdr)[bp := hdr[bp]]
    {
      var bp := mp - HEADER;
      if !Intact(hdr[bp].flags) {
        return;
      }
      assert bp in carved ==> BlockOk(hdr, free, bp, carved[bp]);
      if hdr[bp].flags == Malloced {
        ReleaseKeeps(hdr, bQhead, carved, free, heap, bp);
        hdr := hdr - {bp};
        heap := heap - {bp};
        return;
      }
      var q := Queue(bp);
      PushKeeps(hdr, bQhead, carved, free, heap, bp, q);
      hdr := hdr[bp := Header(bQhead[q], Filled)];
      bQhead := bQhead[q := bp];
      free := free[q := [bp] + free[q]];
    }

    /** The class recomputed from the header is the class the block was carved for. */
    method Queue(bp: int) returns (q: nat)
      requires Valid() && bp in hdr && hdr[bp].flags == InUse
      ensures bp in carved && q == carved[bp] < B_MAX_CLASS
    {
      assert bp in carved;
      assert BlockOk(hdr, free, bp, carved[bp]);
      ClassOfPayload(carved[bp]);
      var memSize;
      memSize, q := GetSize(hdr[bp].u);
    }

    /** balloc as brealloc sees it: a new block, everything else as before. */
    method Obtain(size: int, m: int) returns (mp: int)
      requires Valid() && MallocResult(m)
      modifies this
      ensures Valid() && (mp == NULL ==> Same())
      ensures mp != NULL ==>
                var bp := mp - HEADER;
                bp in hdr && Intact(hdr[bp].flags) && hdr[bp].u >= size && hdr == old(hdr)[bp := hdr[bp]]
                && (bp in old(hdr) ==> !Intact(old(hdr)[bp].flags))
    {
      mp := Balloc(size, m);
    }

    /** brealloc: in place when the block is big enough; otherwise a new block is obtained
        first and the old one freed only if that succeeded. */
    method Brealloc(mp: int, newsize: int, m: int) returns (newbuf: int)
      requires Valid() && MallocResult(m)
      requires mp != NULL ==> mp - HEADER in hdr && Intact(hdr[mp - HEADER].flags)
      modifies this
      ensures Valid()
      ensures newbuf == NULL ==> Same()
      ensures newbuf != NULL ==>
                var bp := newbuf - HEADER; bp in hdr && Intact(hdr[bp].flags) && hdr[bp].u >= newsize
      ensures mp != NULL && old(hdr)[mp - HEADER].u >= newsize ==> newbuf == mp && Same()
      ensures mp != NULL && newbuf != NULL && newbuf != mp ==>
                mp - HEADER !in hdr || !Intact(hdr[mp - HEADER].flags)
    {
      if mp == NULL {
        newbuf := Obtain(newsize, m);
        return;
      }
      if hdr[mp - HEADER].u >= newsize {
        return mp;
      }
      newbuf := Obtain(newsize, m);
      if newbuf != NULL {
        Bfree(mp);
      }
    }

    /** Every carved block is in use or on exactly one queue, the one of its class; blocks do
        not overlap; carved bytes plus what is left are the pool. */
    lemma Partition(a: int)
      requires Valid() && a in carved
      ensures a in hdr && carved[a] < B_MAX_CLASS && |free| == B_MAX_CLASS
      ensures hdr[a].flags == InUse <==> !(exists q :: 0 <= q < B_MAX_CLASS && a in free[q])
      ensures forall q :: 0 <= q < B_MAX_CLASS && a in free[q] ==> q == carved[a]
      ensures forall b :: b in carved && b != a ==> a + MemSize(carved[a]) <= b || b + MemSize(carved[b]) <= a
      ensures 0 <= a && a + MemSize(carved[a]) <= bFreeSize - bFreeLeft
      ensures hdr[a].flags == InUse ==> MemSize(carved[a]) == 8 + hdr[a].u
    {
      assert BlockOk(hdr, free, a, carved[a]);
      TiledBounds(order, carved, bFreeNext);
      forall q | 0 <= q < B_MAX_CLASS && a in free[q]
        ensures q == carved[a] && hdr[a].flags == Filled
      {
        assert QueueOk(hdr, bQhead[q], free[q], carved, q);
      }
      var i :| 0 <= i < |order| && order[i] == a;
      forall b | b in carved && b != a
        ensures a + MemSize(carved[a]) <= b || b + MemSize(carved[b]) <= a
      {
        assert b in order;
        var j :| 0 <= j < |order| && order[j] == b;
      }
    }
  }

  /** How a block of the pool stands: in use or on one queue, of the class it was carved for. */
  ghost predicate Accounted(b: Allocator, a: int)
    reads b
  {
    && a in b.hdr && a in b.carved && b.carved[a] < B_MAX_CLASS == |b.free|
    && (b.hdr[a].flags == InUse <==> !(exists q :: 0 <= q < B_MAX_CLASS && a in b.free[q]))
    && (forall q :: 0 <= q < B_MAX_CLASS && a in b.free[q] ==> q == b.carved[a])
  }

  /** Two ranges of bytes, given by start and length, do not meet. */
  predicate Apart(a: int, m: int, c: int, n: int) {
    a + m <= c || c + n <= a
  }

  /** A client request, with what malloc would answer. */
  datatype Request = Alloc(size: int, m: int) | Free(mp: int) | Realloc(mp: int, size: int, m: int)

  /** After any sequence of requests a client may make, the blocks carved and what is left
      make up the pool, no two blocks overlap and every block is accounted for; the bytes a
      client holds meet neither the bytes nor the header of any other block in use. */
  method Run(b: Allocator, requests: seq<Request>)
    requires b.Valid()
    modifies b
    ensures b.Valid()
    ensures (forall a :: a in b.order <==> a in b.carved) && Bytes(b.order, b.carved) + b.bFreeLeft == b.bFreeSize
    ensures forall a :: a in b.carved ==> Accounted(b, a)
    ensures forall a, c :: a in b.carved && c in b.carved && a != c ==>
              a + MemSize(b.carved[a]) <= c || c + MemSize(b.carved[c]) <= a
    ensures forall a, c :: a in b.carved && c in b.carved && b.hdr[a].flags == InUse && b.hdr[c].flags == InUse ==>
              a == c || Apart(a + 8, b.hdr[a].u, c, 8 + b.hdr[c].u)
  {
    for i := 0 to |requests|
      invariant b.Valid()
    {
      match requests[i]
      case Alloc(size, m) =>
        if m == NULL || (m !in b.hdr && m >= b.bFreeSize) { var mp := b.Balloc(size, m); }
      case Free(mp) =>
        if mp - HEADER in b.hdr { b.Bfree(mp); }
      case Realloc(mp, size, m) =>
        var known := mp == NULL || (mp - HEADER in b.hdr && Intact(b.hdr[mp - HEADER].flags));
        if (m == NULL || (m !in b.hdr && m >= b.bFreeSize)) && known {
          var mp' := b.Brealloc(mp, size, m);
        }
    }
    TiledBytes(b.order, b.carved, b.bFreeNext);
    forall a | a in b.carved
      ensures Accounted(b, a) && (b.hdr[a].flags == InUse ==> MemSize(b.carved[a]) == 8 + b.hdr[a].u)
      ensures forall c :: c in b.carved && c != a ==> a + MemSize(b.carved[a]) <= c || c + MemSize(b.carved[c]) <= a
    {
      b.Partition(a);
    }
  }
}
