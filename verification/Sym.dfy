/** The chained hash symbol table: entering, deleting and looking up refine a finite map,
    and the first/next walk visits every symbol once. */
module Sym {
  import opened Seqs
  import opened Option
  import opened Bits

  datatype Symbol = Symbol(name: string, content: int, arg: int)

  // ----- hashing

  const UINT: nat := 0x1_0000_0000

  /** The sum after the characters of `name`, the next shift starting at `i`. */
  function HashFrom(name: string, i: nat, sum: nat): (r: nat)
    requires sum < UINT
    ensures r < UINT
    decreases |name|
  {
    if name == "" then sum
    else HashFrom(name[1..], (i + 7) % 24, (sum + name[0] as int * Pow2(i)) % UINT)
  }

  function Hash(name: string, size: nat): (h: nat)
    requires size > 0
    ensures h < size
  {
    HashFrom(name, 0, 0) % size
  }

  /** Each character shifted by seven more bits than the one before it, modulo 24; all added
      up. */
  function ShiftedSum(name: string): nat {
    if name == "" then 0
    else
      var n := |name| - 1;
      ShiftedSum(name[..n]) + name[n] as int * Pow2(7 * n % 24)
  }

  lemma {:induction false} HashMore(name: string, c: char, i: nat, sum: nat)
    requires sum < UINT && i < 24
    ensures HashFrom(name + [c], i, sum)
         == (HashFrom(name, i, sum) + c as int * Pow2((i + 7 * |name|) % 24)) % UINT
    decreases |name|
  {
    if name == "" {
      assert ("" + [c])[1..] == "";
    } else {
      assert (name + [c])[1..] == name[1..] + [c];
      HashMore(name[1..], c, (i + 7) % 24, (sum + name[0] as int * Pow2(i)) % UINT);
      ShiftStep(i, |name| - 1);
    }
  }

  lemma ShiftStep(i: nat, n: nat)
    ensures ((i + 7) % 24 + 7 * n) % 24 == (i + 7 * (n + 1)) % 24
  {
  }

  /** The hash is that sum in 32 bits, modulo the size of the table. */
  lemma {:induction false} HashIs(name: string, size: nat)
    requires size > 0
    ensures Hash(name, size) == ShiftedSum(name) % 0x1_0000_0000 % size
  {
    SumIs(name);
  }

  lemma {:induction false} SumIs(name: string)
    ensures HashFrom(name, 0, 0) == ShiftedSum(name) % UINT
    decreases |name|
  {
    if name != "" {
      var n := |name| - 1;
      assert name == name[..n] + [name[n]];
      SumIs(name[..n]);
      HashMore(name[..n], name[n], 0, 0);
      ModSum(ShiftedSum(name[..n]), name[n] as int * Pow2(7 * n % 24));
    }
  }

  lemma ModSum(a: nat, k: nat)
    ensures (a % UINT + k) % UINT == (a + k) % UINT
  {
    assert a == UINT * (a / UINT) + a % UINT;
  }

  /** hashIndex. */
  method HashIndex(name: string, size: nat) returns (h: nat)
    requires size > 0
    ensures h == Hash(name, size)
  {
    var i, sum, k: nat := 0, 0, 0;
    assert name[0..] == name;
    while k < |name|
      invariant 0 <= k <= |name| && 0 <= sum < UINT && 0 <= i
      invariant HashFrom(name[k..], i, sum) == HashFrom(name, 0, 0)
    {
      assert name[k..][1..] == name[k + 1..];
      sum := (sum + name[k] as int * Pow2(i)) % UINT;
      i := (i + 7) % 24;
      k := k + 1;
    }
    h := sum % size;
  }

  /** No divisor other than 1 and itself. */
  predicate Prime(n: nat) {
    forall i :: 2 <= i < n ==> n % i != 0
  }

  lemma NoDivisorAbove(n: nat, k: nat)
    requires n / 2 < k < n
    ensures n % k != 0
  {
    ModUnique(n, k, 1, n - k);
  }

  /** isPrime tries divisors up to half. */
  method IsPrime(n: nat) returns (p: bool)
    requires n > 0
    ensures p == Prime(n)
  {
    var max := n / 2;
    var i := 2;
    while i <= max
      invariant 2 <= i && forall k :: 2 <= k < i ==> n % k != 0 || k == n
    {
      if n % i == 0 {
        return false;
      }
      i := i + 1;
    }
    forall k | 2 <= k < n
      ensures n % k != 0
    {
      if k > max { NoDivisorAbove(n, k); }
    }
    return true;
  }

  /** calcPrime: the largest prime up to size. */
  method CalcPrime(size: nat) returns (r: nat)
    requires size > 0
    ensures 1 <= r <= size && Prime(r)
    ensures forall k :: r < k <= size ==> !Prime(k)
  {
    assert Prime(1);
    r := size;
    while r > 0
      invariant 1 <= r <= size && forall k :: r < k <= size ==> !Prime(k)
    {
      var p := IsPrime(r);
      if p {
        return;
      }
      r := r - 1;
    }
  }

  // ----- chains

  /** Position of a name in a chain, or its length. */
  function Find(chain: seq<Symbol>, name: string): (i: nat)
    ensures i <= |chain| && (i < |chain| ==> chain[i].name == name)
    ensures forall j :: 0 <= j < i ==> chain[j].name != name
  {
    if chain == [] || chain[0].name == name then 0
    else
      var r := Find(chain[1..], name);
      assert forall j :: 1 <= j < r + 1 ==> chain[j] == chain[1..][j - 1];
      r + 1
  }

  ghost predicate Distinct(chain: seq<Symbol>) {
    forall i, j :: 0 <= i < j < |chain| ==> chain[i].name != chain[j].name
  }

  function Look(chain: seq<Symbol>, name: string): Option<Symbol> {
    var i := Find(chain, name);
    if i < |chain| then Some(chain[i]) else None
  }

  /** Setting a name's entry, in place or at the end. */
  function Put(chain: seq<Symbol>, sp: Symbol): seq<Symbol> {
    var i := Find(chain, sp.name);
    if i < |chain| then chain[i := sp] else chain + [sp]
  }

  function Drop(chain: seq<Symbol>, name: string): seq<Symbol> {
    var i := Find(chain, name);
    if i < |chain| then chain[..i] + chain[i + 1..] else chain
  }

  lemma LookAt(chain: seq<Symbol>, i: nat)
    requires Distinct(chain) && i < |chain|
    ensures Look(chain, chain[i].name) == Some(chain[i])
  {
    var f := Find(chain, chain[i].name);
    assert f == i;
  }

  lemma ChainMember(chain: seq<Symbol>, s: Symbol)
    requires Distinct(chain)
    ensures s in chain <==> Look(chain, s.name) == Some(s)
  {
    if s in chain {
      var i :| 0 <= i < |chain| && chain[i] == s;
      LookAt(chain, i);
    }
  }

  /** Look depends only on which symbols are in a chain of distinct names. */
  lemma LookSame(a: seq<Symbol>, b: seq<Symbol>, name: string)
    requires Distinct(a) && Distinct(b)
    requires forall s: Symbol :: s.name == name ==> (s in a <==> s in b)
    ensures Look(a, name) == Look(b, name)
  {
    var i, j := Find(a, name), Find(b, name);
    assert i < |a| ==> a[i] in b;
    assert j < |b| ==> b[j] in a;
    if i < |a| {
      var k :| 0 <= k < |b| && b[k] == a[i];
      LookAt(b, k);
    }
  }

  lemma PutProps(chain: seq<Symbol>, sp: Symbol, n: string)
    requires Distinct(chain)
    ensures Distinct(Put(chain, sp))
    ensures Look(Put(chain, sp), n) == if n == sp.name then Some(sp) else Look(chain, n)
  {
    var i, r := Find(chain, sp.name), Put(chain, sp);
    assert forall j :: 0 <= j < |chain| && j != i ==> r[j] == chain[j] && chain[j].name != sp.name;
    assert r[i] == sp;
    LookAt(r, i);
    if n != sp.name {
      forall s: Symbol | s.name == n
        ensures s in r <==> s in chain
      {
        if s in chain {
          var j :| 0 <= j < |chain| && chain[j] == s;
          assert r[j] == s;
        }
      }
      LookSame(r, chain, n);
    }
  }

  lemma DropProps(chain: seq<Symbol>, name: string, n: string)
    requires Distinct(chain)
    ensures Distinct(Drop(chain, name))
    ensures forall s :: s in Drop(chain, name) ==> s in chain
    ensures Look(Drop(chain, name), n) == if n == name then None else Look(chain, n)
  {
    var i, r := Find(chain, name), Drop(chain, name);
    if i < |chain| {
      assert forall j :: 0 <= j < i ==> r[j] == chain[j];
      assert forall j :: i <= j < |r| ==> r[j] == chain[j + 1];
      if n != name {
        forall s: Symbol | s.name == n
          ensures s in r <==> s in chain
        {
          if s in chain {
            var j :| 0 <= j < |chain| && chain[j] == s;
            assert r[if j < i then j else j - 1] == s;
          }
        }
        LookSame(r, chain, n);
      }
    }
  }

  /** All symbols from bucket `i` on, in walking order. */
  ghost function Flatten(t: seq<seq<Symbol>>, i: nat): seq<Symbol>
    requires i <= |t|
    decreases |t| - i
  {
    if i == |t| then [] else t[i] + Flatten(t, i + 1)
  }

  /** The walk's pointer to the next symbol: its position in a chain, the null head of an empty
      chain, or the word past the table. */
  datatype Cursor = At(p: nat) | Empty | Past

  /** What a walk has still to return: the rest of the chain the cursor stands in, then the
      chains after it. */
  ghost function Remaining(t: seq<seq<Symbol>>, index: nat, next: Cursor): seq<Symbol>
    requires index <= |t| && (index < |t| && next.At? ==> next.p < |t[index]|)
  {
    if index == |t| then [] else (if next.At? then t[index][next.p..] else []) + Flatten(t, index + 1)
  }

  /** Every symbol is in the chain its name hashes to, once. */
  ghost predicate Hashed(t: seq<seq<Symbol>>) {
    && |t| > 0
    && (forall b :: 0 <= b < |t| ==> Distinct(t[b]))
    && (forall b, i :: 0 <= b < |t| && 0 <= i < |t[b]| ==> Hash(t[b][i].name, |t|) == b)
  }

  /** A walk's symbols are those the chains from `i` on hold. */
  lemma FlattenMembers(t: seq<seq<Symbol>>, i: nat, s: Symbol)
    requires Hashed(t) && i <= |t|
    ensures s in Flatten(t, i) <==> i <= Hash(s.name, |t|) && s in t[Hash(s.name, |t|)]
  {
    var h := Hash(s.name, |t|);
    forall b | 0 <= b < |t| && s in t[b]
      ensures b == h
    {
      var k :| 0 <= k < |t[b]| && t[b][k] == s;
    }
    FlattenHas(t, i, s, h);
  }

  lemma {:induction false} FlattenHas(t: seq<seq<Symbol>>, i: nat, s: Symbol, h: nat)
    requires i <= |t| && h < |t| && forall b :: 0 <= b < |t| && s in t[b] ==> b == h
    ensures s in Flatten(t, i) <==> i <= h && s in t[h]
    decreases |t| - i
  {
    if i < |t| { FlattenHas(t, i + 1, s, h); }
  }

  /** A walk meets no name twice. */
  lemma {:induction false} FlattenDistinct(t: seq<seq<Symbol>>, i: nat)
    requires Hashed(t) && i <= |t|
    ensures Distinct(Flatten(t, i))
    decreases |t| - i
  {
    if i < |t| {
      FlattenDistinct(t, i + 1);
      var rest := Flatten(t, i + 1);
      forall j, k | 0 <= j < |t[i]| && 0 <= k < |rest|
        ensures t[i][j].name != rest[k].name
      {
        FlattenMembers(t, i + 1, rest[k]);
      }
    }
  }

  /** The whole walk has every stored symbol once and nothing else. */
  lemma WalkComplete(t: seq<seq<Symbol>>, all: seq<Symbol>)
    requires Hashed(t) && all == Flatten(t, 0)
    ensures Distinct(all)
    ensures forall s: Symbol :: s in all <==> Look(t[Hash(s.name, |t|)], s.name) == Some(s)
  {
    FlattenDistinct(t, 0);
    forall s: Symbol
      ensures s in all <==> Look(t[Hash(s.name, |t|)], s.name) == Some(s)
    {
      FlattenMembers(t, 0, s);
      ChainMember(t[Hash(s.name, |t|)], s);
    }
  }

  class SymTab {
    const size: nat
    var table: array<seq<Symbol>>
    var htIndex: nat
    var next: Cursor   // in chain htIndex

    ghost predicate Valid()
      reads this, table
    {
      table.Length == size && Hashed(table[..])
    }

    /** The walk can go on: it would not look at the word past the table. */
    ghost predicate Walking()
      reads this, table
    {
      && Valid() && htIndex <= size
      && (htIndex < size ==> next != Past && (next.At? ==> next.p < |table[htIndex]|))
    }

    ghost function Left(): seq<Symbol>
      requires Walking()
      reads this, table
    {
      Remaining(table[..], htIndex, next)
    }

    /** The symbol stored under a name, if any. */
    ghost function Get(name: string): Option<Symbol>
      requires Valid()
      reads this, table
    {
      Look(table[Hash(name, size)], name)
    }

    /** symOpen. */
    constructor (hash_size: nat)
      requires hash_size > 2
      ensures Valid() && fresh(table) && forall n :: Get(n) == None
    {
      var p := CalcPrime(hash_size);
      size := p;
      table := new seq<Symbol>[p](_ => []);
      htIndex, next := 0, Empty;
    }

    /** symLookup: nothing is ever found under the empty name. */
    method Lookup(name: string) returns (sp: Option<Symbol>)
      requires Valid()
      ensures sp == if name == "" then None else Get(name)
    {
      if name == "" {
        return None;
      }
      var h := HashIndex(name, size);
      var chain := table[h];
      var i := 0;
      while i < |chain| && chain[i].name != name
        invariant 0 <= i <= |chain| && forall j :: 0 <= j < i ==> chain[j].name != name
      {
        i := i + 1;
      }
      assert i == Find(chain, name);
      return if i < |chain| then Some(chain[i]) else None;
    }

    /** symEnter: the name now has this content; every other name is as before. */
    method Enter(name: string, content: int, arg: int) returns (sp: Symbol)
      requires Valid()
      modifies table
      ensures Valid() && sp == Symbol(name, content, arg) && Get(name) == Some(sp)
      ensures forall n :: n != name ==> Get(n) == old(Get(n))
    {
      sp := Symbol(name, content, arg);
      var h := HashIndex(name, size);
      var chain := table[h];
      var i := 0;
      while i < |chain| && chain[i].name != name
        invariant 0 <= i <= |chain| && forall j :: 0 <= j < i ==> chain[j].name != name
      {
        i := i + 1;
      }
      assert i == Find(chain, name);
      forall n
        ensures Look(Put(chain, sp), n) == if n == name then Some(sp) else Look(chain, n)
      {
        PutProps(chain, sp, n);
      }
      PutProps(chain, sp, name);
      if i < |chain| {
        table[h] := chain[i := sp];
      } else {
        table[h] := chain + [sp];
      }
    }

    /** symDelete: -1 when the name is not there; otherwise it is gone and every other name
        is as before. */
    method Delete(name: string) returns (rc: int)
      requires Valid()
      modifies table
      ensures Valid() && rc == (if old(Get(name)).None? then -1 else 0)
      ensures Get(name) == None && forall n :: n != name ==> Get(n) == old(Get(n))
    {
      var h := HashIndex(name, size);
      var chain := table[h];
      var i := 0;
      while i < |chain| && chain[i].name != name
        invariant 0 <= i <= |chain| && forall j :: 0 <= j < i ==> chain[j].name != name
      {
        i := i + 1;
      }
      assert i == Find(chain, name);
      if i == |chain| {
        return -1;
      }
      forall n
        ensures Look(Drop(chain, name), n) == if n == name then None else Look(chain, n)
      {
        DropProps(chain, name, n);
      }
      DropProps(chain, name, name);
      table[h] := chain[..i] + chain[i + 1..];
      return 0;
    }

    /** The head of chain `i`, or the word past the table. */
    method Head(i: nat) returns (c: Cursor)
      requires Valid() && i <= size
      ensures c == if i == size then Past else if table[i] == [] then Empty else At(0)
    {
      if i == size {
        return Past;
      }
      return if table[i] == [] then Empty else At(0);
    }

    /** Moves the cursor past position `p` of chain `i`. */
    method Advance(i: nat, p: nat)
      requires Valid() && i < size && p < |table[i]|
      modifies this`htIndex, this`next
      ensures Walking() && [table[i][p]] + Left() == table[i][p..] + Flatten(table[..], i + 1)
    {
      if p + 1 == |table[i]| {
        htIndex := i + 1;
        next := Head(htIndex);
        assert Left() == Flatten(table[..], i + 1);
        assert table[i][p..] == [table[i][p]];
      } else {
        htIndex, next := i, At(p + 1);
        assert table[i][p..] == [table[i][p]] + table[i][p + 1..];
        assert [table[i][p]] + Left() == ([table[i][p]] + table[i][p + 1..]) + Flatten(table[..], i + 1);
      }
    }

    /** symFirst. */
    method First() returns (sp: Option<Symbol>)
      requires Valid()
      modifies this`htIndex, this`next
      ensures Valid() && (sp.None? <==> Flatten(table[..], 0) == [])
      ensures sp.Some? ==> Walking() && [sp.value] + Left() == Flatten(table[..], 0)
    {
      var i := 0;
      while i < size
        invariant 0 <= i <= size && Flatten(table[..], i) == Flatten(table[..], 0)
      {
        if table[i] != [] {
          Advance(i, 0);
          assert table[i][0..] == table[i];
          return Some(table[i][0]);
        }
        i := i + 1;
      }
      return None;
    }

    /** symNext: takes the first of the symbols left, and returns none when none is left. After
        that the walk must not go on, unless it had already come to the end of the last chain:
        the pointer is then the word past the table. */
    method Next() returns (sp: Option<Symbol>)
      requires Walking()
      modifies this`htIndex, this`next
      ensures Valid() && (sp.None? <==> old(Left()) == [])
      ensures sp.Some? ==> Walking() && [sp.value] + Left() == old(Left())
      ensures sp.None? ==> htIndex == old(htIndex) && (Walking() <==> htIndex == size)
    {
      var i := htIndex;
      ghost var left := Left();
      while i < size
        invariant htIndex <= i <= size && htIndex == old(htIndex)
        invariant i < size ==> next != Past && (next.At? ==> next.p < |table[i]|)
        invariant i == size && htIndex < size ==> next == Past
        invariant Remaining(table[..], i, next) == left
      {
        if next.At? {
          var p := next.p;
          Advance(i, p);
          return Some(table[i][p]);
        }
        next := Head(i + 1);
        i := i + 1;
      }
      return None;
    }

    /** symFirst and then symNext until it returns none: every stored symbol once, and
        nothing else. */
    method Walk() returns (all: seq<Symbol>)
      requires Valid()
      modifies this`htIndex, this`next
      ensures Valid() && Distinct(all)
      ensures forall s: Symbol :: s in all <==> Get(s.name) == Some(s)
    {
      all := [];
      ghost var t := table[..];
      var sp := First();
      ghost var left := if sp.Some? then Left() else [];
      while sp.Some?
        invariant table[..] == t && Valid()
        invariant sp.Some? ==> Walking() && left == Left() && all + ([sp.value] + left) == Flatten(t, 0)
        invariant sp.None? ==> left == [] && all == Flatten(t, 0)
        decreases sp.Some?, |left|
      {
        Assoc(all, [sp.value], left);
        all := all + [sp.value];
        sp := Next();
        left := if sp.Some? then Left() else [];
      }
      WalkComplete(t, all);
    }
  }

  // ----- whole runs

  datatype Op = DoEnter(name: string, content: int, arg: int) | DoDelete(name: string) | DoLookup(name: string)
  datatype Reply = Entered(symbol: Symbol) | Deleted(rc: int) | Found(found: Option<Symbol>)

  /** What the operations do to a finite map, and what they answer. */
  function After(m: map<string, Symbol>, op: Op): map<string, Symbol> {
    match op
    case DoEnter(n, c, a) => m[n := Symbol(n, c, a)]
    case DoDelete(n) => m - {n}
    case DoLookup(_) => m
  }

  function Answer(m: map<string, Symbol>, op: Op): Reply {
    match op
    case DoEnter(n, c, a) => Entered(Symbol(n, c, a))
    case DoDelete(n) => Deleted(if n in m then 0 else -1)
    case DoLookup(n) => Found(if n != "" && n in m then Some(m[n]) else None)
  }

  function Answers(m: map<string, Symbol>, ops: seq<Op>): seq<Reply>
    decreases |ops|
  {
    if ops == [] then [] else [Answer(m, ops[0])] + Answers(After(m, ops[0]), ops[1..])
  }

  ghost predicate Represents(t: SymTab, m: map<string, Symbol>)
    requires t.Valid()
    reads t, t.table
  {
    forall n :: t.Get(n) == if n in m then Some(m[n]) else None
  }

  method Perform(t: SymTab, op: Op, ghost m: map<string, Symbol>) returns (reply: Reply)
    requires t.Valid() && Represents(t, m)
    modifies t.table
    ensures t.Valid() && Represents(t, After(m, op)) && reply == Answer(m, op)
  {
    match op
    case DoEnter(n, c, a) => var sp := t.Enter(n, c, a); reply := Entered(sp);
    case DoDelete(n) => var rc := t.Delete(n); reply := Deleted(rc);
    case DoLookup(n) => var sp := t.Lookup(n); reply := Found(sp);
  }

  /** Every run on a fresh table answers as the finite map does. */
  method Run(hash_size: nat, ops: seq<Op>) returns (replies: seq<Reply>)
    requires hash_size > 2
    ensures replies == Answers(map[], ops)
  {
    var t := new SymTab(hash_size);
    ghost var m := map[];
    replies := [];
    assert ops[0..] == ops;
    for i := 0 to |ops|
      invariant t.Valid() && fresh(t.table) && Represents(t, m)
      invariant replies + Answers(m, ops[i..]) == Answers(map[], ops)
    {
      var reply := Perform(t, ops[i], m);
      assert ops[i..][1..] == ops[i + 1..];
      replies, m := replies + [reply], After(m, ops[i]);
      assert replies + Answers(m, ops[i + 1..]) == Answers(map[], ops);
    }
  }
}
