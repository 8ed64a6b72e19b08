/** The handle table: slots handed out first-free, in chunks of sixteen. */
module Handles {
  import opened Option

  const H_INCR: nat := 16

  function FirstFree<T>(s: seq<Option<T>>): (i: nat)
    ensures i <= |s| && (i < |s| ==> s[i].None?)
    ensures forall j :: 0 <= j < i ==> s[j].Some?
  {
    if s == [] || s[0].None? then 0
    else
      var r := FirstFree(s[1..]);
      assert forall j :: 1 <= j < r + 1 ==> s[j] == s[1..][j - 1];
      r + 1
  }

  /** One past the largest slot in use. */
  function Top<T>(s: seq<Option<T>>): (m: nat)
    ensures m <= |s| && (m > 0 ==> s[m - 1].Some?)
    ensures forall j :: m <= j < |s| ==> s[j].None?
  {
    if s == [] then 0 else if s[|s| - 1].Some? then |s| else Top(s[..|s| - 1])
  }

  /** How many slots are in use. */
  function Count<T>(s: seq<Option<T>>): (n: nat)
    ensures n <= |s|
  {
    if s == [] then 0 else Count(s[..|s| - 1]) + (if s[|s| - 1].Some? then 1 else 0)
  }

  function Blank<T>(n: nat): (s: seq<Option<T>>)
    ensures |s| == n && forall i :: 0 <= i < n ==> s[i] == None
  {
    seq(n, _ => None)
  }

  /** The slots with the first free one made available. */
  function Grown<T>(s: seq<Option<T>>): (g: seq<Option<T>>)
    ensures FirstFree(s) < |g|
  {
    if FirstFree(s) < |s| then s else s + Blank(H_INCR)
  }

  /** The slots after the first free one takes `x`. */
  function Entered<T>(s: seq<Option<T>>, x: T): (r: seq<Option<T>>) {
    Grown(s)[FirstFree(s) := Some(x)]
  }

  /** The slots after one is freed; with the last one in use the table itself goes. */
  function Freed<T>(s: seq<Option<T>>, i: nat): (r: seq<Option<T>>)
    requires i < |s|
  {
    var r := s[i := None];
    if Count(r) == 0 then [] else r
  }

  lemma {:induction false} CountFull<T>(s: seq<Option<T>>)
    ensures Count(s) == |s| <==> forall i :: 0 <= i < |s| ==> s[i].Some?
    ensures Count(s) == 0 <==> forall i :: 0 <= i < |s| ==> s[i].None?
    decreases |s|
  {
    if s != [] {
      var t := s[..|s| - 1];
      CountFull(t);
      assert forall i :: 0 <= i < |t| ==> t[i] == s[i];
    }
  }

  lemma {:induction false} CountSet<T>(s: seq<Option<T>>, i: nat, x: Option<T>)
    requires i < |s|
    ensures Count(s[i := x]) == Count(s) - (if s[i].Some? then 1 else 0) + (if x.Some? then 1 else 0)
    decreases |s|
  {
    var t := s[..|s| - 1];
    if i == |t| {
      assert s[i := x][..|t|] == t;
    } else {
      CountSet(t, i, x);
      assert s[i := x][..|t|] == t[i := x];
    }
  }

  lemma {:induction false} CountBlank<T>(s: seq<Option<T>>, n: nat)
    ensures Count(s + Blank(n)) == Count(s)
    decreases n
  {
    if n == 0 {
      assert s + Blank(0) == s;
    } else {
      CountBlank(s, n - 1);
      assert (s + Blank<T>(n))[..|s| + n - 1] == s + Blank<T>(n - 1);
    }
  }

  /** Top is decided by the slots: the last used one is just below it. */
  lemma TopIs<T>(s: seq<Option<T>>, m: nat)
    requires m <= |s| && (m > 0 ==> s[m - 1].Some?)
    requires forall j :: m <= j < |s| ==> s[j].None?
    ensures Top(s) == m
  {
  }

  lemma FreeBelowTop<T>(s: seq<Option<T>>)
    ensures FirstFree(s) <= Top(s)
  {
    var f, t := FirstFree(s), Top(s);
    var x := if t < |s| then s[t] else None;
  }

  lemma EnteredAt<T>(s: seq<Option<T>>, x: T, f: nat, r: seq<Option<T>>)
    requires f == FirstFree(s) && r == Entered(s, x)
    ensures f < |r| && r[f] == Some(x) && |s| <= |r|
    ensures forall i :: 0 <= i < |s| && i != f ==> r[i] == s[i]
    ensures forall i :: |s| <= i < |r| && i != f ==> r[i] == None
  {
  }

  /** Entering moves the top only when the new slot is past it. */
  lemma TopEntered<T>(s: seq<Option<T>>, x: T, f: nat, t: nat, r: seq<Option<T>>)
    requires f == FirstFree(s) && t == Top(s) && r == Entered(s, x)
    ensures Top(r) == if f >= t then f + 1 else t
  {
    FreeBelowTop(s);
    EnteredAt(s, x, f, r);
    TopIs(r, if f >= t then f + 1 else t);
  }

  /** The same slots in use but for `i`, which is free; without any the table is given up. */
  ghost predicate FreedOnly<T>(s: seq<Option<T>>, r: seq<Option<T>>, i: nat) {
    && (i < |r| ==> r[i].None?)
    && (forall j :: 0 <= j < |s| && j != i && s[j].Some? ==> j < |r| && r[j] == s[j])
    && (forall j :: 0 <= j < |r| && r[j].Some? ==> j < |s| && s[j] == r[j])
    && |r| == if exists j :: 0 <= j < |s| && j != i && s[j].Some? then |s| else 0
  }

  lemma FreedIs<T>(s: seq<Option<T>>, i: nat)
    requires i < |s|
    ensures FreedOnly(s, Freed(s, i), i)
  {
    CountFull(s[i := None]);
    forall j | 0 <= j < |s| && j != i && s[j].Some?
      ensures j < |Freed(s, i)|
    {
      assert s[i := None][j].Some?;
    }
  }

  /** The same slots in use and one more, the first that was free. */
  ghost predicate EnteredOnly<T>(s: seq<Option<T>>, r: seq<Option<T>>, i: nat, x: T) {
    && i < |r| && r[i] == Some(x) && (i < |s| ==> s[i].None?)
    && (forall j :: 0 <= j < i ==> j < |s| && s[j].Some?)
    && (forall j :: 0 <= j < |s| && s[j].Some? ==> j < |r| && r[j] == s[j])
    && (forall j :: 0 <= j < |r| && j != i && r[j].Some? ==> j < |s| && s[j] == r[j])
  }

  lemma EnteredIs<T>(s: seq<Option<T>>, x: T)
    ensures EnteredOnly(s, Entered(s, x), FirstFree(s), x)
  {
    EnteredAt(s, x, FirstFree(s), Entered(s, x));
  }

  /** Freeing never moves the top up, and keeps every other slot in use. */
  lemma TopFreed<T>(s: seq<Option<T>>, i: nat)
    requires i < |s|
    ensures Top(Freed(s, i)) <= Top(s)
    ensures forall j :: 0 <= j < |s| && j != i && s[j].Some? ==> j < |Freed(s, i)| && Freed(s, i)[j] == s[j]
  {
    CountFull(s[i := None]);
    forall j | 0 <= j < |s| && j != i && s[j].Some?
      ensures j < |Freed(s, i)|
    {
      assert s[i := None][j].Some?;
    }
  }

  /** A handle map: `slots` is empty while the map is null. */
  class HandleMap<T> {
    var slots: seq<Option<T>>
    var used: nat

    /** `used` counts the slots in use, the table comes in whole chunks and is given up when
        nothing is in use. */
    ghost predicate Valid()
      reads this
    {
      && used == Count(slots) && |slots| % H_INCR == 0
      && (used == 0 <==> slots == [])
    }

    constructor ()
      ensures Valid() && slots == []
    {
      slots, used := [], 0;
    }

    /** hAlloc: the first free slot, from a new chunk when every slot is in use. The slot is
        counted now and filled by the caller. */
    method Alloc() returns (handle: nat)
      requires Valid()
      modifies this
      ensures handle == FirstFree(old(slots)) && slots == Grown(old(slots)) && used == old(used) + 1
      ensures |slots| % 16 == 0
    {
      CountFull(slots);
      if used < |slots| {
        handle := 0;
        while handle < |slots| && slots[handle].Some?
          invariant 0 <= handle <= |slots| && forall j :: 0 <= j < handle ==> slots[j].Some?
          decreases |slots| - handle
        {
          handle := handle + 1;
        }
      } else {
        handle := |slots|;
      }
      if handle == |slots| {
        slots := slots + Blank(H_INCR);
      }
      used := used + 1;
    }

    /** hFree: frees a slot and returns one past the largest still in use. */
    method Free(handle: nat) returns (max: nat)
      requires Valid() && handle < |slots| && slots[handle].Some?
      modifies this
      ensures Valid() && slots == Freed(old(slots), handle) && max == Top(slots)
      ensures FreedOnly(old(slots), slots, handle) && used == old(used) - 1
    {
      FreedIs(slots, handle);
      CountSet(slots, handle, None);
      slots := slots[handle := None];
      used := used - 1;
      if used == 0 {
        slots := [];
        return 0;
      }
      CountFull(slots);
      max := |slots|;
      while max > 0 && slots[max - 1].None?
        invariant 0 <= max <= |slots| && forall j :: max <= j < |slots| ==> slots[j].None?
      {
        max := max - 1;
      }
      TopIs(slots, max);
    }

    /** hAllocEntry: a slot filled with `x`; the maximum stays one past the largest in use. */
    method AllocEntry(max: nat, x: T) returns (id: nat, newMax: nat)
      requires Valid() && max == Top(slots)
      modifies this
      ensures Valid() && slots == Entered(old(slots), x)
      ensures id == FirstFree(old(slots)) && newMax == Top(slots)
      ensures used == old(used) + 1
    {
      TopEntered(slots, x, FirstFree(slots), max, Entered(slots, x));
      CountBlank(slots, H_INCR);
      ghost var was := slots;
      id := Alloc();
      assert Grown(was)[id].None?;
      CountSet(slots, id, Some(x));
      slots := slots[id := Some(x)];
      newMax := if id >= max then id + 1 else max;
    }
  }
}
