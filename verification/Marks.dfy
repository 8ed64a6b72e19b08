/** The nodes of a document and what the first node of each child list has as its `prev`. Sorting
    can leave a first node with a `prev`; everything else about the links follows from the tree. */
module Marks {
  import opened Option
  import opened CString
  import opened ListSort
  import opened CJson
  import opened Pointer
  import opened Patch
  import opened Compare
  import ListSortHeap

  /** A node, named after the tree it was made with and its place in that tree. */
  datatype Id = Id(epoch: nat, loc: Loc)

  /** One mark for each node of a tree: the node, and the `prev` of the first node of its child
      list. */
  datatype Marks = Marks(id: Id, prev: Option<Id>, below: seq<Marks>)

  ghost predicate Fits(t: Json, m: Marks)
    decreases m
  {
    && |m.below| == |Children(t)| && (m.prev.Some? ==> t.Object? && t.members != [])
    && forall i :: 0 <= i < |m.below| ==> Fits(Children(t)[i], m.below[i])
  }

  /** The marks of a tree as parsing and duplicating build it. */
  function FreshAt(t: Json, epoch: nat, loc: Loc): Marks
    decreases t
  {
    var id := Id(epoch, loc);
    match t
    case Array(items) =>
      Marks(id, None, seq(|items|, i requires 0 <= i < |items| => FreshAt(items[i], epoch, loc + [i])))
    case Object(ms) =>
      Marks(id, None, seq(|ms|, i requires 0 <= i < |ms| => FreshAt(ms[i].value, epoch, loc + [i])))
    case _ => Marks(id, None, [])
  }

  function Fresh(t: Json, epoch: nat): Marks {
    FreshAt(t, epoch, [])
  }

  /** No first node of the tree has a `prev`. */
  predicate Clear(m: Marks) {
    m.prev.None? && forall i :: 0 <= i < |m.below| ==> Clear(m.below[i])
  }

  lemma {:induction false} FreshAtFits(t: Json, epoch: nat, loc: Loc)
    ensures Fits(t, FreshAt(t, epoch, loc)) && Clear(FreshAt(t, epoch, loc))
    decreases t
  {
    var m := FreshAt(t, epoch, loc);
    match t
    case Array(items) =>
      forall i | 0 <= i < |items|
        ensures Fits(items[i], m.below[i]) && Clear(m.below[i])
      {
        FreshAtFits(items[i], epoch, loc + [i]);
      }
    case Object(ms) =>
      forall i | 0 <= i < |ms|
        ensures Fits(ms[i].value, m.below[i]) && Clear(m.below[i])
      {
        FreshAtFits(ms[i].value, epoch, loc + [i]);
      }
    case _ =>
  }

  lemma FreshFits(t: Json, epoch: nat)
    ensures Fits(t, Fresh(t, epoch)) && Clear(Fresh(t, epoch))
  {
    FreshAtFits(t, epoch, []);
  }

  // ----- marks at a location

  function MarkAt(m: Marks, loc: Loc): Marks
    decreases |loc|
  {
    if loc == [] || loc[0] >= |m.below| then m else MarkAt(m.below[loc[0]], loc[1..])
  }

  function PutMark(m: Marks, loc: Loc, n: Marks): Marks
    decreases |loc|
  {
    if loc == [] then n
    else if loc[0] >= |m.below| then m
    else Marks(m.id, m.prev, m.below[loc[0] := PutMark(m.below[loc[0]], loc[1..], n)])
  }

  lemma {:induction false} FitsAt(t: Json, m: Marks, loc: Loc)
    requires Fits(t, m) && ValidLoc(t, loc)
    ensures Fits(At(t, loc), MarkAt(m, loc))
    decreases |loc|
  {
    if loc != [] { FitsAt(Children(t)[loc[0]], m.below[loc[0]], loc[1..]); }
  }

  lemma {:induction false} FitsPut(t: Json, m: Marks, loc: Loc, n: Json, mn: Marks)
    requires Fits(t, m) && ValidLoc(t, loc) && Fits(n, mn)
    ensures Fits(Put(t, loc, n), PutMark(m, loc, mn))
    decreases |loc|
  {
    if loc != [] {
      var i := loc[0];
      FitsPut(Children(t)[i], m.below[i], loc[1..], n, mn);
      PutChildren(t, i, Put(Children(t)[i], loc[1..], n));
    }
  }

  lemma PutChildren(t: Json, i: nat, c: Json)
    requires i < |Children(t)|
    ensures t.Array? ==> Children(Array(t.items[i := c])) == Children(t)[i := c]
    ensures t.Object? ==> Children(Object(t.members[i := Member(t.members[i].name, c)])) == Children(t)[i := c]
  {
  }

  lemma {:induction false} ClearAt(m: Marks, loc: Loc)
    requires Clear(m)
    ensures Clear(MarkAt(m, loc))
    decreases |loc|
  {
    if loc != [] && loc[0] < |m.below| { ClearAt(m.below[loc[0]], loc[1..]); }
  }

  lemma {:induction false} ClearPut(m: Marks, loc: Loc, n: Marks)
    requires Clear(m) && Clear(n)
    ensures Clear(PutMark(m, loc, n))
    decreases |loc|
  {
    if loc != [] && loc[0] < |m.below| { ClearPut(m.below[loc[0]], loc[1..], n); }
  }

  lemma {:induction false} PutMarkSame(t: Json, m: Marks, loc: Loc)
    requires Fits(t, m) && ValidLoc(t, loc)
    ensures PutMark(m, loc, MarkAt(m, loc)) == m
    decreases |loc|
  {
    if loc != [] { PutMarkSame(Children(t)[loc[0]], m.below[loc[0]], loc[1..]); }
  }

  // ----- sorting

  /** The name at a position; positions past the end stand for the first. */
  function NameAt(ms: seq<Member>): nat -> string
    requires ms != []
  {
    (i: nat) => if i < |ms| then ms[i].name else ms[0].name
  }

  function Positions(n: nat): (s: seq<nat>)
    ensures |s| == n && forall i :: 0 <= i < n ==> s[i] == i
  {
    seq(n, i => i)
  }

  /** Where the members of the sorted list come from. */
  function Order(ms: seq<Member>): (r: seq<nat>)
    ensures |r| == |ms|
  {
    if ms == [] then [] else Sort(Positions(|ms|), NameAt(ms))
  }

  lemma OrderInRange(ms: seq<Member>)
    ensures forall k :: 0 <= k < |ms| ==> Order(ms)[k] < |ms|
  {
    var ids := Positions(|ms|);
    if ms != [] { SortPermutes(ids, NameAt(ms)); }
    SameMembers(ids, Order(ms));
    forall k | 0 <= k < |ms|
      ensures Order(ms)[k] < |ms|
    {
      assert Order(ms)[k] in Order(ms);
      assert Order(ms)[k] in ids;
    }
  }

  /** Any entries with these names are sorted by the same order. */
  lemma OrderOf<T>(ms: seq<Member>, s: seq<T>, key: T -> string)
    requires |s| == |ms| && forall i :: 0 <= i < |ms| ==> key(s[i]) == ms[i].name
    ensures forall k :: 0 <= k < |ms| ==> Order(ms)[k] < |ms| && Sort(s, key)[k] == s[Order(ms)[k]]
  {
    OrderInRange(ms);
    if ms != [] {
      var h := (i: nat) => if i < |s| then s[i] else s[0];
      SortMap(Positions(|ms|), h, NameAt(ms), key);
      assert Map(h, Positions(|ms|)) == s;
    }
  }

  /** On linked nodes of the same names the sort keeps the first node in front exactly when the
      order starts with position 0. */
  lemma HeadStays(ms: seq<Member>, nodes: seq<ListSortHeap.Node>)
    requires |nodes| == |ms| > 0 && ListSortHeap.Distinct(nodes)
    requires forall i :: 0 <= i < |ms| ==> nodes[i].name == ms[i].name
    ensures Sort(nodes, ListSortHeap.ByName)[0] == nodes[0] <==> Order(ms)[0] == 0
  {
    OrderOf(ms, nodes, ListSortHeap.ByName);
  }

  /** The first of the sorted members has the least name. */
  lemma LeastFirst(ms: seq<Member>, i: nat)
    requires DistinctNames(ms) && i < |ms| && ms[i] != SortMembers(ms)[0]
    ensures Less(SortMembers(ms)[0].name, ms[i].name)
  {
    SortMembersProps(ms);
    var r := SortMembers(ms);
    assert ms[i] in r;
    var k :| 0 <= k < |r| && r[k] == ms[i];
  }

  /** With distinct names that is: exactly when the first name is the least. */
  lemma HeadStaysIff(ms: seq<Member>)
    requires DistinctNames(ms) && ms != []
    ensures Order(ms)[0] == 0 <==> forall i :: 0 < i < |ms| ==> Less(ms[0].name, ms[i].name)
  {
    OrderOf(ms, ms, Name);
    var o := Order(ms)[0];
    if o == 0 {
      forall i | 0 < i < |ms|
        ensures Less(ms[0].name, ms[i].name)
      {
        assert Key(ms[0]) != Key(ms[i]);
        LeastFirst(ms, i);
      }
    } else {
      assert Key(ms[0]) != Key(ms[o]);
      LeastFirst(ms, 0);
      CmpTrichotomy(ms[0].name, ms[o].name);
    }
  }

  function Arranged(below: seq<Marks>, order: seq<nat>): (r: seq<Marks>)
    requires forall k :: 0 <= k < |order| ==> order[k] < |below|
    ensures |r| == |order| && forall k :: 0 <= k < |order| ==> r[k] == below[order[k]]
  {
    seq(|order|, k requires 0 <= k < |order| => below[order[k]])
  }

  // ----- a comparison

  ghost predicate FitItems(xs: seq<Json>, below: seq<Marks>) {
    |below| == |xs| && forall i :: 0 <= i < |xs| ==> Fits(xs[i], below[i])
  }

  ghost predicate FitMembers(ms: seq<Member>, below: seq<Marks>) {
    |below| == |ms| && forall i :: 0 <= i < |ms| ==> Fits(ms[i].value, below[i])
  }

  lemma SortedFits(ms: seq<Member>, below: seq<Marks>)
    requires FitMembers(ms, below)
    ensures forall k :: 0 <= k < |ms| ==> Order(ms)[k] < |below|
    ensures FitMembers(SortMembers(ms), Arranged(below, Order(ms)))
  {
    OrderOf(ms, ms, Name);
  }

  lemma FitsChildren(t: Json, m: Marks)
    requires Fits(t, m)
    ensures t.Array? ==> FitItems(t.items, m.below)
    ensures t.Object? ==> FitMembers(t.members, m.below)
  {
    assert forall i :: 0 <= i < |Children(t)| ==> Fits(Children(t)[i], m.below[i]);
    if t.Object? {
      assert forall i :: 0 <= i < |t.members| ==> Children(t)[i] == t.members[i].value;
    }
  }

  /** The `prev` of the first node once the list is put in the given order: what it was if that
      node stays first, and otherwise the node that stood before the new first one. */
  function HeadPrev(m: Marks, order: seq<nat>): Option<Id>
    requires forall k :: 0 <= k < |order| ==> order[k] < |m.below|
  {
    if order == [] || order[0] == 0 then m.prev else Some(m.below[order[0] - 1].id)
  }

  /** The marks of the first tree after a comparison: the objects it came to are sorted. */
  ghost function SweptMarks(a: Json, m: Marks, b: Json): Marks
    requires Fits(a, m)
    decreases a, 1, 0
  {
    if Type(a) != Type(b) then m
    else
      FitsChildren(a, m);
      match a
      case Array(items) => Marks(m.id, m.prev, SweptItemMarks(a, items, m.below, b.items))
      case Object(ms) =>
        SortedValuesSmaller(a);
        SortedFits(ms, m.below);
        Marks(m.id, HeadPrev(m, Order(ms)),
              SweptMemberMarks(a, SortMembers(ms), Arranged(m.below, Order(ms)), SortMembers(b.members)))
      case _ => m
  }

  ghost function SweptItemMarks(t: Json, xs: seq<Json>, below: seq<Marks>, ys: seq<Json>): (r: seq<Marks>)
    requires FitItems(xs, below) && forall i :: 0 <= i < |xs| ==> xs[i] < t
    ensures |r| == |xs|
    decreases t, 0, |xs|
  {
    if xs == [] || ys == [] then below
    else [SweptMarks(xs[0], below[0], ys[0])]
         + if Cmp(xs[0], ys[0]) != 0 then below[1..] else SweptItemMarks(t, xs[1..], below[1..], ys[1..])
  }

  ghost function SweptMemberMarks(t: Json, ms: seq<Member>, below: seq<Marks>, ns: seq<Member>): (r: seq<Marks>)
    requires FitMembers(ms, below) && ValuesBelow(ms, t)
    ensures |r| == |ms|
    decreases t, 0, |ms|
  {
    if ms == [] || ns == [] || StrCaseCmp(ms[0].name, ns[0].name) != 0 then below
    else [SweptMarks(ms[0].value, below[0], ns[0].value)]
         + if Cmp(ms[0].value, ns[0].value) != 0 then below[1..] else SweptMemberMarks(t, ms[1..], below[1..], ns[1..])
  }

  lemma {:induction false} SweptFits(a: Json, m: Marks, b: Json)
    requires Fits(a, m)
    ensures Fits(Swept(a, b), SweptMarks(a, m, b))
    decreases a, 1, 0
  {
    if Type(a) == Type(b) && a.Array? {
      FitsChildren(a, m);
      SweptItemsFit(a, a.items, m.below, b.items);
    } else if Type(a) == Type(b) && a.Object? {
      FitsChildren(a, m);
      SortedValuesSmaller(a);
      SortedFits(a.members, m.below);
      SweptMembersFit(a, SortMembers(a.members), Arranged(m.below, Order(a.members)), SortMembers(b.members));
    }
  }

  lemma {:induction false} SweptItemsFit(t: Json, xs: seq<Json>, below: seq<Marks>, ys: seq<Json>)
    requires FitItems(xs, below) && forall i :: 0 <= i < |xs| ==> xs[i] < t
    ensures FitItems(SweptItems(t, xs, ys), SweptItemMarks(t, xs, below, ys))
    decreases t, 0, |xs|
  {
    if xs != [] && ys != [] {
      SweptFits(xs[0], below[0], ys[0]);
      SweptItemsFit(t, xs[1..], below[1..], ys[1..]);
    }
  }

  lemma {:induction false} SweptMembersFit(t: Json, ms: seq<Member>, below: seq<Marks>, ns: seq<Member>)
    requires FitMembers(ms, below) && ValuesBelow(ms, t)
    ensures FitMembers(SweptMembers(t, ms, ns), SweptMemberMarks(t, ms, below, ns))
    decreases t, 0, |ms|
  {
    if ms != [] && ns != [] {
      SweptFits(ms[0].value, below[0], ns[0].value);
      SweptMembersFit(t, ms[1..], below[1..], ns[1..]);
      var v, k := Member(ms[0].name, Swept(ms[0].value, ns[0].value)), SweptMarks(ms[0].value, below[0], ns[0].value);
      FitCons(v, k, ms[1..], below[1..]);
      FitCons(v, k, SweptMembers(t, ms[1..], ns[1..]), SweptMemberMarks(t, ms[1..], below[1..], ns[1..]));
    }
  }

  lemma FitCons(v: Member, k: Marks, ms: seq<Member>, below: seq<Marks>)
    requires Fits(v.value, k) && FitMembers(ms, below)
    ensures FitMembers([v] + ms, [k] + below)
  {
  }
}
