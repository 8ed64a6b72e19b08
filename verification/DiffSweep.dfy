/** What patch generation does to the tree it starts from: every object it compares is sorted. */
module DiffSweep {
  import opened CString
  import opened CJson
  import opened Compare
  import opened Marks

  /** How the merge walk goes on: 0 for members of equal name, negative for one of the source. */
  function Walk(ms: seq<Member>, ns: seq<Member>): int {
    if ms == [] then 1 else if ns == [] then -1 else StrCaseCmp(ms[0].name, ns[0].name)
  }

  ghost function DiffSwept(a: Json, b: Json): Json
    decreases a, 1, 0
  {
    if Type(a) != Type(b) then a
    else
      match a
      case Array(items) => Array(DiffSweptItems(a, items, b.items))
      case Object(ms) =>
        SortedValuesSmaller(a);
        Object(DiffSweptMembers(a, SortMembers(ms), SortMembers(b.members)))
      case _ => a
  }

  ghost function DiffSweptItems(t: Json, xs: seq<Json>, ys: seq<Json>): (r: seq<Json>)
    requires forall i :: 0 <= i < |xs| ==> xs[i] < t
    ensures |r| == |xs|
    decreases t, 0, |xs|
  {
    if xs == [] || ys == [] then xs else [DiffSwept(xs[0], ys[0])] + DiffSweptItems(t, xs[1..], ys[1..])
  }

  ghost function DiffSweptMembers(t: Json, ms: seq<Member>, ns: seq<Member>): (r: seq<Member>)
    requires ValuesBelow(ms, t)
    ensures |r| == |ms| && forall i :: 0 <= i < |ms| ==> r[i].name == ms[i].name
    decreases t, 0, |ms| + |ns|
  {
    if ms == [] || ns == [] then ms
    else if Walk(ms, ns) == 0 then
      [Member(ms[0].name, DiffSwept(ms[0].value, ns[0].value))] + DiffSweptMembers(t, ms[1..], ns[1..])
    else if Walk(ms, ns) < 0 then [ms[0]] + DiffSweptMembers(t, ms[1..], ns)
    else DiffSweptMembers(t, ms, ns[1..])
  }

  // ----- only the order of members changes

  lemma {:induction false} DiffSweptReordered(a: Json, b: Json)
    ensures Reordered(a, DiffSwept(a, b))
    decreases a, 1, 0
  {
    if Type(a) == Type(b) && a.Array? {
      DiffItemsReordered(a, a.items, b.items);
    } else if Type(a) == Type(b) && a.Object? {
      SortedValuesSmaller(a);
      DiffMembersReordered(a, SortMembers(a.members), SortMembers(b.members));
      ReorderedSorted(a.members, DiffSweptMembers(a, SortMembers(a.members), SortMembers(b.members)));
    } else {
      ReorderedSelf(a);
    }
  }

  lemma {:induction false} DiffItemsReordered(t: Json, xs: seq<Json>, ys: seq<Json>)
    requires forall i :: 0 <= i < |xs| ==> xs[i] < t
    ensures ReorderedItems(xs, DiffSweptItems(t, xs, ys))
    decreases t, 0, |xs|
  {
    ReorderedItemsSelf(xs);
    if xs != [] && ys != [] {
      DiffSweptReordered(xs[0], ys[0]);
      DiffItemsReordered(t, xs[1..], ys[1..]);
    }
  }

  lemma {:induction false} DiffMembersReordered(t: Json, ms: seq<Member>, ns: seq<Member>)
    requires ValuesBelow(ms, t)
    ensures ReorderedValues(ms, DiffSweptMembers(t, ms, ns))
    decreases t, 0, |ms| + |ns|
  {
    ReorderedValuesSelf(ms);
    if ms != [] && ns != [] {
      if Walk(ms, ns) == 0 {
        DiffSweptReordered(ms[0].value, ns[0].value);
        DiffMembersReordered(t, ms[1..], ns[1..]);
      } else if Walk(ms, ns) < 0 {
        DiffMembersReordered(t, ms[1..], ns);
      } else {
        DiffMembersReordered(t, ms, ns[1..]);
      }
    }
  }

  // ----- the marks it leaves

  ghost function DiffMarks(a: Json, m: Marks, b: Json): Marks
    requires Fits(a, m)
    decreases a, 1, 0
  {
    if Type(a) != Type(b) then m
    else
      FitsChildren(a, m);
      match a
      case Array(items) => Marks(m.id, m.prev, DiffItemMarks(a, items, m.below, b.items))
      case Object(ms) =>
        SortedValuesSmaller(a);
        SortedFits(ms, m.below);
        Marks(m.id, HeadPrev(m, Order(ms)),
              DiffMemberMarks(a, SortMembers(ms), Arranged(m.below, Order(ms)), SortMembers(b.members)))
      case _ => m
  }

  ghost function DiffItemMarks(t: Json, xs: seq<Json>, below: seq<Marks>, ys: seq<Json>): (r: seq<Marks>)
    requires FitItems(xs, below) && forall i :: 0 <= i < |xs| ==> xs[i] < t
    ensures |r| == |xs|
    decreases t, 0, |xs|
  {
    if xs == [] || ys == [] then below
    else [DiffMarks(xs[0], below[0], ys[0])] + DiffItemMarks(t, xs[1..], below[1..], ys[1..])
  }

  ghost function DiffMemberMarks(t: Json, ms: seq<Member>, below: seq<Marks>, ns: seq<Member>): (r: seq<Marks>)
    requires FitMembers(ms, below) && ValuesBelow(ms, t)
    ensures |r| == |ms|
    decreases t, 0, |ms| + |ns|
  {
    if ms == [] || ns == [] then below
    else if Walk(ms, ns) == 0 then
      [DiffMarks(ms[0].value, below[0], ns[0].value)] + DiffMemberMarks(t, ms[1..], below[1..], ns[1..])
    else if Walk(ms, ns) < 0 then [below[0]] + DiffMemberMarks(t, ms[1..], below[1..], ns)
    else DiffMemberMarks(t, ms, below, ns[1..])
  }

  lemma {:induction false} DiffMarksFit(a: Json, m: Marks, b: Json)
    requires Fits(a, m)
    ensures Fits(DiffSwept(a, b), DiffMarks(a, m, b))
    decreases a, 1, 0
  {
    if Type(a) == Type(b) && a.Array? {
      FitsChildren(a, m);
      DiffItemMarksFit(a, a.items, m.below, b.items);
    } else if Type(a) == Type(b) && a.Object? {
      FitsChildren(a, m);
      SortedValuesSmaller(a);
      SortedFits(a.members, m.below);
      DiffMemberMarksFit(a, SortMembers(a.members), Arranged(m.below, Order(a.members)), SortMembers(b.members));
    }
  }

  lemma {:induction false} DiffItemMarksFit(t: Json, xs: seq<Json>, below: seq<Marks>, ys: seq<Json>)
    requires FitItems(xs, below) && forall i :: 0 <= i < |xs| ==> xs[i] < t
    ensures FitItems(DiffSweptItems(t, xs, ys), DiffItemMarks(t, xs, below, ys))
    decreases t, 0, |xs|
  {
    if xs != [] && ys != [] {
      DiffMarksFit(xs[0], below[0], ys[0]);
      DiffItemMarksFit(t, xs[1..], below[1..], ys[1..]);
    }
  }

  lemma {:induction false} DiffMemberMarksFit(t: Json, ms: seq<Member>, below: seq<Marks>, ns: seq<Member>)
    requires FitMembers(ms, below) && ValuesBelow(ms, t)
    ensures FitMembers(DiffSweptMembers(t, ms, ns), DiffMemberMarks(t, ms, below, ns))
    decreases t, 0, |ms| + |ns|
  {
    if ms != [] && ns != [] {
      if Walk(ms, ns) == 0 {
        DiffMarksFit(ms[0].value, below[0], ns[0].value);
        DiffMemberMarksFit(t, ms[1..], below[1..], ns[1..]);
        FitCons(Member(ms[0].name, DiffSwept(ms[0].value, ns[0].value)),
                DiffMarks(ms[0].value, below[0], ns[0].value),
                DiffSweptMembers(t, ms[1..], ns[1..]), DiffMemberMarks(t, ms[1..], below[1..], ns[1..]));
      } else if Walk(ms, ns) < 0 {
        DiffMemberMarksFit(t, ms[1..], below[1..], ns);
        FitCons(ms[0], below[0], DiffSweptMembers(t, ms[1..], ns), DiffMemberMarks(t, ms[1..], below[1..], ns));
      } else {
        DiffMemberMarksFit(t, ms, below, ns[1..]);
      }
    }
  }

  /** The walk leaves the nodes where it finds them. */
  lemma {:induction false} DiffMemberIds(t: Json, ms: seq<Member>, below: seq<Marks>, ns: seq<Member>)
    requires FitMembers(ms, below) && ValuesBelow(ms, t)
    ensures forall i :: 0 <= i < |ms| ==> DiffMemberMarks(t, ms, below, ns)[i].id == below[i].id
    decreases |ms| + |ns|
  {
    if ms != [] && ns != [] {
      if Walk(ms, ns) == 0 {
        DiffMemberIds(t, ms[1..], below[1..], ns[1..]);
      } else if Walk(ms, ns) < 0 {
        DiffMemberIds(t, ms[1..], below[1..], ns);
      } else {
        DiffMemberIds(t, ms, below, ns[1..]);
      }
    }
  }
}
