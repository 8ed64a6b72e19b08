/** cJSONUtils_Compare: structural comparison through sorted members. */
module Compare {
  import opened Seqs
  import opened CString
  import opened ListSort
  import opened CJson

  lemma SortedValuesSmaller(t: Json)
    requires t.Object?
    ensures forall i :: 0 <= i < |t.members| ==> SortMembers(t.members)[i].value < t
  {
    var ms, r := t.members, SortMembers(t.members);
    SortPermutes(ms, Name);
    forall i | 0 <= i < |ms|
      ensures r[i].value < t
    {
      assert r[i] in multiset(r);
      assert r[i] in ms;
    }
  }

  ghost predicate ValuesBelow(ms: seq<Member>, t: Json) {
    forall i :: 0 <= i < |ms| ==> ms[i].value < t
  }

  /** The error code: 0 for equal, else which mismatch came first. */
  ghost function Cmp(a: Json, b: Json): int
    decreases a, 1, 0
  {
    if Type(a) != Type(b) then -1
    else
      match a
      case Number(i, d) => if i != b.valueint || d != b.valuedouble then -2 else 0
      case String(s) => if s != b.valuestring then -3 else 0
      case Array(items) => CmpItems(a, items, b.items)
      case Object(ms) =>
        SortedValuesSmaller(a);
        CmpMembers(a, SortMembers(ms), SortMembers(b.members))
      case _ => 0
  }

  ghost function CmpItems(t: Json, xs: seq<Json>, ys: seq<Json>): int
    requires forall i :: 0 <= i < |xs| ==> xs[i] < t
    decreases t, 0, |xs|
  {
    if xs == [] || ys == [] then (if xs == [] && ys == [] then 0 else -4)
    else
      var err := Cmp(xs[0], ys[0]);
      if err != 0 then err else CmpItems(t, xs[1..], ys[1..])
  }

  ghost function CmpMembers(t: Json, ms: seq<Member>, ns: seq<Member>): int
    requires ValuesBelow(ms, t)
    decreases t, 0, |ms|
  {
    if ms == [] || ns == [] then (if ms == [] && ns == [] then 0 else -5)
    else if StrCaseCmp(ms[0].name, ns[0].name) != 0 then -6
    else
      var err := Cmp(ms[0].value, ns[0].value);
      if err != 0 then err else CmpMembers(t, ms[1..], ns[1..])
  }

  ghost predicate StrictlySorted(ms: seq<Member>) {
    && DistinctNames(ms)
    && (forall i :: 0 <= i < |ms| ==> WellFormed(ms[i].value))
    && (forall i, j :: 0 <= i < j < |ms| ==> Less(ms[i].name, ms[j].name))
  }

  lemma SortedMembers(ms: seq<Member>)
    requires WellFormed(Object(ms))
    ensures StrictlySorted(SortMembers(ms))
  {
    SortMembersProps(ms);
    var r := SortMembers(ms);
    forall i | 0 <= i < |r|
      ensures WellFormed(r[i].value)
    {
      assert r[i] in ms;
    }
  }

  /** The first key occurs in no later position. */
  lemma HeadKeyAbsent(ms: seq<Member>)
    requires DistinctNames(ms) && ms != []
    ensures Key(ms[0]) !in AbsMembers(ms[1..])
  {
    if Key(ms[0]) in AbsMembers(ms[1..]) {
      var j := EntryOf(ms[1..], Key(ms[0]));
      assert false;
    }
  }

  lemma HeadKeyOnce(ms: seq<Member>)
    requires DistinctNames(ms) && ms != []
    ensures AbsMembers(ms[1..]) == AbsMembers(ms) - {Key(ms[0])}
    ensures Key(ms[0]) in AbsMembers(ms) && AbsMembers(ms)[Key(ms[0])] == Abs(ms[0].value)
  {
    HeadKeyAbsent(ms);
    var tail, k := AbsMembers(ms[1..]), Key(ms[0]);
    assert AbsMembers(ms) == tail[k := Abs(ms[0].value)];
  }

  /** A key below the first name of a sorted list is not in it. */
  lemma SmallKeyAbsent(n: string, ms: seq<Member>)
    requires StrictlySorted(ms) && NulFree(n)
    requires ms != [] ==> Less(n, ms[0].name)
    ensures Fold(n) !in AbsMembers(ms)
  {
    if Fold(n) in AbsMembers(ms) {
      var j := EntryOf(ms, Fold(n));
      CmpTrichotomy(n, ms[j].name);
      if j > 0 { LessTransitive(n, ms[0].name, ms[j].name); }
    }
  }

  lemma {:induction false} CmpMembersIff(t: Json, ms: seq<Member>, ns: seq<Member>)
    requires ValuesBelow(ms, t) && StrictlySorted(ms) && StrictlySorted(ns)
    ensures CmpMembers(t, ms, ns) == 0 <==> AbsMembers(ms) == AbsMembers(ns)
    decreases t, 0, |ms|
  {
    if ms == [] || ns == [] {
      if ms != [] { MemberIn(ms, 0); }
      if ns != [] { MemberIn(ns, 0); }
    } else {
      var m, n := ms[0], ns[0];
      CmpTrichotomy(m.name, n.name);
      HeadKeyOnce(ms);
      HeadKeyOnce(ns);
      if Key(m) == Key(n) {
        CmpIff(m.value, n.value);
        CmpMembersIff(t, ms[1..], ns[1..]);
      } else if Less(m.name, n.name) {
        SmallKeyAbsent(m.name, ns);
      } else {
        SmallKeyAbsent(n.name, ms);
        assert Key(n) in AbsMembers(ns);
      }
    }
  }

  lemma {:induction false} CmpItemsIff(t: Json, xs: seq<Json>, ys: seq<Json>)
    requires forall i :: 0 <= i < |xs| ==> xs[i] < t && WellFormed(xs[i])
    requires forall i :: 0 <= i < |ys| ==> WellFormed(ys[i])
    ensures CmpItems(t, xs, ys) == 0 <==> AbsItems(xs) == AbsItems(ys)
    decreases t, 0, |xs|
  {
    if xs != [] && ys != [] {
      CmpIff(xs[0], ys[0]);
      CmpItemsIff(t, xs[1..], ys[1..]);
      assert AbsItems(xs) == [Abs(xs[0])] + AbsItems(xs[1..]);
      assert AbsItems(ys) == [Abs(ys[0])] + AbsItems(ys[1..]);
      assert AbsItems(xs)[1..] == AbsItems(xs[1..]) && AbsItems(ys)[1..] == AbsItems(ys[1..]);
    } else {
      assert |AbsItems(xs)| == |xs| && |AbsItems(ys)| == |ys|;
    }
  }

  /** Compare returns 0 exactly for trees equal up to member order and case of names. */
  lemma {:induction false} CmpIff(a: Json, b: Json)
    requires WellFormed(a) && WellFormed(b)
    ensures Cmp(a, b) == 0 <==> Abs(a) == Abs(b)
    decreases a, 1, 0
  {
    if Type(a) == Type(b) {
      match a
      case Array(items) => CmpItemsIff(a, items, b.items);
      case Object(ms) =>
        SortedValuesSmaller(a);
        SortedMembers(ms);
        SortedMembers(b.members);
        SortMembersProps(ms);
        SortMembersProps(b.members);
        CmpMembersIff(a, SortMembers(ms), SortMembers(b.members));
      case _ =>
    }
  }

  // ----- the trees after a comparison

  /** `b` is `a` with members of some objects permuted and nothing else changed. */
  ghost predicate Reordered(a: Json, b: Json)
    decreases b
  {
    match b
    case Array(ys) => a.Array? && |a.items| == |ys| && forall i :: 0 <= i < |ys| ==> Reordered(a.items[i], ys[i])
    case Object(ns) =>
      a.Object? && exists mid: seq<Member> ::
        Permuted(a.members, mid, ns) && forall i :: 0 <= i < |ns| ==> Reordered(mid[i].value, ns[i].value)
    case _ => a == b
  }

  ghost predicate Permuted(ms: seq<Member>, mid: seq<Member>, ns: seq<Member>) {
    && multiset(mid) == multiset(ms) && |mid| == |ns|
    && forall i :: 0 <= i < |ns| ==> mid[i].name == ns[i].name
  }

  lemma {:induction false} ReorderedSelf(t: Json)
    ensures Reordered(t, t)
  {
    match t
    case Array(items) =>
      forall i | 0 <= i < |items| ensures Reordered(items[i], items[i]) { ReorderedSelf(items[i]); }
    case Object(ms) =>
      forall i | 0 <= i < |ms| ensures Reordered(ms[i].value, ms[i].value) { ReorderedSelf(ms[i].value); }
      assert Permuted(ms, ms, ms);
    case _ =>
  }

  lemma {:induction false} ReorderedMembersSame(mid: seq<Member>, ns: seq<Member>)
    requires |mid| == |ns| && forall i :: 0 <= i < |ns| ==> mid[i].name == ns[i].name
    requires forall i :: 0 <= i < |ns| ==> Abs(mid[i].value) == Abs(ns[i].value)
    ensures AbsMembers(mid) == AbsMembers(ns)
  {
    if ns != [] { ReorderedMembersSame(mid[1..], ns[1..]); }
  }

  /** Reordering keeps the canonical form and the naming discipline. */
  lemma {:induction false} ReorderedSame(a: Json, b: Json)
    requires WellFormed(a) && Reordered(a, b)
    ensures WellFormed(b) && Abs(a) == Abs(b)
    decreases b
  {
    match b
    case Array(ys) =>
      forall i | 0 <= i < |ys| ensures WellFormed(ys[i]) && Abs(a.items[i]) == Abs(ys[i]) {
        ReorderedSame(a.items[i], ys[i]);
      }
      SameItems(a.items, ys);
    case Object(ns) =>
      var mid: seq<Member> :| Permuted(a.members, mid, ns)
        && forall i :: 0 <= i < |ns| ==> Reordered(mid[i].value, ns[i].value);
      DistinctPermutation(a.members, mid);
      SameMembers(a.members, mid);
      forall i | 0 <= i < |ns| ensures WellFormed(ns[i].value) && Abs(mid[i].value) == Abs(ns[i].value) {
        assert mid[i] in a.members;
        ReorderedSame(mid[i].value, ns[i].value);
      }
      PermutedSame(a.members, mid, ns);
    case _ =>
  }

  lemma PermutedSame(ms: seq<Member>, mid: seq<Member>, ns: seq<Member>)
    requires DistinctNames(ms) && DistinctNames(mid) && Permuted(ms, mid, ns)
    requires forall i :: 0 <= i < |ns| ==> WellFormed(ns[i].value) && Abs(mid[i].value) == Abs(ns[i].value)
    ensures WellFormed(Object(ns)) && AbsMembers(ms) == AbsMembers(ns)
  {
    SameMembers(ms, mid);
    AbsPermutation(ms, mid);
    ReorderedMembersSame(mid, ns);
    assert forall i :: 0 <= i < |ns| ==> Key(ns[i]) == Key(mid[i]);
  }

  lemma SameItems(xs: seq<Json>, ys: seq<Json>)
    requires |xs| == |ys| && forall i :: 0 <= i < |ys| ==> Abs(xs[i]) == Abs(ys[i])
    ensures AbsItems(xs) == AbsItems(ys)
  {
  }

  /** The first tree as a comparison leaves it: the objects it came to are sorted, up to the
      first mismatch. */
  ghost function Swept(a: Json, b: Json): Json
    decreases a, 1, 0
  {
    if Type(a) != Type(b) then a
    else
      match a
      case Array(items) => Array(SweptItems(a, items, b.items))
      case Object(ms) =>
        SortedValuesSmaller(a);
        Object(SweptMembers(a, SortMembers(ms), SortMembers(b.members)))
      case _ => a
  }

  ghost function SweptItems(t: Json, xs: seq<Json>, ys: seq<Json>): (r: seq<Json>)
    requires forall i :: 0 <= i < |xs| ==> xs[i] < t
    ensures |r| == |xs|
    decreases t, 0, |xs|
  {
    if xs == [] || ys == [] then xs
    else [Swept(xs[0], ys[0])] + if Cmp(xs[0], ys[0]) != 0 then xs[1..] else SweptItems(t, xs[1..], ys[1..])
  }

  ghost function SweptMembers(t: Json, ms: seq<Member>, ns: seq<Member>): (r: seq<Member>)
    requires ValuesBelow(ms, t)
    ensures |r| == |ms| && forall i :: 0 <= i < |ms| ==> r[i].name == ms[i].name
    decreases t, 0, |ms|
  {
    if ms == [] || ns == [] || StrCaseCmp(ms[0].name, ns[0].name) != 0 then ms
    else
      [Member(ms[0].name, Swept(ms[0].value, ns[0].value))]
      + if Cmp(ms[0].value, ns[0].value) != 0 then ms[1..] else SweptMembers(t, ms[1..], ns[1..])
  }

  /** Position by position, each entry is a reordering of the one it replaces. */
  ghost predicate ReorderedItems(xs: seq<Json>, ys: seq<Json>) {
    |xs| == |ys| && forall i :: 0 <= i < |xs| ==> Reordered(xs[i], ys[i])
  }

  ghost predicate ReorderedValues(ms: seq<Member>, ns: seq<Member>) {
    |ms| == |ns| && forall i :: 0 <= i < |ms| ==> ms[i].name == ns[i].name && Reordered(ms[i].value, ns[i].value)
  }

  lemma ReorderedItemsSelf(xs: seq<Json>)
    ensures ReorderedItems(xs, xs)
  {
    forall i | 0 <= i < |xs| ensures Reordered(xs[i], xs[i]) { ReorderedSelf(xs[i]); }
  }

  lemma ReorderedValuesSelf(ms: seq<Member>)
    ensures ReorderedValues(ms, ms)
  {
    forall i | 0 <= i < |ms| ensures Reordered(ms[i].value, ms[i].value) { ReorderedSelf(ms[i].value); }
  }

  lemma ReorderedSorted(ms: seq<Member>, ns: seq<Member>)
    requires ReorderedValues(SortMembers(ms), ns)
    ensures Reordered(Object(ms), Object(ns))
  {
    SortPermutes(ms, Name);
    assert Permuted(ms, SortMembers(ms), ns);
  }

  /** One more item swept. */
  lemma SweepItem(t: Json, items: seq<Json>, others: seq<Json>, c: nat, done: seq<Json>, goal: seq<Json>)
    requires c < |items| && c < |others| && forall i :: 0 <= i < |items| ==> items[i] < t
    requires goal == done + SweptItems(t, items[c..], others[c..])
    ensures var next := done + [Swept(items[c], others[c])];
            goal == next + if Cmp(items[c], others[c]) != 0 then items[c + 1..]
                           else SweptItems(t, items[c + 1..], others[c + 1..])
  {
    assert items[c..][1..] == items[c + 1..] && others[c..][1..] == others[c + 1..];
    Assoc(done, [Swept(items[c], others[c])],
          if Cmp(items[c], others[c]) != 0 then items[c + 1..] else SweptItems(t, items[c + 1..], others[c + 1..]));
  }

  lemma SweepMember(t: Json, ms: seq<Member>, ns: seq<Member>, c: nat, done: seq<Member>, goal: seq<Member>)
    requires c < |ms| && c < |ns| && ValuesBelow(ms, t) && StrCaseCmp(ms[c].name, ns[c].name) == 0
    requires goal == done + SweptMembers(t, ms[c..], ns[c..])
    ensures var next := done + [Member(ms[c].name, Swept(ms[c].value, ns[c].value))];
            goal == next + if Cmp(ms[c].value, ns[c].value) != 0 then ms[c + 1..]
                           else SweptMembers(t, ms[c + 1..], ns[c + 1..])
  {
    assert ms[c..][1..] == ms[c + 1..] && ns[c..][1..] == ns[c + 1..];
    Assoc(done, [Member(ms[c].name, Swept(ms[c].value, ns[c].value))],
          if Cmp(ms[c].value, ns[c].value) != 0 then ms[c + 1..] else SweptMembers(t, ms[c + 1..], ns[c + 1..]));
  }

  /** The rest of an object's members, one step on. */
  lemma CmpMember(t: Json, ms: seq<Member>, ns: seq<Member>, c: nat)
    requires c < |ms| && c < |ns| && ValuesBelow(ms, t)
    ensures CmpMembers(t, ms[c..], ns[c..])
         == if StrCaseCmp(ms[c].name, ns[c].name) != 0 then -6
            else if Cmp(ms[c].value, ns[c].value) != 0 then Cmp(ms[c].value, ns[c].value)
            else CmpMembers(t, ms[c + 1..], ns[c + 1..])
    ensures StrCaseCmp(ms[c].name, ns[c].name) != 0 ==> SweptMembers(t, ms[c..], ns[c..]) == ms[c..]
  {
    assert ms[c..][1..] == ms[c + 1..] && ns[c..][1..] == ns[c + 1..];
  }

  lemma ReorderedSet(ns: seq<Member>, ys: seq<Member>, c: nat, y: Json)
    requires ReorderedValues(ns, ys) && c < |ns| && Reordered(ns[c].value, y)
    ensures ReorderedValues(ns, ys[c := Member(ns[c].name, y)])
  {
  }

  /** A comparison changes only the order of members. */
  lemma {:induction false} SweptReordered(a: Json, b: Json)
    ensures Reordered(a, Swept(a, b))
    decreases a, 1, 0
  {
    if Type(a) == Type(b) && a.Array? {
      ItemsReordered(a, a.items, b.items);
    } else if Type(a) == Type(b) && a.Object? {
      SortedValuesSmaller(a);
      MembersReordered(a, SortMembers(a.members), SortMembers(b.members));
      ReorderedSorted(a.members, SweptMembers(a, SortMembers(a.members), SortMembers(b.members)));
    } else {
      ReorderedSelf(a);
    }
  }

  lemma {:induction false} ItemsReordered(t: Json, xs: seq<Json>, ys: seq<Json>)
    requires forall i :: 0 <= i < |xs| ==> xs[i] < t
    ensures ReorderedItems(xs, SweptItems(t, xs, ys))
    decreases t, 0, |xs|
  {
    ReorderedItemsSelf(xs);
    if xs != [] && ys != [] {
      SweptReordered(xs[0], ys[0]);
      ItemsReordered(t, xs[1..], ys[1..]);
    }
  }

  lemma {:induction false} MembersReordered(t: Json, ms: seq<Member>, ns: seq<Member>)
    requires ValuesBelow(ms, t)
    ensures ReorderedValues(ms, SweptMembers(t, ms, ns))
    decreases t, 0, |ms|
  {
    ReorderedValuesSelf(ms);
    if ms != [] && ns != [] {
      SweptReordered(ms[0].value, ns[0].value);
      MembersReordered(t, ms[1..], ns[1..]);
    }
  }

  // ----- which code, and how far the sorting went

  /** Trees of different types, and scalars. */
  lemma CmpScalars(a: Json, b: Json)
    ensures Type(a) != Type(b) ==> Cmp(a, b) == -1 && Swept(a, b) == a
    ensures a.Number? && b.Number? && a != b ==> Cmp(a, b) == -2
    ensures a.String? && b.String? && a != b ==> Cmp(a, b) == -3
    ensures !a.Array? && !a.Object? ==> (Cmp(a, b) == 0 <==> a == b) && Swept(a, b) == a
  {
  }

  /** The items of two arrays agree before position `k`, and not at `k` if both go that far. */
  ghost predicate ItemsAgreeTo(xs: seq<Json>, ys: seq<Json>, k: nat) {
    && k <= |xs| && k <= |ys| && (forall j :: 0 <= j < k ==> Cmp(xs[j], ys[j]) == 0)
    && (k < |xs| && k < |ys| ==> Cmp(xs[k], ys[k]) != 0)
  }

  /** Such arrays: the code of the items that differ, or the one for the length. */
  lemma CmpArrays(xs: seq<Json>, ys: seq<Json>, k: nat)
    requires ItemsAgreeTo(xs, ys, k)
    ensures Cmp(Array(xs), Array(ys))
         == if k < |xs| && k < |ys| then Cmp(xs[k], ys[k]) else if |xs| == |ys| then 0 else -4
  {
    ItemsUpTo(Array(xs), xs, ys, k);
  }

  lemma {:induction false} ItemsUpTo(t: Json, xs: seq<Json>, ys: seq<Json>, k: nat)
    requires (forall i :: 0 <= i < |xs| ==> xs[i] < t) && ItemsAgreeTo(xs, ys, k)
    ensures CmpItems(t, xs, ys)
         == if k < |xs| && k < |ys| then Cmp(xs[k], ys[k]) else if |xs| == |ys| then 0 else -4
    decreases k
  {
    if k > 0 { ItemsUpTo(t, xs[1..], ys[1..], k - 1); }
  }

  /** Compared items are left as their own comparison leaves them, the others as they were. */
  lemma SweptArrays(xs: seq<Json>, ys: seq<Json>, k: nat, j: nat)
    requires ItemsAgreeTo(xs, ys, k) && j < |xs|
    ensures var r := Swept(Array(xs), Array(ys));
            r.Array? && |r.items| == |xs| && r.items[j] == if j <= k && j < |ys| then Swept(xs[j], ys[j]) else xs[j]
  {
    SweptItemsUpTo(Array(xs), xs, ys, k, j);
  }

  lemma {:induction false} SweptItemsUpTo(t: Json, xs: seq<Json>, ys: seq<Json>, k: nat, j: nat)
    requires (forall i :: 0 <= i < |xs| ==> xs[i] < t) && ItemsAgreeTo(xs, ys, k) && j < |xs|
    ensures SweptItems(t, xs, ys)[j] == if j <= k && j < |ys| then Swept(xs[j], ys[j]) else xs[j]
    decreases k
  {
    if k > 0 && j > 0 {
      SweptItemsUpTo(t, xs[1..], ys[1..], k - 1, j - 1);
      SweptItemsTail(t, xs, ys, j);
    } else {
      SweptItemHere(t, xs, ys, k, j);
    }
  }

  lemma SweptItemHere(t: Json, xs: seq<Json>, ys: seq<Json>, k: nat, j: nat)
    requires (forall i :: 0 <= i < |xs| ==> xs[i] < t) && ItemsAgreeTo(xs, ys, k) && j < |xs| && (k == 0 || j == 0)
    ensures SweptItems(t, xs, ys)[j] == if j <= k && j < |ys| then Swept(xs[j], ys[j]) else xs[j]
  {
  }

  lemma SweptItemsTail(t: Json, xs: seq<Json>, ys: seq<Json>, j: nat)
    requires (forall i :: 0 <= i < |xs| ==> xs[i] < t) && 0 < j < |xs| && ys != [] && Cmp(xs[0], ys[0]) == 0
    ensures SweptItems(t, xs, ys)[j] == SweptItems(t, xs[1..], ys[1..])[j - 1]
  {
  }

  predicate SameName(m: Member, n: Member) {
    StrCaseCmp(m.name, n.name) == 0
  }

  /** The members of two lists, each sorted, agree in name and value before position `k`, and
      not at `k` if both go that far. */
  ghost predicate AgreeTo(xs: seq<Member>, ys: seq<Member>, k: nat) {
    && k <= |xs| && k <= |ys|
    && (forall j :: 0 <= j < k ==> SameName(xs[j], ys[j]) && Cmp(xs[j].value, ys[j].value) == 0)
    && (k < |xs| && k < |ys| ==> !SameName(xs[k], ys[k]) || Cmp(xs[k].value, ys[k].value) != 0)
  }

  /** Objects whose sorted members agree up to `k`: a member of another name has another code
      than a member too many. */
  lemma CmpObjects(ms: seq<Member>, ns: seq<Member>, k: nat)
    requires AgreeTo(SortMembers(ms), SortMembers(ns), k)
    ensures var xs, ys := SortMembers(ms), SortMembers(ns);
            Cmp(Object(ms), Object(ns)) ==
              if k < |xs| && k < |ys| then (if !SameName(xs[k], ys[k]) then -6 else Cmp(xs[k].value, ys[k].value))
              else if |xs| == |ys| then 0 else -5
  {
    SortedValuesSmaller(Object(ms));
    MembersUpTo(Object(ms), SortMembers(ms), SortMembers(ns), k);
  }

  lemma {:induction false} MembersUpTo(t: Json, xs: seq<Member>, ys: seq<Member>, k: nat)
    requires ValuesBelow(xs, t) && AgreeTo(xs, ys, k)
    ensures CmpMembers(t, xs, ys)
         == if k < |xs| && k < |ys| then (if !SameName(xs[k], ys[k]) then -6 else Cmp(xs[k].value, ys[k].value))
            else if |xs| == |ys| then 0 else -5
    decreases k
  {
    if k > 0 { MembersUpTo(t, xs[1..], ys[1..], k - 1); }
  }

  /** The first object is left sorted; compared values are left as their own comparison leaves
      them, and nothing is touched behind the first mismatch. */
  lemma SweptObjects(ms: seq<Member>, ns: seq<Member>, k: nat, j: nat)
    requires AgreeTo(SortMembers(ms), SortMembers(ns), k) && j < |ms|
    ensures var xs, ys, r := SortMembers(ms), SortMembers(ns), Swept(Object(ms), Object(ns));
            && r.Object? && |r.members| == |ms| == |xs| && r.members[j].name == xs[j].name
            && r.members[j].value
            == if j < |ys| && (j < k || (j == k && SameName(xs[k], ys[k]))) then Swept(xs[j].value, ys[j].value)
               else xs[j].value
  {
    SortedValuesSmaller(Object(ms));
    SweptUpTo(Object(ms), SortMembers(ms), SortMembers(ns), k, j);
  }

  /** What becomes of the value at position `j`. */
  ghost function SweptValue(xs: seq<Member>, ys: seq<Member>, k: nat, j: nat): Json
    requires AgreeTo(xs, ys, k) && j < |xs|
  {
    if j < |ys| && (j < k || (j == k && SameName(xs[k], ys[k]))) then Swept(xs[j].value, ys[j].value) else xs[j].value
  }

  lemma {:induction false} SweptUpTo(t: Json, xs: seq<Member>, ys: seq<Member>, k: nat, j: nat)
    requires ValuesBelow(xs, t) && AgreeTo(xs, ys, k) && j < |xs|
    ensures SweptMembers(t, xs, ys)[j].value == SweptValue(xs, ys, k, j)
    decreases k
  {
    if k == 0 || j == 0 {
      SweptHere(t, xs, ys, k, j);
    } else {
      AgreeTail(xs, ys, k, j);
      SweptUpTo(t, xs[1..], ys[1..], k - 1, j - 1);
      SweptTail(t, xs, ys, j);
    }
  }

  lemma SweptHere(t: Json, xs: seq<Member>, ys: seq<Member>, k: nat, j: nat)
    requires ValuesBelow(xs, t) && AgreeTo(xs, ys, k) && j < |xs| && (k == 0 || j == 0)
    ensures SweptMembers(t, xs, ys)[j].value == SweptValue(xs, ys, k, j)
  {
  }

  lemma AgreeTail(xs: seq<Member>, ys: seq<Member>, k: nat, j: nat)
    requires AgreeTo(xs, ys, k) && 0 < k && 0 < j < |xs|
    ensures AgreeTo(xs[1..], ys[1..], k - 1)
    ensures SweptValue(xs, ys, k, j) == SweptValue(xs[1..], ys[1..], k - 1, j - 1)
  {
  }

  lemma SweptTail(t: Json, xs: seq<Member>, ys: seq<Member>, j: nat)
    requires ValuesBelow(xs, t) && 0 < j < |xs| && ys != []
    requires SameName(xs[0], ys[0]) && Cmp(xs[0].value, ys[0].value) == 0
    ensures SweptMembers(t, xs, ys)[j] == SweptMembers(t, xs[1..], ys[1..])[j - 1]
  {
  }

  /** The comparison as it runs: objects are sorted in place before their members are
      walked in step, so both trees may come back reordered. */
  method CompareTrees(a: Json, b: Json) returns (err: int, a': Json, b': Json)
    ensures err == Cmp(a, b)
    ensures a' == Swept(a, b) && Reordered(b, b')
    decreases a, 1
  {
    ReorderedSelf(b);
    a', b' := a, b;
    if Type(a) != Type(b) {
      return -1, a, b;
    }
    match a
    case Number(i, d) => err := if i != b.valueint || d != b.valuedouble then -2 else 0;
    case String(s) => err := if s != b.valuestring then -3 else 0;
    case Array(items) =>
      var xs, ys;
      err, xs, ys := CompareItems(a, items, b.items);
      a', b' := Array(xs), Array(ys);
    case Object(ms) =>
      SortedValuesSmaller(a);
      var xs, ys;
      err, xs, ys := CompareMembers(a, SortMembers(ms), SortMembers(b.members));
      ReorderedSorted(b.members, ys);
      a', b' := Object(xs), Object(ys);
    case _ => err := 0;
  }

  method CompareItems(ghost t: Json, items: seq<Json>, others: seq<Json>)
    returns (err: int, xs: seq<Json>, ys: seq<Json>)
    requires forall i :: 0 <= i < |items| ==> items[i] < t
    ensures err == CmpItems(t, items, others)
    ensures xs == SweptItems(t, items, others) && ReorderedItems(others, ys)
    decreases t, 0
  {
    xs, ys := [], others;
    ReorderedItemsSelf(others);
    assert items[0..] == items && others[0..] == others;
    var c := 0;
    while c < |items| && c < |others|
      invariant 0 <= c <= |items| && c <= |others|
      invariant CmpItems(t, items, others) == CmpItems(t, items[c..], others[c..])
      invariant SweptItems(t, items, others) == xs + SweptItems(t, items[c..], others[c..])
      invariant ReorderedItems(others, ys)
      decreases |items| - c
    {
      SweepItem(t, items, others, c, xs, SweptItems(t, items, others));
      assert items[c..][1..] == items[c + 1..] && others[c..][1..] == others[c + 1..];
      var x, y;
      err, x, y := CompareTrees(items[c], others[c]);
      xs, ys := xs + [x], ys[c := y];
      c := c + 1;
      if err != 0 {
        xs := xs + items[c..];
        return;
      }
    }
    xs := xs + items[c..];
    err := if c < |items| || c < |others| then -4 else 0;
  }

  /** The members before position `c` are swept into `xs`, and nothing has been decided. */
  ghost predicate SweptTo(t: Json, ms: seq<Member>, ns: seq<Member>, c: nat, xs: seq<Member>)
    requires c <= |ms| && c <= |ns| && ValuesBelow(ms, t)
  {
    && CmpMembers(t, ms, ns) == CmpMembers(t, ms[c..], ns[c..])
    && SweptMembers(t, ms, ns) == xs + SweptMembers(t, ms[c..], ns[c..])
  }

  lemma SweptEnd(t: Json, ms: seq<Member>, ns: seq<Member>, c: nat, xs: seq<Member>)
    requires c <= |ms| && c <= |ns| && (c == |ms| || c == |ns|) && ValuesBelow(ms, t) && SweptTo(t, ms, ns, c, xs)
    ensures SweptMembers(t, ms, ns) == xs + ms[c..]
    ensures CmpMembers(t, ms, ns) == if c < |ms| || c < |ns| then -5 else 0
  {
  }

  lemma SweptStart(t: Json, ms: seq<Member>, ns: seq<Member>)
    requires ValuesBelow(ms, t)
    ensures SweptTo(t, ms, ns, 0, [])
  {
    assert ms[0..] == ms && ns[0..] == ns;
  }

  /** The pair of members at position `c`. */
  method CompareMember(ghost t: Json, ms: seq<Member>, ns: seq<Member>, c: nat, xs: seq<Member>)
    returns (err: int, xs': seq<Member>, y: Json)
    requires c < |ms| && c < |ns| && ValuesBelow(ms, t) && SweptTo(t, ms, ns, c, xs)
    requires StrCaseCmp(ms[c].name, ns[c].name) == 0
    ensures err == 0 ==> SweptTo(t, ms, ns, c + 1, xs')
    ensures err != 0 ==> CmpMembers(t, ms, ns) == err && SweptMembers(t, ms, ns) == xs' + ms[c + 1..]
    ensures Reordered(ns[c].value, y)
    decreases ms[c].value, 2
  {
    CmpMember(t, ms, ns, c);
    SweepMember(t, ms, ns, c, xs, SweptMembers(t, ms, ns));
    var x;
    err, x, y := CompareTrees(ms[c].value, ns[c].value);
    xs' := xs + [Member(ms[c].name, x)];
  }

  method CompareMembers(ghost t: Json, ms: seq<Member>, ns: seq<Member>)
    returns (err: int, xs: seq<Member>, ys: seq<Member>)
    requires ValuesBelow(ms, t)
    ensures err == CmpMembers(t, ms, ns)
    ensures xs == SweptMembers(t, ms, ns) && ReorderedValues(ns, ys)
    decreases t, 0
  {
    xs, ys := [], ns;
    ReorderedValuesSelf(ns);
    SweptStart(t, ms, ns);
    var c := 0;
    while c < |ms| && c < |ns|
      invariant 0 <= c <= |ms| && c <= |ns|
      invariant SweptTo(t, ms, ns, c, xs)
      invariant ReorderedValues(ns, ys)
      decreases |ms| - c
    {
      if StrCaseCmp(ms[c].name, ns[c].name) != 0 {
        CmpMember(t, ms, ns, c);
        err, xs := -6, xs + ms[c..];
        return;
      }
      var y;
      err, xs, y := CompareMember(t, ms, ns, c, xs);
      ReorderedSet(ns, ys, c, y);
      ys := ys[c := Member(ns[c].name, y)];
      c := c + 1;
      if err != 0 {
        xs := xs + ms[c..];
        return;
      }
    }
    SweptEnd(t, ms, ns, c, xs);
    xs := xs + ms[c..];
    err := if c < |ms| || c < |ns| then -5 else 0;
  }
}
