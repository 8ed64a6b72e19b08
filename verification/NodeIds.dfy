/** No node of a document occurs twice, over every run: where a node is, is definite. */
module NodeIds {
  import opened Option
  import opened ListSort
  import opened CJson
  import opened Pointer
  import opened Patch
  import opened Compare
  import opened Marks
  import opened PatchRun
  import opened PatchCanon

  /** How often a node occurs in a tree, and in a list of trees. */
  ghost function Count(m: Marks, x: Id): nat {
    (if m.id == x then 1 else 0) + CountIn(m.below, x)
  }

  ghost function CountIn(ms: seq<Marks>, x: Id): nat {
    if ms == [] then 0 else Count(ms[0], x) + CountIn(ms[1..], x)
  }

  // ----- lists of trees

  lemma {:induction false} CountConcat(a: seq<Marks>, b: seq<Marks>, x: Id)
    ensures CountIn(a + b, x) == CountIn(a, x) + CountIn(b, x)
  {
    if a == [] {
      assert a + b == b;
    } else {
      assert (a + b)[1..] == a[1..] + b;
      CountConcat(a[1..], b, x);
    }
  }

  lemma CountOne(m: Marks, x: Id)
    ensures CountIn([m], x) == Count(m, x)
  {
    assert [m][1..] == [];
  }

  lemma CountSplit(ms: seq<Marks>, i: nat, x: Id)
    requires i < |ms|
    ensures CountIn(ms, x) == CountIn(ms[..i], x) + Count(ms[i], x) + CountIn(ms[i + 1..], x)
  {
    assert ms == ms[..i] + ([ms[i]] + ms[i + 1..]);
    CountConcat(ms[..i], [ms[i]] + ms[i + 1..], x);
    CountConcat([ms[i]], ms[i + 1..], x);
    CountOne(ms[i], x);
  }

  lemma CountRemoved(ms: seq<Marks>, i: nat, x: Id)
    requires i < |ms|
    ensures CountIn(RemoveAt(ms, i), x) + Count(ms[i], x) == CountIn(ms, x)
  {
    CountSplit(ms, i, x);
    CountConcat(ms[..i], ms[i + 1..], x);
  }

  lemma CountSet(ms: seq<Marks>, i: nat, n: Marks, x: Id)
    requires i < |ms|
    ensures CountIn(ms[i := n], x) + Count(ms[i], x) == CountIn(ms, x) + Count(n, x)
  {
    CountSplit(ms, i, x);
    var r := ms[i := n];
    assert r[..i] == ms[..i] && r[i + 1..] == ms[i + 1..];
    CountSplit(r, i, x);
  }

  lemma CountInserted(ms: seq<Marks>, i: nat, n: Marks, x: Id)
    ensures CountIn(InsertAt(ms, i, n), x) == CountIn(ms, x) + Count(n, x)
  {
    CountOne(n, x);
    if i < |ms| {
      assert ms == ms[..i] + ms[i..];
      CountConcat(ms[..i], ms[i..], x);
      CountConcat(ms[..i] + [n], ms[i..], x);
      CountConcat(ms[..i], [n], x);
    } else {
      CountConcat(ms, [n], x);
    }
  }

  lemma {:induction false} CountPermuted(a: seq<Marks>, b: seq<Marks>, x: Id)
    requires multiset(a) == multiset(b)
    ensures CountIn(a, x) == CountIn(b, x)
    decreases |a|
  {
    SameLength(a, b);
    if a != [] {
      assert a[0] in multiset(b);
      var j :| 0 <= j < |b| && b[j] == a[0];
      RemovedPermutes(a, b, j);
      CountPermuted(a[1..], RemoveAt(b, j), x);
      CountRemoved(b, j, x);
    }
  }

  lemma SameLength<T>(a: seq<T>, b: seq<T>)
    requires multiset(a) == multiset(b)
    ensures |a| == |b|
  {
    assert |multiset(a)| == |a| && |multiset(b)| == |b|;
  }

  lemma RemovedPermutes<T>(a: seq<T>, b: seq<T>, j: nat)
    requires multiset(a) == multiset(b) && a != [] && j < |b| && b[j] == a[0]
    ensures multiset(a[1..]) == multiset(RemoveAt(b, j))
  {
    HeadOut(a);
    OneOut(b, j);
    var r := RemoveAt(b, j);
    assert multiset(a[1..]) == multiset(a) - multiset{a[0]};
    assert multiset(r) == multiset(b) - multiset{b[j]};
  }

  lemma OneOut<T>(b: seq<T>, j: nat)
    requires j < |b|
    ensures multiset(b) == multiset{b[j]} + multiset(RemoveAt(b, j))
  {
    assert b == b[..j] + ([b[j]] + b[j + 1..]);
  }

  /** Rearranging by a permutation of positions permutes. */
  lemma ArrangedCount(below: seq<Marks>, ms: seq<Member>, x: Id)
    requires |below| == |ms| && forall k :: 0 <= k < |ms| ==> Order(ms)[k] < |ms|
    ensures CountIn(Arranged(below, Order(ms)), x) == CountIn(below, x)
  {
    var ids := Positions(|ms|);
    if ms != [] {
      SortPermutes(ids, NameAt(ms));
      ArrangedPermutes(below, Order(ms), ids);
    }
    assert Arranged(below, ids) == below;
    CountPermuted(Arranged(below, Order(ms)), Arranged(below, ids), x);
  }

  lemma {:induction false} ArrangedPermutes(below: seq<Marks>, p: seq<nat>, q: seq<nat>)
    requires multiset(p) == multiset(q)
    requires forall k :: 0 <= k < |p| ==> p[k] < |below|
    requires forall k :: 0 <= k < |q| ==> q[k] < |below|
    ensures multiset(Arranged(below, p)) == multiset(Arranged(below, q))
    decreases |p|
  {
    SameLength(p, q);
    if p != [] {
      assert p[0] in multiset(q);
      var j :| 0 <= j < |q| && q[j] == p[0];
      RemovedPermutes(p, q, j);
      var r := RemoveAt(q, j);
      forall k | 0 <= k < |r|
        ensures r[k] < |below|
      {
        RemovedAt(q, j, k);
      }
      ArrangedPermutes(below, p[1..], r);
      var a, b := Arranged(below, p), Arranged(below, q);
      assert a[1..] == Arranged(below, p[1..]);
      ArrangedRemoved(below, q, j);
      HeadOut(a);
      OneOut(b, j);
    }
  }

  lemma ArrangedRemoved(below: seq<Marks>, q: seq<nat>, j: nat)
    requires j < |q| && forall k :: 0 <= k < |q| ==> q[k] < |below|
    requires forall k :: 0 <= k < |q| - 1 ==> RemoveAt(q, j)[k] < |below|
    ensures Arranged(below, RemoveAt(q, j)) == RemoveAt(Arranged(below, q), j)
  {
    forall k | 0 <= k < |q| - 1
      ensures Arranged(below, RemoveAt(q, j))[k] == RemoveAt(Arranged(below, q), j)[k]
    {
      RemovedAt(q, j, k);
      RemovedAt(Arranged(below, q), j, k);
    }
  }

  // ----- places in a tree

  lemma {:induction false} CountPut(t: Json, m: Marks, loc: Loc, n: Marks, x: Id)
    requires Fits(t, m) && ValidLoc(t, loc)
    ensures Count(PutMark(m, loc, n), x) + Count(MarkAt(m, loc), x) == Count(m, x) + Count(n, x)
    decreases |loc|
  {
    if loc != [] {
      var i := loc[0];
      CountPut(Children(t)[i], m.below[i], loc[1..], n, x);
      CountSet(m.below, i, PutMark(m.below[i], loc[1..], n), x);
    }
  }

  lemma CountWithout(m: Marks, i: nat, x: Id)
    requires i < |m.below|
    ensures Count(Without(m, i), x) + Count(m.below[i], x) == Count(m, x)
  {
    CountRemoved(m.below, i, x);
  }

  lemma CountAdded(node: Json, m: Marks, child: string, v: Marks, x: Id)
    requires Fits(node, m)
    ensures Count(AddedMarks(node, m, child, v), x) <= Count(m, x) + Count(v, x)
  {
    match node
    case Array(items) =>
      CountInserted(m.below, |m.below|, v, x);
      CountInserted(m.below, Position(Atoi(child)), v, x);
    case Object(ms) =>
      var i := FindMember(ms, child);
      if i < |ms| {
        CountWithout(m, i, x);
        CountInserted(Without(m, i).below, |Without(m, i).below|, v, x);
      } else {
        CountInserted(m.below, |m.below|, v, x);
      }
    case _ =>
  }

  // ----- fresh trees

  lemma {:induction false} CountFresh(t: Json, epoch: nat, loc: Loc, x: Id)
    ensures Count(FreshAt(t, epoch, loc), x) <= 1
    ensures Count(FreshAt(t, epoch, loc), x) == 1 ==> x.epoch == epoch && loc <= x.loc
    decreases t
  {
    var m := FreshAt(t, epoch, loc);
    forall i | 0 <= i < |m.below|
      ensures Count(m.below[i], x) <= 1
      ensures Count(m.below[i], x) == 1 ==> x.epoch == epoch && loc + [i] <= x.loc
    {
      if t.Array? {
        CountFresh(t.items[i], epoch, loc + [i], x);
      } else {
        CountFresh(t.members[i].value, epoch, loc + [i], x);
      }
    }
    CountPlaced(m.below, epoch, loc, 0, x);
  }

  /** Trees made for different places have no node in common. */
  lemma {:induction false} CountPlaced(below: seq<Marks>, epoch: nat, loc: Loc, k: nat, x: Id)
    requires forall i :: 0 <= i < |below| ==> Count(below[i], x) <= 1
    requires forall i :: 0 <= i < |below| ==> Count(below[i], x) == 1 ==> x.epoch == epoch && loc + [k + i] <= x.loc
    ensures CountIn(below, x) <= 1
    ensures CountIn(below, x) == 1 ==> x.epoch == epoch && |loc| < |x.loc| && loc <= x.loc && x.loc[|loc|] >= k
    decreases |below|
  {
    if below != [] {
      CountPlaced(below[1..], epoch, loc, k + 1, x);
    }
  }

  // ----- comparisons

  lemma {:induction false} CountSwept(a: Json, m: Marks, b: Json, x: Id)
    requires Fits(a, m)
    ensures Count(SweptMarks(a, m, b), x) == Count(m, x)
    decreases a, 1, 0
  {
    FitsChildren(a, m);
    if Type(a) == Type(b) && a.Array? {
      CountSweptItems(a, a.items, m.below, b.items, x);
    } else if Type(a) == Type(b) && a.Object? {
      SortedValuesSmaller(a);
      SortedFits(a.members, m.below);
      ArrangedCount(m.below, a.members, x);
      CountSweptMembers(a, SortMembers(a.members), Arranged(m.below, Order(a.members)), SortMembers(b.members), x);
    }
  }

  lemma {:induction false} CountSweptItems(t: Json, xs: seq<Json>, below: seq<Marks>, ys: seq<Json>, x: Id)
    requires FitItems(xs, below) && forall i :: 0 <= i < |xs| ==> xs[i] < t
    ensures CountIn(SweptItemMarks(t, xs, below, ys), x) == CountIn(below, x)
    decreases t, 0, |xs|
  {
    if xs != [] && ys != [] {
      CountSwept(xs[0], below[0], ys[0], x);
      CountSweptItems(t, xs[1..], below[1..], ys[1..], x);
      var r := if Cmp(xs[0], ys[0]) != 0 then below[1..] else SweptItemMarks(t, xs[1..], below[1..], ys[1..]);
      assert ([SweptMarks(xs[0], below[0], ys[0])] + r)[1..] == r;
    }
  }

  lemma {:induction false} CountSweptMembers(t: Json, ms: seq<Member>, below: seq<Marks>, ns: seq<Member>, x: Id)
    requires FitMembers(ms, below) && ValuesBelow(ms, t)
    ensures CountIn(SweptMemberMarks(t, ms, below, ns), x) == CountIn(below, x)
    decreases t, 0, |ms|
  {
    if ms != [] && ns != [] {
      CountSwept(ms[0].value, below[0], ns[0].value, x);
      CountSweptMembers(t, ms[1..], below[1..], ns[1..], x);
      var r := if Cmp(ms[0].value, ns[0].value) != 0 then below[1..]
               else SweptMemberMarks(t, ms[1..], below[1..], ns[1..]);
      assert ([SweptMarks(ms[0].value, below[0], ns[0].value)] + r)[1..] == r;
    }
  }

  // ----- nodes and pointers of trees made so far

  /** Every node, and every `prev` of a first node, was made before tree number `e`. */
  ghost predicate Old(m: Marks, e: nat) {
    && m.id.epoch < e && (m.prev.Some? ==> m.prev.value.epoch < e)
    && forall i :: 0 <= i < |m.below| ==> Old(m.below[i], e)
  }

  ghost predicate AllOld(ms: seq<Marks>, e: nat) {
    forall i :: 0 <= i < |ms| ==> Old(ms[i], e)
  }

  lemma {:induction false} OldMore(m: Marks, e: nat)
    requires Old(m, e)
    ensures Old(m, e + 1)
  {
    forall i | 0 <= i < |m.below| ensures Old(m.below[i], e + 1) { OldMore(m.below[i], e); }
  }

  lemma {:induction false} OldCount(m: Marks, e: nat, x: Id)
    requires Old(m, e) && x.epoch >= e
    ensures Count(m, x) == 0
  {
    OldCountIn(m.below, e, x);
  }

  lemma {:induction false} OldCountIn(ms: seq<Marks>, e: nat, x: Id)
    requires x.epoch >= e && forall i :: 0 <= i < |ms| ==> Old(ms[i], e)
    ensures CountIn(ms, x) == 0
  {
    if ms != [] {
      OldCount(ms[0], e, x);
      OldCountIn(ms[1..], e, x);
    }
  }

  lemma {:induction false} OldAt(m: Marks, loc: Loc, e: nat)
    requires Old(m, e)
    ensures Old(MarkAt(m, loc), e)
    decreases |loc|
  {
    if loc != [] && loc[0] < |m.below| { OldAt(m.below[loc[0]], loc[1..], e); }
  }

  lemma {:induction false} OldPut(m: Marks, loc: Loc, n: Marks, e: nat)
    requires Old(m, e) && Old(n, e)
    ensures Old(PutMark(m, loc, n), e)
    decreases |loc|
  {
    if loc != [] && loc[0] < |m.below| { OldPut(m.below[loc[0]], loc[1..], n, e); }
  }

  lemma OldWithout(m: Marks, i: nat, e: nat)
    requires Old(m, e)
    ensures Old(Without(m, i), e)
  {
    if i < |m.below| {
      forall k | 0 <= k < |m.below| - 1 ensures Old(RemoveAt(m.below, i)[k], e) { RemovedAt(m.below, i, k); }
    }
  }

  lemma OldAdded(node: Json, m: Marks, child: string, v: Marks, e: nat)
    requires Old(m, e) && Old(v, e)
    ensures Old(AddedMarks(node, m, child, v), e)
  {
    if node.Object? { OldWithout(m, FindMember(node.members, child), e); }
  }

  lemma {:induction false} OldFresh(t: Json, epoch: nat, loc: Loc)
    ensures Old(FreshAt(t, epoch, loc), epoch + 1)
    decreases t
  {
    var m := FreshAt(t, epoch, loc);
    forall i | 0 <= i < |m.below|
      ensures Old(m.below[i], epoch + 1)
    {
      if t.Array? { OldFresh(t.items[i], epoch, loc + [i]); } else { OldFresh(t.members[i].value, epoch, loc + [i]); }
    }
  }

  lemma {:induction false} OldSwept(a: Json, m: Marks, b: Json, e: nat)
    requires Fits(a, m) && Old(m, e)
    ensures Old(SweptMarks(a, m, b), e)
    decreases a, 1, 0
  {
    FitsChildren(a, m);
    if Type(a) == Type(b) && a.Array? {
      OldSweptItems(a, a.items, m.below, b.items, e);
    } else if Type(a) == Type(b) && a.Object? {
      SortedValuesSmaller(a);
      SortedFits(a.members, m.below);
      OldSweptMembers(a, SortMembers(a.members), Arranged(m.below, Order(a.members)), SortMembers(b.members), e);
    }
  }

  lemma {:induction false} OldSweptItems(t: Json, xs: seq<Json>, below: seq<Marks>, ys: seq<Json>, e: nat)
    requires FitItems(xs, below) && forall i :: 0 <= i < |xs| ==> xs[i] < t && Old(below[i], e)
    ensures forall i :: 0 <= i < |xs| ==> Old(SweptItemMarks(t, xs, below, ys)[i], e)
    decreases t, 0, |xs|
  {
    if xs != [] && ys != [] {
      OldSwept(xs[0], below[0], ys[0], e);
      OldSweptItems(t, xs[1..], below[1..], ys[1..], e);
    }
  }

  lemma {:induction false} OldSweptMembers(t: Json, ms: seq<Member>, below: seq<Marks>, ns: seq<Member>, e: nat)
    requires FitMembers(ms, below) && ValuesBelow(ms, t) && forall i :: 0 <= i < |ms| ==> Old(below[i], e)
    ensures forall i :: 0 <= i < |ms| ==> Old(SweptMemberMarks(t, ms, below, ns)[i], e)
    decreases t, 0, |ms|
  {
    if ms != [] && ns != [] {
      OldSwept(ms[0].value, below[0], ns[0].value, e);
      OldSweptMembers(t, ms[1..], below[1..], ns[1..], e);
    }
  }

  // ----- runs

  /** The marks belong to the tree; its nodes and those lost are all different and were made before. */
  ghost predicate Sound(d: Doc) {
    && d.Valid() && Old(d.marks, d.epoch) && AllOld(d.leaked, d.epoch)
    && forall x :: Count(d.marks, x) + CountIn(d.leaked, x) <= 1
  }

  /** A tree apart from the document, to be put into it. */
  ghost predicate Apart(d: Doc, v: Marks) {
    Old(v, d.epoch) && forall x :: Count(d.marks, x) + CountIn(d.leaked, x) + Count(v, x) <= 1
  }

  lemma FreshSound(t: Json)
    ensures Sound(FreshDoc(t))
  {
    FreshFits(t, 0);
    OldFresh(t, 0, []);
    FreshUnique(t, 0);
  }

  lemma FreshUnique(t: Json, epoch: nat)
    ensures forall x :: Count(Fresh(t, epoch), x) <= 1
    ensures forall x :: Count(Fresh(t, epoch), x) == 1 ==> x.epoch == epoch
  {
    forall x
      ensures Count(Fresh(t, epoch), x) <= 1 && (Count(Fresh(t, epoch), x) == 1 ==> x.epoch == epoch)
    {
      CountFresh(t, epoch, [], x);
    }
  }

  lemma FreshApart(d: Doc, value: Json)
    requires Sound(d)
    ensures Sound(d.(epoch := d.epoch + 1)) && Apart(d.(epoch := d.epoch + 1), Fresh(value, d.epoch))
  {
    OldMore(d.marks, d.epoch);
    forall i | 0 <= i < |d.leaked| ensures Old(d.leaked[i], d.epoch + 1) { OldMore(d.leaked[i], d.epoch); }
    OldFresh(value, d.epoch, []);
    FreshUnique(value, d.epoch);
    forall x
      ensures Count(d.marks, x) + CountIn(d.leaked, x) + Count(Fresh(value, d.epoch), x) <= 1
    {
      if Count(Fresh(value, d.epoch), x) == 1 {
        OldCount(d.marks, d.epoch, x);
        OldCountIn(d.leaked, d.epoch, x);
      }
    }
  }

  /** Taking a node out leaves it apart from what is left. */
  lemma DetachSound(d: Doc, path: string)
    requires Sound(d) && RemoveStep(d, path).Left?
    ensures Sound(RemoveStep(d, path).doc)
    ensures PatchDetach(d.root, path).value.Some? ==> Apart(RemoveStep(d, path).doc, MarksTaken(d, path))
  {
    DetachFits(d, path);
    DetachesSpot(d.root, path);
    var s := SpotOf(d.root, path);
    if s.Some? {
      var loc, i := s.value.loc, s.value.i;
      var m := MarkAt(d.marks, loc);
      FitsAt(d.root, d.marks, loc);
      MarkAtChild(d.root, d.marks, loc, i);
      assert [i][1..] == [];
      OldAt(d.marks, loc, d.epoch);
      OldWithout(m, i, d.epoch);
      OldPut(d.marks, loc, Without(m, i), d.epoch);
      forall x
        ensures Count(MarksLeft(d, path), x) + CountIn(d.leaked, x) + Count(MarksTaken(d, path), x) <= 1
      {
        CountPut(d.root, d.marks, loc, Without(m, i), x);
        CountWithout(m, i, x);
      }
    }
  }

  /** A tree that is lost. */
  lemma LeakSound(d: Doc, v: Marks)
    requires Sound(d) && Apart(d, v)
    ensures Sound(d.(leaked := d.leaked + [v]))
  {
    var leaked := d.leaked + [v];
    assert forall i :: 0 <= i < |leaked| ==> leaked[i] == if i < |d.leaked| then d.leaked[i] else v;
    forall x
      ensures Count(d.marks, x) + CountIn(leaked, x) <= 1
    {
      CountConcat(d.leaked, [v], x);
      CountOne(v, x);
    }
  }

  lemma AddSound(d: Doc, path: string, value: Json, v: Marks)
    requires Sound(d) && Fits(value, v) && Apart(d, v) && AddStep(d, path, value, v).Left?
    ensures Sound(AddStep(d, path, value, v).doc)
  {
    AddFits(d, path, value, v);
    var (parent, child) := SplitPath(path).value;
    if Get(d.root, parent).None? {
      LeakSound(d, v);
    } else {
      GetValid(d.root, parent);
      var loc := Get(d.root, parent).value;
      if At(d.root, loc).Array? || At(d.root, loc).Object? {
        AddBelowSound(d, loc, child, value, v);
      } else {
        LeakSound(d, v);
        PutSame(d.root, loc);
        PutMarkSame(d.root, d.marks, loc);
      }
    }
  }

  lemma AddBelowSound(d: Doc, loc: Loc, child: string, value: Json, v: Marks)
    requires Sound(d) && Apart(d, v) && ValidLoc(d.root, loc) && (At(d.root, loc).Array? || At(d.root, loc).Object?)
    ensures var marks := PutMark(d.marks, loc, AddedMarks(At(d.root, loc), MarkAt(d.marks, loc), child, v));
            Old(marks, d.epoch) && forall x :: Count(marks, x) + CountIn(d.leaked, x) <= 1
  {
    var node, m := At(d.root, loc), MarkAt(d.marks, loc);
    FitsAt(d.root, d.marks, loc);
    OldAt(d.marks, loc, d.epoch);
    OldAdded(node, m, child, v, d.epoch);
    OldPut(d.marks, loc, AddedMarks(node, m, child, v), d.epoch);
    forall x
      ensures Count(PutMark(d.marks, loc, AddedMarks(node, m, child, v)), x) + CountIn(d.leaked, x) <= 1
    {
      CountPut(d.root, d.marks, loc, AddedMarks(node, m, child, v), x);
      CountAdded(node, m, child, v, x);
    }
  }

  lemma AddFreshSound(d: Doc, path: string, value: Json)
    requires Sound(d) && AddFresh(d, path, value).Left?
    ensures Sound(AddFresh(d, path, value).doc)
  {
    var later, v := d.(epoch := d.epoch + 1), Fresh(value, d.epoch);
    FreshApart(d, value);
    FreshFits(value, d.epoch);
    AddSound(later, path, value, v);
  }

  lemma MoveSound(d: Doc, from: string, path: string)
    requires Sound(d) && MoveStep(d, from, path).Left?
    ensures Sound(MoveStep(d, from, path).doc)
  {
    DetachSound(d, from);
    DetachFits(d, from);
    var t := PatchDetach(d.root, from).value;
    if t.Some? { AddSound(RemoveStep(d, from).doc, path, t.value, MarksTaken(d, from)); }
  }

  lemma ReplaceSound(d: Doc, path: string, value: Option<Json>)
    requires Sound(d) && ReplaceStep(d, path, value).Left?
    ensures Sound(ReplaceStep(d, path, value).doc)
  {
    DetachSound(d, path);
    if value.Some? { AddFreshSound(RemoveStep(d, path).doc, path, value.value); }
  }

  lemma CopySound(d: Doc, from: string, path: string)
    requires Sound(d) && CopyStep(d, from, path).Left?
    ensures Sound(CopyStep(d, from, path).doc)
  {
    if Get(d.root, from).Some? {
      GetValid(d.root, from);
      AddFreshSound(d, path, At(d.root, Get(d.root, from).value));
    }
  }

  lemma EditSound(d: Doc, patch: Json)
    requires Sound(d) && EditStep(d, patch).Left?
    ensures Sound(EditStep(d, patch).doc)
  {
    var op, path, from, value := Field(patch, "op"), Field(patch, "path"), Field(patch, "from"), Field(patch, "value");
    if op.Some? && path.Some? && op.value.String? && path.value.String? {
      var p, o := path.value.valuestring, op.value.valuestring;
      if o == "remove" {
        DetachSound(d, p);
      } else if o == "replace" {
        ReplaceSound(d, p, value);
      } else if o == "add" && value.Some? {
        AddFreshSound(d, p, value.value);
      } else if o == "move" && from.Some? {
        MoveSound(d, from.value.valuestring, p);
      } else if o == "copy" && from.Some? {
        CopySound(d, from.value.valuestring, p);
      }
    }
  }

  lemma TestSound(d: Doc, patch: Json)
    requires Sound(d) && TestStep(d, patch).Left?
    ensures Sound(TestStep(d, patch).doc)
  {
    TestFits(d, patch);
    var p, v := Field(patch, "path").value.valuestring, Field(patch, "value").value;
    GetValid(d.root, p);
    var loc := Get(d.root, p).value;
    var node, m := At(d.root, loc), MarkAt(d.marks, loc);
    FitsAt(d.root, d.marks, loc);
    OldAt(d.marks, loc, d.epoch);
    OldSwept(node, m, v, d.epoch);
    OldPut(d.marks, loc, SweptMarks(node, m, v), d.epoch);
    forall x
      ensures Count(PutMark(d.marks, loc, SweptMarks(node, m, v)), x) + CountIn(d.leaked, x) <= 1
    {
      CountPut(d.root, d.marks, loc, SweptMarks(node, m, v), x);
      CountSwept(node, m, v, x);
    }
  }

  /** Over every run no node comes to occur twice, be it lost or not, and no pointer names a node still to be made. */
  lemma {:induction false} RunSound(d: Doc, patches: seq<Json>)
    requires Sound(d) && RunAll(d, patches).Left?
    ensures Sound(RunAll(d, patches).doc)
    decreases |patches|
  {
    if patches != [] {
      if IsTest(patches[0]) { TestSound(d, patches[0]); } else { EditSound(d, patches[0]); }
      var r := RunPatch(d, patches[0]);
      if r.code == 0 { RunSound(r.doc, patches[1..]); }
    }
  }

  // ----- nodes that are lost

  lemma {:induction false} HoldsCounts(m: Marks, p: Id)
    requires Holds(m, p)
    ensures CountIn(m.below, p) >= 1
  {
    var i :| 0 <= i < |m.below| && (m.below[i].id == p || Holds(m.below[i], p));
    if m.below[i].id != p { HoldsCounts(m.below[i], p); }
    CountSplit(m.below, i, p);
  }

  lemma LostCounts(leaked: seq<Marks>, p: Id)
    requires Lost(leaked, p)
    ensures CountIn(leaked, p) >= 1
  {
    var i :| 0 <= i < |leaked| && (leaked[i].id == p || Holds(leaked[i], p));
    if leaked[i].id != p { HoldsCounts(leaked[i], p); }
    CountSplit(leaked, i, p);
  }

  lemma {:induction false} CountBelow(t: Json, m: Marks, loc: Loc, x: Id)
    requires Fits(t, m) && ValidLoc(t, loc)
    ensures Count(MarkAt(m, loc), x) <= Count(m, x)
    decreases |loc|
  {
    if loc != [] {
      CountBelow(Children(t)[loc[0]], m.below[loc[0]], loc[1..], x);
      CountSplit(m.below, loc[0], x);
    }
  }

  /** Taking out a first node whose `prev` has been lost damages nothing. */
  lemma LostIsHarmless(d: Doc, loc: Loc)
    requires Sound(d) && ValidLoc(d.root, loc)
    requires var m := MarkAt(d.marks, loc); m.prev.Some? && Lost(d.leaked, m.prev.value)
    ensures Harm(d, MarkAt(d.marks, loc), None) == None
  {
    var m := MarkAt(d.marks, loc);
    var p := m.prev.value;
    LostCounts(d.leaked, p);
    CountBelow(d.root, d.marks, loc, p);
    assert Count(d.marks, p) + CountIn(d.leaked, p) <= 1;
    if Holds(d.marks, p) { HoldsCounts(d.marks, p); }
    forall i | 1 <= i < |m.below|
      ensures m.below[i].id != p
    {
      CountSplit(m.below, i, p);
    }
  }

  /** A move below a node that is no container returns 0 and loses the node moved. */
  lemma MoveLoses(d: Doc, from: string, p: string, name: string)
    requires RemoveStep(d, from).Left? && PatchDetach(d.root, from).value.Some?
    requires var root := PatchDetach(d.root, from).root;
             && Get(root, p).Some? && ValidLoc(root, Get(root, p).value)
             && !At(root, Get(root, p).value).Array? && !At(root, Get(root, p).value).Object?
    ensures var r := MoveStep(d, from, p + "/" + Encode(name));
            r.Left? && r.code == 0 && Lost(r.doc.leaked, MarksTaken(d, from).id)
  {
    SplitPathText(p, name);
    var leaked := d.leaked + [MarksTaken(d, from)];
    assert leaked[|d.leaked|] == MarksTaken(d, from);
  }

  /** So a first node that points back to it can then be taken out. */
  lemma MoveLosesThenRemove(d: Doc, from: string, p: string, name: string, q: string, s: Spot)
    requires Sound(d) && RemoveStep(d, from).Left? && PatchDetach(d.root, from).value.Some?
    requires var root := PatchDetach(d.root, from).root;
             && Get(root, p).Some? && ValidLoc(root, Get(root, p).value)
             && !At(root, Get(root, p).value).Array? && !At(root, Get(root, p).value).Object?
    requires MoveStep(d, from, p + "/" + Encode(name)).Left?
    requires var e := MoveStep(d, from, p + "/" + Encode(name)).doc;
             SpotOf(e.root, q) == Some(s) && s.i == 0 && MarkAt(e.marks, s.loc).prev == Some(MarksTaken(d, from).id)
    ensures var e := MoveStep(d, from, p + "/" + Encode(name)).doc;
            RemoveStep(e, q).Left? && RemoveStep(e, q).doc.root == PatchDetach(e.root, q).root
  {
    MoveLoses(d, from, p, name);
    MoveSound(d, from, p + "/" + Encode(name));
    LostIsHarmless(MoveStep(d, from, p + "/" + Encode(name)).doc, s.loc);
  }

  // ----- nodes that are freed

  lemma {:induction false} EndsCounts(m: Marks, p: Id)
    requires EndsList(m, p)
    ensures CountIn(m.below, p) >= 1
  {
    var last := |m.below| - 1;
    if m.below != [] && m.below[last].id == p {
      CountSplit(m.below, last, p);
    } else {
      var i :| 0 <= i < |m.below| && EndsList(m.below[i], p);
      EndsCounts(m.below[i], p);
      CountSplit(m.below, i, p);
    }
  }

  /** A `prev` that names no node of the document and none that has been lost is freed memory, and
      taking the first node out writes to it. */
  lemma NowhereIsFreed(d: Doc, loc: Loc, p: Id)
    requires d.Valid() && ValidLoc(d.root, loc) && MarkAt(d.marks, loc).prev == Some(p)
    requires Count(d.marks, p) == 0 && CountIn(d.leaked, p) == 0
    ensures Harm(d, MarkAt(d.marks, loc), None) == Some(Freed)
  {
    var m := MarkAt(d.marks, loc);
    CountBelow(d.root, d.marks, loc, p);
    if Holds(d.marks, p) { HoldsCounts(d.marks, p); }
    if EndsList(d.marks, p) { EndsCounts(d.marks, p); }
    if Lost(d.leaked, p) { LostCounts(d.leaked, p); }
    forall i | 1 <= i < |m.below|
      ensures m.below[i].id != p
    {
      CountSplit(m.below, i, p);
    }
  }

  /** When the node that a first node points back to is removed, and then the first node, freed
      memory is written. */
  lemma RemoveThenRemove(d: Doc, from: string, q: string, s: Spot)
    requires Sound(d) && RemoveStep(d, from).Left? && PatchDetach(d.root, from).value.Some?
    requires var e := RemoveStep(d, from).doc;
             SpotOf(e.root, q) == Some(s) && s.i == 0 && MarkAt(e.marks, s.loc).prev == Some(MarksTaken(d, from).id)
    ensures RemoveStep(RemoveStep(d, from).doc, q) == Corrupted(Freed)
  {
    var e, v := RemoveStep(d, from).doc, MarksTaken(d, from);
    DetachSound(d, from);
    assert Apart(e, v) && Count(v, v.id) >= 1;
    assert Count(e.marks, v.id) + CountIn(e.leaked, v.id) + Count(v, v.id) <= 1;
    NowhereIsFreed(e, s.loc, v.id);
  }
}
