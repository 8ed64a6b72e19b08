/** Runs with tests: what a passing test does to every list below its path, and which runs stay
    harmless. */
module TestRuns {
  import opened Seqs
  import opened Option
  import opened CString
  import opened CJson
  import opened Pointer
  import opened Patch
  import opened PatchCanon
  import opened Compare
  import opened Marks
  import opened PatchRun
  import opened PatchSafety

  // ----- a comparison that ends with 0 has come to every node

  lemma {:induction false} SweptItemAt(t: Json, xs: seq<Json>, below: seq<Marks>, ys: seq<Json>, i: nat)
    requires FitItems(xs, below) && (forall k :: 0 <= k < |xs| ==> xs[k] < t)
    requires i < |xs| && CmpItems(t, xs, ys) == 0
    ensures i < |ys| && Cmp(xs[i], ys[i]) == 0
    ensures SweptItems(t, xs, ys)[i] == Swept(xs[i], ys[i])
    ensures SweptItemMarks(t, xs, below, ys)[i] == SweptMarks(xs[i], below[i], ys[i])
    decreases |xs|
  {
    if i > 0 { SweptItemAt(t, xs[1..], below[1..], ys[1..], i - 1); }
  }

  lemma {:induction false} SweptMemberAt(t: Json, ms: seq<Member>, ns: seq<Member>, i: nat)
    requires ValuesBelow(ms, t) && i < |ms| && CmpMembers(t, ms, ns) == 0
    ensures i < |ns| && Cmp(ms[i].value, ns[i].value) == 0
    ensures SweptMembers(t, ms, ns)[i] == Member(ms[i].name, Swept(ms[i].value, ns[i].value))
    decreases |ms|
  {
    if i > 0 { SweptMemberAt(t, ms[1..], ns[1..], i - 1); }
  }

  lemma {:induction false} SweptMemberMarkAt(t: Json, ms: seq<Member>, below: seq<Marks>, ns: seq<Member>, i: nat)
    requires FitMembers(ms, below) && ValuesBelow(ms, t) && i < |ms| && CmpMembers(t, ms, ns) == 0
    ensures i < |ns| && SweptMemberMarks(t, ms, below, ns)[i] == SweptMarks(ms[i].value, below[i], ns[i].value)
    decreases |ms|
  {
    if i > 0 { SweptMemberMarkAt(t, ms[1..], below[1..], ns[1..], i - 1); }
  }

  /** The node `loc` leads to in `a` is at `there` after the comparison, compared with `b`. */
  ghost predicate Came(a: Json, m: Marks, loc: Loc, a': Json, m': Marks, there: Loc, b: Json)
    requires Fits(a, m)
  {
    && ValidLoc(a, loc) && ValidLoc(a', there)
    && Fits(At(a, loc), MarkAt(m, loc)) && Cmp(At(a, loc), b) == 0
    && At(a', there) == Swept(At(a, loc), b) && MarkAt(m', there) == SweptMarks(At(a, loc), MarkAt(m, loc), b)
  }

  lemma CameBelow(a: Json, m: Marks, i: nat, loc: Loc, a': Json, m': Marks, k: nat, there: Loc, b: Json)
    requires Fits(a, m) && i < |Children(a)| && k < |Children(a')| && |m'.below| == |Children(a')|
    requires Came(Children(a)[i], m.below[i], loc, Children(a')[k], m'.below[k], there, b)
    ensures Came(a, m, [i] + loc, a', m', [k] + there, b)
  {
    assert ([i] + loc)[1..] == loc && ([k] + there)[1..] == there;
  }

  /** A member keeps its name and gets its place in the sorted list. */
  lemma SortedPlace(ms: seq<Member>, name: string) returns (k: nat)
    requires DistinctNames(ms) && NulFree(name) && FindMember(ms, name) < |ms|
    ensures k < |ms| && Order(ms)[k] == FindMember(ms, name) && SortMembers(ms)[k] == ms[FindMember(ms, name)]
    ensures FindMember(SortMembers(ms), name) == k
  {
    var i := FindMember(ms, name);
    OrderOnto(ms, i);
    OrderOf(ms, ms, Name);
    k :| 0 <= k < |ms| && Order(ms)[k] == i;
    SortMembersProps(ms);
    FindMemberByKey(ms, name);
    var r := SortMembers(ms);
    FindMemberByKey(r, name);
    CmpTrichotomy(r[k].name, name);
    var f := FindMember(r, name);
    CmpTrichotomy(r[f].name, name);
  }

  lemma SweptSelect(a: Json, m: Marks, v: Json, name: string) returns (k: nat, w: Json)
    requires Fits(a, m) && WellFormed(a) && NulFree(name) && a.Object?
    requires Cmp(a, v) == 0 && FindMember(a.members, name) < |a.members|
    ensures var i, a', m' := FindMember(a.members, name), Swept(a, v), SweptMarks(a, m, v);
            && a'.Object? && k == FindMember(a'.members, name) < |a'.members| && k < |m'.below|
            && Cmp(a.members[i].value, w) == 0
            && a'.members[k].value == Swept(a.members[i].value, w)
            && i < |m.below| && Fits(a.members[i].value, m.below[i])
            && m'.below[k] == SweptMarks(a.members[i].value, m.below[i], w)
  {
    var ms, ns := SortMembers(a.members), SortMembers(v.members);
    FitsChildren(a, m);
    SortedValuesSmaller(a);
    SortedFits(a.members, m.below);
    k := SortedPlace(a.members, name);
    SweptMemberAt(a, ms, ns, k);
    SweptMemberMarkAt(a, ms, Arranged(m.below, Order(a.members)), ns, k);
    w := ns[k].value;
    SameFind(ms, SweptMembers(a, ms, ns), name);
  }

  /** The child a step selects is selected afterwards too, swept against some child of `v`. */
  lemma SweptChild(a: Json, m: Marks, v: Json, s: Step) returns (k: nat, w: Json)
    requires Fits(a, m) && WellFormed(a) && NulFreeSteps([s])
    requires Cmp(a, v) == 0 && Select(a, s) < |Children(a)|
    ensures var i, a', m' := Select(a, s), Swept(a, v), SweptMarks(a, m, v);
            && k == Select(a', s) < |Children(a')| == |m'.below|
            && Cmp(Children(a)[i], w) == 0 && Children(a')[k] == Swept(Children(a)[i], w)
            && m'.below[k] == SweptMarks(Children(a)[i], m.below[i], w)
  {
    SweptFits(a, m, v);
    if a.Array? {
      FitsChildren(a, m);
      k := s.i;
      SweptItemAt(a, a.items, m.below, v.items, k);
      w := v.items[k];
    } else {
      assert NulFree(s.name) by { assert [s][0].Fld?; }
      k, w := SweptSelect(a, m, v, s.name);
    }
  }

  lemma ResolveAlong(t: Json, steps: seq<Step>)
    requires steps != [] && Select(t, steps[0]) < |Children(t)|
    ensures Resolve(t, steps) == Prepend(Select(t, steps[0]), Resolve(Children(t)[Select(t, steps[0])], steps[1..]))
  {
  }

  /** After a comparison that ends with 0 the path to a node still leads to that node, and its list
      is the one a comparison of the node itself leaves. */
  lemma {:induction false} SweptResolve(a: Json, m: Marks, v: Json, steps: seq<Step>) returns (there: Loc, b: Json)
    requires Fits(a, m) && WellFormed(a) && NulFreeSteps(steps)
    requires Cmp(a, v) == 0 && Resolve(a, steps).Some?
    ensures Resolve(Swept(a, v), steps) == Some(there)
    ensures Came(a, m, Resolve(a, steps).value, Swept(a, v), SweptMarks(a, m, v), there, b)
    decreases |steps|
  {
    if steps == [] { return [], v; }
    var i := Select(a, steps[0]);
    WellFormedChild(a, i);
    assert NulFreeSteps([steps[0]]) && NulFreeSteps(steps[1..]);
    var k, w := SweptChild(a, m, v, steps[0]);
    there, b := SweptResolve(Children(a)[i], m.below[i], w, steps[1..]);
    CameBelow(a, m, i, Resolve(Children(a)[i], steps[1..]).value, Swept(a, v), SweptMarks(a, m, v), k, there, b);
    ResolveAlong(a, steps);
    ResolveAlong(Swept(a, v), steps);
    there := [k] + there;
  }

  // ----- locations in two parts

  lemma {:induction false} ResolveConcat(t: Json, p: seq<Step>, q: seq<Step>)
    requires Resolve(t, p).Some? && ValidLoc(t, Resolve(t, p).value)
    ensures Resolve(t, p + q)
         == match Resolve(At(t, Resolve(t, p).value), q)
            case None => None
            case Some(loc) => Some(Resolve(t, p).value + loc)
    decreases |p|
  {
    if p == [] {
      assert p + q == q;
      assert Resolve(t, q).Some? ==> [] + Resolve(t, q).value == Resolve(t, q).value;
    } else {
      var i := Select(t, p[0]);
      var rest := Resolve(Children(t)[i], p[1..]).value;
      assert (p + q)[1..] == p[1..] + q && Resolve(t, p).value == [i] + rest;
      assert ([i] + rest)[1..] == rest;
      ResolveConcat(Children(t)[i], p[1..], q);
      var more := Resolve(At(t, Resolve(t, p).value), q);
      if more.Some? { Assoc([i], rest, more.value); }
    }
  }

  lemma {:induction false} AtConcat(t: Json, m: Marks, loc: Loc, more: Loc)
    requires Fits(t, m) && ValidLoc(t, loc) && ValidLoc(At(t, loc), more)
    ensures ValidLoc(t, loc + more) && At(t, loc + more) == At(At(t, loc), more)
    ensures MarkAt(m, loc + more) == MarkAt(MarkAt(m, loc), more)
    decreases |loc|
  {
    if loc == [] {
      assert loc + more == more;
    } else {
      assert (loc + more)[1..] == loc[1..] + more;
      AtConcat(Children(t)[loc[0]], m.below[loc[0]], loc[1..], more);
    }
  }

  // ----- a test and then a removal below it

  /** A "test" of the node at `p` against `v`, and a "remove" of the member `name` at `p`. */
  ghost predicate Tests(patch: Json, p: string, v: Json) {
    IsTest(patch) && Field(patch, "path") == Some(String(p)) && Field(patch, "value") == Some(v)
  }

  ghost predicate Removes(patch: Json, p: string, name: string) {
    && Field(patch, "op") == Some(String("remove"))
    && Field(patch, "path") == Some(String(p + "/" + Encode(name)))
  }

  /** A test, against `v`, of the node a path leads to in a document without marks. */
  ghost predicate TestOf(d: Doc, a: Json, p: seq<Step>, v: Json, loc: Loc) {
    && d.Valid() && Clear(d.marks) && WellFormed(d.root) && NulFreeSteps(p)
    && Resolve(d.root, p) == Some(loc) && ValidLoc(d.root, loc) && Tests(a, PathText(p), v)
  }

  /** The object with the given members, at or below a node. */
  ghost predicate ObjectAt(node: Json, q: seq<Step>, here: Loc, ms: seq<Member>) {
    && NulFreeSteps(q) && Resolve(node, q) == Some(here)
    && ValidLoc(node, here) && At(node, here) == Object(ms)
  }

  /** The document such a test leaves. */
  lemma Tested(d: Doc, a: Json, p: seq<Step>, v: Json, loc: Loc)
    requires TestOf(d, a, p, v, loc)
    ensures var node, m, r := At(d.root, loc), MarkAt(d.marks, loc), RunPatch(d, a);
            && Fits(node, m) && WellFormed(node) && r.Left? && r.code == Cmp(node, v)
            && WellFormed(r.doc.root) && Resolve(r.doc.root, p) == Some(loc)
            && ValidLoc(r.doc.root, loc) && At(r.doc.root, loc) == Swept(node, v)
            && MarkAt(r.doc.marks, loc) == SweptMarks(node, m, v)
  {
    ResolveAbs(d.root, p);
    GetResolves(d.root, p);
    var node, m := At(d.root, loc), MarkAt(d.marks, loc);
    FitsAt(d.root, d.marks, loc);
    SweptReordered(node, v);
    ReorderedSame(node, Swept(node, v));
    PutAbs(d.root, p, Swept(node, v));
    AtPut(d.root, d.marks, loc, Swept(node, v), SweptMarks(node, m, v));
  }

  /** What a removal meets: a cycle if the member is the one that sorting brings to the front. */
  ghost predicate Meets(r: Result, ms: seq<Member>, name: string) {
    match r
    case Corrupted(damage) => damage == Loop && MovesToFront(ms, name)
    case _ => !MovesToFront(ms, name)
  }

  lemma CmpObject(ms: seq<Member>, b: Json)
    requires Cmp(Object(ms), b) == 0
    ensures b.Object?
  {
  }

  lemma SweptRemoval(r: Doc, p: seq<Step>, loc: Loc, ms: seq<Member>, k: Marks, b: Json, name: string)
    requires WellFormed(r.root) && NulFreeSteps(p) && Resolve(r.root, p) == Some(loc) && ValidLoc(r.root, loc)
    requires Fits(Object(ms), k) && k.prev.None? && DistinctNames(ms) && NulFree(name) && b.Object?
    requires At(r.root, loc) == Swept(Object(ms), b) && MarkAt(r.marks, loc) == SweptMarks(Object(ms), k, b)
    ensures Meets(RemoveStep(r, PathText(p) + "/" + Encode(name)), ms, name)
  {
    GetResolves(r.root, p);
    SweptObject(r, ms, k, b, name);
    RemovalMeets(r, PathText(p), loc, name);
  }

  /** Where an object at or below the tested node is after a passing test, and what it became. */
  lemma BelowTested(d: Doc, a: Json, p: seq<Step>, v: Json, loc: Loc, q: seq<Step>, here: Loc, ms: seq<Member>)
    returns (there: Loc, b: Json)
    requires TestOf(d, a, p, v, loc) && ObjectAt(At(d.root, loc), q, here, ms)
    requires Cmp(At(d.root, loc), v) == 0
    ensures RunPatch(d, a).Left? && b.Object?
    ensures var r, k := RunPatch(d, a).doc, MarkAt(MarkAt(d.marks, loc), here);
            && Resolve(r.root, p + q) == Some(loc + there) && ValidLoc(r.root, loc + there)
            && Fits(Object(ms), k)
            && At(r.root, loc + there) == Swept(Object(ms), b)
            && MarkAt(r.marks, loc + there) == SweptMarks(Object(ms), k, b)
  {
    Tested(d, a, p, v, loc);
    var r, node, m := RunPatch(d, a).doc, At(d.root, loc), MarkAt(d.marks, loc);
    there, b := SweptResolve(node, m, v, q);
    ResolveConcat(r.root, p, q);
    AtConcat(r.root, r.marks, loc, there);
    CmpObject(ms, b);
  }

  /** A passing test, and the removal of a member of an object at or below the tested node. */
  lemma RemovalBelow(d: Doc, a: Json, p: seq<Step>, v: Json, loc: Loc,
                     q: seq<Step>, here: Loc, ms: seq<Member>, name: string)
    requires TestOf(d, a, p, v, loc) && ObjectAt(At(d.root, loc), q, here, ms) && NulFree(name)
    requires Cmp(At(d.root, loc), v) == 0
    ensures RunPatch(d, a).Left?
    ensures Meets(RemoveStep(RunPatch(d, a).doc, PathText(p + q) + "/" + Encode(name)), ms, name)
  {
    Tested(d, a, p, v, loc);
    var there, b := BelowTested(d, a, p, v, loc, q, here, ms);
    ClearAt(d.marks, loc);
    ClearAt(MarkAt(d.marks, loc), here);
    WellFormedAt(At(d.root, loc), here);
    SweptRemoval(RunPatch(d, a).doc, p + q, loc + there, ms, MarkAt(MarkAt(d.marks, loc), here), b, name);
  }

  /** The two patches as a run, for a test that passes or not: the removal makes the list a cycle
      exactly when the test passes and sorting brings the member to the front of its object. */
  lemma TestThenRemoveBelow(d: Doc, a: Json, p: seq<Step>, v: Json, loc: Loc,
                            b: Json, q: seq<Step>, here: Loc, ms: seq<Member>, name: string)
    requires TestOf(d, a, p, v, loc) && ObjectAt(At(d.root, loc), q, here, ms) && NulFree(name)
    requires Removes(b, PathText(p + q), name)
    ensures match RunAll(d, [a, b])
            case Corrupted(damage) => damage == Loop && Cmp(At(d.root, loc), v) == 0 && MovesToFront(ms, name)
            case _ => !(Cmp(At(d.root, loc), v) == 0 && MovesToFront(ms, name))
  {
    Tested(d, a, p, v, loc);
    RunPair(d, a, b);
    if Cmp(At(d.root, loc), v) == 0 {
      RemovalBelow(d, a, p, v, loc, q, here, ms, name);
      RemovesIsStep(RunPatch(d, a).doc, b, PathText(p + q), name);
    }
  }

  lemma RemovesIsStep(d: Doc, b: Json, p: string, name: string)
    requires d.Valid() && Removes(b, p, name)
    ensures RunPatch(d, b) == RemoveStep(d, p + "/" + Encode(name))
  {
  }

  // ----- runs of careful tests

  /** Every object at or below the node a test is about has its least name first. */
  ghost predicate Careful(d: Doc, patch: Json) {
    IsTest(patch) && Field(patch, "path").value.String? ==>
      var p := Field(patch, "path").value.valuestring;
      GetValid(d.root, p);
      Get(d.root, p).Some? ==> LeastFirstAll(At(d.root, Get(d.root, p).value))
  }

  ghost predicate CarefulRun(d: Doc, patches: seq<Json>)
    requires d.Valid()
    decreases |patches|
  {
    patches == [] ||
    (&& Careful(d, patches[0])
     && var r := RunPatch(d, patches[0]);
        (r.Left? && r.code == 0 ==> CarefulRun(r.doc, patches[1..])))
  }

  lemma CarefulTest(d: Doc, a: Json)
    requires d.Valid() && Clear(d.marks) && IsTest(a) && Careful(d, a)
    ensures Harmless(RunPatch(d, a))
  {
    if RunPatch(d, a).Left? {
      var p, v := Field(a, "path").value.valuestring, Field(a, "value").value;
      GetValid(d.root, p);
      var loc := Get(d.root, p).value;
      FitsAt(d.root, d.marks, loc);
      ClearAt(d.marks, loc);
      SweptClear(At(d.root, loc), MarkAt(d.marks, loc), v);
      ClearPut(d.marks, loc, SweptMarks(At(d.root, loc), MarkAt(d.marks, loc), v));
    }
  }

  /** A run all of whose tests are careful damages nothing, whatever else is in it. */
  lemma {:induction false} CarefulRunIsHarmless(d: Doc, patches: seq<Json>)
    requires d.Valid() && Clear(d.marks) && CarefulRun(d, patches)
    ensures Harmless(RunAll(d, patches))
    decreases |patches|
  {
    if patches != [] {
      if IsTest(patches[0]) { CarefulTest(d, patches[0]); } else { ClearEdit(d, patches[0]); }
      var r := RunPatch(d, patches[0]);
      if r.Left? && r.code == 0 { CarefulRunIsHarmless(r.doc, patches[1..]); }
    }
  }

  // ----- which tests are harmless

  /** An object whose least name is not its first is somewhere below. */
  lemma {:induction false} Disordered(t: Json) returns (steps: seq<Step>, loc: Loc, ms: seq<Member>)
    requires WellFormed(t) && !LeastFirstAll(t)
    ensures ObjectAt(t, steps, loc, ms) && ms != [] && Order(ms)[0] != 0
  {
    if t.Object? && t.members != [] && Order(t.members)[0] != 0 { return [], [], t.members; }
    var i := DisorderedChild(t);
    ChildSmaller(t, i);
    WellFormedChild(t, i);
    var rest, more;
    rest, more, ms := Disordered(Children(t)[i]);
    SelectStepTo(t, i);
    steps, loc := [StepTo(t, i)] + rest, [i] + more;
    assert loc[1..] == more;
    ResolveMore(t, StepTo(t, i), rest, loc);
  }

  lemma DisorderedChild(t: Json) returns (i: nat)
    requires !LeastFirstAll(t) && !(t.Object? && t.members != [] && Order(t.members)[0] != 0)
    ensures i < |Children(t)| && !LeastFirstAll(Children(t)[i])
  {
    if t.Array? {
      i :| 0 <= i < |t.items| && !LeastFirstAll(t.items[i]);
    } else {
      i :| 0 <= i < |t.members| && !LeastFirstAll(t.members[i].value);
    }
  }

  lemma FrontMoves(ms: seq<Member>)
    requires WellFormed(Object(ms)) && ms != [] && Order(ms)[0] != 0
    ensures MovesToFront(ms, SortMembers(ms)[0].name) && NulFree(SortMembers(ms)[0].name)
  {
    OrderOf(ms, ms, Name);
  }

  lemma DisorderHarms(d: Doc, a: Json, p: seq<Step>, v: Json, loc: Loc) returns (b: Json)
    requires TestOf(d, a, p, v, loc) && Cmp(At(d.root, loc), v) == 0 && !LeastFirstAll(At(d.root, loc))
    ensures RunAll(d, [a, b]) == Corrupted(Loop)
  {
    Tested(d, a, p, v, loc);
    var q, here, ms := Disordered(At(d.root, loc));
    WellFormedAt(At(d.root, loc), here);
    FrontMoves(ms);
    var name := SortMembers(ms)[0].name;
    b := GeneratePatch("remove", PathText(p + q), Some(name), None);
    FieldsOf("remove", PathText(p + q), Some(name), None);
    TestThenRemoveBelow(d, a, p, v, loc, b, q, here, ms, name);
  }

  /** A passing test is harmless, whatever patch comes next, exactly when every object at or below
      the tested node has its least name first. */
  lemma HarmlessIff(d: Doc, a: Json, p: seq<Step>, v: Json, loc: Loc)
    requires TestOf(d, a, p, v, loc) && Cmp(At(d.root, loc), v) == 0
    ensures (forall b :: !RunAll(d, [a, b]).Corrupted?) <==> LeastFirstAll(At(d.root, loc))
  {
    if LeastFirstAll(At(d.root, loc)) {
      forall b
        ensures !RunAll(d, [a, b]).Corrupted?
      {
        CarefulThenAny(d, a, p, v, loc, b);
      }
    } else {
      var b := DisorderHarms(d, a, p, v, loc);
    }
  }

  lemma CarefulThenAny(d: Doc, a: Json, p: seq<Step>, v: Json, loc: Loc, b: Json)
    requires TestOf(d, a, p, v, loc) && LeastFirstAll(At(d.root, loc))
    ensures !RunAll(d, [a, b]).Corrupted?
  {
    Tested(d, a, p, v, loc);
    GetResolves(d.root, p);
    CarefulTest(d, a);
    RunPair(d, a, b);
    ClearEdit(RunPatch(d, a).doc, b);
  }

  // ----- a neighbour that has left the list

  lemma {:induction false} EndsPut(t: Json, m: Marks, loc: Loc, k: Marks, p: Id)
    requires Fits(t, m) && ValidLoc(t, loc) && EndsList(k, p)
    ensures EndsList(PutMark(m, loc, k), p)
    decreases |loc|
  {
    if loc != [] {
      EndsPut(Children(t)[loc[0]], m.below[loc[0]], loc[1..], k, p);
      assert PutMark(m, loc, k).below[loc[0]] == PutMark(m.below[loc[0]], loc[1..], k);
    }
  }

  /** A value added at the end of an array ends a list. */
  lemma AddedAtEnd(e: Doc, p: string, loc: Loc, value: Json, v: Marks)
    requires e.Valid() && Get(e.root, p) == Some(loc) && ValidLoc(e.root, loc) && At(e.root, loc).Array?
    ensures AddStep(e, p + "/-", value, v).Left? && EndsList(AddStep(e, p + "/-", value, v).doc.marks, v.id)
  {
    assert Encode("-") == "-" && p + "/" + "-" == p + "/-";
    SplitPathText(p, "-");
    var k := MarkAt(e.marks, loc);
    var l := Marks(k.id, k.prev, k.below + [v]);
    assert l.below[|l.below| - 1] == v;
    EndsPut(e.root, e.marks, loc, l, v.id);
  }

  lemma MovedToEnd(d: Doc, from: string, p: string)
    requires d.Valid() && MoveStep(d, from, p + "/-").Left? && PatchDetach(d.root, from).value.Some?
    requires var root := PatchDetach(d.root, from).root;
             Get(root, p).Some? && ValidLoc(root, Get(root, p).value) && At(root, Get(root, p).value).Array?
    ensures EndsList(MoveStep(d, from, p + "/-").doc.marks, MarksTaken(d, from).id)
  {
    var e, v := RemoveStep(d, from).doc, MarksTaken(d, from);
    DetachFits(d, from);
    AddedAtEnd(e, p, Get(e.root, p).value, PatchDetach(d.root, from).value.value, v);
  }

  /** A first node whose `prev` is a node that has been moved to the end of an array, and that has no
      others behind it, can be taken out: nothing is damaged. */
  lemma MoveThenRemove(d: Doc, from: string, p: string, q: string, s: Spot)
    requires d.Valid() && MoveStep(d, from, p + "/-").Left? && PatchDetach(d.root, from).value.Some?
    requires var root := PatchDetach(d.root, from).root;
             Get(root, p).Some? && ValidLoc(root, Get(root, p).value) && At(root, Get(root, p).value).Array?
    requires var e := MoveStep(d, from, p + "/-").doc;
             && SpotOf(e.root, q) == Some(s) && s.i == 0 && |MarkAt(e.marks, s.loc).below| == 1
             && MarkAt(e.marks, s.loc).prev == Some(MarksTaken(d, from).id)
    ensures var e := MoveStep(d, from, p + "/-").doc;
            RemoveStep(e, q).Left? && RemoveStep(e, q).doc.root == PatchDetach(e.root, q).root
  {
    MovedToEnd(d, from, p);
  }
}
