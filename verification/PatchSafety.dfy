/** When a run of patches is safe, and what it then computes. */
module PatchSafety {
  import opened Option
  import opened CString
  import opened ListSort
  import opened CJson
  import opened Pointer
  import opened Patch
  import opened PatchCanon
  import opened Compare
  import opened DiffPatch
  import opened Marks
  import opened PatchRun

  // ----- edits, links aside

  lemma AddErases(d: Doc, path: string, value: Json, v: Marks)
    ensures match AddStep(d, path, value, v)
            case Left(code, doc) => AddAt(d.root, path, value) == Done(code, doc.root)
            case Faulted => AddAt(d.root, path, value) == Crash
            case Corrupted(_) => AddAt(d.root, path, value).Done?
  {
  }

  /** `r` has the code and the tree of `out`, where it has any. */
  ghost predicate Erases(r: Result, out: Outcome) {
    match r
    case Left(code, doc) => out == Done(code, doc.root)
    case Faulted => out == Crash
    case Corrupted(_) => true
  }

  lemma AddValueErases(d: Doc, path: string, value: Option<Json>)
    ensures Erases(AddValueStep(d, path, value), AddValue(d.root, path, value))
  {
    if value.Some? { AddErases(d.(epoch := d.epoch + 1), path, value.value, Fresh(value.value, d.epoch)); }
  }

  lemma ReplaceErases(d: Doc, path: string, value: Option<Json>)
    ensures var t := PatchDetach(d.root, path);
            Erases(ReplaceStep(d, path, value), if t.Fault? then Crash else AddValue(t.root, path, value))
  {
    if RemoveStep(d, path).Left? { AddValueErases(RemoveStep(d, path).doc, path, value); }
  }

  lemma MoveErases(d: Doc, from: string, path: string)
    ensures var t := PatchDetach(d.root, from);
            Erases(MoveStep(d, from, path), if t.Fault? then Crash else if t.value.None? then Done(5, t.root)
                                            else AddAt(t.root, path, t.value.value))
  {
    var r := RemoveStep(d, from);
    if r.Left? && PatchDetach(d.root, from).value.Some? {
      AddErases(r.doc, path, PatchDetach(d.root, from).value.value, MarksTaken(d, from));
    }
  }

  lemma CopyErases(d: Doc, from: string, path: string)
    ensures Get(d.root, from).Some? ==> ValidLoc(d.root, Get(d.root, from).value)
    ensures Erases(CopyStep(d, from, path), if Get(d.root, from).None? then Done(5, d.root)
                                            else AddAt(d.root, path, At(d.root, Get(d.root, from).value)))
  {
    if Get(d.root, from).Some? {
      GetValid(d.root, from);
      var node := At(d.root, Get(d.root, from).value);
      AddErases(d.(epoch := d.epoch + 1), path, node, Fresh(node, d.epoch));
    }
  }

  /** An edit that leaves its lists intact has the code and the tree of `Apply`. */
  lemma EditErases(d: Doc, patch: Json)
    ensures Erases(EditStep(d, patch), Apply(d.root, patch))
  {
    var op, path, from, value := Field(patch, "op"), Field(patch, "path"), Field(patch, "from"), Field(patch, "value");
    if op.Some? && path.Some? && op.value.String? && path.value.String? {
      var o, p := op.value.valuestring, path.value.valuestring;
      if o == "add" {
        AddValueErases(d, p, value);
      } else if o == "replace" {
        ReplaceErases(d, p, value);
      } else if o == "move" && from.Some? && from.value.String? {
        MoveErases(d, from.value.valuestring, p);
      } else if o == "copy" && from.Some? && from.value.String? {
        CopyErases(d, from.value.valuestring, p);
      }
    }
  }

  // ----- without marks nothing is corrupted

  lemma ClearWithout(m: Marks, i: nat)
    requires Clear(m)
    ensures Clear(Without(m, i))
  {
    if i < |m.below| {
      assert forall k :: 0 <= k < |m.below| - 1 ==> RemoveAt(m.below, i)[k] == m.below[if k < i then k else k + 1];
    }
  }

  lemma ClearDetach(d: Doc, path: string, v: Option<Marks>)
    requires Clear(d.marks)
    ensures HarmAt(d, path, v).None? && Clear(MarksLeft(d, path)) && Clear(MarksTaken(d, path))
  {
    var s := SpotOf(d.root, path);
    if s.Some? {
      ClearAt(d.marks, s.value.loc);
      ClearAt(d.marks, s.value.loc + [s.value.i]);
      ClearWithout(MarkAt(d.marks, s.value.loc), s.value.i);
      ClearPut(d.marks, s.value.loc, Without(MarkAt(d.marks, s.value.loc), s.value.i));
    }
  }

  lemma ClearAdded(node: Json, m: Marks, child: string, v: Marks)
    requires Clear(m) && Clear(v)
    ensures Clear(AddedMarks(node, m, child, v))
  {
    if node.Object? && FindMember(node.members, child) < |node.members| {
      ClearWithout(m, FindMember(node.members, child));
    }
  }

  lemma ClearAdd(d: Doc, path: string, value: Json, v: Marks)
    requires Clear(d.marks) && Clear(v)
    ensures !AddStep(d, path, value, v).Corrupted?
    ensures AddStep(d, path, value, v).Left? ==> Clear(AddStep(d, path, value, v).doc.marks)
  {
    ClearDetach(d, path, Some(v));
    if SplitPath(path).Some? {
      var (parent, child) := SplitPath(path).value;
      if Get(d.root, parent).Some? {
        GetValid(d.root, parent);
        var loc := Get(d.root, parent).value;
        ClearAt(d.marks, loc);
        ClearAdded(At(d.root, loc), MarkAt(d.marks, loc), child, v);
        ClearPut(d.marks, loc, AddedMarks(At(d.root, loc), MarkAt(d.marks, loc), child, v));
      }
    }
  }

  lemma ClearAddFresh(d: Doc, path: string, value: Json)
    requires Clear(d.marks)
    ensures !AddFresh(d, path, value).Corrupted?
    ensures AddFresh(d, path, value).Left? ==> Clear(AddFresh(d, path, value).doc.marks)
  {
    FreshFits(value, d.epoch);
    ClearAdd(d.(epoch := d.epoch + 1), path, value, Fresh(value, d.epoch));
  }

  lemma ClearAddValue(d: Doc, path: string, value: Option<Json>)
    requires Clear(d.marks)
    ensures !AddValueStep(d, path, value).Corrupted?
    ensures AddValueStep(d, path, value).Left? ==> Clear(AddValueStep(d, path, value).doc.marks)
  {
    if value.Some? { ClearAddFresh(d, path, value.value); }
  }

  ghost predicate Harmless(r: Result) {
    !r.Corrupted? && (r.Left? ==> Clear(r.doc.marks))
  }

  lemma ClearReplace(d: Doc, path: string, value: Option<Json>)
    requires Clear(d.marks)
    ensures Harmless(RemoveStep(d, path)) && Harmless(ReplaceStep(d, path, value))
  {
    ClearDetach(d, path, None);
    if RemoveStep(d, path).Left? { ClearAddValue(RemoveStep(d, path).doc, path, value); }
  }

  lemma ClearMove(d: Doc, from: string, path: string)
    requires Clear(d.marks)
    ensures Harmless(MoveStep(d, from, path)) && Harmless(CopyStep(d, from, path))
  {
    ClearDetach(d, from, None);
    var r := RemoveStep(d, from);
    if r.Left? && PatchDetach(d.root, from).value.Some? {
      ClearAdd(r.doc, path, PatchDetach(d.root, from).value.value, MarksTaken(d, from));
    }
    if Get(d.root, from).Some? {
      GetValid(d.root, from);
      var node := At(d.root, Get(d.root, from).value);
      ClearAddFresh(d, path, node);
    }
  }

  /** Edits of a document without marks corrupt nothing and leave no marks. */
  lemma ClearEdit(d: Doc, patch: Json)
    requires Clear(d.marks)
    ensures Harmless(EditStep(d, patch))
  {
    var path, from, value := Field(patch, "path"), Field(patch, "from"), Field(patch, "value");
    if path.Some? && path.value.String? {
      ClearReplace(d, path.value.valuestring, value);
      ClearAddValue(d, path.value.valuestring, value);
      if from.Some? && from.value.String? { ClearMove(d, from.value.valuestring, path.value.valuestring); }
    }
  }

  ghost predicate NoTests(patches: seq<Json>) {
    forall i :: 0 <= i < |patches| ==> !IsTest(patches[i])
  }

  /** Without tests a run on a document without marks is never corrupted, and is the run of
      `ApplyAll`. */
  lemma {:induction false} RunWithoutTests(d: Doc, patches: seq<Json>)
    requires d.Valid() && Clear(d.marks) && NoTests(patches)
    ensures match RunAll(d, patches)
            case Left(code, doc) => Clear(doc.marks) && ApplyAll(d.root, patches) == Done(code, doc.root)
            case Faulted => ApplyAll(d.root, patches) == Crash
            case Corrupted(_) => false
    decreases |patches|
  {
    if patches != [] {
      ClearEdit(d, patches[0]);
      EditErases(d, patches[0]);
      var r := RunPatch(d, patches[0]);
      if r.Left? && r.code == 0 { RunWithoutTests(r.doc, patches[1..]); }
    }
  }

  /** Without tests a run that is not corrupted is the run of `ApplyAll`, marks or not. */
  lemma {:induction false} RunErases(d: Doc, patches: seq<Json>)
    requires d.Valid() && NoTests(patches) && RunAll(d, patches).Left?
    ensures ApplyAll(d.root, patches) == Done(RunAll(d, patches).code, RunAll(d, patches).doc.root)
    decreases |patches|
  {
    if patches != [] {
      EditErases(d, patches[0]);
      var r := RunPatch(d, patches[0]);
      if r.code == 0 { RunErases(r.doc, patches[1..]); }
    }
  }

  // ----- what a test does

  /** A test changes only the order of members below its path. */
  lemma TestReorders(d: Doc, patch: Json)
    requires d.Valid() && IsTest(patch) && RunPatch(d, patch).Left?
    ensures Reordered(d.root, RunPatch(d, patch).doc.root)
    ensures WellFormed(d.root) ==>
              WellFormed(RunPatch(d, patch).doc.root) && Abs(RunPatch(d, patch).doc.root) == Abs(d.root)
  {
    var p, v := Field(patch, "path").value.valuestring, Field(patch, "value").value;
    GetValid(d.root, p);
    var loc := Get(d.root, p).value;
    SweptReordered(At(d.root, loc), v);
    PutReordered(d.root, loc, Swept(At(d.root, loc), v));
    if WellFormed(d.root) { ReorderedSame(d.root, RunPatch(d, patch).doc.root); }
  }

  /** Reordering members somewhere below reorders members of the whole. */
  lemma {:induction false} PutReordered(t: Json, loc: Loc, n: Json)
    requires ValidLoc(t, loc) && Reordered(At(t, loc), n)
    ensures Reordered(t, Put(t, loc, n))
    decreases |loc|
  {
    if loc != [] {
      var i := loc[0];
      PutReordered(Children(t)[i], loc[1..], n);
      var c := Put(Children(t)[i], loc[1..], n);
      if t.Array? { PutItemReordered(t.items, i, c); } else { PutValueReordered(t.members, i, c); }
    }
  }

  lemma PutItemReordered(items: seq<Json>, i: nat, c: Json)
    requires i < |items| && Reordered(items[i], c)
    ensures Reordered(Array(items), Array(items[i := c]))
  {
    ReorderedItemsSelf(items);
  }

  lemma PutValueReordered(ms: seq<Member>, i: nat, c: Json)
    requires i < |ms| && Reordered(ms[i].value, c)
    ensures Reordered(Object(ms), Object(ms[i := Member(ms[i].name, c)]))
  {
    ReorderedValuesSelf(ms);
    assert Permuted(ms, ms, ms[i := Member(ms[i].name, c)]);
  }

  /** Every object of the tree has the member with the least name first. */
  ghost predicate LeastFirstAll(t: Json) {
    match t
    case Array(items) => forall i :: 0 <= i < |items| ==> LeastFirstAll(items[i])
    case Object(ms) =>
      && (ms != [] ==> Order(ms)[0] == 0)
      && forall i :: 0 <= i < |ms| ==> LeastFirstAll(ms[i].value)
    case _ => true
  }

  /** A test of such a node leaves no marks. */
  lemma {:induction false} SweptClear(a: Json, m: Marks, b: Json)
    requires Fits(a, m) && Clear(m) && LeastFirstAll(a)
    ensures Clear(SweptMarks(a, m, b))
    decreases a, 1, 0
  {
    FitsChildren(a, m);
    if Type(a) == Type(b) && a.Array? {
      SweptItemsClear(a, a.items, m.below, b.items);
    } else if Type(a) == Type(b) && a.Object? {
      SortedValuesSmaller(a);
      SortedFits(a.members, m.below);
      OrderOf(a.members, a.members, Name);
      SweptMembersClear(a, SortMembers(a.members), Arranged(m.below, Order(a.members)), SortMembers(b.members));
    }
  }

  lemma {:induction false} SweptItemsClear(t: Json, xs: seq<Json>, below: seq<Marks>, ys: seq<Json>)
    requires FitItems(xs, below) && forall i :: 0 <= i < |xs| ==> xs[i] < t && LeastFirstAll(xs[i]) && Clear(below[i])
    ensures forall i :: 0 <= i < |xs| ==> Clear(SweptItemMarks(t, xs, below, ys)[i])
    decreases t, 0, |xs|
  {
    if xs != [] && ys != [] {
      SweptClear(xs[0], below[0], ys[0]);
      SweptItemsClear(t, xs[1..], below[1..], ys[1..]);
    }
  }

  lemma {:induction false} SweptMembersClear(t: Json, ms: seq<Member>, below: seq<Marks>, ns: seq<Member>)
    requires FitMembers(ms, below) && ValuesBelow(ms, t)
    requires forall i :: 0 <= i < |ms| ==> LeastFirstAll(ms[i].value) && Clear(below[i])
    ensures forall i :: 0 <= i < |ms| ==> Clear(SweptMemberMarks(t, ms, below, ns)[i])
    decreases t, 0, |ms|
  {
    if ms != [] && ns != [] {
      SweptClear(ms[0].value, below[0], ns[0].value);
      SweptMembersClear(t, ms[1..], below[1..], ns[1..]);
    }
  }

  // ----- a test and then a removal

  lemma {:induction false} GetStays(t: Json, p: string, n: Json)
    requires Get(t, p).Some? && ValidLoc(t, Get(t, p).value)
    ensures Get(Put(t, Get(t, p).value, n), p) == Get(t, p)
    decreases t
  {
    if p != "" && p[0] == '/' {
      match t
      case Array(items) =>
        var (which, rest) := ScanDigits(p[1..], 0);
        GetStays(items[which], rest, n);
      case Object(ms) =>
        var i := FirstMatch(ms, p[1..]);
        var rest := SkipToSlash(p[1..]);
        GetStays(ms[i].value, rest, n);
        var x := Put(ms[i].value, Get(ms[i].value, rest).value, n);
        SameFirstMatch(ms, ms[i := Member(ms[i].name, x)], p[1..]);
    }
  }

  lemma {:induction false} SameFirstMatch(ms: seq<Member>, ns: seq<Member>, p: string)
    requires |ms| == |ns| && forall j :: 0 <= j < |ms| ==> ms[j].name == ns[j].name
    ensures FirstMatch(ms, p) == FirstMatch(ns, p)
  {
    if ms != [] { SameFirstMatch(ms[1..], ns[1..], p); }
  }

  lemma {:induction false} AtPut(t: Json, m: Marks, loc: Loc, n: Json, k: Marks)
    requires ValidLoc(t, loc) && Fits(t, m)
    ensures ValidLoc(Put(t, loc, n), loc) && At(Put(t, loc, n), loc) == n && MarkAt(PutMark(m, loc, k), loc) == k
    decreases |loc|
  {
    if loc != [] {
      AtPut(Children(t)[loc[0]], m.below[loc[0]], loc[1..], n, k);
      PutChildren(t, loc[0], Put(Children(t)[loc[0]], loc[1..], n));
    }
  }

  /** The name that sorting would put in front of an object whose first name is another one. */
  ghost predicate MovesToFront(ms: seq<Member>, name: string) {
    ms != [] && Fold(name) == Key(SortMembers(ms)[0]) != Key(ms[0])
  }

  lemma OrderOnto(ms: seq<Member>, j: nat)
    requires j < |ms|
    ensures j in Order(ms)
  {
    var ids := Positions(|ms|);
    SortPermutes(ids, NameAt(ms));
    SameMembers(ids, Order(ms));
    assert ids[j] == j;
  }

  /** Taking out the first child leaves a cycle: its `prev` is one of the others. */
  predicate Loops(k: Marks) {
    k.prev.Some? && exists i :: 1 <= i < |k.below| && k.below[i].id == k.prev.value
  }

  /** The node that stood before the new first one is still in the list, behind it. */
  lemma BehindFirst(ms: seq<Member>, m: Marks, marks: seq<Marks>)
    requires |m.below| == |ms| == |marks| && ms != [] && Order(ms)[0] != 0
    requires forall i :: 0 <= i < |ms| ==> Order(ms)[i] < |ms| && marks[i].id == m.below[Order(ms)[i]].id
    ensures Loops(Marks(m.id, HeadPrev(m, Order(ms)), marks))
  {
    var o := Order(ms)[0];
    OrderOnto(ms, o - 1);
    var i :| 0 <= i < |ms| && Order(ms)[i] == o - 1;
    LoopsAt(m, Order(ms), marks, i);
  }

  lemma LoopsAt(m: Marks, order: seq<nat>, marks: seq<Marks>, i: nat)
    requires |m.below| == |order| == |marks| && i < |order| && order[0] > 0 && order[i] == order[0] - 1
    requires (forall k :: 0 <= k < |order| ==> order[k] < |m.below|) && marks[i].id == m.below[order[i]].id
    ensures Loops(Marks(m.id, HeadPrev(m, order), marks))
  {
    assert i >= 1;
  }

  lemma SweptMemberIds(t: Json, ms: seq<Member>, below: seq<Marks>, ns: seq<Member>)
    requires FitMembers(ms, below) && ValuesBelow(ms, t)
    ensures forall i :: 0 <= i < |ms| ==> SweptMemberMarks(t, ms, below, ns)[i].id == below[i].id
  {
    forall i | 0 <= i < |ms|
      ensures SweptMemberMarks(t, ms, below, ns)[i].id == below[i].id
    {
      SweptMemberId(t, ms, below, ns, i);
    }
  }

  lemma {:induction false} SweptMemberId(t: Json, ms: seq<Member>, below: seq<Marks>, ns: seq<Member>, i: nat)
    requires FitMembers(ms, below) && ValuesBelow(ms, t) && i < |ms|
    ensures SweptMemberMarks(t, ms, below, ns)[i].id == below[i].id
    decreases |ms|
  {
    if i > 0 && ns != [] { SweptMemberId(t, ms[1..], below[1..], ns[1..], i - 1); }
  }

  /** A compared object, and what taking out one of its members meets. */
  lemma SweptObject(d: Doc, ms: seq<Member>, m: Marks, v: Json, name: string)
    requires Fits(Object(ms), m) && m.prev.None? && DistinctNames(ms) && NulFree(name)
    ensures var node, k := Swept(Object(ms), v), SweptMarks(Object(ms), m, v);
            && node.Object? && |node.members| == |ms|
            && (if ms != [] && FindMember(node.members, name) == 0 then Harm(d, k, None) else None)
               == if v.Object? && MovesToFront(ms, name) then Some(Loop) else None
  {
    if v.Object? && ms != [] {
      SweptParts(ms, m, v);
      SweptFront(ms, Swept(Object(ms), v), name);
      if Order(ms)[0] != 0 { BehindFirst(ms, m, SweptMarks(Object(ms), m, v).below); }
    }
  }

  /** Its first member, and its nodes. */
  lemma SweptParts(ms: seq<Member>, m: Marks, v: Json)
    requires Fits(Object(ms), m) && v.Object? && ms != []
    ensures |m.below| == |ms| && forall i :: 0 <= i < |ms| ==> Order(ms)[i] < |ms|
    ensures var node := Swept(Object(ms), v);
            node.Object? && |node.members| == |ms| && node.members[0].name == SortMembers(ms)[0].name
    ensures var k := SweptMarks(Object(ms), m, v);
            && k.prev == HeadPrev(m, Order(ms)) && |k.below| == |ms|
            && forall i :: 0 <= i < |ms| ==> k.below[i].id == m.below[Order(ms)[i]].id
  {
    FitsChildren(Object(ms), m);
    SortedValuesSmaller(Object(ms));
    SortedFits(ms, m.below);
    SweptMemberIds(Object(ms), SortMembers(ms), Arranged(m.below, Order(ms)), SortMembers(v.members));
  }

  lemma SweptFront(ms: seq<Member>, node: Json, name: string)
    requires DistinctNames(ms) && NulFree(name) && ms != []
    requires node.Object? && |node.members| == |ms| && node.members[0].name == SortMembers(ms)[0].name
    ensures FindMember(node.members, name) == 0 <==> Fold(name) == Key(SortMembers(ms)[0])
    ensures Order(ms)[0] == 0 <==> Key(SortMembers(ms)[0]) == Key(ms[0])
  {
    OrderOf(ms, ms, Name);
    SortMembersProps(ms);
    var first := SortMembers(ms)[0];
    assert first in SortMembers(ms);
    CmpTrichotomy(first.name, name);
  }

  /** What a removal below the object at `p` meets. */
  lemma RemovalMeets(d: Doc, p: string, loc: Loc, name: string)
    requires Get(d.root, p) == Some(loc) && ValidLoc(d.root, loc) && At(d.root, loc).Object?
    ensures var ms := At(d.root, loc).members;
            var harm := if ms != [] && FindMember(ms, name) == 0 then Harm(d, MarkAt(d.marks, loc), None) else None;
            match RemoveStep(d, p + "/" + Encode(name))
            case Corrupted(damage) => harm == Some(damage)
            case _ => harm == None
  {
    SplitPathText(p, name);
  }

  /** A test of an object in a document without marks, and then the removal of one of its members:
      the member list is corrupted exactly when the test's value is an object and the member is the
      one sorting has brought to the front. */
  lemma TestThenRemove(d: Doc, patch: Json, p: string, v: Json, name: string)
    requires d.Valid() && Clear(d.marks) && WellFormed(d.root) && NulFree(name)
    requires IsTest(patch) && Field(patch, "path") == Some(String(p)) && Field(patch, "value") == Some(v)
    requires Get(d.root, p).Some? && ValidLoc(d.root, Get(d.root, p).value)
    requires At(d.root, Get(d.root, p).value).Object?
    ensures RunPatch(d, patch).Left?
    ensures RemoveStep(RunPatch(d, patch).doc, p + "/" + Encode(name)) == Corrupted(Loop) <==>
              v.Object? && MovesToFront(At(d.root, Get(d.root, p).value).members, name)
    ensures RemoveStep(RunPatch(d, patch).doc, p + "/" + Encode(name)).Corrupted? ==>
              RemoveStep(RunPatch(d, patch).doc, p + "/" + Encode(name)) == Corrupted(Loop)
  {
    var loc := Get(d.root, p).value;
    var node, m := At(d.root, loc), MarkAt(d.marks, loc);
    FitsAt(d.root, d.marks, loc);
    ClearAt(d.marks, loc);
    WellFormedAt(d.root, loc);
    SweptObject(RunPatch(d, patch).doc, node.members, m, v, name);
    GetStays(d.root, p, Swept(node, v));
    AtPut(d.root, d.marks, loc, Swept(node, v), SweptMarks(node, m, v));
    RemovalMeets(RunPatch(d, patch).doc, p, loc, name);
  }

  lemma {:induction false} WellFormedAt(t: Json, loc: Loc)
    requires WellFormed(t) && ValidLoc(t, loc)
    ensures WellFormed(At(t, loc))
    decreases |loc|
  {
    if loc != [] {
      WellFormedChild(t, loc[0]);
      WellFormedAt(Children(t)[loc[0]], loc[1..]);
    }
  }

  lemma RemoveIsStep(d: Doc, p: string, name: string)
    requires d.Valid()
    ensures RunPatch(d, GeneratePatch("remove", p, Some(name), None)) == RemoveStep(d, p + "/" + Encode(name))
  {
    FieldsOf("remove", p, Some(name), None);
  }

  lemma RunPair(d: Doc, a: Json, b: Json)
    requires d.Valid()
    ensures var r := RunPatch(d, a);
            RunAll(d, [a, b]) == if r.Left? && r.code == 0 then RunPatch(r.doc, b) else r
  {
    assert [a, b][1..] == [b];
    var r := RunPatch(d, a);
    if r.Left? && r.code == 0 { assert RunAll(r.doc, [b]) == RunPatch(r.doc, b); }
  }

  /** The smallest case: the members "b" and "a", tested against themselves, and "a" removed. */
  lemma TestThenRemoveExample(t: Json)
    requires t == Object([Member("b", True), Member("a", Null)])
    ensures FreshDoc(t).Valid()
    ensures RunAll(FreshDoc(t), [GeneratePatch("test", "", None, Some(t)),
                                 GeneratePatch("remove", "", Some("a"), None)]) == Corrupted(Loop)
  {
    var d, test := FreshDoc(t), GeneratePatch("test", "", None, Some(t));
    FreshFits(t, 0);
    FieldsOf("test", "", None, Some(t));
    ExampleMembers(t);
    CmpIff(t, t);
    TestThenRemove(d, test, "", t, "a");
    RemoveIsStep(RunPatch(d, test).doc, "", "a");
    RunPair(d, test, GeneratePatch("remove", "", Some("a"), None));
  }

  lemma ExampleMembers(t: Json)
    requires t == Object([Member("b", True), Member("a", Null)])
    ensures WellFormed(t) && MovesToFront(t.members, "a")
  {
    var ms := t.members;
    assert Fold("b") == "b" && Fold("a") == "a";
    assert StrCaseCmp("b", "a") > 0;
    assert !Less(Name(ms[0]), Name(ms[1]));
    assert ms[..1] == [ms[0]] && ms[1..] == [ms[1]];
    assert Merge([ms[0]], [ms[1]], Name)[0] == ms[1];
  }
}
