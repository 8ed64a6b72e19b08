/** Member order does not matter to patches: documents of the same value stay documents of the
    same value, so a test has no effect on what later patches compute. */
module PatchOrder {
  import opened Option
  import opened CString
  import opened CJson
  import opened Pointer
  import opened Patch
  import opened PatchCanon
  import opened Compare
  import opened PatchRun
  import opened PatchSafety

  /** Well-formed trees equal up to member order and case of names. */
  ghost predicate Same(a: Json, b: Json) {
    WellFormed(a) && WellFormed(b) && Abs(a) == Abs(b)
  }

  // ----- following a pointer

  lemma {:induction false} MatchesFold(x: string, y: string, e: string)
    requires Fold(x) == Fold(y)
    ensures Matches(x, e) == Matches(y, e)
  {
    assert |x| == |Fold(x)| == |y|;
    if x != "" && !AtBoundary(e) {
      FoldTail(x);
      FoldTail(y);
      assert Fold(x)[0] == ToLower(x[0]) && Fold(y)[0] == ToLower(y[0]);
      MatchesFold(x[1..], y[1..], e[1..]);
      if |e| >= 2 { MatchesFold(x[1..], y[1..], e[2..]); }
    }
  }

  lemma {:induction false} MatchesOne(x: string, y: string, e: string)
    requires Matches(x, e) && Matches(y, e)
    ensures Fold(x) == Fold(y)
  {
    if x != "" && y != "" {
      MatchesOne(x[1..], y[1..], if e[0] == '~' then e[2..] else e[1..]);
      assert Fold(x) == [ToLower(x[0])] + Fold(x[1..]) && Fold(y) == [ToLower(y[0])] + Fold(y[1..]);
    }
  }

  lemma FirstMatchFound(ms: seq<Member>, ns: seq<Member>, e: string)
    requires DistinctNames(ms) && DistinctNames(ns) && AbsMembers(ms) == AbsMembers(ns) && FirstMatch(ms, e) < |ms|
    ensures FirstMatch(ns, e) < |ns| && Key(ms[FirstMatch(ms, e)]) == Key(ns[FirstMatch(ns, e)])
  {
    var i := FirstMatch(ms, e);
    MemberIn(ms, i);
    var j := EntryOf(ns, Key(ms[i]));
    MatchesFold(ms[i].name, ns[j].name, e);
    MatchesOne(ms[i].name, ns[FirstMatch(ns, e)].name, e);
  }

  /** The members a segment finds in objects of the same value have the same value. */
  lemma FirstMatchSame(ms: seq<Member>, ns: seq<Member>, e: string)
    requires Same(Object(ms), Object(ns))
    ensures FirstMatch(ms, e) < |ms| <==> FirstMatch(ns, e) < |ns|
    ensures FirstMatch(ms, e) < |ms| ==>
              && Key(ms[FirstMatch(ms, e)]) == Key(ns[FirstMatch(ns, e)])
              && Same(ms[FirstMatch(ms, e)].value, ns[FirstMatch(ns, e)].value)
  {
    if FirstMatch(ms, e) < |ms| {
      FirstMatchFound(ms, ns, e);
      MemberIn(ms, FirstMatch(ms, e));
      MemberIn(ns, FirstMatch(ns, e));
    } else if FirstMatch(ns, e) < |ns| {
      FirstMatchFound(ns, ms, e);
    }
  }

  ghost predicate GetsSame(a: Json, b: Json, p: string) {
    && (Get(a, p).Some? <==> Get(b, p).Some?)
    && (Get(a, p).Some? ==>
          && ValidLoc(a, Get(a, p).value) && ValidLoc(b, Get(b, p).value)
          && Same(At(a, Get(a, p).value), At(b, Get(b, p).value)))
  }

  lemma {:induction false} GetSame(a: Json, b: Json, p: string)
    requires Same(a, b)
    ensures GetsSame(a, b, p)
    decreases a
  {
    GetValid(a, p);
    GetValid(b, p);
    if p != "" && p[0] == '/' {
      match a
      case Array(items) =>
        var (which, rest) := ScanDigits(p[1..], 0);
        assert |b.items| == |AbsItems(b.items)| == |items|;
        if which < |items| {
          assert AbsItems(items)[which] == AbsItems(b.items)[which];
          GetSame(items[which], b.items[which], rest);
        }
      case Object(ms) =>
        var i, j := FirstMatch(ms, p[1..]), FirstMatch(b.members, p[1..]);
        FirstMatchSame(ms, b.members, p[1..]);
        if i < |ms| { GetSame(ms[i].value, b.members[j].value, SkipToSlash(p[1..])); }
      case _ =>
    }
  }

  // ----- putting a value where a pointer leads

  lemma PutItemSame(xs: seq<Json>, ys: seq<Json>, i: nat, x: Json, y: Json)
    requires Same(Array(xs), Array(ys)) && i < |xs| && Same(x, y)
    ensures i < |ys| && Same(Array(xs[i := x]), Array(ys[i := y]))
  {
    assert |AbsItems(xs)| == |AbsItems(ys)|;
    PutItem(xs, i, x);
    PutItem(ys, i, y);
  }

  lemma PutValueSame(ms: seq<Member>, ns: seq<Member>, i: nat, j: nat, x: Json, y: Json)
    requires Same(Object(ms), Object(ns)) && i < |ms| && j < |ns| && Key(ms[i]) == Key(ns[j]) && Same(x, y)
    ensures Same(Object(ms[i := Member(ms[i].name, x)]), Object(ns[j := Member(ns[j].name, y)]))
  {
    PutValue(ms, i, x);
    PutValue(ns, j, y);
    AbsSetMember(ms, i, x);
    AbsSetMember(ns, j, y);
  }

  lemma {:induction false} PutsSame(a: Json, b: Json, p: string, x: Json, y: Json)
    requires Same(a, b) && Same(x, y) && Get(a, p).Some? && GetsSame(a, b, p)
    ensures Same(Put(a, Get(a, p).value, x), Put(b, Get(b, p).value, y))
    decreases a
  {
    if p != "" && p[0] == '/' {
      match a
      case Array(items) =>
        var (which, rest) := ScanDigits(p[1..], 0);
        assert AbsItems(items)[which] == AbsItems(b.items)[which];
        GetSame(items[which], b.items[which], rest);
        PutsSame(items[which], b.items[which], rest, x, y);
        PutItemSame(items, b.items, which, Put(items[which], Get(items[which], rest).value, x),
                    Put(b.items[which], Get(b.items[which], rest).value, y));
      case Object(ms) =>
        var ns, rest := b.members, SkipToSlash(p[1..]);
        var i, j := FirstMatch(ms, p[1..]), FirstMatch(ns, p[1..]);
        FirstMatchSame(ms, ns, p[1..]);
        GetSame(ms[i].value, ns[j].value, rest);
        PutsSame(ms[i].value, ns[j].value, rest, x, y);
        PutValueSame(ms, ns, i, j, Put(ms[i].value, Get(ms[i].value, rest).value, x),
                     Put(ns[j].value, Get(ns[j].value, rest).value, y));
    }
  }

  // ----- edits of one container

  lemma {:induction false} DecodeNulFree(s: string)
    requires NulFree(s) && Decode(s).Some?
    ensures NulFree(Decode(s).value)
  {
    if s != "" { DecodeNulFree(if s[0] == '~' then s[2..] else s[1..]); }
  }

  ghost predicate SameOption(x: Option<Json>, y: Option<Json>) {
    (x.None? && y.None?) || (x.Some? && y.Some? && Same(x.value, y.value))
  }

  lemma DetachItemSame(xs: seq<Json>, ys: seq<Json>, i: nat)
    requires Same(Array(xs), Array(ys))
    ensures |xs| == |ys|
    ensures i < |xs| ==> Same(xs[i], ys[i]) && Same(Array(RemoveAt(xs, i)), Array(RemoveAt(ys, i)))
  {
    assert |AbsItems(xs)| == |AbsItems(ys)|;
    if i < |xs| {
      assert AbsItems(xs)[i] == AbsItems(ys)[i];
      RemovedItems(xs, i);
      RemovedItems(ys, i);
    }
  }

  lemma RemovedItems(xs: seq<Json>, i: nat)
    requires WellFormed(Array(xs)) && i < |xs|
    ensures WellFormed(Array(RemoveAt(xs, i))) && AbsItems(RemoveAt(xs, i)) == RemoveAt(AbsItems(xs), i)
  {
    var r, c := RemoveAt(xs, i), RemoveAt(AbsItems(xs), i);
    forall k | 0 <= k < |r|
      ensures WellFormed(r[k]) && AbsItems(r)[k] == c[k]
    {
      RemovedAt(xs, i, k);
      RemovedAt(AbsItems(xs), i, k);
    }
  }

  lemma DetachSame(x: Json, y: Json, child: string)
    requires Same(x, y) && NulFree(child)
    ensures SameOption(DetachChild(x, child).value, DetachChild(y, child).value)
    ensures Same(DetachChild(x, child).node, DetachChild(y, child).node)
  {
    match x
    case Array(xs) => DetachItemSame(xs, y.items, Position(Atoi(child)));
    case Object(ms) =>
      var ns := y.members;
      DetachKey(x, child);
      DetachKey(y, child);
      FindMemberByKey(ms, child);
      FindMemberByKey(ns, child);
      if FindMember(ms, child) < |ms| {
        MemberIn(ms, FindMember(ms, child));
        MemberIn(ns, FindMember(ns, child));
      }
    case _ =>
  }

  lemma InsertItemSame(xs: seq<Json>, ys: seq<Json>, i: nat, v: Json, w: Json)
    requires Same(Array(xs), Array(ys)) && Same(v, w)
    ensures Same(Array(InsertAt(xs, i, v)), Array(InsertAt(ys, i, w)))
  {
    assert |AbsItems(xs)| == |AbsItems(ys)|;
    InsertedItems(xs, i, v);
    InsertedItems(ys, i, w);
  }

  lemma InsertedItems(xs: seq<Json>, i: nat, v: Json)
    requires WellFormed(Array(xs)) && WellFormed(v)
    ensures WellFormed(Array(InsertAt(xs, i, v))) && AbsItems(InsertAt(xs, i, v)) == InsertAt(AbsItems(xs), i, Abs(v))
  {
    var r, c := InsertAt(xs, i, v), InsertAt(AbsItems(xs), i, Abs(v));
    forall k | 0 <= k < |r|
      ensures WellFormed(r[k]) && AbsItems(r)[k] == c[k]
    {
      if i < |xs| && k > i {
        assert r[k] == xs[k - 1] && c[k] == AbsItems(xs)[k - 1];
      }
    }
  }

  lemma AddSame(x: Json, y: Json, child: string, v: Json, w: Json)
    requires Same(x, y) && Same(v, w) && NulFree(child)
    ensures Same(AddChild(x, child, v), AddChild(y, child, w))
  {
    match x
    case Array(xs) =>
      if child == "-" {
        InsertItemSame(xs, y.items, |xs|, v, w);
        assert |AbsItems(xs)| == |AbsItems(y.items)|;
      } else {
        InsertItemSame(xs, y.items, Position(Atoi(child)), v, w);
      }
    case Object(ms) =>
      AddName(x, child, v);
      AddName(y, child, w);
    case _ =>
  }

  // ----- whole patches

  ghost predicate SameDetach(x: DetachOutcome, y: DetachOutcome) {
    (x.Fault? && y.Fault?) || (x.Took? && y.Took? && SameOption(x.value, y.value) && Same(x.root, y.root))
  }

  ghost predicate SameOutcome(x: Outcome, y: Outcome) {
    (x.Crash? && y.Crash?) || (x.Done? && y.Done? && x.code == y.code && Same(x.root, y.root))
  }

  lemma SplitNulFree(path: string)
    requires NulFree(path) && SplitPath(path).Some?
    ensures NulFree(SplitPath(path).value.1)
  {
    DecodeNulFree(path[LastSlash(path) + 1..]);
  }

  lemma PatchDetachSame(a: Json, b: Json, path: string)
    requires Same(a, b) && NulFree(path)
    ensures SameDetach(PatchDetach(a, path), PatchDetach(b, path))
  {
    if SplitPath(path).Some? {
      SplitNulFree(path);
      var (parent, child) := SplitPath(path).value;
      GetSame(a, b, parent);
      if Get(a, parent).Some? {
        var x, y := At(a, Get(a, parent).value), At(b, Get(b, parent).value);
        DetachSame(x, y, child);
        PutsSame(a, b, parent, DetachChild(x, child).node, DetachChild(y, child).node);
      }
    }
  }

  lemma AddAtSame(a: Json, b: Json, path: string, v: Json, w: Json)
    requires Same(a, b) && Same(v, w) && NulFree(path)
    ensures SameOutcome(AddAt(a, path, v), AddAt(b, path, w))
  {
    if SplitPath(path).Some? {
      SplitNulFree(path);
      var (parent, child) := SplitPath(path).value;
      GetSame(a, b, parent);
      if Get(a, parent).Some? {
        var x, y := At(a, Get(a, parent).value), At(b, Get(b, parent).value);
        AddSame(x, y, child, v, w);
        PutsSame(a, b, parent, AddChild(x, child, v), AddChild(y, child, w));
      }
    }
  }

  lemma FieldWellFormed(patch: Json, name: string)
    requires WellFormed(patch)
    ensures Field(patch, name).Some? ==> WellFormed(Field(patch, name).value)
    ensures Field(patch, name).Some? && Field(patch, name).value.String? ==>
              NulFree(Field(patch, name).value.valuestring)
  {
  }

  lemma AddValueSame(a: Json, b: Json, path: string, patch: Json)
    requires Same(a, b) && NulFree(path) && WellFormed(patch)
    ensures SameOutcome(AddValue(a, path, Field(patch, "value")), AddValue(b, path, Field(patch, "value")))
  {
    FieldWellFormed(patch, "value");
    if Field(patch, "value").Some? { AddAtSame(a, b, path, Field(patch, "value").value, Field(patch, "value").value); }
  }

  lemma MoveSame(a: Json, b: Json, from: string, path: string)
    requires Same(a, b) && NulFree(from) && NulFree(path)
    ensures SameDetach(PatchDetach(a, from), PatchDetach(b, from))
    ensures var t, u := PatchDetach(a, from), PatchDetach(b, from);
            t.Took? && t.value.Some? ==>
            SameOutcome(AddAt(t.root, path, t.value.value), AddAt(u.root, path, u.value.value))
  {
    PatchDetachSame(a, b, from);
    var t, u := PatchDetach(a, from), PatchDetach(b, from);
    if t.Took? && t.value.Some? { AddAtSame(t.root, u.root, path, t.value.value, u.value.value); }
  }

  lemma ReplaceSame(a: Json, b: Json, path: string, patch: Json)
    requires Same(a, b) && NulFree(path) && WellFormed(patch)
    ensures SameDetach(PatchDetach(a, path), PatchDetach(b, path))
    ensures PatchDetach(a, path).Took? ==>
              SameOutcome(AddValue(PatchDetach(a, path).root, path, Field(patch, "value")),
                          AddValue(PatchDetach(b, path).root, path, Field(patch, "value")))
  {
    PatchDetachSame(a, b, path);
    if PatchDetach(a, path).Took? { AddValueSame(PatchDetach(a, path).root, PatchDetach(b, path).root, path, patch); }
  }

  lemma CopySame(a: Json, b: Json, from: string, path: string)
    requires Same(a, b) && NulFree(path)
    ensures GetsSame(a, b, from)
    ensures Get(a, from).Some? ==>
              SameOutcome(AddAt(a, path, At(a, Get(a, from).value)), AddAt(b, path, At(b, Get(b, from).value)))
  {
    GetSame(a, b, from);
    if Get(a, from).Some? { AddAtSame(a, b, path, At(a, Get(a, from).value), At(b, Get(b, from).value)); }
  }

  /** The patch names an operation that looks at the document. */
  ghost predicate Edits(patch: Json) {
    var op, path, from := Field(patch, "op"), Field(patch, "path"), Field(patch, "from");
    && op.Some? && op.value.String? && path.Some? && path.value.String?
    && (op.value.valuestring in {"remove", "replace", "add"}
        || (op.value.valuestring in {"move", "copy"} && from.Some? && from.value.String?))
  }

  lemma OtherSame(a: Json, b: Json, patch: Json)
    requires Same(a, b) && !Edits(patch)
    ensures SameOutcome(Apply(a, patch), Apply(b, patch))
  {
  }

  /** Every edit takes documents of the same value to documents of the same value. */
  lemma ApplySame(a: Json, b: Json, patch: Json)
    requires Same(a, b) && WellFormed(patch)
    ensures SameOutcome(Apply(a, patch), Apply(b, patch))
  {
    if Edits(patch) {
      FieldWellFormed(patch, "path");
      FieldWellFormed(patch, "from");
      var o, p := Field(patch, "op").value.valuestring, Field(patch, "path").value.valuestring;
      if o in {"remove", "replace", "add"} {
        ValueSame(a, b, patch, o, p);
      } else {
        FromSame(a, b, patch, o, Field(patch, "from").value.valuestring, p);
      }
    } else {
      OtherSame(a, b, patch);
    }
  }

  lemma ValueSame(a: Json, b: Json, patch: Json, o: string, path: string)
    requires Same(a, b) && NulFree(path) && WellFormed(patch) && (o == "remove" || o == "replace" || o == "add")
    requires Field(patch, "op") == Some(String(o)) && Field(patch, "path") == Some(String(path))
    ensures SameOutcome(Apply(a, patch), Apply(b, patch))
  {
    if o == "add" { AddValueSame(a, b, path, patch); } else { ReplaceSame(a, b, path, patch); }
  }

  lemma FromSame(a: Json, b: Json, patch: Json, o: string, from: string, path: string)
    requires Same(a, b) && NulFree(from) && NulFree(path) && (o == "move" || o == "copy")
    requires Field(patch, "op") == Some(String(o)) && Field(patch, "path") == Some(String(path))
    requires Field(patch, "from") == Some(String(from))
    ensures SameOutcome(Apply(a, patch), Apply(b, patch))
  {
    if o == "move" { MoveSame(a, b, from, path); } else { CopySame(a, b, from, path); }
  }

  // ----- comparisons

  /** Sorted members of the same map agree position by position. */
  lemma {:induction false} SortedSame(ms: seq<Member>, ns: seq<Member>)
    requires StrictlySorted(ms) && StrictlySorted(ns) && AbsMembers(ms) == AbsMembers(ns)
    ensures |ms| == |ns|
    ensures forall i :: 0 <= i < |ms| ==> Key(ms[i]) == Key(ns[i]) && Same(ms[i].value, ns[i].value)
  {
    if ms == [] || ns == [] {
      if ms != [] { MemberIn(ms, 0); }
      if ns != [] { MemberIn(ns, 0); }
    } else {
      HeadSame(ms, ns);
      HeadKeyOnce(ms);
      HeadKeyOnce(ns);
      SortedSame(ms[1..], ns[1..]);
    }
  }

  lemma HeadSame(ms: seq<Member>, ns: seq<Member>)
    requires StrictlySorted(ms) && StrictlySorted(ns) && AbsMembers(ms) == AbsMembers(ns) && ms != [] && ns != []
    ensures Key(ms[0]) == Key(ns[0]) && Same(ms[0].value, ns[0].value)
  {
    MemberIn(ms, 0);
    MemberIn(ns, 0);
    CmpTrichotomy(ms[0].name, ns[0].name);
    if Less(ms[0].name, ns[0].name) {
      SmallKeyAbsent(ms[0].name, ns);
    } else if Less(ns[0].name, ms[0].name) {
      SmallKeyAbsent(ns[0].name, ms);
    }
  }

  /** The comparison's code depends only on the value of its first tree. */
  lemma {:induction false} CmpSame(a: Json, b: Json, v: Json)
    requires Same(a, b) && WellFormed(v)
    ensures Cmp(a, v) == Cmp(b, v)
    decreases a, 1, 0
  {
    if Type(a) == Type(v) && a.Array? {
      assert |AbsItems(a.items)| == |AbsItems(b.items)|;
      assert forall i :: 0 <= i < |a.items| ==> AbsItems(a.items)[i] == AbsItems(b.items)[i];
      CmpItemsSame(a, b, a.items, b.items, v.items);
    } else if Type(a) == Type(v) && a.Object? {
      SortedValuesSmaller(a);
      SortedValuesSmaller(b);
      SortedMembers(a.members);
      SortedMembers(b.members);
      SortMembersProps(a.members);
      SortMembersProps(b.members);
      SortedMembers(v.members);
      SortedSame(SortMembers(a.members), SortMembers(b.members));
      CmpMembersSame(a, b, SortMembers(a.members), SortMembers(b.members), SortMembers(v.members));
    }
  }

  lemma {:induction false} CmpItemsSame(t: Json, u: Json, xs: seq<Json>, ys: seq<Json>, vs: seq<Json>)
    requires |xs| == |ys| && forall i :: 0 <= i < |xs| ==> xs[i] < t && ys[i] < u && Same(xs[i], ys[i])
    requires forall i :: 0 <= i < |vs| ==> WellFormed(vs[i])
    ensures CmpItems(t, xs, vs) == CmpItems(u, ys, vs)
    decreases t, 0, |xs|
  {
    if xs != [] && vs != [] {
      CmpSame(xs[0], ys[0], vs[0]);
      CmpItemsSame(t, u, xs[1..], ys[1..], vs[1..]);
    }
  }

  lemma {:induction false} CmpMembersSame(t: Json, u: Json, ms: seq<Member>, ns: seq<Member>, vs: seq<Member>)
    requires ValuesBelow(ms, t) && ValuesBelow(ns, u) && |ms| == |ns|
    requires forall i :: 0 <= i < |ms| ==> Key(ms[i]) == Key(ns[i]) && Same(ms[i].value, ns[i].value)
    requires forall i :: 0 <= i < |ms| ==> NulFree(ms[i].name) && NulFree(ns[i].name)
    requires forall i :: 0 <= i < |vs| ==> WellFormed(vs[i].value) && NulFree(vs[i].name)
    ensures CmpMembers(t, ms, vs) == CmpMembers(u, ns, vs)
    decreases t, 0, |ms|
  {
    if ms != [] && vs != [] {
      CmpTrichotomy(ms[0].name, vs[0].name);
      CmpTrichotomy(ns[0].name, vs[0].name);
      CmpSame(ms[0].value, ns[0].value, vs[0].value);
      CmpMembersSame(t, u, ms[1..], ns[1..], vs[1..]);
    }
  }

  // ----- runs

  /** A test that compares and changes nothing. */
  ghost function PlainTest(root: Json, patch: Json): Outcome {
    var path, value := Field(patch, "path"), Field(patch, "value");
    if path.None? || !path.value.String? || value.None? then Crash
    else
      match Get(root, path.value.valuestring)
      case None => Crash
      case Some(loc) =>
        GetValid(root, path.value.valuestring);
        Done(Cmp(At(root, loc), value.value), root)
  }

  ghost function Plain(root: Json, patch: Json): Outcome {
    if IsTest(patch) then PlainTest(root, patch) else Apply(root, patch)
  }

  ghost function PlainAll(root: Json, patches: seq<Json>): Outcome
    decreases |patches|
  {
    if patches == [] then Done(0, root)
    else
      match Plain(root, patches[0])
      case Crash => Crash
      case Done(code, r) => if code != 0 then Done(code, r) else PlainAll(r, patches[1..])
  }

  /** What a patch did to a document, against the outcome on a plain tree. */
  ghost predicate Agrees(r: Result, o: Outcome) {
    match r
    case Left(code, doc) => o.Done? && o.code == code && Same(doc.root, o.root)
    case Faulted => o == Crash
    case Corrupted(_) => true
  }

  lemma TestAgrees(d: Doc, root: Json, patch: Json)
    requires d.Valid() && Same(d.root, root) && WellFormed(patch) && IsTest(patch)
    ensures Agrees(RunPatch(d, patch), Plain(root, patch))
  {
    FieldWellFormed(patch, "path");
    FieldWellFormed(patch, "value");
    var path, value := Field(patch, "path"), Field(patch, "value");
    if path.value.String? && value.Some? {
      var p := path.value.valuestring;
      GetSame(d.root, root, p);
      if Get(d.root, p).Some? {
        CmpSame(At(d.root, Get(d.root, p).value), At(root, Get(root, p).value), value.value);
        TestReorders(d, patch);
      }
    }
  }

  lemma EditAgrees(d: Doc, root: Json, patch: Json)
    requires d.Valid() && Same(d.root, root) && WellFormed(patch) && !IsTest(patch)
    ensures Agrees(RunPatch(d, patch), Plain(root, patch))
  {
    EditErases(d, patch);
    ApplySame(d.root, root, patch);
  }

  /** A run that corrupts nothing, tests among its patches, returns the code and leaves the value
      of the run in which tests change nothing. */
  lemma {:induction false} RunAgrees(d: Doc, root: Json, patches: seq<Json>)
    requires d.Valid() && Same(d.root, root)
    requires forall i :: 0 <= i < |patches| ==> WellFormed(patches[i])
    ensures Agrees(RunAll(d, patches), PlainAll(root, patches))
    decreases |patches|
  {
    if patches != [] {
      if IsTest(patches[0]) { TestAgrees(d, root, patches[0]); } else { EditAgrees(d, root, patches[0]); }
      var r := RunPatch(d, patches[0]);
      if r.Left? && r.code == 0 { RunAgrees(r.doc, Plain(root, patches[0]).root, patches[1..]); }
    }
  }
}
