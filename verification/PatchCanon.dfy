/** Patch operations on canonical trees, and the proof that applying the rendered text of
    an operation to a tree has exactly that canonical effect. */
module PatchCanon {
  import opened Option
  import opened CString
  import opened CJson
  import opened Pointer
  import opened Patch

  // ----- canonical paths: a lens

  predicate Has(c: Canon, steps: seq<Step>)
    decreases |steps|
  {
    steps == [] ||
    match (c, steps[0])
    case (CArray(xs), Idx(i)) => i < |xs| && Has(xs[i], steps[1..])
    case (CObject(f), Fld(n)) => Fold(n) in f && Has(f[Fold(n)], steps[1..])
    case _ => false
  }

  function GetC(c: Canon, steps: seq<Step>): Canon
    requires Has(c, steps)
    decreases |steps|
  {
    if steps == [] then c
    else if steps[0].Idx? then GetC(c.items[steps[0].i], steps[1..])
    else GetC(c.fields[Fold(steps[0].name)], steps[1..])
  }

  function PutC(c: Canon, steps: seq<Step>, n: Canon): Canon
    requires Has(c, steps)
    decreases |steps|
  {
    if steps == [] then n
    else if steps[0].Idx? then
      var i := steps[0].i;
      CArray(c.items[i := PutC(c.items[i], steps[1..], n)])
    else
      var k := Fold(steps[0].name);
      CObject(c.fields[k := PutC(c.fields[k], steps[1..], n)])
  }

  lemma {:induction false} GetPut(c: Canon, p: seq<Step>, n: Canon)
    requires Has(c, p)
    ensures Has(PutC(c, p, n), p) && GetC(PutC(c, p, n), p) == n
    decreases |p|
  {
    if p != [] {
      GetPut(if p[0].Idx? then c.items[p[0].i] else c.fields[Fold(p[0].name)], p[1..], n);
    }
  }

  lemma {:induction false} PutPut(c: Canon, p: seq<Step>, a: Canon, b: Canon)
    requires Has(c, p)
    ensures Has(PutC(c, p, a), p) && PutC(PutC(c, p, a), p, b) == PutC(c, p, b)
    decreases |p|
  {
    if p != [] {
      PutPut(if p[0].Idx? then c.items[p[0].i] else c.fields[Fold(p[0].name)], p[1..], a, b);
    }
  }

  lemma {:induction false} PutGet(c: Canon, p: seq<Step>)
    requires Has(c, p)
    ensures PutC(c, p, GetC(c, p)) == c
    decreases |p|
  {
    if p != [] {
      PutGet(if p[0].Idx? then c.items[p[0].i] else c.fields[Fold(p[0].name)], p[1..]);
    }
  }

  lemma {:induction false} Compose(c: Canon, p: seq<Step>, s: Step, n: Canon)
    requires Has(c, p)
    ensures Has(c, p + [s]) <==> Has(GetC(c, p), [s])
    ensures Has(c, p + [s]) ==> GetC(c, p + [s]) == GetC(GetC(c, p), [s])
    ensures Has(c, p + [s]) ==> PutC(c, p + [s], n) == PutC(c, p, PutC(GetC(c, p), [s], n))
    decreases |p|
  {
    if p == [] {
      assert p + [s] == [s];
    } else {
      assert (p + [s])[1..] == p[1..] + [s];
      Compose(if p[0].Idx? then c.items[p[0].i] else c.fields[Fold(p[0].name)], p[1..], s, n);
    }
  }

  // ----- operations

  datatype Edit =
    | Set(value: Json)
    | RemoveIdx(i: nat)
    | RemoveKey(name: string)
    | Append(value: Json)
    | AddKey(name: string, value: Json)

  /** An edit of the node at `path`. */
  datatype Op = Op(path: seq<Step>, edit: Edit)

  function EditC(c: Canon, e: Edit): Canon {
    match (c, e)
    case (_, Set(v)) => Abs(v)
    case (CArray(xs), RemoveIdx(i)) => if i < |xs| then CArray(RemoveAt(xs, i)) else c
    case (CArray(xs), Append(v)) => CArray(xs + [Abs(v)])
    case (CObject(f), RemoveKey(n)) => CObject(f - {Fold(n)})
    case (CObject(f), AddKey(n, v)) => CObject(f[Fold(n) := Abs(v)])
    case _ => c
  }

  function Effect(c: Canon, op: Op): Canon
    requires Has(c, op.path)
  {
    PutC(c, op.path, EditC(GetC(c, op.path), op.edit))
  }

  /** The node exists and has the type the edit needs; the root itself is never replaced. */
  predicate Applicable(c: Canon, op: Op) {
    && Has(c, op.path)
    && match op.edit
       case Set(_) => op.path != []
       case RemoveIdx(_) => GetC(c, op.path).CArray?
       case Append(_) => GetC(c, op.path).CArray?
       case RemoveKey(_) => GetC(c, op.path).CObject?
       case AddKey(_, _) => GetC(c, op.path).CObject?
  }

  ghost predicate GoodOp(op: Op) {
    && NulFreeSteps(op.path)
    && match op.edit
       case Set(v) => WellFormed(v)
       case Append(v) => WellFormed(v)
       case RemoveKey(n) => NulFree(n)
       case AddKey(n, v) => NulFree(n) && WellFormed(v)
       case RemoveIdx(_) => true
  }

  /** cJSONUtils_GeneratePatch: the patch object for an operation. */
  function GeneratePatch(op: string, path: string, suffix: Option<string>, value: Option<Json>): Json {
    var p := if suffix.Some? then path + "/" + Encode(suffix.value) else path;
    Object([Member("op", String(op)), Member("path", String(p))]
           + if value.Some? then [Member("value", value.value)] else [])
  }

  function Render(op: Op): Json {
    var path := PathText(op.path);
    match op.edit
    case Set(v) => GeneratePatch("replace", path, None, Some(v))
    case RemoveIdx(i) => GeneratePatch("remove", path, Some(Decimal(i)), None)
    case RemoveKey(n) => GeneratePatch("remove", path, Some(n), None)
    case Append(v) => GeneratePatch("add", path, Some("-"), Some(v))
    case AddKey(n, v) => GeneratePatch("add", path, Some(n), Some(v))
  }

  // ----- trees and their canonical form under paths

  lemma SelectAbs(t: Json, s: Step)
    requires WellFormed(t) && NulFreeSteps([s])
    ensures Select(t, s) < |Children(t)| <==> Has(Abs(t), [s])
    ensures Has(Abs(t), [s]) ==> GetC(Abs(t), [s]) == Abs(Children(t)[Select(t, s)])
  {
    if t.Object? && s.Fld? {
      assert NulFree(s.name) by { assert [s][0].Fld?; }
      FindMemberByKey(t.members, s.name);
      var i := FindMember(t.members, s.name);
      if i < |t.members| { MemberIn(t.members, i); }
    }
  }

  lemma PutChild(t: Json, s: Step, n: Json)
    requires WellFormed(t) && WellFormed(n) && NulFreeSteps([s]) && Select(t, s) < |Children(t)|
    ensures var t' := Put(t, [Select(t, s)], n);
            WellFormed(t') && Select(t', s) == Select(t, s) && |Children(t')| == |Children(t)|
            && Children(t') == Children(t)[Select(t, s) := n]
            && Has(Abs(t), [s]) && Abs(t') == PutC(Abs(t), [s], Abs(n))
  {
    var i := Select(t, s);
    assert [i][1..] == [] && [s][1..] == [];
    match t
    case Array(items) => PutItem(items, i, n);
    case Object(ms) =>
      assert NulFree(s.name) by { assert [s][0].Fld?; }
      PutMember(ms, s.name, i, n);
  }

  lemma PutItem(items: seq<Json>, i: nat, n: Json)
    requires WellFormed(Array(items)) && WellFormed(n) && i < |items|
    ensures WellFormed(Array(items[i := n])) && AbsItems(items[i := n]) == AbsItems(items)[i := Abs(n)]
  {
  }

  lemma PutMember(ms: seq<Member>, name: string, i: nat, n: Json)
    requires WellFormed(Object(ms)) && WellFormed(n) && NulFree(name) && i == FindMember(ms, name) < |ms|
    ensures var ms' := ms[i := Member(ms[i].name, n)];
            && WellFormed(Object(ms')) && FindMember(ms', name) == i
            && Children(Object(ms')) == Children(Object(ms))[i := n]
            && Fold(name) in AbsMembers(ms) && AbsMembers(ms') == AbsMembers(ms)[Fold(name) := Abs(n)]
  {
    PutValue(ms, i, n);
    AbsSetMember(ms, i, n);
    FindMemberByKey(ms, name);
    SameFind(ms, ms[i := Member(ms[i].name, n)], name);
  }

  lemma PutValue(ms: seq<Member>, i: nat, n: Json)
    requires WellFormed(Object(ms)) && WellFormed(n) && i < |ms|
    ensures WellFormed(Object(ms[i := Member(ms[i].name, n)]))
    ensures Children(Object(ms[i := Member(ms[i].name, n)])) == Children(Object(ms))[i := n]
  {
    AbsSetMember(ms, i, n);
  }

  lemma {:induction false} SameFind(ms: seq<Member>, ns: seq<Member>, name: string)
    requires |ms| == |ns| && forall j :: 0 <= j < |ms| ==> ms[j].name == ns[j].name
    ensures FindMember(ms, name) == FindMember(ns, name)
  {
    if ms != [] && StrCaseCmp(ms[0].name, name) != 0 { SameFind(ms[1..], ns[1..], name); }
  }

  lemma {:induction false} ResolveAbs(t: Json, steps: seq<Step>)
    requires WellFormed(t) && NulFreeSteps(steps)
    ensures Resolve(t, steps).Some? <==> Has(Abs(t), steps)
    ensures Resolve(t, steps).Some? ==>
              var loc := Resolve(t, steps).value;
              ValidLoc(t, loc) && WellFormed(At(t, loc)) && Abs(At(t, loc)) == GetC(Abs(t), steps)
    decreases |steps|
  {
    if steps != [] {
      var s, i := steps[0], Select(t, steps[0]);
      SelectAbs(t, s);
      if i < |Children(t)| {
        WellFormedChild(t, i);
        ResolveAbs(Children(t)[i], steps[1..]);
        if Resolve(t, steps).Some? {
          assert Resolve(t, steps).value[1..] == Resolve(Children(t)[i], steps[1..]).value;
        }
      }
    }
  }

  lemma PutSplit(t: Json, i: nat, rest: Loc, n: Json)
    requires i < |Children(t)| && ValidLoc(Children(t)[i], rest)
    ensures ValidLoc(t, [i] + rest)
    ensures Put(t, [i] + rest, n) == Put(t, [i], Put(Children(t)[i], rest, n))
    ensures At(t, [i] + rest) == At(Children(t)[i], rest)
  {
    assert ([i] + rest)[1..] == rest;
    assert [i][1..] == [];
  }

  /** The tree after a replacement at the end of a path: well-formed, same path, same place. */
  ghost predicate PutOk(t: Json, steps: seq<Step>, loc: Loc, n: Json)
    requires ValidLoc(t, loc)
  {
    var t' := Put(t, loc, n);
    && WellFormed(t')
    && Resolve(t', steps) == Some(loc)
    && ValidLoc(t', loc) && At(t', loc) == n
    && Has(Abs(t), steps) && Abs(t') == PutC(Abs(t), steps, Abs(n))
  }

  lemma PutOkStep(t: Json, s: Step, tail: seq<Step>, rest: Loc, n: Json)
    requires WellFormed(t) && WellFormed(n) && NulFreeSteps([s]) && Select(t, s) < |Children(t)|
    requires var c := Children(t)[Select(t, s)]; ValidLoc(c, rest) && PutOk(c, tail, rest, n)
    ensures ValidLoc(t, [Select(t, s)] + rest) && PutOk(t, [s] + tail, [Select(t, s)] + rest, n)
  {
    var i := Select(t, s);
    var c' := Put(Children(t)[i], rest, n);
    PutSplit(t, i, rest, n);
    PutChild(t, s, c');
    var t' := Put(t, [i], c');
    PutSplit(t', i, rest, n);
    ResolveFrom(t', s, tail);
    SelectAbs(t, s);
    PutFrom(Abs(t), s, tail, Abs(n));
  }

  lemma ResolveFrom(t: Json, s: Step, tail: seq<Step>)
    requires Select(t, s) < |Children(t)|
    ensures Resolve(t, [s] + tail) == Prepend(Select(t, s), Resolve(Children(t)[Select(t, s)], tail))
  {
    assert ([s] + tail)[1..] == tail;
  }

  lemma PutFrom(c: Canon, s: Step, tail: seq<Step>, n: Canon)
    requires Has(c, [s]) && Has(GetC(c, [s]), tail)
    ensures Has(c, [s] + tail) && PutC(c, [s] + tail, n) == PutC(c, [s], PutC(GetC(c, [s]), tail, n))
  {
    assert ([s] + tail)[1..] == tail && ([s] + tail)[0] == s && [s][1..] == [];
    assert GetC(c, [s]) == if s.Idx? then c.items[s.i] else c.fields[Fold(s.name)];
  }

  /** Replacing the node a path leads to has the canonical effect of PutC. */
  lemma {:induction false} PutAbs(t: Json, steps: seq<Step>, n: Json)
    requires WellFormed(t) && WellFormed(n) && NulFreeSteps(steps) && Resolve(t, steps).Some?
    ensures ValidLoc(t, Resolve(t, steps).value) && PutOk(t, steps, Resolve(t, steps).value, n)
    decreases |steps|
  {
    if steps != [] {
      var i := Select(t, steps[0]);
      WellFormedChild(t, i);
      PutAbs(Children(t)[i], steps[1..], n);
      PutOkStep(t, steps[0], steps[1..], Resolve(Children(t)[i], steps[1..]).value, n);
      assert [steps[0]] + steps[1..] == steps;
    }
  }

  lemma {:induction false} PutTwice(t: Json, loc: Loc, a: Json, b: Json)
    requires ValidLoc(t, loc)
    ensures ValidLoc(Put(t, loc, a), loc) && Put(Put(t, loc, a), loc, b) == Put(t, loc, b)
    decreases |loc|
  {
    if loc != [] { PutTwice(Children(t)[loc[0]], loc[1..], a, b); }
  }

  // ----- path text

  lemma {:induction false} PathTextSnoc(steps: seq<Step>, s: Step)
    ensures PathText(steps + [s]) == PathText(steps) + "/" + StepText(s)
    decreases |steps|
  {
    if steps == [] {
      assert steps + [s] == [s] && [s][1..] == [];
    } else {
      assert (steps + [s])[1..] == steps[1..] + [s];
      PathTextSnoc(steps[1..], s);
    }
  }

  lemma {:induction false} LastSlashOf(parent: string, seg: string)
    requires forall i :: 0 <= i < |seg| ==> seg[i] != '/'
    ensures LastSlash(parent + "/" + seg) == |parent|
    decreases |seg|
  {
    var p := parent + "/" + seg;
    if seg != "" {
      assert p[..|p| - 1] == parent + "/" + seg[..|seg| - 1];
      LastSlashOf(parent, seg[..|seg| - 1]);
    }
  }

  lemma SplitPathText(parent: string, child: string)
    ensures SplitPath(parent + "/" + Encode(child)) == Some((parent, child))
  {
    DecodeEncode(child);
    LastSlashOf(parent, Encode(child));
    var p := parent + "/" + Encode(child);
    assert p[..|parent|] == parent && p[|parent| + 1..] == Encode(child);
  }

  lemma {:induction false} EncodePlain(s: string)
    requires forall i :: 0 <= i < |s| ==> s[i] != '/' && s[i] != '~'
    ensures Encode(s) == s
  {
    if s != "" {
      EncodePlain(s[1..]);
      assert s == [s[0]] + s[1..];
    }
  }

  lemma AtoiDecimal(i: nat)
    ensures Atoi(Decimal(i)) == i && Encode(Decimal(i)) == Decimal(i) && Decimal(i) != "-"
  {
    EncodePlain(Decimal(i));
    ScanDecimal(i, "");
    assert Decimal(i) + "" == Decimal(i);
  }

  lemma {:induction false} DecimalNulFree(n: nat)
    ensures NulFree(Decimal(n))
    decreases n
  {
    if n >= 10 { DecimalNulFree(n / 10); }
  }

  // ----- one container node

  lemma DetachIdx(node: Json, i: nat)
    requires WellFormed(node) && node.Array?
    ensures var r := DetachChild(node, Decimal(i)).node;
            WellFormed(r) && r.Array? && Abs(r) == EditC(Abs(node), RemoveIdx(i))
  {
    AtoiDecimal(i);
    if i < |node.items| {
      assert AbsItems(RemoveAt(node.items, i)) == RemoveAt(AbsItems(node.items), i);
    }
  }

  lemma DetachKey(node: Json, n: string)
    requires WellFormed(node) && node.Object? && NulFree(n)
    ensures var r := DetachChild(node, n).node;
            WellFormed(r) && r.Object? && Abs(r) == EditC(Abs(node), RemoveKey(n))
  {
    var ms := node.members;
    var i := FindMember(ms, n);
    FindMemberByKey(ms, n);
    if i < |ms| {
      AbsRemoveMember(ms, i);
      var r := RemoveAt(ms, i);
      assert forall j :: 0 <= j < |r| ==> r[j] == ms[if j < i then j else j + 1];
    } else {
      assert AbsMembers(ms) - {Fold(n)} == AbsMembers(ms);
    }
  }

  lemma AddDash(node: Json, v: Json)
    requires WellFormed(node) && node.Array? && WellFormed(v)
    ensures var r := AddChild(node, "-", v); WellFormed(r) && Abs(r) == EditC(Abs(node), Append(v))
  {
    assert AbsItems(node.items + [v]) == AbsItems(node.items) + [Abs(v)];
  }

  lemma AddName(node: Json, n: string, v: Json)
    requires WellFormed(node) && node.Object? && WellFormed(v) && NulFree(n)
    ensures var r := AddChild(node, n, v); WellFormed(r) && Abs(r) == EditC(Abs(node), AddKey(n, v))
  {
    DetachKey(node, n);
    var ms := DetachChild(node, n).node.members;
    AbsAppendMember(ms, Member(n, v));
    assert (AbsMembers(node.members) - {Fold(n)})[Fold(n) := Abs(v)] == AbsMembers(node.members)[Fold(n) := Abs(v)];
  }

  lemma ReplaceIdx(node: Json, i: nat, v: Json)
    requires WellFormed(node) && WellFormed(v) && node.Array? && i < |node.items|
    ensures var r := AddChild(DetachChild(node, Decimal(i)).node, Decimal(i), v);
            WellFormed(r) && r == Array(node.items[i := v])
  {
    AtoiDecimal(i);
    InsertRemoved(node.items, i, v);
    PutItem(node.items, i, v);
  }

  lemma InsertRemoved<T>(s: seq<T>, i: nat, x: T)
    requires i < |s|
    ensures InsertAt(RemoveAt(s, i), i, x) == s[i := x]
  {
  }

  lemma ReplaceKey(node: Json, n: string, v: Json)
    requires WellFormed(node) && WellFormed(v) && node.Object? && NulFree(n)
    ensures var r := AddChild(DetachChild(node, n).node, n, v);
            WellFormed(r) && Abs(r) == CObject(AbsMembers(node.members)[Fold(n) := Abs(v)])
  {
    DetachKey(node, n);
    AddName(DetachChild(node, n).node, n, v);
    assert (AbsMembers(node.members) - {Fold(n)})[Fold(n) := Abs(v)] == AbsMembers(node.members)[Fold(n) := Abs(v)];
  }

  /** The last path segment before decoding. */
  function Segment(s: Step): string {
    if s.Idx? then Decimal(s.i) else s.name
  }

  /** Detaching a child and adding the new value under the same segment replaces it. */
  lemma ReplaceChild(node: Json, s: Step, v: Json)
    requires WellFormed(node) && WellFormed(v) && NulFreeSteps([s]) && Has(Abs(node), [s])
    ensures var mid := DetachChild(node, Segment(s)).node;
            var r := AddChild(mid, Segment(s), v);
            WellFormed(mid) && WellFormed(r) && Abs(r) == PutC(Abs(node), [s], Abs(v))
  {
    assert [s][1..] == [];
    match s
    case Idx(i) =>
      DetachIdx(node, i);
      ReplaceIdx(node, i, v);
      assert AbsItems(node.items[i := v]) == AbsItems(node.items)[i := Abs(v)];
    case Fld(n) =>
      assert NulFree(n) by { assert [s][0].Fld?; }
      DetachKey(node, n);
      ReplaceKey(node, n, v);
  }

  // ----- whole patches

  lemma FieldsOf(op: string, path: string, suffix: Option<string>, value: Option<Json>)
    ensures var g := GeneratePatch(op, path, suffix, value);
            && Field(g, "op") == Some(String(op))
            && Field(g, "path") == Some(String(if suffix.Some? then path + "/" + Encode(suffix.value) else path))
            && Field(g, "value") == value
  {
    var ms := GeneratePatch(op, path, suffix, value).members;
    FieldNames();
    assert FindMember(ms, "op") == 0;
    assert FindMember(ms, "path") == 1;
    if value.Some? { ThirdField(ms, value.value); }
  }

  lemma FieldNames()
    ensures StrCaseCmp("op", "path") != 0 && StrCaseCmp("op", "value") != 0 && StrCaseCmp("path", "value") != 0
    ensures StrCaseCmp("op", "op") == 0 && StrCaseCmp("path", "path") == 0 && StrCaseCmp("value", "value") == 0
  {
    CmpTrichotomy("op", "op");
    CmpTrichotomy("path", "path");
    CmpTrichotomy("value", "value");
  }

  lemma ThirdField(ms: seq<Member>, value: Json)
    requires |ms| == 3 && ms[0].name == "op" && ms[1].name == "path" && ms[2] == Member("value", value)
    ensures Field(Object(ms), "value") == Some(value)
  {
    FieldNames();
    assert FindMember(ms, "value") == 2;
  }

  lemma DetachAt(root: Json, steps: seq<Step>, child: string)
    requires WellFormed(root) && NulFreeSteps(steps) && Resolve(root, steps).Some?
    ensures var loc := Resolve(root, steps).value;
            ValidLoc(root, loc)
            && var d := DetachChild(At(root, loc), child);
               PatchDetach(root, PathText(steps) + "/" + Encode(child)) == Took(d.value, Put(root, loc, d.node))
  {
    ResolveAbs(root, steps);
    GetResolves(root, steps);
    SplitPathText(PathText(steps), child);
  }

  lemma AddAtPath(root: Json, steps: seq<Step>, child: string, v: Json)
    requires WellFormed(root) && NulFreeSteps(steps) && Resolve(root, steps).Some?
    ensures var loc := Resolve(root, steps).value;
            ValidLoc(root, loc)
            && AddAt(root, PathText(steps) + "/" + Encode(child), v)
               == Done(0, Put(root, loc, AddChild(At(root, loc), child, v)))
  {
    ResolveAbs(root, steps);
    GetResolves(root, steps);
    SplitPathText(PathText(steps), child);
  }

  lemma ApplyAdd(root: Json, path: string, child: string, v: Json)
    ensures Apply(root, GeneratePatch("add", path, Some(child), Some(v))) == AddAt(root, path + "/" + Encode(child), v)
  {
    FieldsOf("add", path, Some(child), Some(v));
  }

  lemma ApplyRemove(root: Json, path: string, child: string)
    ensures var d := PatchDetach(root, path + "/" + Encode(child));
            Apply(root, GeneratePatch("remove", path, Some(child), None)) == if d.Fault? then Crash else Done(0, d.root)
  {
    FieldsOf("remove", path, Some(child), None);
  }

  lemma ApplyReplace(root: Json, path: string, v: Json)
    requires PatchDetach(root, path).Took?
    ensures Apply(root, GeneratePatch("replace", path, None, Some(v))) == AddAt(PatchDetach(root, path).root, path, v)
  {
    FieldsOf("replace", path, None, Some(v));
  }

  /** Detach and add under one segment of one parent. */
  lemma ReplaceAt(root: Json, parent: seq<Step>, s: Step, v: Json)
    requires WellFormed(root) && WellFormed(v) && NulFreeSteps(parent) && NulFreeSteps([s])
    requires Has(Abs(root), parent) && Has(GetC(Abs(root), parent), [s])
    ensures var p := PathText(parent) + "/" + Encode(Segment(s));
            PatchDetach(root, p).Took?
            && var out := AddAt(PatchDetach(root, p).root, p, v);
               out.Done? && out.code == 0 && WellFormed(out.root)
               && Abs(out.root) == PutC(Abs(root), parent, PutC(GetC(Abs(root), parent), [s], Abs(v)))
  {
    ResolveAbs(root, parent);
    var loc := Resolve(root, parent).value;
    var node := At(root, loc);
    ReplaceChild(node, s, v);
    var mid := DetachChild(node, Segment(s)).node;
    var r := AddChild(mid, Segment(s), v);
    DetachAt(root, parent, Segment(s));
    PutAbs(root, parent, mid);
    AddAtPath(Put(root, loc, mid), parent, Segment(s), v);
    PutTwice(root, loc, mid, r);
    PutAbs(root, parent, r);
  }

  /** `root'` is the tree after the operation. */
  ghost predicate Simulates(root: Json, op: Op, out: Outcome)
    requires Has(Abs(root), op.path)
  {
    out.Done? && out.code == 0 && WellFormed(out.root) && Abs(out.root) == Effect(Abs(root), op)
  }

  lemma RemoveSimulates(root: Json, path: seq<Step>, e: Edit, child: string)
    requires WellFormed(root) && GoodOp(Op(path, e)) && Applicable(Abs(root), Op(path, e))
    requires (e.RemoveIdx? && child == Decimal(e.i)) || (e.RemoveKey? && child == e.name)
    ensures Simulates(root, Op(path, e), Apply(root, Render(Op(path, e))))
  {
    ApplyRemove(root, PathText(path), child);
    ResolveAbs(root, path);
    var loc := Resolve(root, path).value;
    var node := At(root, loc);
    if e.RemoveIdx? { DetachIdx(node, e.i); } else { DetachKey(node, e.name); }
    DetachAt(root, path, child);
    PutAbs(root, path, DetachChild(node, child).node);
  }

  lemma AddSimulates(root: Json, path: seq<Step>, e: Edit, child: string)
    requires WellFormed(root) && GoodOp(Op(path, e)) && Applicable(Abs(root), Op(path, e))
    requires (e.Append? && child == "-") || (e.AddKey? && child == e.name)
    ensures Simulates(root, Op(path, e), Apply(root, Render(Op(path, e))))
  {
    ApplyAdd(root, PathText(path), child, e.value);
    ResolveAbs(root, path);
    var loc := Resolve(root, path).value;
    var node := At(root, loc);
    if e.Append? { AddDash(node, e.value); } else { AddName(node, e.name, e.value); }
    AddAtPath(root, path, child, e.value);
    PutAbs(root, path, AddChild(node, child, e.value));
  }

  lemma ReplaceSimulates(root: Json, parent: seq<Step>, s: Step, v: Json)
    requires WellFormed(root) && WellFormed(v) && NulFreeSteps(parent) && NulFreeSteps([s])
    requires Has(Abs(root), parent + [s])
    ensures Simulates(root, Op(parent + [s], Set(v)), Apply(root, Render(Op(parent + [s], Set(v)))))
  {
    var c := Abs(root);
    PathTextSnoc(parent, s);
    if s.Idx? { AtoiDecimal(s.i); }
    HasParent(c, parent, s);
    Compose(c, parent, s, Abs(v));
    ReplaceAt(root, parent, s, v);
    ApplyReplace(root, PathText(parent + [s]), v);
  }

  lemma {:induction false} HasParent(c: Canon, parent: seq<Step>, s: Step)
    requires Has(c, parent + [s])
    ensures Has(c, parent)
    decreases |parent|
  {
    if parent != [] {
      assert (parent + [s])[1..] == parent[1..] + [s];
      HasParent(if parent[0].Idx? then c.items[parent[0].i] else c.fields[Fold(parent[0].name)], parent[1..], s);
    }
  }

  /** Applying the text of an operation returns 0 and has exactly its canonical effect. */
  lemma ApplySimulates(root: Json, op: Op)
    requires WellFormed(root) && GoodOp(op) && Applicable(Abs(root), op)
    ensures Simulates(root, op, Apply(root, Render(op)))
  {
    match op.edit
    case RemoveIdx(i) => RemoveSimulates(root, op.path, op.edit, Decimal(i));
    case RemoveKey(n) => RemoveSimulates(root, op.path, op.edit, n);
    case Append(v) => AddSimulates(root, op.path, op.edit, "-");
    case AddKey(n, v) => AddSimulates(root, op.path, op.edit, n);
    case Set(v) => SetSimulates(root, op.path, v);
  }

  lemma SetSimulates(root: Json, path: seq<Step>, v: Json)
    requires WellFormed(root) && GoodOp(Op(path, Set(v))) && Applicable(Abs(root), Op(path, Set(v)))
    ensures Simulates(root, Op(path, Set(v)), Apply(root, Render(Op(path, Set(v)))))
  {
    var k := |path| - 1;
    assert path == path[..k] + [path[k]];
    ReplaceSimulates(root, path[..k], path[k], v);
  }
}
