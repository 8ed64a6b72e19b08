/** Generating patches and applying them, as the two entry points are used together. */
module DiffRun {
  import opened Option
  import opened CString
  import opened CJson
  import opened Pointer
  import opened PatchCanon
  import opened Compare
  import opened Diff
  import opened DiffPatch
  import opened Marks
  import opened PatchRun
  import opened PatchSafety
  import opened DiffSweep
  import opened EditAt
  import opened InPlace
  import DiffGen
  import opened PatchOps

  lemma {:induction false} EncodeNulFree(s: string)
    requires NulFree(s)
    ensures NulFree(Encode(s))
  {
    if s != "" { EncodeNulFree(s[1..]); }
  }

  lemma {:induction false} PathNulFree(steps: seq<Step>)
    requires NulFreeSteps(steps)
    ensures NulFree(PathText(steps))
    decreases |steps|
  {
    if steps != [] {
      PathNulFree(steps[1..]);
      match steps[0] {
        case Idx(i) => DecimalNulFree(i);
        case Fld(n) => EncodeNulFree(n);
      }
    }
  }

  lemma GeneratedWellFormed(op: string, path: string, suffix: Option<string>, value: Option<Json>)
    requires NulFree(op) && op != "test" && NulFree(path) && (suffix.Some? ==> NulFree(suffix.value))
    requires value.Some? ==> WellFormed(value.value)
    ensures WellFormed(GeneratePatch(op, path, suffix, value)) && !IsTest(GeneratePatch(op, path, suffix, value))
  {
    FieldsOf(op, path, suffix, value);
    if suffix.Some? { EncodeNulFree(suffix.value); }
    var p := if suffix.Some? then path + "/" + Encode(suffix.value) else path;
    FieldKeys(String(op), String(p), if value.Some? then value.value else Null);
  }

  lemma FieldKeys(op: Json, path: Json, value: Json)
    requires WellFormed(op) && WellFormed(path) && WellFormed(value)
    ensures WellFormed(Object([Member("op", op), Member("path", path)]))
    ensures WellFormed(Object([Member("op", op), Member("path", path)] + [Member("value", value)]))
  {
    assert |Fold("op")| == 2 && |Fold("path")| == 4 && |Fold("value")| == 5;
  }

  /** Every generated patch is one that ApplyPatch can work on. */
  lemma RenderedUsable(op: Op)
    requires GoodOp(op)
    ensures WellFormed(Render(op)) && !IsTest(Render(op))
  {
    var path := PathText(op.path);
    PathNulFree(op.path);
    match op.edit
    case Set(v) => GeneratedWellFormed("replace", path, None, Some(v));
    case RemoveIdx(i) =>
      DecimalNulFree(i);
      GeneratedWellFormed("remove", path, Some(Decimal(i)), None);
    case RemoveKey(n) => GeneratedWellFormed("remove", path, Some(n), None);
    case Append(v) => GeneratedWellFormed("add", path, Some("-"), Some(v));
    case AddKey(n, v) => GeneratedWellFormed("add", path, Some(n), Some(v));
  }

  lemma {:induction false} RenderedNoTests(ops: seq<Op>)
    requires AllGood(ops)
    ensures NoTests(RenderAll(ops)) && forall i :: 0 <= i < |ops| ==> WellFormed(RenderAll(ops)[i])
  {
    if ops != [] {
      RenderedUsable(ops[0]);
      RenderedNoTests(ops[1..]);
    }
  }

  /** Diff then patch on a copy of `from` made before the diff: code 0, and the document
      compares equal to `to` exactly when no compared array is to lose two or more elements. */
  method DiffAndPatch(from: Json, to: Json) returns (code: int, result: Json)
    requires WellFormed(from) && WellFormed(to) && SameContainer(from, to)
    ensures code == 0 && WellFormed(result)
    ensures Cmp(result, to) == 0 <==> NoLongSurplus(Abs(from), Abs(to))
  {
    var doc := new Document(from);
    var patches, _, _ := DiffGen.GeneratePatches(from, to);
    DiffThenPatch(from, to);
    DiffGood([], from, to);
    RenderedNoTests(DiffOps([], from, to));
    FreshFits(from, 0);
    RunWithoutTests(doc.Value(), patches.items);
    code := doc.ApplyPatches(patches.items);
    result := doc.root;
  }

  // ----- on the tree that was diffed

  /** `from` as the diff leaves it. */
  ghost function Diffed(from: Json, to: Json): (d: Doc)
    ensures d.Valid()
  {
    FreshFits(from, 0);
    DiffMarksFit(from, Fresh(from, 0), to);
    Doc(DiffSwept(from, to), DiffMarks(from, Fresh(from, 0), to), 1, [])
  }

  lemma DiffedStands(from: Json, to: Json)
    requires WellFormed(from) && WellFormed(to)
    ensures Stands(Diffed(from, to), [], []) && Pair(from, Fresh(from, 0), to)
    ensures Abs(Diffed(from, to).root) == Abs(from)
  {
    FreshFits(from, 0);
    DiffSweptReordered(from, to);
    ReorderedSame(from, DiffSwept(from, to));
  }

  /** Generating patches and applying them to the tree they were generated from: the run detaches a
      node into a cycle exactly when some compared object does not start with its least name and
      that member is removed or replaced. Otherwise the run is as good as on a copy. */
  lemma DiffThenPatchInPlace(from: Json, to: Json)
    requires WellFormed(from) && WellFormed(to) && SameContainer(from, to)
    ensures var r := RunAll(Diffed(from, to), RenderAll(DiffOps([], from, to)));
            if Snags(from, to) then r == Corrupted(Loop)
            else r.Left? && r.code == 0 && WellFormed(r.doc.root)
                 && (Cmp(r.doc.root, to) == 0 <==> NoLongSurplus(Abs(from), Abs(to)))
  {
    DiffedStands(from, to);
    NodeRun(Diffed(from, to), [], [], from, Fresh(from, 0), to);
    if !Snags(from, to) { UnsnaggedResult(from, to); }
  }

  lemma UnsnaggedResult(from: Json, to: Json)
    requires WellFormed(from) && WellFormed(to) && SameContainer(from, to)
    requires RunAll(Diffed(from, to), RenderAll(DiffOps([], from, to))).Left?
    ensures var doc := RunAll(Diffed(from, to), RenderAll(DiffOps([], from, to))).doc;
            WellFormed(doc.root) && (Cmp(doc.root, to) == 0 <==> NoLongSurplus(Abs(from), Abs(to)))
  {
    var d, ops := Diffed(from, to), DiffOps([], from, to);
    DiffedStands(from, to);
    DiffGood([], from, to);
    RenderedNoTests(ops);
    RunErases(d, RenderAll(ops));
    DiffLeads(Abs(from), [], from, to);
    ApplyAllSimulates(d.root, ops);
    PatchedIff(Abs(from), Abs(to));
    CmpIff(RunAll(d, RenderAll(ops)).doc.root, to);
  }

  /** Trees whose objects start with their least names can be patched where they are. */
  lemma {:induction false} LeastFirstNeverSnags(a: Json, b: Json)
    requires LeastFirstAll(a)
    ensures !Snags(a, b)
  {
    match (a, b)
    case (Array(xs), Array(ys)) =>
      forall i | 0 <= i < |xs| && i < |ys|
        ensures !Snags(xs[i], ys[i])
      {
        LeastFirstNeverSnags(xs[i], ys[i]);
      }
    case (Object(ms), Object(ns)) =>
      forall i, j | 0 <= i < |ms| && 0 <= j < |ns|
        ensures !Snags(ms[i].value, ns[j].value)
      {
        LeastFirstNeverSnags(ms[i].value, ns[j].value);
      }
    case _ =>
  }

  /** The smallest failing input: the members "b" and "a", of which "a" is to go. */
  lemma InPlaceCounterexample(from: Json, to: Json)
    requires from == Object([Member("b", True), Member("a", Null)]) && to == Object([Member("b", True)])
    ensures WellFormed(from) && WellFormed(to)
    ensures RunAll(Diffed(from, to), RenderAll(DiffOps([], from, to))) == Corrupted(Loop)
  {
    ExampleMembers(from);
    var first := SortMembers(from.members)[0];
    OrderOf(from.members, from.members, Name);
    assert Fold("b") == "b" && Fold("a") == "a";
    assert first == Member("a", Null);
    assert StrCaseCmp("b", "a") != 0;
    assert Dropped(first, to.members);
    DiffThenPatchInPlace(from, to);
  }

  /** The two calls on one tree. */
  method DiffAndPatchInPlace(from: Json, to: Json) returns (code: int, result: Json)
    requires WellFormed(from) && WellFormed(to) && SameContainer(from, to) && !Snags(from, to)
    ensures code == 0 && WellFormed(result)
    ensures Cmp(result, to) == 0 <==> NoLongSurplus(Abs(from), Abs(to))
  {
    DiffThenPatchInPlace(from, to);
    DiffGood([], from, to);
    RenderedNoTests(DiffOps([], from, to));
    var patches, from', _ := DiffGen.GeneratePatches(from, to);
    var doc := new Document.Sorted(from', Diffed(from, to).marks);
    code := doc.ApplyPatches(patches.items);
    result := doc.root;
  }
}
