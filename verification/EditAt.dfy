/** Generated patches seen from the node they edit. */
module EditAt {
  import opened Option
  import opened CString
  import opened CJson
  import opened Pointer
  import opened Patch
  import opened PatchCanon
  import opened Marks
  import opened PatchRun
  import opened PatchSafety
  import opened TestRuns

  /** `path` leads to the node at `loc`. */
  ghost predicate Stands(d: Doc, path: seq<Step>, loc: Loc) {
    && d.Valid() && WellFormed(d.root) && NulFreeSteps(path)
    && Resolve(d.root, path) == Some(loc) && ValidLoc(d.root, loc)
  }

  /** The document with another node, and its marks, at `loc`. */
  ghost function Edited(d: Doc, loc: Loc, node: Json, k: Marks, epoch: nat): Doc
    requires ValidLoc(d.root, loc)
  {
    Doc(Put(d.root, loc, node), PutMark(d.marks, loc, k), epoch, d.leaked)
  }

  /** `e` is `d` but for the node at `loc`. */
  ghost predicate Within(d: Doc, e: Doc, loc: Loc) {
    && ValidLoc(d.root, loc) && ValidLoc(e.root, loc)
    && e == Edited(d, loc, At(e.root, loc), MarkAt(e.marks, loc), e.epoch)
  }

  lemma EditedStands(d: Doc, path: seq<Step>, loc: Loc, node: Json, k: Marks, epoch: nat)
    requires Stands(d, path, loc) && WellFormed(node) && Fits(node, k)
    ensures var e := Edited(d, loc, node, k, epoch);
            && Stands(e, path, loc) && Within(d, e, loc) && At(e.root, loc) == node && MarkAt(e.marks, loc) == k
  {
    PutAbs(d.root, path, node);
    AtPut(d.root, d.marks, loc, node, k);
    FitsPut(d.root, d.marks, loc, node, k);
  }

  lemma {:induction false} PutMarkTwice(t: Json, m: Marks, loc: Loc, a: Marks, b: Marks)
    requires Fits(t, m) && ValidLoc(t, loc)
    ensures PutMark(PutMark(m, loc, a), loc, b) == PutMark(m, loc, b)
    decreases |loc|
  {
    if loc != [] { PutMarkTwice(Children(t)[loc[0]], m.below[loc[0]], loc[1..], a, b); }
  }

  lemma WithinSelf(d: Doc, loc: Loc)
    requires d.Valid() && ValidLoc(d.root, loc)
    ensures Within(d, d, loc)
  {
    PutSame(d.root, loc);
    PutMarkSame(d.root, d.marks, loc);
  }

  lemma WithinMore(d: Doc, e: Doc, f: Doc, loc: Loc)
    requires d.Valid() && Within(d, e, loc) && Within(e, f, loc)
    ensures Within(d, f, loc)
  {
    PutTwice(d.root, loc, At(e.root, loc), At(f.root, loc));
    PutMarkTwice(d.root, d.marks, loc, MarkAt(e.marks, loc), MarkAt(f.marks, loc));
  }

  lemma {:induction false} PutBelow(t: Json, m: Marks, loc: Loc, i: nat, x: Json, k: Marks)
    requires Fits(t, m) && ValidLoc(t, loc) && i < |Children(At(t, loc))|
    ensures ValidLoc(t, loc + [i]) && At(t, loc + [i]) == Children(At(t, loc))[i]
    ensures Put(t, loc + [i], x) == Put(t, loc, Put(At(t, loc), [i], x))
    ensures PutMark(m, loc + [i], k) == PutMark(m, loc, PutMark(MarkAt(m, loc), [i], k))
    decreases |loc|
  {
    if loc == [] {
      assert loc + [i] == [i];
    } else {
      assert (loc + [i])[1..] == loc[1..] + [i];
      PutBelow(Children(t)[loc[0]], m.below[loc[0]], loc[1..], i, x, k);
    }
  }

  /** An edit of a child is an edit of its parent. */
  lemma WithinParent(d: Doc, e: Doc, path: seq<Step>, loc: Loc, s: Step)
    requires Stands(d, path, loc) && NulFreeSteps([s])
    requires Select(At(d.root, loc), s) < |Children(At(d.root, loc))|
    requires Within(d, e, loc + [Select(At(d.root, loc), s)]) && e.Valid() && WellFormed(e.root)
    ensures Stands(e, path, loc) && Within(d, e, loc)
    ensures var i := Select(At(d.root, loc), s);
            && At(e.root, loc) == Put(At(d.root, loc), [i], At(e.root, loc + [i]))
            && MarkAt(e.marks, loc) == PutMark(MarkAt(d.marks, loc), [i], MarkAt(e.marks, loc + [i]))
  {
    var i, node, k := Select(At(d.root, loc), s), At(d.root, loc), MarkAt(d.marks, loc);
    var x, b := At(e.root, loc + [i]), MarkAt(e.marks, loc + [i]);
    PutBelow(d.root, d.marks, loc, i, x, b);
    WellFormedAt(e.root, loc + [i]);
    WellFormedAt(d.root, loc);
    FitsAt(e.root, e.marks, loc + [i]);
    FitsAt(d.root, d.marks, loc);
    PutChild(node, s, x);
    FitsPut(node, k, [i], x, b);
    EditedStands(d, path, loc, Put(node, [i], x), PutMark(k, [i], b), e.epoch);
  }

  lemma ChildStands(d: Doc, path: seq<Step>, loc: Loc, s: Step)
    requires Stands(d, path, loc) && NulFreeSteps([s])
    requires Select(At(d.root, loc), s) < |Children(At(d.root, loc))|
    ensures var i := Select(At(d.root, loc), s);
            && Stands(d, path + [s], loc + [i]) && At(d.root, loc + [i]) == Children(At(d.root, loc))[i]
            && |MarkAt(d.marks, loc).below| == |Children(At(d.root, loc))|
            && MarkAt(d.marks, loc + [i]) == MarkAt(d.marks, loc).below[i]
  {
    var i := Select(At(d.root, loc), s);
    ResolveConcat(d.root, path, [s]);
    assert [s][1..] == [] && [i][1..] == [] && [i] + [] == [i];
    PutBelow(d.root, d.marks, loc, i, Null, MarkAt(d.marks, loc));
    MarkAtChild(d.root, d.marks, loc, i);
    FitsAt(d.root, d.marks, loc);
  }

  // ----- the three kinds of generated patches

  /** Taking the child at `i` out harms nothing. */
  ghost predicate Free(k: Marks, i: nat) {
    i == 0 ==> k.prev.None?
  }

  /** A run that ends well and with the given node at `loc`. */
  ghost predicate Leaves(r: Result, d: Doc, path: seq<Step>, loc: Loc, node: Json, k: Marks) {
    && r.Left? && r.code == 0 && Stands(r.doc, path, loc) && Within(d, r.doc, loc)
    && At(r.doc.root, loc) == node && MarkAt(r.doc.marks, loc) == k
  }

  lemma SpotAt(d: Doc, path: seq<Step>, loc: Loc, child: string)
    requires Stands(d, path, loc)
    ensures var p, node := PathText(path) + "/" + Encode(child), At(d.root, loc);
            && SplitPath(p) == Some((PathText(path), child)) && Get(d.root, PathText(path)) == Some(loc)
            && var i := ChildIndex(node, child);
               SpotOf(d.root, p) == if i < |Children(node)| then Some(Spot(loc, i)) else None
  {
    GetResolves(d.root, path);
    SplitPathText(PathText(path), child);
  }

  /** The container after `child` is taken out, and its marks. */
  ghost function TakenMarks(node: Json, k: Marks, child: string): Marks {
    if ChildIndex(node, child) < |Children(node)| then Without(k, ChildIndex(node, child)) else k
  }

  lemma DetachWellFormed(node: Json, child: string)
    requires WellFormed(node)
    ensures WellFormed(DetachChild(node, child).node)
  {
    match node
    case Array(items) =>
    case Object(ms) =>
      var i := FindMember(ms, child);
      if i < |ms| {
        RemoveKeepsDistinct(ms, i);
        var r := RemoveAt(ms, i);
        assert forall j :: 0 <= j < |r| ==> r[j] == ms[if j < i then j else j + 1];
      }
    case _ =>
  }

  lemma RemoveAtNode(d: Doc, path: seq<Step>, loc: Loc, child: string)
    requires Stands(d, path, loc)
    ensures var r := RemoveStep(d, PathText(path) + "/" + Encode(child));
            var node, k := At(d.root, loc), MarkAt(d.marks, loc);
            var i := ChildIndex(node, child);
            && (i >= |Children(node)| || Free(k, i) ==>
                  Leaves(r, d, path, loc, DetachChild(node, child).node, TakenMarks(node, k, child)))
            && (i == 0 < |Children(node)| && Loops(k) ==> r == Corrupted(Loop))
  {
    var node, k := At(d.root, loc), MarkAt(d.marks, loc);
    SpotAt(d, path, loc, child);
    DetachAt(d.root, path, child);
    WellFormedAt(d.root, loc);
    FitsAt(d.root, d.marks, loc);
    DetachWellFormed(node, child);
    var i := ChildIndex(node, child);
    if i < |Children(node)| {
      WithoutFits(node, k, child);
    } else {
      PutMarkSame(d.root, d.marks, loc);
    }
    EditedStands(d, path, loc, DetachChild(node, child).node, TakenMarks(node, k, child), d.epoch);
  }

  /** Adding a new child. */
  lemma AddAtNode(d: Doc, path: seq<Step>, loc: Loc, child: string, v: Json)
    requires Stands(d, path, loc) && WellFormed(v) && NulFree(child)
    requires At(d.root, loc).Object? ==> FindMember(At(d.root, loc).members, child) == |At(d.root, loc).members|
    requires At(d.root, loc).Object? || At(d.root, loc).Array?
    ensures var node, k := At(d.root, loc), MarkAt(d.marks, loc);
            Leaves(AddFresh(d, PathText(path) + "/" + Encode(child), v), d, path, loc,
                   AddChild(node, child, v), AddedMarks(node, k, child, Fresh(v, d.epoch)))
  {
    var node, k := At(d.root, loc), MarkAt(d.marks, loc);
    SpotAt(d.(epoch := d.epoch + 1), path, loc, child);
    WellFormedAt(d.root, loc);
    FitsAt(d.root, d.marks, loc);
    FreshFits(v, d.epoch);
    AddedFits(node, k, child, v, Fresh(v, d.epoch));
    AddWellFormed(node, child, v);
    EditedStands(d, path, loc, AddChild(node, child, v), AddedMarks(node, k, child, Fresh(v, d.epoch)), d.epoch + 1);
  }

  lemma AddWellFormed(node: Json, child: string, v: Json)
    requires WellFormed(node) && WellFormed(v) && NulFree(child) && (node.Object? || node.Array?)
    ensures WellFormed(AddChild(node, child, v))
  {
    if node.Object? { AddName(node, child, v); }
  }

  lemma AddIsStep(d: Doc, p: string, child: string, v: Json)
    requires d.Valid()
    ensures RunPatch(d, GeneratePatch("add", p, Some(child), Some(v))) == AddFresh(d, p + "/" + Encode(child), v)
  {
    FieldsOf("add", p, Some(child), Some(v));
  }

  lemma SetIsStep(d: Doc, path: seq<Step>, s: Step, v: Json)
    requires d.Valid()
    ensures RunPatch(d, Render(Op(path + [s], Set(v))))
         == ReplaceStep(d, PathText(path) + "/" + Encode(Segment(s)), Some(v))
  {
    PathTextSnoc(path, s);
    if s.Idx? { AtoiDecimal(s.i); }
    FieldsOf("replace", PathText(path + [s]), None, Some(v));
  }

  lemma SegmentIndex(node: Json, s: Step)
    requires Select(node, s) < |Children(node)|
    ensures ChildIndex(node, Segment(s)) == Select(node, s) && (node.Array? || node.Object?)
  {
    if s.Idx? { AtoiDecimal(s.i); }
  }

  /** A member taken out is gone. */
  lemma DetachedGone(node: Json, child: string)
    requires WellFormed(node) && node.Object? && NulFree(child)
    ensures var ms := DetachChild(node, child).node.members; FindMember(ms, child) == |ms|
  {
    DetachKey(node, child);
    FindMemberByKey(DetachChild(node, child).node.members, child);
  }

  /** The container after a child is replaced, and its marks. */
  ghost function ReplacedNode(node: Json, s: Step, v: Json): Json {
    AddChild(DetachChild(node, Segment(s)).node, Segment(s), v)
  }

  ghost function ReplacedMarks(node: Json, k: Marks, s: Step, v: Marks): Marks {
    AddedMarks(DetachChild(node, Segment(s)).node, TakenMarks(node, k, Segment(s)), Segment(s), v)
  }

  lemma SegmentNulFree(s: Step)
    requires NulFreeSteps([s])
    ensures NulFree(Segment(s))
  {
    if s.Idx? { DecimalNulFree(s.i); } else { assert [s][0].Fld?; }
  }

  lemma ReplaceAtNode(d: Doc, path: seq<Step>, loc: Loc, s: Step, v: Json)
    requires Stands(d, path, loc) && NulFreeSteps([s]) && WellFormed(v)
    requires Select(At(d.root, loc), s) < |Children(At(d.root, loc))|
    ensures var r := RunPatch(d, Render(Op(path + [s], Set(v))));
            var node, k := At(d.root, loc), MarkAt(d.marks, loc);
            && (Free(k, Select(node, s)) ==>
                  Leaves(r, d, path, loc, ReplacedNode(node, s, v), ReplacedMarks(node, k, s, Fresh(v, d.epoch))))
            && (Select(node, s) == 0 && Loops(k) ==> r == Corrupted(Loop))
  {
    var p, node, k := PathText(path) + "/" + Encode(Segment(s)), At(d.root, loc), MarkAt(d.marks, loc);
    SetIsStep(d, path, s, v);
    SegmentIndex(node, s);
    SegmentNulFree(s);
    RemoveAtNode(d, path, loc, Segment(s));
    WellFormedAt(d.root, loc);
    if node.Object? { DetachedGone(node, Segment(s)); }
    if Free(k, Select(node, s)) {
      var e := RemoveStep(d, p).doc;
      AddAtNode(e, path, loc, Segment(s), v);
      WithinMore(d, e, AddFresh(e, p, v).doc, loc);
    }
  }
}
