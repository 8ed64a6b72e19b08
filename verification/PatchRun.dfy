/** Runs of patches on a document, tests among them. A test sorts members in place and can leave a
    list whose first node still has a `prev`; taking that node out writes to the node there. */
module PatchRun {
  import opened Option
  import opened CJson
  import opened Pointer
  import opened Patch
  import opened Compare
  import opened Marks

  /** A document: the tree, its nodes, the number of the next tree to be made, and the trees that
      have been lost without being freed. */
  datatype Doc = Doc(root: Json, marks: Marks, epoch: nat, leaked: seq<Marks>) {
    ghost predicate Valid() { Fits(root, marks) }
  }

  function FreshDoc(t: Json): Doc {
    Doc(t, Fresh(t, 0), 1, [])
  }

  /** What taking out a first node with a `prev` can do: the rest of its list is a cycle, another
      list goes on differently, or freed memory is written. */
  datatype Damage = Loop | Splice | Freed

  /** What a patch leads to: a return code and the document left, a null or out-of-range
      dereference, or damage to the document. */
  datatype Result = Left(code: int, doc: Doc) | Faulted | Corrupted(damage: Damage)

  predicate IsTest(patch: Json) {
    Field(patch, "op") == Some(String("test")) && Field(patch, "path").Some?
  }

  // ----- the list and position a path's last segment stands for

  datatype Spot = Spot(loc: Loc, i: nat)

  function ChildIndex(node: Json, child: string): nat {
    match node
    case Array(_) => Position(Atoi(child))
    case Object(ms) => FindMember(ms, child)
    case _ => 0
  }

  function SpotOf(root: Json, path: string): (r: Option<Spot>)
    ensures r.Some? ==> ValidLoc(root, r.value.loc) && r.value.i < |Children(At(root, r.value.loc))|
  {
    match SplitPath(path)
    case None => None
    case Some((parent, child)) =>
      match Get(root, parent)
      case None => None
      case Some(loc) =>
        GetValid(root, parent);
        var i := ChildIndex(At(root, loc), child);
        if i < |Children(At(root, loc))| then Some(Spot(loc, i)) else None
  }

  // ----- whereabouts of a node

  /** `p` is a node below `m`. */
  predicate Holds(m: Marks, p: Id) {
    exists i :: 0 <= i < |m.below| && (m.below[i].id == p || Holds(m.below[i], p))
  }

  /** `p` is the last node of some list below `m`. */
  predicate EndsList(m: Marks, p: Id) {
    (m.below != [] && m.below[|m.below| - 1].id == p) || exists i :: 0 <= i < |m.below| && EndsList(m.below[i], p)
  }

  /** `p` is a node that has been lost. Writing to it changes nothing that can be reached. */
  predicate Lost(leaked: seq<Marks>, p: Id) {
    exists i :: 0 <= i < |leaked| && (leaked[i].id == p || Holds(leaked[i], p))
  }

  /** What taking out the first node of the list below `m` does, when `v` has been taken out before
      and is to be appended to that list. The `prev` of the first node is made to point to the
      second. That is no harm if there is no second and the `prev` ends a list itself, or if the
      `prev` has been lost. */
  function Harm(d: Doc, m: Marks, v: Option<Marks>): Option<Damage> {
    if m.prev.None? then None
    else
      var p, others := m.prev.value, |m.below| > 1;
      if exists i :: 1 <= i < |m.below| && m.below[i].id == p then Some(Loop)
      else if v.Some? && v.value.id == p then (if others then Some(Loop) else None)
      else if !others && (EndsList(d.marks, p) || (v.Some? && EndsList(v.value, p))) then None
      else if Holds(d.marks, p) || (v.Some? && Holds(v.value, p)) then Some(Splice)
      else if Lost(d.leaked, p) then None
      else Some(Freed)
  }

  /** The harm of taking out the node a path stands for. */
  function HarmAt(d: Doc, path: string, v: Option<Marks>): Option<Damage> {
    var s := SpotOf(d.root, path);
    if s.Some? && s.value.i == 0 then Harm(d, MarkAt(d.marks, s.value.loc), v) else None
  }

  // ----- edits

  /** A list without the node at `i`. Its first node has the `prev` the first one had. */
  function Without(m: Marks, i: nat): Marks {
    if i < |m.below| then Marks(m.id, if |m.below| == 1 then None else m.prev, RemoveAt(m.below, i)) else m
  }

  /** The marks of the node taken out by cJSONUtils_PatchDetach, and of what is left. */
  function MarksTaken(d: Doc, path: string): Marks {
    var s := SpotOf(d.root, path);
    if s.None? then d.marks else MarkAt(d.marks, s.value.loc + [s.value.i])
  }

  function MarksLeft(d: Doc, path: string): Marks {
    var s := SpotOf(d.root, path);
    if s.None? then d.marks
    else PutMark(d.marks, s.value.loc, Without(MarkAt(d.marks, s.value.loc), s.value.i))
  }

  /** The marks of a container once a value with marks `v` is added under `child`. */
  function AddedMarks(node: Json, m: Marks, child: string, v: Marks): Marks {
    match node
    case Array(_) =>
      Marks(m.id, m.prev, if child == "-" then m.below + [v] else InsertAt(m.below, Position(Atoi(child)), v))
    case Object(ms) =>
      var left := if FindMember(ms, child) < |ms| then Without(m, FindMember(ms, child)) else m;
      Marks(left.id, left.prev, left.below + [v])
    case _ => m
  }

  /** The tail of ApplyPatch. Adding to an object first deletes the member of that name; without a
      parent, and below one that is no container, the value is lost. */
  function AddStep(d: Doc, path: string, value: Json, v: Marks): Result {
    match SplitPath(path)
    case None => Faulted
    case Some((parent, child)) =>
      match Get(d.root, parent)
      case None => Left(9, d.(leaked := d.leaked + [v]))
      case Some(loc) =>
        GetValid(d.root, parent);
        var node, m := At(d.root, loc), MarkAt(d.marks, loc);
        var harm := HarmAt(d, path, Some(v));
        if node.Object? && harm.Some? then Corrupted(harm.value)
        else Left(0, Doc(Put(d.root, loc, AddChild(node, child, value)),
                         PutMark(d.marks, loc, AddedMarks(node, m, child, v)), d.epoch,
                         if node.Array? || node.Object? then d.leaked else d.leaked + [v]))
  }

  /** Adding a value that is made now. */
  function AddFresh(d: Doc, path: string, value: Json): Result {
    AddStep(d.(epoch := d.epoch + 1), path, value, Fresh(value, d.epoch))
  }

  function AddValueStep(d: Doc, path: string, value: Option<Json>): Result {
    match value case None => Left(7, d) case Some(v) => AddFresh(d, path, v)
  }

  /** cJSONUtils_PatchDetach and dropping what it took out. */
  function RemoveStep(d: Doc, path: string): Result {
    var t := PatchDetach(d.root, path);
    var harm := HarmAt(d, path, None);
    if t.Fault? then Faulted
    else if harm.Some? then Corrupted(harm.value)
    else Left(0, Doc(t.root, MarksLeft(d, path), d.epoch, d.leaked))
  }

  function ReplaceStep(d: Doc, path: string, value: Option<Json>): Result {
    var r := RemoveStep(d, path);
    if r.Left? then AddValueStep(r.doc, path, value) else r
  }

  function MoveStep(d: Doc, from: string, path: string): Result {
    var r := RemoveStep(d, from);
    if !r.Left? then r
    else
      match PatchDetach(d.root, from).value
      case None => Left(5, r.doc)
      case Some(value) => AddStep(r.doc, path, value, MarksTaken(d, from))
  }

  function CopyStep(d: Doc, from: string, path: string): Result {
    match Get(d.root, from)
    case None => Left(5, d)
    case Some(loc) =>
      GetValid(d.root, from);
      AddFresh(d, path, At(d.root, loc))
  }

  /** cJSONUtils_ApplyPatch for the operations that edit. */
  function EditStep(d: Doc, patch: Json): Result {
    var op, path := Field(patch, "op"), Field(patch, "path");
    if op.None? || path.None? then Left(2, d)
    else if !op.value.String? then Faulted
    else if op.value.valuestring !in {"add", "remove", "replace", "move", "copy"} then Left(3, d)
    else if !path.value.String? then Faulted
    else
      var p, o := path.value.valuestring, op.value.valuestring;
      if o == "remove" then RemoveStep(d, p)
      else if o == "replace" then ReplaceStep(d, p, Field(patch, "value"))
      else if o == "add" then AddValueStep(d, p, Field(patch, "value"))
      else
        match Field(patch, "from")
        case None => Left(4, d)
        case Some(from) =>
          if !from.String? then Faulted
          else if o == "move" then MoveStep(d, from.valuestring, p)
          else CopyStep(d, from.valuestring, p)
  }

  /** The "test" operation: the comparison's code, and the document as the comparison leaves it. */
  ghost function TestStep(d: Doc, patch: Json): Result
    requires d.Valid()
  {
    var path, value := Field(patch, "path"), Field(patch, "value");
    if path.None? || !path.value.String? then Faulted
    else
      match Get(d.root, path.value.valuestring)
      case None => Faulted
      case Some(loc) =>
        if value.None? then Faulted
        else
          GetValid(d.root, path.value.valuestring);
          FitsAt(d.root, d.marks, loc);
          var node, m := At(d.root, loc), MarkAt(d.marks, loc);
          Left(Cmp(node, value.value),
               Doc(Put(d.root, loc, Swept(node, value.value)), PutMark(d.marks, loc, SweptMarks(node, m, value.value)),
                   d.epoch, d.leaked))
  }

  // ----- the marks keep the shape of the tree

  lemma ChildrenWithout(node: Json, child: string)
    requires ChildIndex(node, child) < |Children(node)|
    ensures Children(DetachChild(node, child).node) == RemoveAt(Children(node), ChildIndex(node, child))
    ensures DetachChild(node, child).value == Some(Children(node)[ChildIndex(node, child)])
  {
  }

  lemma WithoutFits(node: Json, m: Marks, child: string)
    requires Fits(node, m) && ChildIndex(node, child) < |Children(node)|
    ensures Fits(DetachChild(node, child).node, Without(m, ChildIndex(node, child)))
  {
    ChildrenWithout(node, child);
    var i := ChildIndex(node, child);
    forall k | 0 <= k < |m.below| - 1
      ensures Fits(RemoveAt(Children(node), i)[k], RemoveAt(m.below, i)[k])
    {
      RemovedAt(Children(node), i, k);
      RemovedAt(m.below, i, k);
    }
  }

  /** A path whose container has no such child takes nothing. */
  lemma {:induction false} PutSame(t: Json, loc: Loc)
    requires ValidLoc(t, loc)
    ensures Put(t, loc, At(t, loc)) == t
    decreases |loc|
  {
    if loc != [] { PutSame(Children(t)[loc[0]], loc[1..]); }
  }

  lemma DetachesSpot(root: Json, path: string)
    requires PatchDetach(root, path).Took?
    ensures var s := SpotOf(root, path);
            if s.None? then PatchDetach(root, path) == Took(None, root)
            else exists child ::
                   var node := At(root, s.value.loc);
                   && s.value.i == ChildIndex(node, child)
                   && PatchDetach(root, path)
                      == Took(Some(Children(node)[s.value.i]), Put(root, s.value.loc, DetachChild(node, child).node))
  {
    var (parent, child) := SplitPath(path).value;
    if Get(root, parent).Some? {
      GetValid(root, parent);
      var loc := Get(root, parent).value;
      PutSame(root, loc);
      if ChildIndex(At(root, loc), child) < |Children(At(root, loc))| { ChildrenWithout(At(root, loc), child); }
    }
  }

  lemma {:induction false} MarkAtChild(t: Json, m: Marks, loc: Loc, i: nat)
    requires Fits(t, m) && ValidLoc(t, loc) && i < |Children(At(t, loc))|
    ensures MarkAt(m, loc + [i]) == MarkAt(MarkAt(m, loc), [i])
    decreases |loc|
  {
    if loc == [] {
      assert loc + [i] == [i];
    } else {
      assert (loc + [i])[1..] == loc[1..] + [i];
      MarkAtChild(Children(t)[loc[0]], m.below[loc[0]], loc[1..], i);
    }
  }

  lemma DetachFits(d: Doc, path: string)
    requires d.Valid() && PatchDetach(d.root, path).Took?
    ensures Fits(PatchDetach(d.root, path).root, MarksLeft(d, path))
    ensures PatchDetach(d.root, path).value.Some? ==> Fits(PatchDetach(d.root, path).value.value, MarksTaken(d, path))
  {
    DetachesSpot(d.root, path);
    var s := SpotOf(d.root, path);
    if s.Some? {
      var loc, i := s.value.loc, s.value.i;
      var node, m := At(d.root, loc), MarkAt(d.marks, loc);
      var child :| i == ChildIndex(node, child)
        && PatchDetach(d.root, path) == Took(Some(Children(node)[i]), Put(d.root, loc, DetachChild(node, child).node));
      FitsAt(d.root, d.marks, loc);
      WithoutFits(node, m, child);
      FitsPut(d.root, d.marks, loc, DetachChild(node, child).node, Without(m, i));
      MarkAtChild(d.root, d.marks, loc, i);
      assert [i][1..] == [];
    }
  }

  lemma AddedFits(node: Json, m: Marks, child: string, value: Json, v: Marks)
    requires Fits(node, m) && Fits(value, v)
    ensures Fits(AddChild(node, child, value), AddedMarks(node, m, child, v))
  {
    match node
    case Array(items) =>
      if child == "-" {
        AppendItemFits(items, m, value, v);
      } else {
        InsertItemFits(items, m, Position(Atoi(child)), value, v);
      }
    case Object(ms) => AddMemberFits(ms, m, child, value, v);
    case _ =>
  }

  lemma AppendItemFits(items: seq<Json>, m: Marks, value: Json, v: Marks)
    requires Fits(Array(items), m) && Fits(value, v)
    ensures Fits(Array(items + [value]), Marks(m.id, m.prev, m.below + [v]))
  {
    FitsChildren(Array(items), m);
    var r, b := items + [value], m.below + [v];
    assert forall k :: 0 <= k < |r| ==> Fits(r[k], b[k]);
  }

  lemma InsertItemFits(items: seq<Json>, m: Marks, i: nat, value: Json, v: Marks)
    requires Fits(Array(items), m) && Fits(value, v)
    ensures Fits(Array(InsertAt(items, i, value)), Marks(m.id, m.prev, InsertAt(m.below, i, v)))
  {
    FitsChildren(Array(items), m);
    var r, b := InsertAt(items, i, value), InsertAt(m.below, i, v);
    forall k | 0 <= k < |r|
      ensures Fits(r[k], b[k])
    {
      if i < |items| && k > i { assert Fits(items[k - 1], m.below[k - 1]); }
    }
  }

  lemma AddMemberFits(ms: seq<Member>, m: Marks, child: string, value: Json, v: Marks)
    requires Fits(Object(ms), m) && Fits(value, v)
    ensures Fits(AddChild(Object(ms), child, value), AddedMarks(Object(ms), m, child, v))
  {
    var i := FindMember(ms, child);
    if i < |ms| { WithoutFits(Object(ms), m, child); }
    AppendMemberFits(DetachChild(Object(ms), child).node.members, if i < |ms| then Without(m, i) else m,
                     Member(child, value), v);
  }

  lemma AppendMemberFits(ms: seq<Member>, m: Marks, x: Member, v: Marks)
    requires Fits(Object(ms), m) && Fits(x.value, v)
    ensures Fits(Object(ms + [x]), Marks(m.id, m.prev, m.below + [v]))
  {
    FitsChildren(Object(ms), m);
    var r, b := Children(Object(ms + [x])), m.below + [v];
    assert forall k :: 0 <= k < |r| ==> Fits(r[k], b[k]);
  }

  lemma AddFits(d: Doc, path: string, value: Json, v: Marks)
    requires d.Valid() && Fits(value, v) && AddStep(d, path, value, v).Left?
    ensures AddStep(d, path, value, v).doc.Valid()
  {
    var (parent, child) := SplitPath(path).value;
    if Get(d.root, parent).Some? {
      GetValid(d.root, parent);
      var loc := Get(d.root, parent).value;
      var node, m := At(d.root, loc), MarkAt(d.marks, loc);
      FitsAt(d.root, d.marks, loc);
      AddedFits(node, m, child, value, v);
      FitsPut(d.root, d.marks, loc, AddChild(node, child, value), AddedMarks(node, m, child, v));
    }
  }

  lemma AddFreshFits(d: Doc, path: string, value: Json)
    requires d.Valid() && AddFresh(d, path, value).Left?
    ensures AddFresh(d, path, value).doc.Valid()
  {
    FreshFits(value, d.epoch);
    AddFits(d.(epoch := d.epoch + 1), path, value, Fresh(value, d.epoch));
  }

  lemma AddValueFits(d: Doc, path: string, value: Option<Json>)
    requires d.Valid() && AddValueStep(d, path, value).Left?
    ensures AddValueStep(d, path, value).doc.Valid()
  {
    if value.Some? {
      AddFreshFits(d, path, value.value);
    }
  }

  lemma ReplaceFits(d: Doc, path: string, value: Option<Json>)
    requires d.Valid() && ReplaceStep(d, path, value).Left?
    ensures ReplaceStep(d, path, value).doc.Valid()
  {
    DetachFits(d, path);
    AddValueFits(RemoveStep(d, path).doc, path, value);
  }

  lemma MoveFits(d: Doc, from: string, path: string)
    requires d.Valid() && MoveStep(d, from, path).Left?
    ensures MoveStep(d, from, path).doc.Valid()
  {
    DetachFits(d, from);
    var t := PatchDetach(d.root, from).value;
    if t.Some? { AddFits(RemoveStep(d, from).doc, path, t.value, MarksTaken(d, from)); }
  }

  lemma CopyFits(d: Doc, from: string, path: string)
    requires d.Valid() && CopyStep(d, from, path).Left?
    ensures CopyStep(d, from, path).doc.Valid()
  {
    if Get(d.root, from).Some? {
      GetValid(d.root, from);
      var node := At(d.root, Get(d.root, from).value);
      AddFreshFits(d, path, node);
    }
  }

  lemma EditFits(d: Doc, patch: Json)
    requires d.Valid() && EditStep(d, patch).Left?
    ensures EditStep(d, patch).doc.Valid()
  {
    var op, path, from := Field(patch, "op"), Field(patch, "path"), Field(patch, "from");
    if op.Some? && path.Some? && op.value.String? && path.value.String? {
      var p, o := path.value.valuestring, op.value.valuestring;
      if o == "remove" {
        DetachFits(d, p);
      } else if o == "replace" {
        ReplaceFits(d, p, Field(patch, "value"));
      } else if o == "add" {
        AddValueFits(d, p, Field(patch, "value"));
      } else if o == "move" && from.Some? {
        MoveFits(d, from.value.valuestring, p);
      } else if o == "copy" && from.Some? {
        CopyFits(d, from.value.valuestring, p);
      }
    }
  }

  lemma TestFits(d: Doc, patch: Json)
    requires d.Valid() && TestStep(d, patch).Left?
    ensures TestStep(d, patch).doc.Valid()
  {
    var p, v := Field(patch, "path").value.valuestring, Field(patch, "value").value;
    GetValid(d.root, p);
    var loc := Get(d.root, p).value;
    FitsAt(d.root, d.marks, loc);
    SweptFits(At(d.root, loc), MarkAt(d.marks, loc), v);
    FitsPut(d.root, d.marks, loc, Swept(At(d.root, loc), v), SweptMarks(At(d.root, loc), MarkAt(d.marks, loc), v));
  }

  // ----- runs

  /** cJSONUtils_ApplyPatch. */
  ghost function RunPatch(d: Doc, patch: Json): (r: Result)
    requires d.Valid()
    ensures r.Left? ==> r.doc.Valid()
  {
    if IsTest(patch) then
      var r := TestStep(d, patch);
      if r.Left? then TestFits(d, patch); r else r
    else
      var r := EditStep(d, patch);
      if r.Left? then EditFits(d, patch); r else r
  }

  /** cJSONUtils_ApplyPatches: in order, up to the first code that is not 0. */
  ghost function RunAll(d: Doc, patches: seq<Json>): (r: Result)
    requires d.Valid()
    ensures r.Left? ==> r.doc.Valid()
    decreases |patches|
  {
    if patches == [] then Left(0, d)
    else
      var r := RunPatch(d, patches[0]);
      if r.Left? && r.code == 0 then RunAll(r.doc, patches[1..]) else r
  }
}
