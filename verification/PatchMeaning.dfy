/** What each patch operation means for the value of a document, and exactly when it returns
    which code. */
module PatchMeaning {
  import opened Option
  import opened CString
  import opened CJson
  import opened Pointer
  import opened Patch
  import opened PatchCanon

  // ----- edits of a value, by the last segment of a path

  /** The position a segment means in an array: what atoi reads, a negative number being 0. */
  function IndexOf(child: string): nat {
    Position(Atoi(child))
  }

  predicate ThereC(c: Canon, child: string) {
    match c
    case CArray(xs) => IndexOf(child) < |xs|
    case CObject(f) => Fold(child) in f
    case _ => false
  }

  function ChildC(c: Canon, child: string): Canon
    requires ThereC(c, child)
  {
    if c.CArray? then c.items[IndexOf(child)] else c.fields[Fold(child)]
  }

  function WithoutC(c: Canon, child: string): Canon {
    match c
    case CArray(xs) => if IndexOf(child) < |xs| then CArray(RemoveAt(xs, IndexOf(child))) else c
    case CObject(f) => CObject(f - {Fold(child)})
    case _ => c
  }

  /** An array takes the value at the position or at its end, an object under the name; a scalar
      takes nothing. */
  function WithC(c: Canon, child: string, v: Canon): Canon {
    match c
    case CArray(xs) => CArray(if child == "-" then xs + [v] else InsertAt(xs, IndexOf(child), v))
    case CObject(f) => CObject(f[Fold(child) := v])
    case _ => c
  }

  lemma AbsInsert(items: seq<Json>, i: nat, v: Json)
    ensures AbsItems(InsertAt(items, i, v)) == InsertAt(AbsItems(items), i, Abs(v))
  {
    if i < |items| {
      AbsConcat(items[..i] + [v], items[i..]);
      AbsConcat(items[..i], [v]);
      assert AbsItems(items[..i]) == AbsItems(items)[..i] && AbsItems(items[i..]) == AbsItems(items)[i..];
    } else {
      AbsConcat(items, [v]);
    }
    assert AbsItems([v]) == [Abs(v)];
  }

  lemma AbsConcat(a: seq<Json>, b: seq<Json>)
    ensures AbsItems(a + b) == AbsItems(a) + AbsItems(b)
  {
  }

  lemma InsertMeans(items: seq<Json>, i: nat, v: Json)
    requires WellFormed(Array(items)) && WellFormed(v)
    ensures var r := Array(InsertAt(items, i, v));
            WellFormed(r) && Abs(r) == CArray(InsertAt(AbsItems(items), i, Abs(v)))
  {
    AbsInsert(items, i, v);
    InsertWellFormed(items, i, v);
  }

  lemma InsertWellFormed(items: seq<Json>, i: nat, v: Json)
    requires WellFormed(Array(items)) && WellFormed(v)
    ensures WellFormed(Array(InsertAt(items, i, v)))
  {
  }

  lemma DetachMeansHere(node: Json, child: string)
    requires WellFormed(node) && NulFree(child)
    ensures var d := DetachChild(node, child);
            && WellFormed(d.node) && Abs(d.node) == WithoutC(Abs(node), child)
            && (d.value.Some? <==> ThereC(Abs(node), child))
            && (d.value.Some? ==> WellFormed(d.value.value) && Abs(d.value.value) == ChildC(Abs(node), child))
  {
    if node.Array? {
      if IndexOf(child) < |node.items| { RemoveMeans(node.items, IndexOf(child)); }
    } else if node.Object? {
      var i := FindMember(node.members, child);
      DetachKey(node, child);
      FindMemberByKey(node.members, child);
      if i < |node.members| { MemberIn(node.members, i); }
    }
  }

  lemma RemoveMeans(items: seq<Json>, i: nat)
    requires WellFormed(Array(items)) && i < |items|
    ensures var r := Array(RemoveAt(items, i)); WellFormed(r) && Abs(r) == CArray(RemoveAt(AbsItems(items), i))
  {
    var r, a := RemoveAt(items, i), RemoveAt(AbsItems(items), i);
    forall k | 0 <= k < |r|
      ensures WellFormed(r[k]) && AbsItems(r)[k] == a[k]
    {
      RemovedAt(items, i, k);
      RemovedAt(AbsItems(items), i, k);
    }
    assert AbsItems(r) == a;
  }

  lemma AddMeansHere(node: Json, child: string, v: Json)
    requires WellFormed(node) && NulFree(child) && WellFormed(v)
    ensures var r := AddChild(node, child, v); WellFormed(r) && Abs(r) == WithC(Abs(node), child, Abs(v))
  {
    if node.Array? && child != "-" {
      InsertMeans(node.items, IndexOf(child), v);
    } else if node.Array? {
      AddDash(node, v);
    } else if node.Object? {
      AddName(node, child, v);
    }
  }

  // ----- the same below a path

  /** At every node the steps come to, the next one is of its kind. */
  predicate OfKindC(c: Canon, steps: seq<Step>)
    decreases |steps|
  {
    steps == [] ||
    match c
    case CArray(xs) => steps[0].Idx? && (steps[0].i < |xs| ==> OfKindC(xs[steps[0].i], steps[1..]))
    case CObject(f) =>
      steps[0].Fld? && (Fold(steps[0].name) in f ==> OfKindC(f[Fold(steps[0].name)], steps[1..]))
    case _ => true
  }

  lemma {:induction false} KindOf(t: Json, steps: seq<Step>)
    requires WellFormed(t) && NulFreeSteps(steps) && OfKindC(Abs(t), steps)
    ensures OfKind(t, steps)
    decreases |steps|
  {
    if steps != [] && (t.Array? || t.Object?) {
      var i := Select(t, steps[0]);
      SelectAbs(t, steps[0]);
      if i < |Children(t)| {
        WellFormedChild(t, i);
        KindOf(Children(t)[i], steps[1..]);
      }
    }
  }

  lemma {:induction false} HasOfKind(c: Canon, steps: seq<Step>)
    requires Has(c, steps)
    ensures OfKindC(c, steps)
    decreases |steps|
  {
    if steps != [] {
      HasOfKind(if c.CArray? then c.items[steps[0].i] else c.fields[Fold(steps[0].name)], steps[1..]);
    }
  }

  /** A container and a segment below it. */
  datatype Place = Place(parent: seq<Step>, child: string)

  function PlaceText(p: Place): string {
    PathText(p.parent) + "/" + Encode(p.child)
  }

  ghost predicate Clean(p: Place) {
    NulFreeSteps(p.parent) && NulFree(p.child)
  }

  predicate There(c: Canon, p: Place) {
    Has(c, p.parent) && ThereC(GetC(c, p.parent), p.child)
  }

  function Without(c: Canon, p: Place): Canon {
    if Has(c, p.parent) then PutC(c, p.parent, WithoutC(GetC(c, p.parent), p.child)) else c
  }

  /** A code and the value of the document. */
  datatype Answer = Answer(code: int, value: Canon)

  function With(c: Canon, p: Place, v: Canon): Answer {
    if Has(c, p.parent) then Answer(0, PutC(c, p.parent, WithC(GetC(c, p.parent), p.child, v))) else Answer(9, c)
  }

  /** The parent is looked up exactly. */
  lemma ParentFound(root: Json, p: Place)
    requires WellFormed(root) && Clean(p) && OfKindC(Abs(root), p.parent)
    ensures Get(root, PathText(p.parent)) == Resolve(root, p.parent)
    ensures Resolve(root, p.parent).Some? <==> Has(Abs(root), p.parent)
    ensures SplitPath(PlaceText(p)) == Some((PathText(p.parent), p.child))
  {
    KindOf(root, p.parent);
    GetExactly(root, p.parent);
    ResolveAbs(root, p.parent);
    SplitPathText(PathText(p.parent), p.child);
  }

  lemma DetachMeans(root: Json, p: Place)
    requires WellFormed(root) && Clean(p) && OfKindC(Abs(root), p.parent)
    ensures var d := PatchDetach(root, PlaceText(p));
            && d.Took? && WellFormed(d.root) && Abs(d.root) == Without(Abs(root), p)
            && (d.value.Some? <==> There(Abs(root), p))
            && (d.value.Some? ==> WellFormed(d.value.value)
                                  && Abs(d.value.value) == ChildC(GetC(Abs(root), p.parent), p.child))
  {
    ParentFound(root, p);
    if Has(Abs(root), p.parent) {
      ResolveAbs(root, p.parent);
      var node := At(root, Resolve(root, p.parent).value);
      DetachMeansHere(node, p.child);
      DetachAt(root, p.parent, p.child);
      PutAbs(root, p.parent, DetachChild(node, p.child).node);
    }
  }

  /** The outcome has this code and value. */
  ghost predicate Gives(out: Outcome, a: Answer) {
    out.Done? && out.code == a.code && WellFormed(out.root) && Abs(out.root) == a.value
  }

  lemma AddMeans(root: Json, p: Place, v: Json)
    requires WellFormed(root) && Clean(p) && OfKindC(Abs(root), p.parent) && WellFormed(v)
    ensures Gives(AddAt(root, PlaceText(p), v), With(Abs(root), p, Abs(v)))
  {
    ParentFound(root, p);
    if Has(Abs(root), p.parent) {
      ResolveAbs(root, p.parent);
      var node := At(root, Resolve(root, p.parent).value);
      AddMeansHere(node, p.child, v);
      AddAtPath(root, p.parent, p.child, v);
      PutAbs(root, p.parent, AddChild(node, p.child, v));
    }
  }

  // ----- whole operations

  /** A patch, with the fields that may be missing from its text. */
  datatype Request =
    | Add(to: Place, value: Option<Json>)
    | Remove(at: Place)
    | Replace(at: Place, value: Option<Json>)
    | Move(from: Option<Place>, to: Place)
    | Copy(source: Option<seq<Step>>, to: Place)

  function OpName(r: Request): string {
    match r
    case Add(_, _) => "add"
    case Remove(_) => "remove"
    case Replace(_, _) => "replace"
    case Move(_, _) => "move"
    case Copy(_, _) => "copy"
  }

  function Target(r: Request): Place {
    match r
    case Add(to, _) => to
    case Remove(at) => at
    case Replace(at, _) => at
    case Move(_, to) => to
    case Copy(_, to) => to
  }

  function Text(s: Option<string>): Option<Json> {
    match s case None => None case Some(p) => Some(String(p))
  }

  /** The fields of the patch spell the request, in any order and beside any others. */
  ghost predicate Spells(patch: Json, r: Request) {
    && Field(patch, "op") == Some(String(OpName(r)))
    && Field(patch, "path") == Some(String(PlaceText(Target(r))))
    && match r
       case Add(_, v) => Field(patch, "value") == v
       case Replace(_, v) => Field(patch, "value") == v
       case Move(f, _) => Field(patch, "from") == if f.Some? then Some(String(PlaceText(f.value))) else None
       case Copy(f, _) => Field(patch, "from") == if f.Some? then Some(String(PathText(f.value))) else None
       case Remove(_) => true
  }

  /** What becomes of a document: a missing field, source or parent is reported, the last two
      after what was taken is gone; taking what is not there is no error. */
  function Meaning(c: Canon, r: Request): Answer {
    match r
    case Add(to, v) => if v.None? then Answer(7, c) else With(c, to, Abs(v.value))
    case Remove(at) => Answer(0, Without(c, at))
    case Replace(at, v) =>
      if v.None? then Answer(7, Without(c, at)) else With(Without(c, at), at, Abs(v.value))
    case Move(f, to) =>
      if f.None? then Answer(4, c)
      else if !There(c, f.value) then Answer(5, c)
      else With(Without(c, f.value), to, ChildC(GetC(c, f.value.parent), f.value.child))
    case Copy(f, to) =>
      if f.None? then Answer(4, c)
      else if !Has(c, f.value) then Answer(5, c)
      else With(c, to, GetC(c, f.value))
  }

  /** Names are C strings and positions are looked up in arrays, names in objects. */
  ghost predicate Regular(c: Canon, r: Request) {
    && Clean(Target(r))
    && match r
       case Add(to, v) => OfKindC(c, to.parent) && (v.Some? ==> WellFormed(v.value))
       case Remove(at) => OfKindC(c, at.parent)
       case Replace(at, v) => OfKindC(c, at.parent) && (v.Some? ==> WellFormed(v.value))
       case Move(f, to) =>
         f.Some? ==> Clean(f.value) && OfKindC(c, f.value.parent) && OfKindC(Without(c, f.value), to.parent)
       case Copy(f, to) => OfKindC(c, to.parent) && (f.Some? ==> NulFreeSteps(f.value) && OfKindC(c, f.value))
  }

  /** A parent that could be looked up still can be after a removal below it. */
  lemma KindKept(c: Canon, p: Place)
    requires OfKindC(c, p.parent)
    ensures OfKindC(Without(c, p), p.parent)
  {
    if Has(c, p.parent) {
      GetPut(c, p.parent, WithoutC(GetC(c, p.parent), p.child));
      HasOfKind(Without(c, p), p.parent);
    }
  }

  /** Where nothing is, nothing is taken. */
  lemma WithoutAbsent(c: Canon, p: Place)
    requires !There(c, p)
    ensures Without(c, p) == c
  {
    if Has(c, p.parent) {
      var n := GetC(c, p.parent);
      if n.CObject? { assert n.fields - {Fold(p.child)} == n.fields; }
      PutGet(c, p.parent);
    }
  }

  /** Every operation returns the code and leaves the value its request means. */
  lemma ApplyMeans(root: Json, patch: Json, r: Request)
    requires WellFormed(root) && Spells(patch, r) && Regular(Abs(root), r)
    ensures Gives(Apply(root, patch), Meaning(Abs(root), r))
  {
    match r
    case Add(to, v) => if v.Some? { AddMeans(root, to, v.value); }
    case Remove(at) => DetachMeans(root, at);
    case Replace(at, v) => ReplaceMeans(root, patch, at, v);
    case Move(f, to) => if f.Some? { MoveMeans(root, patch, f.value, to); }
    case Copy(f, to) => if f.Some? { CopyMeans(root, patch, f.value, to); }
  }

  lemma ReplaceMeans(root: Json, patch: Json, at: Place, v: Option<Json>)
    requires WellFormed(root) && Spells(patch, Replace(at, v)) && Regular(Abs(root), Replace(at, v))
    ensures Gives(Apply(root, patch), Meaning(Abs(root), Replace(at, v)))
  {
    DetachMeans(root, at);
    KindKept(Abs(root), at);
    if v.Some? { AddMeans(PatchDetach(root, PlaceText(at)).root, at, v.value); }
  }

  lemma ApplyMove(root: Json, patch: Json, f: Place, to: Place)
    requires Spells(patch, Move(Some(f), to)) && PatchDetach(root, PlaceText(f)).Took?
    ensures var d := PatchDetach(root, PlaceText(f));
            Apply(root, patch) == if d.value.None? then Done(5, d.root) else AddAt(d.root, PlaceText(to), d.value.value)
  {
  }

  lemma ApplyCopy(root: Json, patch: Json, f: seq<Step>, to: Place)
    requires Spells(patch, Copy(Some(f), to))
    ensures var l := Get(root, PathText(f));
            && (l.Some? ==> ValidLoc(root, l.value))
            && Apply(root, patch)
            == if l.None? then Done(5, root) else AddAt(root, PlaceText(to), At(root, l.value))
  {
    GetValid(root, PathText(f));
  }

  lemma MoveMeans(root: Json, patch: Json, f: Place, to: Place)
    requires WellFormed(root) && Spells(patch, Move(Some(f), to)) && Regular(Abs(root), Move(Some(f), to))
    ensures Gives(Apply(root, patch), Meaning(Abs(root), Move(Some(f), to)))
  {
    DetachMeans(root, f);
    ApplyMove(root, patch, f, to);
    var d := PatchDetach(root, PlaceText(f));
    if d.value.Some? { AddMeans(d.root, to, d.value.value); } else { WithoutAbsent(Abs(root), f); }
  }

  lemma CopyMeans(root: Json, patch: Json, f: seq<Step>, to: Place)
    requires WellFormed(root) && Spells(patch, Copy(Some(f), to)) && Regular(Abs(root), Copy(Some(f), to))
    ensures Gives(Apply(root, patch), Meaning(Abs(root), Copy(Some(f), to)))
  {
    KindOf(root, f);
    GetExactly(root, f);
    ResolveAbs(root, f);
    ApplyCopy(root, patch, f, to);
    if Has(Abs(root), f) { AddMeans(root, to, At(root, Resolve(root, f).value)); }
  }

  /** The codes for a patch that is no operation. */
  lemma Malformed(root: Json, patch: Json)
    ensures Field(patch, "op") == None || Field(patch, "path") == None ==> Apply(root, patch) == Done(2, root)
    ensures forall op :: Field(patch, "op") == Some(String(op)) && Field(patch, "path").Some? ==>
              op !in {"add", "remove", "replace", "move", "copy"} ==> Apply(root, patch) == Done(3, root)
  {
  }
}
