/** Applying generated patches to the very tree they were generated from. The diff has sorted its
    objects, so some first nodes have a `prev`. */
module InPlace {
  import opened Option
  import opened CString
  import opened ListSort
  import opened CJson
  import opened Pointer
  import opened Patch
  import opened PatchCanon
  import opened Compare
  import opened Diff
  import opened DiffPatch
  import opened Marks
  import opened PatchRun
  import opened PatchSafety
  import opened TestRuns
  import opened DiffSweep
  import opened MemberRows
  import opened EditAt

  // ----- when the run goes wrong

  /** The diff replaces `a`, instead of going on inside it or leaving it alone. */
  ghost predicate Replaced(a: Json, b: Json) {
    !SameContainer(a, b) && Abs(a) != Abs(b)
  }

  /** The diff takes out the member `x`: the target has none of its name, or another value. */
  ghost predicate Dropped(x: Member, ns: seq<Member>) {
    var j := FindMember(ns, x.name);
    j == |ns| || Replaced(x.value, ns[j].value)
  }

  /** Some compared object does not start with its least name, and the diff takes out the member of
      that name. */
  ghost predicate Snags(a: Json, b: Json) {
    match (a, b)
    case (Array(xs), Array(ys)) => exists i :: 0 <= i < |xs| && i < |ys| && Snags(xs[i], ys[i])
    case (Object(ms), Object(ns)) =>
      || (ms != [] && Order(ms)[0] != 0 && Dropped(SortMembers(ms)[0], ns))
      || exists i, j :: 0 <= i < |ms| && 0 <= j < |ns| && Key(ms[i]) == Key(ns[j]) && Snags(ms[i].value, ns[j].value)
    case _ => false
  }

  ghost predicate SnagItems(xs: seq<Json>, ys: seq<Json>) {
    exists i :: 0 <= i < |xs| && i < |ys| && Snags(xs[i], ys[i])
  }

  ghost predicate SnagPairs(ms: seq<Member>, ns: seq<Member>) {
    exists i, j :: 0 <= i < |ms| && 0 <= j < |ns| && Key(ms[i]) == Key(ns[j]) && Snags(ms[i].value, ns[j].value)
  }

  // ----- runs

  lemma {:induction false} RunConcat(d: Doc, p: seq<Json>, q: seq<Json>)
    requires d.Valid()
    ensures var r := RunAll(d, p);
            RunAll(d, p + q) == if r.Left? && r.code == 0 then RunAll(r.doc, q) else r
    decreases |p|
  {
    if p == [] {
      assert p + q == q;
    } else {
      assert (p + q)[1..] == p[1..] + q;
      var r := RunPatch(d, p[0]);
      if r.Left? && r.code == 0 { RunConcat(r.doc, p[1..], q); }
    }
  }

  /** The operations lead into a cycle, or else run through and change the node at `loc` only. */
  ghost predicate Ends(d: Doc, path: seq<Step>, loc: Loc, ops: seq<Op>, bad: bool)
    requires d.Valid()
  {
    var r := RunAll(d, RenderAll(ops));
    if bad then r == Corrupted(Loop)
    else r.Left? && r.code == 0 && Stands(r.doc, path, loc) && Within(d, r.doc, loc)
  }

  /** What is left after operations that run through. */
  ghost function After(d: Doc, ops: seq<Op>): (e: Doc)
    requires d.Valid()
    ensures e.Valid()
  {
    var r := RunAll(d, RenderAll(ops));
    if r.Left? then r.doc else d
  }

  lemma EndsConcat(d: Doc, path: seq<Step>, loc: Loc, p: seq<Op>, bad: bool, q: seq<Op>, worse: bool)
    requires d.Valid() && Ends(d, path, loc, p, bad)
    requires !bad ==> Ends(After(d, p), path, loc, q, worse)
    ensures Ends(d, path, loc, p + q, bad || worse)
    ensures !(bad || worse) ==> After(d, p + q) == After(After(d, p), q)
  {
    RenderConcat(p, q);
    RunConcat(d, RenderAll(p), RenderAll(q));
    if !(bad || worse) { WithinMore(d, After(d, p), After(After(d, p), q), loc); }
  }

  lemma EndsNone(d: Doc, path: seq<Step>, loc: Loc)
    requires Stands(d, path, loc)
    ensures Ends(d, path, loc, [], false) && After(d, []) == d
  {
    WithinSelf(d, loc);
  }

  /** The node at `loc`, and its marks. */
  ghost predicate Became(e: Doc, path: seq<Step>, loc: Loc, node: Json, k: Marks) {
    Stands(e, path, loc) && At(e.root, loc) == node && MarkAt(e.marks, loc) == k
  }

  /** One operation. */
  lemma OneLeaves(d: Doc, path: seq<Step>, loc: Loc, op: Op, node: Json, k: Marks)
    requires d.Valid() && Leaves(RunPatch(d, Render(op)), d, path, loc, node, k)
    ensures Ends(d, path, loc, [op], false)
    ensures Became(After(d, [op]), path, loc, node, k)
  {
    assert RenderAll([op]) == [Render(op)] + RenderAll([op][1..]);
    RunConcat(d, [Render(op)], []);
    assert [Render(op)] + [] == [Render(op)];
  }

  lemma OneLoops(d: Doc, path: seq<Step>, loc: Loc, op: Op)
    requires d.Valid() && RunPatch(d, Render(op)) == Corrupted(Loop)
    ensures Ends(d, path, loc, [op], true)
  {
    assert RenderAll([op]) == [Render(op)] + RenderAll([op][1..]);
  }

  // ----- arrays

  lemma RemoveOne(d: Doc, path: seq<Step>, loc: Loc, c: nat)
    requires Stands(d, path, loc) && At(d.root, loc).Array?
    ensures Ends(d, path, loc, [Op(path, RemoveIdx(c))], false)
    ensures var e := After(d, [Op(path, RemoveIdx(c))]); Stands(e, path, loc) && At(e.root, loc).Array?
  {
    var node, k := At(d.root, loc), MarkAt(d.marks, loc);
    FitsAt(d.root, d.marks, loc);
    RemoveIsStep(d, PathText(path), Decimal(c));
    RemoveAtNode(d, path, loc, Decimal(c));
    OneLeaves(d, path, loc, Op(path, RemoveIdx(c)), DetachChild(node, Decimal(c)).node,
              TakenMarks(node, k, Decimal(c)));
  }

  lemma {:induction false} RemovesRun(d: Doc, path: seq<Step>, loc: Loc, c: nat, end: nat)
    requires Stands(d, path, loc) && At(d.root, loc).Array? && c <= end
    ensures Ends(d, path, loc, RemoveOps(path, c, end), false)
    ensures var e := After(d, RemoveOps(path, c, end)); Stands(e, path, loc) && At(e.root, loc).Array?
    decreases end - c
  {
    if c == end {
      EndsNone(d, path, loc);
    } else {
      var op := Op(path, RemoveIdx(c));
      RemoveOne(d, path, loc, c);
      RemovesRun(After(d, [op]), path, loc, c + 1, end);
      EndsConcat(d, path, loc, [op], false, RemoveOps(path, c + 1, end), false);
    }
  }

  /** Adding a new child, under the segment an operation gives. */
  lemma AddOne(d: Doc, path: seq<Step>, loc: Loc, op: Op, child: string, v: Json)
    requires Stands(d, path, loc) && WellFormed(v) && NulFree(child)
    requires Render(op) == GeneratePatch("add", PathText(path), Some(child), Some(v))
    requires At(d.root, loc).Object? ==> FindMember(At(d.root, loc).members, child) == |At(d.root, loc).members|
    requires At(d.root, loc).Object? || At(d.root, loc).Array?
    ensures Ends(d, path, loc, [op], false)
    ensures var node, k := At(d.root, loc), MarkAt(d.marks, loc);
            Became(After(d, [op]), path, loc, AddChild(node, child, v),
                   AddedMarks(node, k, child, Fresh(v, d.epoch)))
  {
    var node, k := At(d.root, loc), MarkAt(d.marks, loc);
    AddIsStep(d, PathText(path), child, v);
    AddAtNode(d, path, loc, child, v);
    OneLeaves(d, path, loc, op, AddChild(node, child, v), AddedMarks(node, k, child, Fresh(v, d.epoch)));
  }

  lemma AppendOne(d: Doc, path: seq<Step>, loc: Loc, v: Json)
    requires Stands(d, path, loc) && At(d.root, loc).Array? && WellFormed(v)
    ensures Ends(d, path, loc, [Op(path, Append(v))], false)
    ensures var e := After(d, [Op(path, Append(v))]); Stands(e, path, loc) && At(e.root, loc).Array?
  {
    AddOne(d, path, loc, Op(path, Append(v)), "-", v);
  }

  lemma {:induction false} AppendsRun(d: Doc, path: seq<Step>, loc: Loc, u: Json, ys: seq<Json>)
    requires Stands(d, path, loc) && At(d.root, loc).Array? && Items(u, ys)
    ensures Ends(d, path, loc, AppendOps(path, ys), false)
    decreases |ys|
  {
    if ys == [] {
      EndsNone(d, path, loc);
    } else {
      var op := Op(path, Append(ys[0]));
      ItemsTail(u, ys);
      AppendOne(d, path, loc, ys[0]);
      AppendsRun(After(d, [op]), path, loc, u, ys[1..]);
      EndsConcat(d, path, loc, [op], false, AppendOps(path, ys[1..]), false);
    }
  }

  // ----- one child

  /** The child `s` of the node at `loc` is `a` as its comparison with `b` has left it. */
  ghost predicate Child(d: Doc, path: seq<Step>, loc: Loc, s: Step, a: Json, m: Marks, b: Json) {
    && Stands(d, path, loc) && NulFreeSteps([s]) && Pair(a, m, b)
    && var node, k := At(d.root, loc), MarkAt(d.marks, loc);
       var i := Select(node, s);
       i < |Children(node)| == |k.below| && Children(node)[i] == DiffSwept(a, b) && k.below[i] == DiffMarks(a, m, b)
  }

  ghost predicate Pair(a: Json, m: Marks, b: Json) {
    Fits(a, m) && Clear(m) && WellFormed(a) && WellFormed(b)
  }

  /** Operations inside a child are operations inside the node. */
  lemma EndsParent(d: Doc, path: seq<Step>, loc: Loc, s: Step, ops: seq<Op>, bad: bool) returns (x: Json, y: Marks)
    requires Stands(d, path, loc) && NulFreeSteps([s])
    requires Select(At(d.root, loc), s) < |Children(At(d.root, loc))|
    requires Ends(d, path + [s], loc + [Select(At(d.root, loc), s)], ops, bad)
    ensures Ends(d, path, loc, ops, bad)
    ensures var e, i := After(d, ops), Select(At(d.root, loc), s);
            && ValidLoc(At(d.root, loc), [i])
            && (!bad ==> Became(e, path, loc, Put(At(d.root, loc), [i], x), PutMark(MarkAt(d.marks, loc), [i], y)))
  {
    var i, e := Select(At(d.root, loc), s), After(d, ops);
    x, y := Null, d.marks;
    assert [i][1..] == [];
    if !bad {
      WithinParent(d, e, path, loc, s);
      x, y := At(e.root, loc + [i]), MarkAt(e.marks, loc + [i]);
    }
  }

  lemma {:induction false} ChildRun(d: Doc, path: seq<Step>, loc: Loc, s: Step, a: Json, m: Marks, b: Json)
    returns (x: Json, y: Marks)
    requires Child(d, path, loc, s, a, m, b) && !Replaced(a, b)
    ensures Ends(d, path, loc, DiffOps(path + [s], a, b), Snags(a, b))
    ensures var e, i := After(d, DiffOps(path + [s], a, b)), Select(At(d.root, loc), s);
            && ValidLoc(At(d.root, loc), [i])
            && (!Snags(a, b) ==>
                  Became(e, path, loc, Put(At(d.root, loc), [i], x), PutMark(MarkAt(d.marks, loc), [i], y)))
    decreases a, 2, 0
  {
    ChildStands(d, path, loc, s);
    NodeRun(d, path + [s], loc + [Select(At(d.root, loc), s)], a, m, b);
    x, y := EndsParent(d, path, loc, s, DiffOps(path + [s], a, b), Snags(a, b));
  }

  // ----- the items of an array

  lemma ReplacedItem(items: seq<Json>, k: Marks, c: nat, v: Json, y: Marks)
    requires c < |items| == |k.below|
    ensures ReplacedNode(Array(items), Idx(c), v) == Array(items[c := v])
    ensures ReplacedMarks(Array(items), k, Idx(c), y)
         == Marks(k.id, if |items| == 1 then None else k.prev, k.below[c := y])
  {
    AtoiDecimal(c);
    InsertRemoved(items, c, v);
    InsertRemoved(k.below, c, y);
  }

  lemma ReplaceItem(d: Doc, path: seq<Step>, loc: Loc, c: nat, v: Json)
    requires Stands(d, path, loc) && At(d.root, loc).Array? && c < |At(d.root, loc).items| && WellFormed(v)
    requires |At(d.root, loc).items| == |MarkAt(d.marks, loc).below|
    ensures var op, node, k := Op(path + [Idx(c)], Set(v)), At(d.root, loc), MarkAt(d.marks, loc);
            && Ends(d, path, loc, [op], false)
            && Became(After(d, [op]), path, loc, Array(node.items[c := v]),
                      Marks(k.id, k.prev, k.below[c := Fresh(v, d.epoch)]))
  {
    var node, k := At(d.root, loc), MarkAt(d.marks, loc);
    FitsAt(d.root, d.marks, loc);
    ReplaceAtNode(d, path, loc, Idx(c), v);
    ReplacedItem(node.items, k, c, v, Fresh(v, d.epoch));
    OneLeaves(d, path, loc, Op(path + [Idx(c)], Set(v)), Array(node.items[c := v]),
              Marks(k.id, k.prev, k.below[c := Fresh(v, d.epoch)]));
  }

  lemma PutAtChild(items: seq<Json>, ms: seq<Member>, k: Marks, c: nat, x: Json, y: Marks)
    ensures c < |items| ==> ValidLoc(Array(items), [c]) && Put(Array(items), [c], x) == Array(items[c := x])
    ensures c < |ms| ==>
              ValidLoc(Object(ms), [c]) && Put(Object(ms), [c], x) == Object(ms[c := Member(ms[c].name, x)])
    ensures c < |k.below| ==> PutMark(k, [c], y) == Marks(k.id, k.prev, k.below[c := y])
  {
    assert [c][1..] == [];
  }

  lemma {:induction false} ItemRun(d: Doc, path: seq<Step>, loc: Loc, c: nat, a: Json, m: Marks, b: Json)
    returns (x: Json, y: Marks)
    requires Child(d, path, loc, Idx(c), a, m, b) && At(d.root, loc).Array?
    ensures Ends(d, path, loc, DiffOps(path + [Idx(c)], a, b), Snags(a, b))
    ensures c < |At(d.root, loc).items| == |MarkAt(d.marks, loc).below|
    ensures var e, k := After(d, DiffOps(path + [Idx(c)], a, b)), MarkAt(d.marks, loc);
            !Snags(a, b) ==>
              Became(e, path, loc, Array(At(d.root, loc).items[c := x]), Marks(k.id, k.prev, k.below[c := y]))
    decreases a, 3, 0
  {
    if Replaced(a, b) {
      ScalarOps(path + [Idx(c)], a, b);
      x, y := b, Fresh(b, d.epoch);
      ReplaceItem(d, path, loc, c, b);
    } else {
      x, y := ChildRun(d, path, loc, Idx(c), a, m, b);
      PutAtChild(At(d.root, loc).items, [], MarkAt(d.marks, loc), c, x, y);
    }
  }


  /** The array at `loc` has the items `pre` and behind them those that are still to be diffed. */
  ghost predicate ItemsAt(d: Doc, path: seq<Step>, loc: Loc, t: Json, pre: seq<Json>, done: seq<Marks>,
                          xs: seq<Json>, below: seq<Marks>, ys: seq<Json>) {
    && Items(t, xs) && FitItems(xs, below) && AllClear(below) && |pre| == |done|
    && Stands(d, path, loc) && At(d.root, loc) == Array(pre + DiffSweptItems(t, xs, ys))
    && MarkAt(d.marks, loc).below == done + DiffItemMarks(t, xs, below, ys)
  }

  lemma SnagItemsCons(xs: seq<Json>, ys: seq<Json>)
    requires xs != [] && ys != []
    ensures SnagItems(xs, ys) <==> Snags(xs[0], ys[0]) || SnagItems(xs[1..], ys[1..])
  {
    if SnagItems(xs, ys) && !Snags(xs[0], ys[0]) {
      var i :| 0 <= i < |xs| && i < |ys| && Snags(xs[i], ys[i]);
      assert xs[1..][i - 1] == xs[i] && ys[1..][i - 1] == ys[i];
    }
  }

  lemma ItemIsChild(d: Doc, path: seq<Step>, loc: Loc, t: Json, pre: seq<Json>, done: seq<Marks>,
                    xs: seq<Json>, below: seq<Marks>, ys: seq<Json>)
    requires ItemsAt(d, path, loc, t, pre, done, xs, below, ys) && xs != [] && ys != [] && WellFormed(ys[0])
    ensures Child(d, path, loc, Idx(|pre|), xs[0], below[0], ys[0])
  {
  }

  lemma ItemsNext(d: Doc, e: Doc, path: seq<Step>, loc: Loc, t: Json, pre: seq<Json>, done: seq<Marks>,
                  xs: seq<Json>, below: seq<Marks>, ys: seq<Json>, x: Json, y: Marks)
    requires ItemsAt(d, path, loc, t, pre, done, xs, below, ys) && xs != [] && ys != []
    requires var k := MarkAt(d.marks, loc);
             |pre| < |At(d.root, loc).items| == |k.below|
             && Became(e, path, loc, Array(At(d.root, loc).items[|pre| := x]),
                       Marks(k.id, k.prev, k.below[|pre| := y]))
    ensures ItemsAt(e, path, loc, t, pre + [x], done + [y], xs[1..], below[1..], ys[1..])
  {
    SetBehind(pre, DiffSweptItems(t, xs, ys), x);
    SetBehind(done, DiffItemMarks(t, xs, below, ys), y);
    ItemRows(t, xs, below, ys);
  }

  lemma SetBehind<T>(pre: seq<T>, s: seq<T>, x: T)
    requires s != []
    ensures (pre + s)[|pre| := x] == (pre + [x]) + s[1..]
  {
  }

  lemma ItemRows(t: Json, xs: seq<Json>, below: seq<Marks>, ys: seq<Json>)
    requires Items(t, xs) && FitItems(xs, below) && AllClear(below) && xs != [] && ys != []
    ensures Items(t, xs[1..]) && FitItems(xs[1..], below[1..]) && AllClear(below[1..])
    ensures DiffSweptItems(t, xs, ys)[1..] == DiffSweptItems(t, xs[1..], ys[1..])
    ensures DiffItemMarks(t, xs, below, ys)[1..] == DiffItemMarks(t, xs[1..], below[1..], ys[1..])
  {
  }

  lemma {:induction false} ItemsRun(d: Doc, path: seq<Step>, loc: Loc, t: Json, u: Json, c: nat, pre: seq<Json>,
                                    done: seq<Marks>, xs: seq<Json>, below: seq<Marks>, ys: seq<Json>)
    requires ItemsAt(d, path, loc, t, pre, done, xs, below, ys) && Items(u, ys) && c == |pre|
    ensures Ends(d, path, loc, ItemOps(path, t, c, xs, ys), SnagItems(xs, ys))
    decreases t, 0, |xs|, 1
  {
    if xs != [] && ys != [] {
      ItemsStep(d, path, loc, t, u, c, pre, done, xs, below, ys);
    } else {
      var end := ItemOpsEnd(path, t, c, xs, ys);
      SurplusRun(d, path, loc, c, end, u, ys, ItemOps(path, t, c, xs, ys));
    }
  }

  lemma {:induction false} ItemsStep(d: Doc, path: seq<Step>, loc: Loc, t: Json, u: Json, c: nat, pre: seq<Json>,
                                     done: seq<Marks>, xs: seq<Json>, below: seq<Marks>, ys: seq<Json>)
    requires ItemsAt(d, path, loc, t, pre, done, xs, below, ys) && Items(u, ys) && c == |pre|
    requires xs != [] && ys != []
    ensures Ends(d, path, loc, ItemOps(path, t, c, xs, ys), SnagItems(xs, ys))
    decreases t, 0, |xs|, 0
  {
    SnagItemsCons(xs, ys);
    ItemsTail(u, ys);
    ItemIsChild(d, path, loc, t, pre, done, xs, below, ys);
    var ops := DiffOps(path + [Idx(c)], xs[0], ys[0]);
    var x, y := ItemRun(d, path, loc, c, xs[0], below[0], ys[0]);
    if !Snags(xs[0], ys[0]) {
      ItemsNext(d, After(d, ops), path, loc, t, pre, done, xs, below, ys, x, y);
      ItemsRun(After(d, ops), path, loc, t, u, c + 1, pre + [x], done + [y], xs[1..], below[1..], ys[1..]);
    }
    EndsConcat(d, path, loc, ops, Snags(xs[0], ys[0]), ItemOps(path, t, c + 1, xs[1..], ys[1..]),
               SnagItems(xs[1..], ys[1..]));
    ItemOpsMore(path, t, c, xs, ys);
  }

  lemma ItemOpsMore(path: seq<Step>, t: Json, c: nat, xs: seq<Json>, ys: seq<Json>)
    requires Items(t, xs) && xs != [] && ys != []
    ensures ItemOps(path, t, c, xs, ys)
         == DiffOps(path + [Idx(c)], xs[0], ys[0]) + ItemOps(path, t, c + 1, xs[1..], ys[1..])
  {
  }

  lemma ItemOpsEnd(path: seq<Step>, t: Json, c: nat, xs: seq<Json>, ys: seq<Json>) returns (end: nat)
    requires Items(t, xs) && (xs == [] || ys == [])
    ensures c <= end && ItemOps(path, t, c, xs, ys) == RemoveOps(path, c, end) + AppendOps(path, ys)
  {
    end := c + |xs|;
  }

  lemma SurplusRun(d: Doc, path: seq<Step>, loc: Loc, c: nat, end: nat, u: Json, ys: seq<Json>,
                   ops: seq<Op>)
    requires Stands(d, path, loc) && At(d.root, loc).Array? && Items(u, ys) && c <= end
    requires ops == RemoveOps(path, c, end) + AppendOps(path, ys)
    ensures Ends(d, path, loc, ops, false)
  {
    var gone := RemoveOps(path, c, end);
    RemovesRun(d, path, loc, c, end);
    AppendsRun(After(d, gone), path, loc, u, ys);
    EndsConcat(d, path, loc, gone, false, AppendOps(path, ys), false);
  }

  // ----- one member of an object

  /** The object at `loc` has become another one; members of other names than `key` are still there. */
  ghost predicate Moved(d: Doc, e: Doc, path: seq<Step>, loc: Loc, key: string) {
    && Stands(d, path, loc) && Stands(e, path, loc) && At(d.root, loc).Object? && At(e.root, loc).Object?
    && Moves(At(d.root, loc).members, MarkAt(d.marks, loc), At(e.root, loc).members, MarkAt(e.marks, loc), key)
  }

  /** The object at `loc` has the given members and marks. */
  ghost predicate ObjectHere(d: Doc, path: seq<Step>, loc: Loc, cur: seq<Member>, k: Marks) {
    && Stands(d, path, loc) && At(d.root, loc) == Object(cur) && MarkAt(d.marks, loc) == k
    && |k.below| == |cur| && (k.prev.Some? ==> cur != [])
  }

  lemma IsHere(d: Doc, path: seq<Step>, loc: Loc)
    requires Stands(d, path, loc) && At(d.root, loc).Object?
    ensures ObjectHere(d, path, loc, At(d.root, loc).members, MarkAt(d.marks, loc))
  {
    FitsAt(d.root, d.marks, loc);
  }

  lemma TakenMember(cur: seq<Member>, k: Marks, p: nat)
    requires p < |cur| == |k.below| && FindMember(cur, cur[p].name) == p
    ensures DetachChild(Object(cur), cur[p].name).node == Object(RemoveAt(cur, p))
    ensures TakenMarks(Object(cur), k, cur[p].name)
         == Marks(k.id, if |cur| == 1 then None else k.prev, RemoveAt(k.below, p))
  {
  }

  lemma RemoveMember(d: Doc, path: seq<Step>, loc: Loc, cur: seq<Member>, k: Marks, p: nat)
    requires ObjectHere(d, path, loc, cur, k) && p < |cur| && FindMember(cur, cur[p].name) == p && Free(k, p)
    ensures var op := Op(path, RemoveKey(cur[p].name));
            Ends(d, path, loc, [op], false) && Moved(d, After(d, [op]), path, loc, Key(cur[p]))
  {
    var n := cur[p].name;
    RemoveIsStep(d, PathText(path), n);
    RemoveAtNode(d, path, loc, n);
    TakenMember(cur, k, p);
    OneLeaves(d, path, loc, Op(path, RemoveKey(n)), DetachChild(Object(cur), n).node, TakenMarks(Object(cur), k, n));
    RemoveMoves(cur, k, p);
  }

  lemma RemoveLoops(d: Doc, path: seq<Step>, loc: Loc, cur: seq<Member>, k: Marks, n: string)
    requires ObjectHere(d, path, loc, cur, k) && cur != [] && FindMember(cur, n) == 0 && Loops(k)
    ensures Ends(d, path, loc, [Op(path, RemoveKey(n))], true)
  {
    RemoveIsStep(d, PathText(path), n);
    RemoveAtNode(d, path, loc, n);
    OneLoops(d, path, loc, Op(path, RemoveKey(n)));
  }

  lemma AddMember(d: Doc, path: seq<Step>, loc: Loc, cur: seq<Member>, k: Marks, n: string, v: Json)
    requires ObjectHere(d, path, loc, cur, k) && FindMember(cur, n) == |cur| && NulFree(n) && WellFormed(v)
    ensures var op := Op(path, AddKey(n, v));
            && Ends(d, path, loc, [op], false) && Moved(d, After(d, [op]), path, loc, Fold(n))
            && ObjectHere(After(d, [op]), path, loc, cur + [Member(n, v)],
                          Marks(k.id, k.prev, k.below + [Fresh(v, d.epoch)]))
  {
    AddOne(d, path, loc, Op(path, AddKey(n, v)), n, v);
    AppendMoves(cur, k, Member(n, v), Fresh(v, d.epoch));
  }

  lemma ReplacedMember(cur: seq<Member>, k: Marks, p: nat, v: Json, y: Marks)
    requires WellFormed(Object(cur)) && p < |cur| == |k.below| && FindMember(cur, cur[p].name) == p
    ensures ReplacedNode(Object(cur), Fld(cur[p].name), v) == Object(RemoveAt(cur, p) + [Member(cur[p].name, v)])
    ensures ReplacedMarks(Object(cur), k, Fld(cur[p].name), y)
         == Marks(k.id, if |cur| == 1 then None else k.prev, RemoveAt(k.below, p) + [y])
  {
    DetachedGone(Object(cur), cur[p].name);
  }

  lemma ReplaceMoves(cur: seq<Member>, k: Marks, p: nat, v: Json, y: Marks)
    requires p < |cur| == |k.below| && Free(k, p)
    ensures Moves(cur, k, RemoveAt(cur, p) + [Member(cur[p].name, v)],
                  Marks(k.id, if |cur| == 1 then None else k.prev, RemoveAt(k.below, p) + [y]), Key(cur[p]))
  {
    var mid, l := RemoveAt(cur, p), Marks(k.id, if |cur| == 1 then None else k.prev, RemoveAt(k.below, p));
    RemoveMoves(cur, k, p);
    AppendMoves(mid, l, Member(cur[p].name, v), y);
    MovesTwice(cur, k, mid, l, mid + [Member(cur[p].name, v)], Marks(l.id, l.prev, l.below + [y]), Key(cur[p]));
  }

  lemma ReplaceMember(d: Doc, path: seq<Step>, loc: Loc, cur: seq<Member>, k: Marks, p: nat, v: Json)
    requires ObjectHere(d, path, loc, cur, k) && p < |cur| && FindMember(cur, cur[p].name) == p && WellFormed(v)
    requires NulFreeSteps([Fld(cur[p].name)])
    ensures var op := Op(path + [Fld(cur[p].name)], Set(v));
            && (Free(k, p) ==> Ends(d, path, loc, [op], false) && Moved(d, After(d, [op]), path, loc, Key(cur[p])))
            && (p == 0 && Loops(k) ==> Ends(d, path, loc, [op], true))
  {
    var s := Fld(cur[p].name);
    var op := Op(path + [s], Set(v));
    WellFormedAt(d.root, loc);
    ReplaceAtNode(d, path, loc, s, v);
    if Free(k, p) {
      ReplacedMember(cur, k, p, v, Fresh(v, d.epoch));
      OneLeaves(d, path, loc, op, ReplacedNode(Object(cur), s, v), ReplacedMarks(Object(cur), k, s, Fresh(v, d.epoch)));
      ReplaceMoves(cur, k, p, v, Fresh(v, d.epoch));
    }
    if p == 0 && Loops(k) { OneLoops(d, path, loc, op); }
  }

  // ----- the members of an object

  ghost predicate MembersAt(d: Doc, path: seq<Step>, loc: Loc, t: Json,
                            ms: seq<Member>, below: seq<Marks>, ns: seq<Member>) {
    && Stands(d, path, loc) && At(d.root, loc).Object?
    && Pending(At(d.root, loc).members, MarkAt(d.marks, loc), t, ms, below, ns)
  }

  ghost predicate SafeAt(d: Doc, loc: Loc, ms: seq<Member>)
    requires ValidLoc(d.root, loc) && At(d.root, loc).Object?
  {
    SafeFront(At(d.root, loc).members, MarkAt(d.marks, loc), ms)
  }

  /** The first of the members to come is first in the list, and taking it out leaves a cycle. */
  ghost predicate SnagAt(d: Doc, loc: Loc, ms: seq<Member>)
    requires ValidLoc(d.root, loc) && At(d.root, loc).Object?
  {
    var cur := At(d.root, loc).members;
    ms != [] && cur != [] && Key(cur[0]) == Key(ms[0]) && Loops(MarkAt(d.marks, loc))
  }

  lemma MembersNext(d: Doc, e: Doc, path: seq<Step>, loc: Loc, t: Json, key: string,
                    ms: seq<Member>, below: seq<Marks>, ns: seq<Member>,
                    ms': seq<Member>, below': seq<Marks>, ns': seq<Member>)
    requires MembersAt(d, path, loc, t, ms, below, ns) && Moved(d, e, path, loc, key)
    requires Rest(t, ms, below, ns, ms', below', ns', key)
    ensures MembersAt(e, path, loc, t, ms', below', ns')
    ensures SafeAt(d, loc, ms) ==> SafeAt(e, loc, ms')
  {
    PendingNext(At(d.root, loc).members, MarkAt(d.marks, loc), At(e.root, loc).members, MarkAt(e.marks, loc), key,
                t, ms, below, ns, ms', below', ns');
  }

  /** Where the first of the members to come is. */
  lemma RowFound(cur: seq<Member>, k: Marks, t: Json, ms: seq<Member>, below: seq<Marks>, ns: seq<Member>)
    returns (p: nat)
    requires Pending(cur, k, t, ms, below, ns) && WellFormed(Object(cur)) && ms != []
    ensures p < |cur| == |k.below| && cur[p].name == ms[0].name && FindMember(cur, ms[0].name) == p
    ensures cur[p] == DiffSweptMembers(t, ms, ns)[0] && k.below[p] == DiffMemberMarks(t, ms, below, ns)[0]
  {
    var x, b := DiffSweptMembers(t, ms, ns)[0], DiffMemberMarks(t, ms, below, ns)[0];
    assert Among(cur, k.below, x, b);
    p :| 0 <= p < |cur| && p < |k.below| && cur[p] == x && k.below[p] == b;
    SelectStepTo(Object(cur), p);
  }

  lemma TargetAbsent(cur: seq<Member>, k: Marks, t: Json, ms: seq<Member>, below: seq<Marks>, ns: seq<Member>)
    requires Pending(cur, k, t, ms, below, ns) && DistinctNames(cur) && ns != [] && Walk(ms, ns) > 0
    ensures FindMember(cur, ns[0].name) == |cur| && NulFree(ns[0].name) && WellFormed(ns[0].value)
  {
    RestAdded(t, ms, below, ns);
    var f := FindMember(cur, ns[0].name);
    if f < |cur| {
      CmpTrichotomy(cur[f].name, ns[0].name);
    }
  }

  lemma SnagPairsMatched(ms: seq<Member>, ns: seq<Member>)
    requires DistinctNames(ms) && DistinctNames(ns) && ms != [] && ns != [] && Key(ms[0]) == Key(ns[0])
    ensures SnagPairs(ms, ns) <==> Snags(ms[0].value, ns[0].value) || SnagPairs(ms[1..], ns[1..])
  {
    if SnagPairs(ms, ns) && !Snags(ms[0].value, ns[0].value) {
      var i, j :| 0 <= i < |ms| && 0 <= j < |ns| && Key(ms[i]) == Key(ns[j]) && Snags(ms[i].value, ns[j].value);
      assert i > 0 && j > 0;
      assert ms[1..][i - 1] == ms[i] && ns[1..][j - 1] == ns[j];
    }
    if SnagPairs(ms[1..], ns[1..]) {
      var i, j :| 0 <= i < |ms| - 1 && 0 <= j < |ns| - 1 && Key(ms[1..][i]) == Key(ns[1..][j])
        && Snags(ms[1..][i].value, ns[1..][j].value);
      assert ms[1..][i] == ms[i + 1] && ns[1..][j] == ns[j + 1];
    }
  }

  lemma SnagPairsRemoved(ms: seq<Member>, ns: seq<Member>)
    requires ms != [] && !KeyIn(ns, Key(ms[0]))
    ensures SnagPairs(ms, ns) <==> SnagPairs(ms[1..], ns)
  {
    if SnagPairs(ms, ns) {
      var i, j :| 0 <= i < |ms| && 0 <= j < |ns| && Key(ms[i]) == Key(ns[j]) && Snags(ms[i].value, ns[j].value);
      assert ms[1..][i - 1] == ms[i];
    }
    if SnagPairs(ms[1..], ns) {
      var i, j :| 0 <= i < |ms| - 1 && 0 <= j < |ns| && Key(ms[1..][i]) == Key(ns[j])
        && Snags(ms[1..][i].value, ns[j].value);
      assert ms[1..][i] == ms[i + 1];
    }
  }

  lemma SnagPairsAdded(ms: seq<Member>, ns: seq<Member>)
    requires ns != [] && !KeyIn(ms, Key(ns[0]))
    ensures SnagPairs(ms, ns) <==> SnagPairs(ms, ns[1..])
  {
    if SnagPairs(ms, ns) {
      var i, j :| 0 <= i < |ms| && 0 <= j < |ns| && Key(ms[i]) == Key(ns[j]) && Snags(ms[i].value, ns[j].value);
      assert ns[1..][j - 1] == ns[j];
    }
    if SnagPairs(ms, ns[1..]) {
      var i, j :| 0 <= i < |ms| && 0 <= j < |ns| - 1 && Key(ms[i]) == Key(ns[1..][j])
        && Snags(ms[i].value, ns[1..][j].value);
      assert ns[1..][j] == ns[j + 1];
    }
  }

  /** Members of equal name. */
  lemma {:induction false} MatchedRun(d: Doc, path: seq<Step>, loc: Loc, t: Json,
                                      ms: seq<Member>, below: seq<Marks>, ns: seq<Member>)
    requires MembersAt(d, path, loc, t, ms, below, ns) && ms != [] && ns != [] && Walk(ms, ns) == 0
    requires SafeAt(d, loc, ms) || !Replaced(ms[0].value, ns[0].value)
    ensures var a, b := ms[0].value, ns[0].value;
            var ops := DiffOps(path + [Fld(ms[0].name)], a, b);
            && Ends(d, path, loc, ops, Snags(a, b))
            && (!Snags(a, b) ==> Moved(d, After(d, ops), path, loc, Key(ms[0])))
    decreases ms[0].value, 4, 0
  {
    if Replaced(ms[0].value, ns[0].value) {
      ReplacedRun(d, path, loc, t, ms, below, ns);
    } else {
      InsideRun(d, path, loc, t, ms, below, ns);
    }
  }

  /** The value is replaced. */
  lemma ReplacedRun(d: Doc, path: seq<Step>, loc: Loc, t: Json,
                    ms: seq<Member>, below: seq<Marks>, ns: seq<Member>)
    requires MembersAt(d, path, loc, t, ms, below, ns) && ms != [] && ns != [] && Walk(ms, ns) == 0
    requires SafeAt(d, loc, ms) && Replaced(ms[0].value, ns[0].value)
    ensures !Snags(ms[0].value, ns[0].value)
    ensures var ops := DiffOps(path + [Fld(ms[0].name)], ms[0].value, ns[0].value);
            Ends(d, path, loc, ops, false) && Moved(d, After(d, ops), path, loc, Key(ms[0]))
  {
    var cur, k := At(d.root, loc).members, MarkAt(d.marks, loc);
    IsHere(d, path, loc);
    WellFormedAt(d.root, loc);
    var p := RowFound(cur, k, t, ms, below, ns);
    ScalarOps(path + [Fld(ms[0].name)], ms[0].value, ns[0].value);
    assert p == 0 ==> KeyIn(ms, Key(cur[0]));
    ReplaceMember(d, path, loc, cur, k, p, ns[0].value);
  }

  /** The diff goes on inside the value. */
  lemma {:induction false} InsideRun(d: Doc, path: seq<Step>, loc: Loc, t: Json,
                                     ms: seq<Member>, below: seq<Marks>, ns: seq<Member>)
    requires MembersAt(d, path, loc, t, ms, below, ns) && ms != [] && ns != [] && Walk(ms, ns) == 0
    requires !Replaced(ms[0].value, ns[0].value)
    ensures var a, b := ms[0].value, ns[0].value;
            var ops := DiffOps(path + [Fld(ms[0].name)], a, b);
            && Ends(d, path, loc, ops, Snags(a, b))
            && (!Snags(a, b) ==> Moved(d, After(d, ops), path, loc, Key(ms[0])))
    decreases ms[0].value, 3, 0
  {
    var cur, k := At(d.root, loc).members, MarkAt(d.marks, loc);
    IsHere(d, path, loc);
    WellFormedAt(d.root, loc);
    var p := RowFound(cur, k, t, ms, below, ns);
    MatchedIsChild(d, path, loc, cur, k, t, ms, below, ns, p);
    var x, y := ChildRun(d, path, loc, Fld(ms[0].name), ms[0].value, below[0], ns[0].value);
    PutAtChild([], cur, k, p, x, y);
    SetMoves(cur, k, p, x, y);
  }

  lemma MatchedIsChild(d: Doc, path: seq<Step>, loc: Loc, cur: seq<Member>, k: Marks, t: Json,
                       ms: seq<Member>, below: seq<Marks>, ns: seq<Member>, p: nat)
    requires ObjectHere(d, path, loc, cur, k) && Rows(t, ms, below, ns)
    requires ms != [] && ns != [] && Walk(ms, ns) == 0 && p < |cur| == |k.below|
    requires cur[p] == DiffSweptMembers(t, ms, ns)[0] && k.below[p] == DiffMemberMarks(t, ms, below, ns)[0]
    requires FindMember(cur, ms[0].name) == p
    ensures Child(d, path, loc, Fld(ms[0].name), ms[0].value, below[0], ns[0].value)
  {
  }

  lemma {:induction false} MatchedThen(d: Doc, path: seq<Step>, loc: Loc, t: Json,
                                       ms: seq<Member>, below: seq<Marks>, ns: seq<Member>)
    requires MembersAt(d, path, loc, t, ms, below, ns) && ms != [] && ns != [] && Walk(ms, ns) == 0
    requires SafeAt(d, loc, ms) || (SnagAt(d, loc, ms) && !Replaced(ms[0].value, ns[0].value))
    ensures Ends(d, path, loc, MemberOps(path, t, ms, ns), SnagPairs(ms, ns))
    decreases t, 0, |ms| + |ns|, 0
  {
    var a, b := ms[0].value, ns[0].value;
    var ops, rest := DiffOps(path + [Fld(ms[0].name)], a, b), MemberOps(path, t, ms[1..], ns[1..]);
    CmpTrichotomy(ms[0].name, ns[0].name);
    SnagPairsMatched(ms, ns);
    MatchedRun(d, path, loc, t, ms, below, ns);
    if !Snags(a, b) {
      RestMatched(t, ms, below, ns);
      MembersNext(d, After(d, ops), path, loc, t, Key(ms[0]), ms, below, ns, ms[1..], below[1..], ns[1..]);
      MembersRun(After(d, ops), path, loc, t, ms[1..], below[1..], ns[1..]);
    }
    EndsConcat(d, path, loc, ops, Snags(a, b), rest, SnagPairs(ms[1..], ns[1..]));
  }

  lemma {:induction false} RemovedThen(d: Doc, path: seq<Step>, loc: Loc, t: Json,
                                       ms: seq<Member>, below: seq<Marks>, ns: seq<Member>)
    requires MembersAt(d, path, loc, t, ms, below, ns) && ms != [] && Walk(ms, ns) < 0 && SafeAt(d, loc, ms)
    ensures Ends(d, path, loc, MemberOps(path, t, ms, ns), SnagPairs(ms, ns))
    decreases t, 0, |ms| + |ns|, 0
  {
    var op, rest := Op(path, RemoveKey(ms[0].name)), MemberOps(path, t, ms[1..], ns);
    var cur, k := At(d.root, loc).members, MarkAt(d.marks, loc);
    IsHere(d, path, loc);
    WellFormedAt(d.root, loc);
    var p := RowFound(cur, k, t, ms, below, ns);
    assert p == 0 ==> KeyIn(ms, Key(cur[0]));
    RemoveMember(d, path, loc, cur, k, p);
    RestRemoved(t, ms, below, ns);
    SmallKeyOut(ms[0].name, ns);
    SnagPairsRemoved(ms, ns);
    MembersNext(d, After(d, [op]), path, loc, t, Key(ms[0]), ms, below, ns, ms[1..], below[1..], ns);
    MembersRun(After(d, [op]), path, loc, t, ms[1..], below[1..], ns);
    EndsConcat(d, path, loc, [op], false, rest, SnagPairs(ms[1..], ns));
  }

  /** A name only the target has: its member goes to the end. */
  lemma AddedStep(d: Doc, path: seq<Step>, loc: Loc, t: Json,
                  ms: seq<Member>, below: seq<Marks>, ns: seq<Member>)
    requires MembersAt(d, path, loc, t, ms, below, ns) && ns != [] && Walk(ms, ns) > 0
    ensures var op := Op(path, AddKey(ns[0].name, ns[0].value));
            var e := After(d, [op]);
            && Ends(d, path, loc, [op], false) && MembersAt(e, path, loc, t, ms, below, ns[1..])
            && (SafeAt(d, loc, ms) ==> SafeAt(e, loc, ms)) && (SnagAt(d, loc, ms) ==> SnagAt(e, loc, ms))
  {
    var n, v, cur, k := ns[0].name, ns[0].value, At(d.root, loc).members, MarkAt(d.marks, loc);
    var e := After(d, [Op(path, AddKey(n, v))]);
    IsHere(d, path, loc);
    WellFormedAt(d.root, loc);
    TargetAbsent(cur, k, t, ms, below, ns);
    AddMember(d, path, loc, cur, k, n, v);
    RestAdded(t, ms, below, ns);
    MembersNext(d, e, path, loc, t, Key(ns[0]), ms, below, ns, ms, below, ns[1..]);
    LoopsOn(k, Fresh(v, d.epoch));
  }

  lemma LoopsOn(k: Marks, y: Marks)
    ensures Loops(k) ==> Loops(Marks(k.id, k.prev, k.below + [y]))
  {
    if Loops(k) {
      var i :| 1 <= i < |k.below| && k.below[i].id == k.prev.value;
      assert (k.below + [y])[i] == k.below[i];
    }
  }

  lemma {:induction false} MembersRun(d: Doc, path: seq<Step>, loc: Loc, t: Json,
                                      ms: seq<Member>, below: seq<Marks>, ns: seq<Member>)
    requires MembersAt(d, path, loc, t, ms, below, ns) && SafeAt(d, loc, ms)
    ensures Ends(d, path, loc, MemberOps(path, t, ms, ns), SnagPairs(ms, ns))
    decreases t, 0, |ms| + |ns|, 1
  {
    if ms == [] && ns == [] {
      EndsNone(d, path, loc);
    } else if Walk(ms, ns) < 0 {
      RemovedThen(d, path, loc, t, ms, below, ns);
    } else if ms != [] && Walk(ms, ns) == 0 {
      MatchedThen(d, path, loc, t, ms, below, ns);
    } else {
      AddedStep(d, path, loc, t, ms, below, ns);
      var op := Op(path, AddKey(ns[0].name, ns[0].value));
      RestAdded(t, ms, below, ns);
      SnagPairsAdded(ms, ns);
      MembersRun(After(d, [op]), path, loc, t, ms, below, ns[1..]);
      EndsConcat(d, path, loc, [op], false, MemberOps(path, t, ms, ns[1..]), SnagPairs(ms, ns[1..]));
    }
  }

  // ----- an object whose first node has a `prev`

  lemma DroppedWalk(ms: seq<Member>, ns: seq<Member>)
    requires StrictlySorted(ms) && StrictlySorted(ns) && ms != []
    ensures Walk(ms, ns) < 0 ==> Dropped(ms[0], ns)
    ensures ns != [] && Walk(ms, ns) == 0 ==> (Dropped(ms[0], ns) <==> Replaced(ms[0].value, ns[0].value))
    ensures ns != [] && Walk(ms, ns) > 0 ==> (Dropped(ms[0], ns) <==> Dropped(ms[0], ns[1..]))
  {
    if ns != [] { CmpTrichotomy(ms[0].name, ns[0].name); }
    if Walk(ms, ns) < 0 {
      SmallKeyAbsent(ms[0].name, ns);
      FindMemberByKey(ns, ms[0].name);
    }
  }

  /** It is taken out, and leaves a cycle. */
  lemma FirstDropped(d: Doc, path: seq<Step>, loc: Loc, t: Json,
                     ms: seq<Member>, below: seq<Marks>, ns: seq<Member>)
    requires MembersAt(d, path, loc, t, ms, below, ns) && SnagAt(d, loc, ms) && Dropped(ms[0], ns)
    requires Walk(ms, ns) < 0 || (ns != [] && Walk(ms, ns) == 0)
    ensures Ends(d, path, loc, MemberOps(path, t, ms, ns), true)
  {
    var cur, k := At(d.root, loc).members, MarkAt(d.marks, loc);
    IsHere(d, path, loc);
    WellFormedAt(d.root, loc);
    var p := RowFound(cur, k, t, ms, below, ns);
    DroppedWalk(ms, ns);
    assert p == 0;
    if Walk(ms, ns) < 0 {
      RemoveLoops(d, path, loc, cur, k, ms[0].name);
      EndsConcat(d, path, loc, [Op(path, RemoveKey(ms[0].name))], true, MemberOps(path, t, ms[1..], ns), true);
    } else {
      var s := Fld(ms[0].name);
      ScalarOps(path + [s], ms[0].value, ns[0].value);
      ReplaceMember(d, path, loc, cur, k, p, ns[0].value);
      EndsConcat(d, path, loc, [Op(path + [s], Set(ns[0].value))], true, MemberOps(path, t, ms[1..], ns[1..]), true);
    }
  }

  lemma {:induction false} SnagRun(d: Doc, path: seq<Step>, loc: Loc, t: Json,
                                   ms: seq<Member>, below: seq<Marks>, ns: seq<Member>)
    requires MembersAt(d, path, loc, t, ms, below, ns) && SnagAt(d, loc, ms)
    ensures Ends(d, path, loc, MemberOps(path, t, ms, ns), Dropped(ms[0], ns) || SnagPairs(ms, ns))
    decreases t, 0, |ms| + |ns|, 1
  {
    DroppedWalk(ms, ns);
    if Walk(ms, ns) < 0 || (Walk(ms, ns) == 0 && Dropped(ms[0], ns)) {
      FirstDropped(d, path, loc, t, ms, below, ns);
    } else if Walk(ms, ns) == 0 {
      MatchedThen(d, path, loc, t, ms, below, ns);
    } else {
      AddedStep(d, path, loc, t, ms, below, ns);
      var op := Op(path, AddKey(ns[0].name, ns[0].value));
      RestAdded(t, ms, below, ns);
      SnagPairsAdded(ms, ns);
      SnagRun(After(d, [op]), path, loc, t, ms, below, ns[1..]);
      EndsConcat(d, path, loc, [op], false, MemberOps(path, t, ms, ns[1..]),
                 Dropped(ms[0], ns[1..]) || SnagPairs(ms, ns[1..]));
    }
  }

  // ----- objects as the diff leaves them

  lemma SnagPairsWithin(ms: seq<Member>, ns: seq<Member>, ms': seq<Member>, ns': seq<Member>)
    requires SnagPairs(ms, ns) && (forall x :: x in ms ==> x in ms') && (forall x :: x in ns ==> x in ns')
    ensures SnagPairs(ms', ns')
  {
    var i, j :| 0 <= i < |ms| && 0 <= j < |ns| && Key(ms[i]) == Key(ns[j]) && Snags(ms[i].value, ns[j].value);
    assert ms[i] in ms' && ns[j] in ns';
    var k :| 0 <= k < |ms'| && ms'[k] == ms[i];
    var l :| 0 <= l < |ns'| && ns'[l] == ns[j];
  }

  lemma SortedSnags(ms: seq<Member>, ns: seq<Member>)
    requires DistinctNames(ms) && DistinctNames(ns)
    ensures SnagPairs(SortMembers(ms), SortMembers(ns)) <==> SnagPairs(ms, ns)
  {
    SortPermutes(ms, Name);
    SortPermutes(ns, Name);
    SameMembers(ms, SortMembers(ms));
    SameMembers(ns, SortMembers(ns));
    if SnagPairs(ms, ns) { SnagPairsWithin(ms, ns, SortMembers(ms), SortMembers(ns)); }
    if SnagPairs(SortMembers(ms), SortMembers(ns)) { SnagPairsWithin(SortMembers(ms), SortMembers(ns), ms, ns); }
  }

  lemma SortedDropped(x: Member, ns: seq<Member>)
    requires DistinctNames(ns) && NulFree(x.name)
    ensures Dropped(x, SortMembers(ns)) <==> Dropped(x, ns)
  {
    SortMembersProps(ns);
    FindMemberByKey(ns, x.name);
    FindMemberByKey(SortMembers(ns), x.name);
    if FindMember(ns, x.name) < |ns| { var k := SortedPlace(ns, x.name); }
  }

  /** The rows of two whole objects. */
  ghost predicate Whole(a: Json, m: Marks, b: Json, ms: seq<Member>, below: seq<Marks>, ns: seq<Member>) {
    && a.Object? && b.Object? && Pair(a, m, b) && |m.below| == |a.members|
    && (forall i :: 0 <= i < |a.members| ==> Order(a.members)[i] < |m.below|)
    && ms == SortMembers(a.members) && ns == SortMembers(b.members) && below == Arranged(m.below, Order(a.members))
  }

  lemma WholeRows(a: Json, m: Marks, b: Json) returns (ms: seq<Member>, below: seq<Marks>, ns: seq<Member>)
    requires a.Object? && b.Object? && Pair(a, m, b)
    ensures Whole(a, m, b, ms, below, ns) && Rows(a, ms, below, ns)
  {
    FitsChildren(a, m);
    SortedFits(a.members, m.below);
    SortedValuesSmaller(a);
    SortedMembers(a.members);
    SortedMembers(b.members);
    ms, below, ns := SortMembers(a.members), Arranged(m.below, Order(a.members)), SortMembers(b.members);
  }

  lemma WholeSwept(a: Json, m: Marks, b: Json, ms: seq<Member>, below: seq<Marks>, ns: seq<Member>)
    requires Whole(a, m, b, ms, below, ns) && Rows(a, ms, below, ns)
    ensures DiffSwept(a, b) == Object(DiffSweptMembers(a, ms, ns))
    ensures DiffMarks(a, m, b) == Marks(m.id, HeadPrev(m, Order(a.members)), DiffMemberMarks(a, ms, below, ns))
  {
  }

  lemma WholePending(t: Json, k: Marks, ms: seq<Member>, below: seq<Marks>, ns: seq<Member>)
    requires Rows(t, ms, below, ns) && k.below == DiffMemberMarks(t, ms, below, ns)
    ensures Pending(DiffSweptMembers(t, ms, ns), k, t, ms, below, ns)
  {
    var cur := DiffSweptMembers(t, ms, ns);
    AllAmongSelf(cur, k.below);
    assert forall i :: 0 <= i < |cur| ==> Key(cur[i]) == Key(ms[i]);
  }

  /** The node the first one has as its `prev` is behind it. */
  lemma WholeLoops(a: Json, m: Marks, b: Json, ms: seq<Member>, below: seq<Marks>, ns: seq<Member>)
    requires Whole(a, m, b, ms, below, ns) && Rows(a, ms, below, ns)
    requires a.members != [] && Order(a.members)[0] != 0
    ensures Loops(Marks(m.id, HeadPrev(m, Order(a.members)), DiffMemberMarks(a, ms, below, ns)))
  {
    DiffMemberIds(a, ms, below, ns);
    BehindFirst(a.members, m, DiffMemberMarks(a, ms, below, ns));
  }

  lemma SnagsObject(a: Json, m: Marks, b: Json, ms: seq<Member>, below: seq<Marks>, ns: seq<Member>)
    requires Whole(a, m, b, ms, below, ns) && Rows(a, ms, below, ns)
    ensures Snags(a, b) <==>
              (ms != [] && Order(a.members)[0] != 0 && Dropped(ms[0], ns)) || SnagPairs(ms, ns)
  {
    SnagsIs(a, b);
    SortedSnags(a.members, b.members);
    if ms != [] { SortedDropped(ms[0], b.members); }
  }

  lemma SnagsIs(a: Json, b: Json)
    requires a.Object? && b.Object?
    ensures Snags(a, b) <==>
              || (a.members != [] && Order(a.members)[0] != 0 && Dropped(SortMembers(a.members)[0], b.members))
              || SnagPairs(a.members, b.members)
  {
  }

  lemma {:induction false} ObjectRun(d: Doc, path: seq<Step>, loc: Loc, a: Json, m: Marks, b: Json)
    requires Stands(d, path, loc) && Pair(a, m, b) && a.Object? && b.Object?
    requires At(d.root, loc) == DiffSwept(a, b) && MarkAt(d.marks, loc) == DiffMarks(a, m, b)
    ensures Ends(d, path, loc, DiffOps(path, a, b), Snags(a, b))
    decreases a, 0, |a.members| + |b.members|, 2
  {
    var ms, below, ns := WholeRows(a, m, b);
    WholeSwept(a, m, b, ms, below, ns);
    WholePending(a, DiffMarks(a, m, b), ms, below, ns);
    SnagsObject(a, m, b, ms, below, ns);
    assert DiffOps(path, a, b) == MemberOps(path, a, ms, ns);
    if ms != [] && Order(a.members)[0] != 0 {
      WholeLoops(a, m, b, ms, below, ns);
      SnagRun(d, path, loc, a, ms, below, ns);
    } else {
      MembersRun(d, path, loc, a, ms, below, ns);
    }
  }

  lemma {:induction false} ArrayRun(d: Doc, path: seq<Step>, loc: Loc, a: Json, m: Marks, b: Json)
    requires Stands(d, path, loc) && Pair(a, m, b) && a.Array? && b.Array?
    requires At(d.root, loc) == DiffSwept(a, b) && MarkAt(d.marks, loc) == DiffMarks(a, m, b)
    ensures Ends(d, path, loc, DiffOps(path, a, b), Snags(a, b))
    decreases a, 0, |a.items|, 2
  {
    ArrayStart(d, path, loc, a, m, b);
    ItemsRun(d, path, loc, a, b, 0, [], [], a.items, m.below, b.items);
    ArrayOps(path, a, b);
  }

  lemma ArrayOps(path: seq<Step>, a: Json, b: Json)
    requires a.Array? && b.Array?
    ensures DiffOps(path, a, b) == ItemOps(path, a, 0, a.items, b.items)
    ensures Snags(a, b) == SnagItems(a.items, b.items)
  {
  }

  lemma ArrayStart(d: Doc, path: seq<Step>, loc: Loc, a: Json, m: Marks, b: Json)
    requires Stands(d, path, loc) && Pair(a, m, b) && a.Array? && b.Array?
    requires At(d.root, loc) == DiffSwept(a, b) && MarkAt(d.marks, loc) == DiffMarks(a, m, b)
    ensures ItemsAt(d, path, loc, a, [], [], a.items, m.below, b.items) && Items(b, b.items)
  {
    ArrayParts(a, m, b);
    ArraySwept(a, m, b);
  }

  lemma ArrayParts(a: Json, m: Marks, b: Json)
    requires Pair(a, m, b) && a.Array? && b.Array?
    ensures Items(a, a.items) && Items(b, b.items) && FitItems(a.items, m.below) && AllClear(m.below)
  {
    FitsChildren(a, m);
  }

  lemma ArraySwept(a: Json, m: Marks, b: Json)
    requires Pair(a, m, b) && a.Array? && b.Array? && FitItems(a.items, m.below)
    ensures DiffSwept(a, b) == Array([] + DiffSweptItems(a, a.items, b.items))
    ensures DiffMarks(a, m, b).below == [] + DiffItemMarks(a, a.items, m.below, b.items)
  {
    assert [] + DiffSweptItems(a, a.items, b.items) == DiffSweptItems(a, a.items, b.items);
    assert [] + DiffItemMarks(a, a.items, m.below, b.items) == DiffItemMarks(a, a.items, m.below, b.items);
  }

  lemma {:induction false} NodeRun(d: Doc, path: seq<Step>, loc: Loc, a: Json, m: Marks, b: Json)
    requires Stands(d, path, loc) && Pair(a, m, b) && !Replaced(a, b)
    requires At(d.root, loc) == DiffSwept(a, b) && MarkAt(d.marks, loc) == DiffMarks(a, m, b)
    ensures Ends(d, path, loc, DiffOps(path, a, b), Snags(a, b))
    decreases a, 1, 0
  {
    if a.Array? && b.Array? {
      ArrayRun(d, path, loc, a, m, b);
    } else if a.Object? && b.Object? {
      ObjectRun(d, path, loc, a, m, b);
    } else {
      ScalarOps(path, a, b);
      EndsNone(d, path, loc);
    }
  }
}
