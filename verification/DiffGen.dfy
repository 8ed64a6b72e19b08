/** cJSONUtils_CompareToPatch as it runs: patches are appended while both trees are
    walked, and the members of compared objects are sorted in place on the way. */
module DiffGen {
  import opened Seqs
  import opened Option
  import opened CString
  import opened CJson
  import opened Pointer
  import opened PatchCanon
  import opened Compare
  import opened Diff
  import opened DiffPatch
  import opened DiffSweep

  /** `out` is `patches` with the rendered `ops` behind it. */
  ghost predicate Emitted(patches: seq<Json>, ops: seq<Op>, out: seq<Json>) {
    out == patches + RenderAll(ops)
  }

  /** Emitting a first part of what is pending leaves the rest pending. */
  lemma Advance(out: seq<Json>, pending: seq<Op>, goal: seq<Json>, step: seq<Op>, out': seq<Json>, rest: seq<Op>)
    requires Emitted(out, pending, goal) && pending == step + rest && Emitted(out, step, out')
    ensures Emitted(out', rest, goal)
  {
    RenderConcat(step, rest);
    Assoc(out, RenderAll(step), RenderAll(rest));
  }

  lemma EmittedOne(patches: seq<Json>, op: Op)
    ensures Emitted(patches, [op], patches + [Render(op)])
  {
    assert RenderAll([op]) == [Render(op)] + RenderAll([op][1..]);
  }

  lemma AdvanceOne(out: seq<Json>, op: Op, rest: seq<Op>, goal: seq<Json>)
    requires Emitted(out, [op] + rest, goal)
    ensures Emitted(out + [Render(op)], rest, goal)
  {
    EmittedOne(out, op);
    Advance(out, [op] + rest, goal, [op], out + [Render(op)], rest);
  }

  method CompareToPatch(patches: seq<Json>, path: string, ghost steps: seq<Step>, from: Json, to: Json)
    returns (out: seq<Json>, from': Json, to': Json)
    requires path == PathText(steps)
    ensures Emitted(patches, DiffOps(steps, from, to), out)
    ensures from' == DiffSwept(from, to) && Reordered(to, to')
    decreases from, 1
  {
    ReorderedSelf(to);
    out, from', to' := patches, from, to;
    EmittedOne(patches, Op(steps, Set(to)));
    var replace := GeneratePatch("replace", path, None, Some(to));
    if Type(from) != Type(to) {
      out := patches + [replace];
      return;
    }
    match from
    case Number(i, d) =>
      if i != to.valueint || d != to.valuedouble { out := patches + [replace]; }
    case String(s) =>
      if s != to.valuestring { out := patches + [replace]; }
    case Array(items) =>
      var xs, ys;
      out, xs, ys := CompareItemsToPatch(patches, path, steps, from, items, to.items);
      from', to' := Array(xs), Array(ys);
    case Object(ms) =>
      SortedValuesSmaller(from);
      var xs, ys;
      out, xs, ys := CompareMembersToPatch(patches, path, steps, from, SortMembers(ms), SortMembers(to.members));
      ReorderedSorted(to.members, ys);
      from', to' := Object(xs), Object(ys);
    case _ =>
  }

  method CompareItemsToPatch(patches: seq<Json>, path: string, ghost steps: seq<Step>,
                             ghost t: Json, items: seq<Json>, others: seq<Json>)
    returns (out: seq<Json>, xs: seq<Json>, ys: seq<Json>)
    requires path == PathText(steps) && forall i :: 0 <= i < |items| ==> items[i] < t
    ensures Emitted(patches, ItemOps(steps, t, 0, items, others), out)
    ensures xs == DiffSweptItems(t, items, others) && ReorderedItems(others, ys)
    decreases t, 0
  {
    out, xs, ys := patches, [], others;
    ReorderedItemsSelf(others);
    ghost var goal := patches + RenderAll(ItemOps(steps, t, 0, items, others));
    var c := 0;
    assert items[0..] == items && others[0..] == others;
    while c < |items| && c < |others|
      invariant 0 <= c <= |items| && c <= |others|
      invariant Emitted(out, ItemOps(steps, t, c, items[c..], others[c..]), goal)
      invariant DiffSweptItems(t, items, others) == xs + DiffSweptItems(t, items[c..], others[c..])
      invariant ReorderedItems(others, ys)
      decreases |items| - c
    {
      SweepOne(t, items, others, c, xs);
      var x, y;
      out, x, y := CompareItem(out, path, steps, t, c, items, others, goal);
      ReorderedItemsSet(others, ys, c, y);
      xs, ys := xs + [x], ys[c := y];
      c := c + 1;
    }
    xs := xs + items[c..];
    out := FinishItems(out, path, steps, t, c, items, others, goal);
  }

  /** One more item swept. */
  lemma SweepOne(t: Json, items: seq<Json>, others: seq<Json>, c: nat, done: seq<Json>)
    requires c < |items| && c < |others| && forall i :: 0 <= i < |items| ==> items[i] < t
    ensures done + DiffSweptItems(t, items[c..], others[c..])
         == (done + [DiffSwept(items[c], others[c])]) + DiffSweptItems(t, items[c + 1..], others[c + 1..])
  {
    assert items[c..][1..] == items[c + 1..] && others[c..][1..] == others[c + 1..];
    Assoc(done, [DiffSwept(items[c], others[c])], DiffSweptItems(t, items[c + 1..], others[c + 1..]));
  }

  /** The members the walk has passed are swept into `done`. */
  ghost predicate Walked(t: Json, ms: seq<Member>, ns: seq<Member>, i: nat, j: nat, done: seq<Member>)
    requires ValuesBelow(ms, t) && i <= |ms| && j <= |ns|
  {
    DiffSweptMembers(t, ms, ns) == done + DiffSweptMembers(t, ms[i..], ns[j..])
  }

  lemma WalkMatched(t: Json, ms: seq<Member>, ns: seq<Member>, i: nat, j: nat, done: seq<Member>)
    requires ValuesBelow(ms, t) && i < |ms| && j < |ns| && Walked(t, ms, ns, i, j, done)
    requires StrCaseCmp(ms[i].name, ns[j].name) == 0
    ensures Walked(t, ms, ns, i + 1, j + 1, done + [Member(ms[i].name, DiffSwept(ms[i].value, ns[j].value))])
  {
    assert ms[i..][1..] == ms[i + 1..] && ns[j..][1..] == ns[j + 1..];
    Assoc(done, [Member(ms[i].name, DiffSwept(ms[i].value, ns[j].value))],
          DiffSweptMembers(t, ms[i + 1..], ns[j + 1..]));
  }

  lemma WalkRemoved(t: Json, ms: seq<Member>, ns: seq<Member>, i: nat, j: nat, done: seq<Member>)
    requires ValuesBelow(ms, t) && i < |ms| && j <= |ns| && Walked(t, ms, ns, i, j, done)
    requires j < |ns| ==> StrCaseCmp(ms[i].name, ns[j].name) < 0
    ensures Walked(t, ms, ns, i + 1, j, done + [ms[i]])
  {
    assert ms[i..][1..] == ms[i + 1..] && ms[i..] == [ms[i]] + ms[i + 1..];
    Assoc(done, [ms[i]], DiffSweptMembers(t, ms[i + 1..], ns[j..]));
  }

  lemma WalkAdded(t: Json, ms: seq<Member>, ns: seq<Member>, i: nat, j: nat, done: seq<Member>)
    requires ValuesBelow(ms, t) && i <= |ms| && j < |ns| && Walked(t, ms, ns, i, j, done)
    requires i < |ms| ==> StrCaseCmp(ms[i].name, ns[j].name) > 0
    ensures Walked(t, ms, ns, i, j + 1, done)
  {
    assert ns[j..][1..] == ns[j + 1..];
  }

  lemma ReorderedItemsSet(items: seq<Json>, xs: seq<Json>, c: nat, x: Json)
    requires c < |items| && ReorderedItems(items, xs) && Reordered(items[c], x)
    ensures ReorderedItems(items, xs[c := x])
  {
  }

  lemma ReorderedValuesSet(ms: seq<Member>, xs: seq<Member>, c: nat, x: Json)
    requires c < |ms| && ReorderedValues(ms, xs) && Reordered(ms[c].value, x)
    ensures ReorderedValues(ms, xs[c := Member(ms[c].name, x)])
  {
  }

  /** One list is exhausted: drop the surplus of the source or append the rest of the target. */
  method FinishItems(patches: seq<Json>, path: string, ghost steps: seq<Step>, ghost t: Json, c: nat,
                     items: seq<Json>, others: seq<Json>, ghost goal: seq<Json>)
    returns (out: seq<Json>)
    requires path == PathText(steps) && (forall i :: 0 <= i < |items| ==> items[i] < t)
    requires c <= |items| && c <= |others| && (c == |items| || c == |others|)
    requires Emitted(patches, ItemOps(steps, t, c, items[c..], others[c..]), goal)
    ensures out == goal
  {
    ghost var surplus, rest := RemoveOps(steps, c, |items|), AppendOps(steps, others[c..]);
    assert ItemOps(steps, t, c, items[c..], others[c..]) == surplus + rest;
    var mid := RemoveSurplus(patches, path, steps, c, |items|);
    Advance(patches, surplus + rest, goal, surplus, mid, rest);
    out := AppendRest(mid, path, steps, others, c);
  }

  /** The pair at position `c`. */
  method CompareItem(patches: seq<Json>, path: string, ghost steps: seq<Step>, ghost t: Json, c: nat,
                     items: seq<Json>, others: seq<Json>, ghost goal: seq<Json>)
    returns (out: seq<Json>, x: Json, y: Json)
    requires path == PathText(steps) && (forall i :: 0 <= i < |items| ==> items[i] < t)
    requires c < |items| && c < |others|
    requires Emitted(patches, ItemOps(steps, t, c, items[c..], others[c..]), goal)
    ensures Emitted(out, ItemOps(steps, t, c + 1, items[c + 1..], others[c + 1..]), goal)
    ensures x == DiffSwept(items[c], others[c]) && Reordered(others[c], y)
    decreases items[c], 2
  {
    PathTextSnoc(steps, Idx(c));
    ghost var step := DiffOps(steps + [Idx(c)], items[c], others[c]);
    ghost var rest := ItemOps(steps, t, c + 1, items[c + 1..], others[c + 1..]);
    assert items[c..][1..] == items[c + 1..] && others[c..][1..] == others[c + 1..];
    out, x, y := CompareToPatch(patches, path + "/" + Decimal(c), steps + [Idx(c)], items[c], others[c]);
    Advance(patches, step + rest, goal, step, out, rest);
  }

  /** The removal loop: positions go up while the list will be shrinking. */
  method RemoveSurplus(patches: seq<Json>, path: string, ghost steps: seq<Step>, from: nat,
                       end: nat) returns (out: seq<Json>)
    requires path == PathText(steps) && from <= end
    ensures Emitted(patches, RemoveOps(steps, from, end), out)
  {
    out := patches;
    ghost var goal := patches + RenderAll(RemoveOps(steps, from, end));
    for c := from to end
      invariant Emitted(out, RemoveOps(steps, c, end), goal)
    {
      AdvanceOne(out, Op(steps, RemoveIdx(c)), RemoveOps(steps, c + 1, end), goal);
      out := out + [GeneratePatch("remove", path, Some(Decimal(c)), None)];
    }
  }

  method AppendRest(patches: seq<Json>, path: string, ghost steps: seq<Step>, others: seq<Json>,
                    from: nat) returns (out: seq<Json>)
    requires path == PathText(steps) && from <= |others|
    ensures Emitted(patches, AppendOps(steps, others[from..]), out)
  {
    out := patches;
    ghost var goal := patches + RenderAll(AppendOps(steps, others[from..]));
    for c := from to |others|
      invariant Emitted(out, AppendOps(steps, others[c..]), goal)
    {
      assert others[c..][1..] == others[c + 1..];
      AdvanceOne(out, Op(steps, Append(others[c])), AppendOps(steps, others[c + 1..]), goal);
      out := out + [GeneratePatch("add", path, Some("-"), Some(others[c]))];
    }
  }

  method CompareMembersToPatch(patches: seq<Json>, path: string, ghost steps: seq<Step>,
                               ghost t: Json, ms: seq<Member>, ns: seq<Member>)
    returns (out: seq<Json>, xs: seq<Member>, ys: seq<Member>)
    requires path == PathText(steps) && ValuesBelow(ms, t)
    ensures Emitted(patches, MemberOps(steps, t, ms, ns), out)
    ensures xs == DiffSweptMembers(t, ms, ns) && ReorderedValues(ns, ys)
    decreases t, 0
  {
    out, xs, ys := patches, [], ns;
    ReorderedValuesSelf(ns);
    ghost var goal := patches + RenderAll(MemberOps(steps, t, ms, ns));
    var i, j := 0, 0;
    UnderwayFirst(patches, steps, t, ms, ns);
    while i < |ms| || j < |ns|
      invariant 0 <= i <= |ms| && 0 <= j <= |ns|
      invariant Underway(steps, t, ms, ns, i, j, out, goal, xs)
      invariant ReorderedValues(ns, ys)
      decreases |ms| - i + |ns| - j
    {
      var diff := if i == |ms| then 1 else if j == |ns| then -1 else StrCaseCmp(ms[i].name, ns[j].name);
      if diff == 0 {
        var x, y;
        out, x, y := CompareMatched(out, path, steps, t, ms, ns, i, j, goal, xs);
        ReorderedValuesSet(ns, ys, j, y);
        xs, ys := xs + [Member(ms[i].name, x)], ys[j := Member(ns[j].name, y)];
        i, j := i + 1, j + 1;
      } else if diff < 0 {
        RemoveStep(out, steps, t, ms, ns, i, j, goal, xs);
        out := out + [GeneratePatch("remove", path, Some(ms[i].name), None)];
        xs := xs + [ms[i]];
        i := i + 1;
      } else {
        AddStep(out, steps, t, ms, ns, i, j, goal, xs);
        out := out + [GeneratePatch("add", path, Some(ns[j].name), Some(ns[j].value))];
        j := j + 1;
      }
    }
    UnderwayLast(steps, t, ms, ns, out, goal, xs);
  }

  /** The members before `i` and `j` are dealt with. */
  ghost predicate Underway(steps: seq<Step>, t: Json, ms: seq<Member>, ns: seq<Member>, i: nat, j: nat,
                           out: seq<Json>, goal: seq<Json>, xs: seq<Member>)
    requires ValuesBelow(ms, t) && i <= |ms| && j <= |ns|
  {
    Emitted(out, MemberOps(steps, t, ms[i..], ns[j..]), goal) && Walked(t, ms, ns, i, j, xs)
  }

  lemma UnderwayFirst(patches: seq<Json>, steps: seq<Step>, t: Json, ms: seq<Member>, ns: seq<Member>)
    requires ValuesBelow(ms, t)
    ensures Underway(steps, t, ms, ns, 0, 0, patches, patches + RenderAll(MemberOps(steps, t, ms, ns)), [])
  {
    assert ms[0..] == ms && ns[0..] == ns;
  }

  lemma UnderwayLast(steps: seq<Step>, t: Json, ms: seq<Member>, ns: seq<Member>, out: seq<Json>, goal: seq<Json>,
                     xs: seq<Member>)
    requires ValuesBelow(ms, t) && Underway(steps, t, ms, ns, |ms|, |ns|, out, goal, xs)
    ensures out == goal && xs == DiffSweptMembers(t, ms, ns)
  {
    assert ms[|ms|..] == [] && ns[|ns|..] == [];
  }

  lemma RemoveStep(out: seq<Json>, steps: seq<Step>, t: Json, ms: seq<Member>, ns: seq<Member>, i: nat, j: nat,
                   goal: seq<Json>, xs: seq<Member>)
    requires ValuesBelow(ms, t) && i < |ms| && j <= |ns|
    requires j < |ns| ==> StrCaseCmp(ms[i].name, ns[j].name) < 0
    requires Underway(steps, t, ms, ns, i, j, out, goal, xs)
    ensures Underway(steps, t, ms, ns, i + 1, j,
                     out + [GeneratePatch("remove", PathText(steps), Some(ms[i].name), None)], goal, xs + [ms[i]])
  {
    WalkRemoved(t, ms, ns, i, j, xs);
    assert ms[i..][1..] == ms[i + 1..] && ms[i..][0] == ms[i];
    AdvanceOne(out, Op(steps, RemoveKey(ms[i].name)), MemberOps(steps, t, ms[i + 1..], ns[j..]), goal);
  }

  lemma AddStep(out: seq<Json>, steps: seq<Step>, t: Json, ms: seq<Member>, ns: seq<Member>, i: nat, j: nat,
                goal: seq<Json>, xs: seq<Member>)
    requires ValuesBelow(ms, t) && i <= |ms| && j < |ns|
    requires i < |ms| ==> StrCaseCmp(ms[i].name, ns[j].name) > 0
    requires Underway(steps, t, ms, ns, i, j, out, goal, xs)
    ensures Underway(steps, t, ms, ns, i, j + 1,
                     out + [GeneratePatch("add", PathText(steps), Some(ns[j].name), Some(ns[j].value))], goal, xs)
  {
    WalkAdded(t, ms, ns, i, j, xs);
    assert ns[j..][1..] == ns[j + 1..] && ns[j..][0] == ns[j];
    AdvanceOne(out, Op(steps, AddKey(ns[j].name, ns[j].value)), MemberOps(steps, t, ms[i..], ns[j + 1..]), goal);
  }

  /** Members of equal name. */
  method CompareMatched(patches: seq<Json>, path: string, ghost steps: seq<Step>, ghost t: Json,
                        ms: seq<Member>, ns: seq<Member>, i: nat, j: nat, ghost goal: seq<Json>,
                        ghost xs: seq<Member>)
    returns (out: seq<Json>, x: Json, y: Json)
    requires path == PathText(steps) && ValuesBelow(ms, t)
    requires i < |ms| && j < |ns| && StrCaseCmp(ms[i].name, ns[j].name) == 0
    requires Underway(steps, t, ms, ns, i, j, patches, goal, xs)
    ensures Underway(steps, t, ms, ns, i + 1, j + 1, out, goal, xs + [Member(ms[i].name, x)])
    ensures x == DiffSwept(ms[i].value, ns[j].value) && Reordered(ns[j].value, y)
    decreases ms[i].value, 2
  {
    var s := Fld(ms[i].name);
    PathTextSnoc(steps, s);
    ghost var step := DiffOps(steps + [s], ms[i].value, ns[j].value);
    ghost var rest := MemberOps(steps, t, ms[i + 1..], ns[j + 1..]);
    assert ms[i..][1..] == ms[i + 1..] && ms[i..][0] == ms[i];
    assert ns[j..][1..] == ns[j + 1..] && ns[j..][0] == ns[j];
    assert MemberOps(steps, t, ms[i..], ns[j..]) == step + rest;
    WalkMatched(t, ms, ns, i, j, xs);
    out, x, y := CompareToPatch(patches, path + "/" + Encode(ms[i].name), steps + [s], ms[i].value, ns[j].value);
    Advance(patches, step + rest, goal, step, out, rest);
  }

  /** cJSONUtils_GeneratePatches: the patch array whose effect DiffThenPatch describes. */
  method GeneratePatches(from: Json, to: Json) returns (patches: Json, from': Json, to': Json)
    ensures patches == Array(RenderAll(DiffOps([], from, to)))
    ensures from' == DiffSwept(from, to) && Reordered(to, to')
  {
    var out;
    out, from', to' := CompareToPatch([], "", [], from, to);
    patches := Array(out);
  }
}
