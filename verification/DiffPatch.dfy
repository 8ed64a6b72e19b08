/** Diff then patch: the text-level composition, for every pair of trees. */
module DiffPatch {
  import opened Option
  import opened CString
  import opened CJson
  import opened Pointer
  import opened Patch
  import opened PatchCanon
  import opened Compare
  import opened Diff

  function RenderAll(ops: seq<Op>): (r: seq<Json>)
    ensures |r| == |ops|
  {
    if ops == [] then [] else [Render(ops[0])] + RenderAll(ops[1..])
  }

  lemma {:induction false} RenderConcat(p: seq<Op>, q: seq<Op>)
    ensures RenderAll(p + q) == RenderAll(p) + RenderAll(q)
  {
    if p == [] {
      assert p + q == q;
    } else {
      assert (p + q)[1..] == p[1..] + q;
      RenderConcat(p[1..], q);
    }
  }

  /** cJSONUtils_ApplyPatches on the items of the patch array. */
  function ApplyAll(root: Json, patches: seq<Json>): Outcome
    decreases |patches|
  {
    if patches == [] then Done(0, root)
    else
      match Apply(root, patches[0])
      case Crash => Crash
      case Done(code, r) => if code != 0 then Done(code, r) else ApplyAll(r, patches[1..])
  }

  // ----- every emitted operation is well formed

  ghost predicate AllGood(ops: seq<Op>) {
    forall i :: 0 <= i < |ops| ==> GoodOp(ops[i])
  }

  lemma {:induction false} DiffGood(path: seq<Step>, from: Json, to: Json)
    requires WellFormed(from) && WellFormed(to) && NulFreeSteps(path)
    ensures AllGood(DiffOps(path, from, to))
    decreases from, 1, 0
  {
    if from.Array? && to.Array? {
      ItemsGood(path, from, to, 0, from.items, to.items);
    } else if from.Object? && to.Object? {
      SortedValuesSmaller(from);
      SortedMembers(from.members);
      SortedMembers(to.members);
      MembersGood(path, from, SortMembers(from.members), SortMembers(to.members));
    }
  }

  lemma {:induction false} ItemsGood(path: seq<Step>, t: Json, u: Json, c: nat, xs: seq<Json>, ys: seq<Json>)
    requires NulFreeSteps(path) && Items(t, xs) && Items(u, ys)
    ensures AllGood(ItemOps(path, t, c, xs, ys))
    decreases t, 0, |xs|
  {
    if xs != [] && ys != [] {
      DiffGood(path + [Idx(c)], xs[0], ys[0]);
      ItemsGood(path, t, u, c + 1, xs[1..], ys[1..]);
    } else {
      RemovesGood(path, c, c + |xs|);
      AppendsGood(path, u, ys);
    }
  }

  lemma {:induction false} RemovesGood(path: seq<Step>, c: nat, end: nat)
    requires NulFreeSteps(path) && c <= end
    ensures AllGood(RemoveOps(path, c, end))
    decreases end - c
  {
    if c < end { RemovesGood(path, c + 1, end); }
  }

  lemma {:induction false} AppendsGood(path: seq<Step>, u: Json, ys: seq<Json>)
    requires NulFreeSteps(path) && Items(u, ys)
    ensures AllGood(AppendOps(path, ys))
  {
    if ys != [] { AppendsGood(path, u, ys[1..]); }
  }

  lemma {:induction false} MembersGood(path: seq<Step>, t: Json, ms: seq<Member>, ns: seq<Member>)
    requires NulFreeSteps(path) && ValuesBelow(ms, t) && StrictlySorted(ms) && StrictlySorted(ns)
    ensures AllGood(MemberOps(path, t, ms, ns))
    decreases t, 0, |ms| + |ns|
  {
    if ms != [] { SortedTail(ms); }
    if ns != [] { SortedTail(ns); }
    if ms == [] && ns == [] {
    } else if ms != [] && ns != [] && StrCaseCmp(ms[0].name, ns[0].name) == 0 {
      DiffGood(path + [Fld(ms[0].name)], ms[0].value, ns[0].value);
      MembersGood(path, t, ms[1..], ns[1..]);
    } else if ms != [] && (ns == [] || StrCaseCmp(ms[0].name, ns[0].name) < 0) {
      MembersGood(path, t, ms[1..], ns);
    } else {
      MembersGood(path, t, ms, ns[1..]);
    }
  }

  // ----- running the rendered operations

  /** Applying the rendered patches follows the canonical run step by step. */
  lemma {:induction false} ApplyAllSimulates(root: Json, ops: seq<Op>)
    requires WellFormed(root) && AllGood(ops) && AllApplicable(Abs(root), ops)
    ensures var out := ApplyAll(root, RenderAll(ops));
            out.Done? && out.code == 0 && WellFormed(out.root) && Abs(out.root) == Run(Abs(root), ops)
    decreases |ops|
  {
    if ops != [] {
      assert GoodOp(ops[0]) && RenderAll(ops)[0] == Render(ops[0]) && RenderAll(ops)[1..] == RenderAll(ops[1..]);
      ApplySimulates(root, ops[0]);
      ApplyAllSimulates(Apply(root, Render(ops[0])).root, ops[1..]);
    }
  }

  // ----- when the result is the target

  lemma {:induction false} SurvivorsLength<T>(xs: seq<T>)
    ensures |Survivors(xs)| == |xs| / 2
  {
    if |xs| >= 2 { SurvivorsLength(xs[2..]); }
  }

  lemma {:induction false} PatchedItemsIff(xs: seq<Canon>, ys: seq<Canon>)
    ensures PatchedItems(xs, ys) == ys <==>
              |xs| <= |ys| + 1 && forall i :: 0 <= i < |xs| && i < |ys| ==> NoLongSurplus(xs[i], ys[i])
    decreases xs
  {
    if xs == [] {
    } else if ys == [] {
      SurvivorsLength(xs);
    } else {
      PatchedIff(xs[0], ys[0]);
      PatchedItemsIff(xs[1..], ys[1..]);
      var tail := PatchedItems(xs[1..], ys[1..]);
      assert PatchedItems(xs, ys)[0] == Patched(xs[0], ys[0]) && PatchedItems(xs, ys)[1..] == tail;
      assert ys == [ys[0]] + ys[1..];
      assert forall i :: 1 <= i < |xs| ==> xs[i] == xs[1..][i - 1];
      assert forall i :: 1 <= i < |ys| ==> ys[i] == ys[1..][i - 1];
      if forall i :: 0 <= i < |xs| && i < |ys| ==> NoLongSurplus(xs[i], ys[i]) {
        assert forall i :: 0 <= i < |xs[1..]| && i < |ys[1..]| ==> NoLongSurplus(xs[1..][i], ys[1..][i]);
      }
    }
  }

  /** The patched tree is the target exactly when no compared array loses two or more items. */
  lemma {:induction false} PatchedIff(a: Canon, b: Canon)
    ensures Patched(a, b) == b <==> NoLongSurplus(a, b)
    decreases a
  {
    match (a, b)
    case (CArray(xs), CArray(ys)) => PatchedItemsIff(xs, ys);
    case (CObject(f), CObject(g)) =>
      forall k | k in f && k in g ensures Patched(f[k], g[k]) == g[k] <==> NoLongSurplus(f[k], g[k]) {
        PatchedIff(f[k], g[k]);
      }
      var p := Patched(a, b).fields;
      assert p.Keys == g.Keys;
      if NoLongSurplus(a, b) {
        assert p == g;
      } else {
        var k :| k in f && k in g && !NoLongSurplus(f[k], g[k]);
        assert p[k] != g[k];
      }
    case _ =>
  }

  predicate SameContainer(a: Json, b: Json) {
    (a.Array? && b.Array?) || (a.Object? && b.Object?)
  }

  /** Generating patches from `from` to `to` and applying them to a copy of `from`: the run
      returns 0 and the result is `Patched`, which is the target exactly when every array
      compared is at most one longer than its counterpart. */
  lemma DiffThenPatch(from: Json, to: Json)
    requires WellFormed(from) && WellFormed(to) && SameContainer(from, to)
    ensures var out := ApplyAll(from, RenderAll(DiffOps([], from, to)));
            && out.Done? && out.code == 0 && WellFormed(out.root)
            && Abs(out.root) == Patched(Abs(from), Abs(to))
            && (Cmp(out.root, to) == 0 <==> NoLongSurplus(Abs(from), Abs(to)))
  {
    DiffGood([], from, to);
    DiffLeads(Abs(from), [], from, to);
    ApplyAllSimulates(from, DiffOps([], from, to));
    PatchedIff(Abs(from), Abs(to));
    CmpIff(ApplyAll(from, RenderAll(DiffOps([], from, to))).root, to);
  }

  lemma ScalarOps(path: seq<Step>, from: Json, to: Json)
    requires !SameContainer(from, to)
    ensures DiffOps(path, from, to) == if Abs(from) == Abs(to) then [] else [Op(path, Set(to))]
  {
  }

  lemma ReplaceRootFaults(root: Json, to: Json)
    ensures Apply(root, GeneratePatch("replace", "", None, Some(to))) == Crash
  {
    FieldsOf("replace", "", None, Some(to));
    assert LastSlash("") == -1;
    assert PatchDetach(root, "") == Fault;
  }

  /** Roots that are not both arrays or both objects: equal scalars need no patch; anything
      else is a replacement at the empty path, which has no parent to work on. */
  lemma RootReplacementFaults(from: Json, to: Json)
    requires !SameContainer(from, to)
    ensures ApplyAll(from, RenderAll(DiffOps([], from, to))) ==
            if Abs(from) == Abs(to) then Done(0, from) else Crash
  {
    ScalarOps([], from, to);
    if Abs(from) != Abs(to) {
      ReplaceRootFaults(from, to);
      assert RenderAll([Op([], Set(to))])[0] == Render(Op([], Set(to)));
    }
  }

  /** Emptying an array leaves half of it (rounded down). */
  lemma SurplusSurvives(xs: seq<Json>)
    requires WellFormed(Array(xs))
    ensures var out := ApplyAll(Array(xs), RenderAll(DiffOps([], Array(xs), Array([]))));
            out.Done? && out.code == 0 && Abs(out.root) == CArray(Survivors(AbsItems(xs)))
            && |Survivors(AbsItems(xs))| == |xs| / 2
  {
    DiffThenPatch(Array(xs), Array([]));
    SurvivorsLength(AbsItems(xs));
    PatchedToEmpty(xs);
  }

  lemma PatchedToEmpty(xs: seq<Json>)
    ensures Patched(Abs(Array(xs)), Abs(Array([]))) == CArray(Survivors(AbsItems(xs)))
  {
    assert AbsItems([]) == [];
    assert PatchedItems(AbsItems(xs), []) == Survivors(AbsItems(xs));
  }

  /** The smallest failing input: two elements to remove, one of them stays. */
  lemma TwoSurplusCounterexample(from: Json, to: Json)
    requires from == Array([Null, True]) && to == Array([])
    ensures var out := ApplyAll(from, RenderAll(DiffOps([], from, to)));
            out.Done? && out.code == 0 && Abs(out.root) != Abs(to)
  {
    SurplusSurvives([Null, True]);
    assert |AbsItems(to.items)| == 0;
  }
}
