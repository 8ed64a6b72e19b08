/** Patch generation (cJSONUtils_CompareToPatch) and what applying the patches gives back. */
module Diff {
  import opened Seqs
  import opened CString
  import opened CJson
  import opened Pointer
  import opened PatchCanon
  import opened Compare

  // ----- the operations the diff emits, in order

  function DiffOps(path: seq<Step>, from: Json, to: Json): seq<Op>
    decreases from, 1, 0
  {
    if Type(from) != Type(to) then [Op(path, Set(to))]
    else
      match from
      case Number(i, d) => if i != to.valueint || d != to.valuedouble then [Op(path, Set(to))] else []
      case String(s) => if s != to.valuestring then [Op(path, Set(to))] else []
      case Array(items) => ItemOps(path, from, 0, items, to.items)
      case Object(ms) =>
        SortedValuesSmaller(from);
        MemberOps(path, from, SortMembers(ms), SortMembers(to.members))
      case _ => []
  }

  function ItemOps(path: seq<Step>, ghost t: Json, c: nat, xs: seq<Json>, ys: seq<Json>): seq<Op>
    requires forall i :: 0 <= i < |xs| ==> xs[i] < t
    decreases t, 0, |xs|
  {
    if xs != [] && ys != [] then
      DiffOps(path + [Idx(c)], xs[0], ys[0]) + ItemOps(path, t, c + 1, xs[1..], ys[1..])
    else RemoveOps(path, c, c + |xs|) + AppendOps(path, ys)
  }

  /** Removals of positions c, c+1, ..., end-1, in that order. */
  function RemoveOps(path: seq<Step>, c: nat, end: nat): seq<Op>
    requires c <= end
    decreases end - c
  {
    if c == end then [] else [Op(path, RemoveIdx(c))] + RemoveOps(path, c + 1, end)
  }

  function AppendOps(path: seq<Step>, ys: seq<Json>): seq<Op> {
    if ys == [] then [] else [Op(path, Append(ys[0]))] + AppendOps(path, ys[1..])
  }

  function MemberOps(path: seq<Step>, ghost t: Json, ms: seq<Member>, ns: seq<Member>): seq<Op>
    requires ValuesBelow(ms, t)
    decreases t, 0, |ms| + |ns|
  {
    if ms == [] && ns == [] then []
    else
      var diff := if ms == [] then 1 else if ns == [] then -1 else StrCaseCmp(ms[0].name, ns[0].name);
      if diff == 0 then
        DiffOps(path + [Fld(ms[0].name)], ms[0].value, ns[0].value) + MemberOps(path, t, ms[1..], ns[1..])
      else if diff < 0 then [Op(path, RemoveKey(ms[0].name))] + MemberOps(path, t, ms[1..], ns)
      else [Op(path, AddKey(ns[0].name, ns[0].value))] + MemberOps(path, t, ms, ns[1..])
  }

  // ----- what they amount to

  /** What is left of a surplus after removing at positions 0, 1, 2, ... of the shrinking
      list: every second element survives. */
  function Survivors<T>(xs: seq<T>): seq<T> {
    if |xs| < 2 then [] else [xs[1]] + Survivors(xs[2..])
  }

  /** The tree that diff and patch turn `a` into, given the target `b`. */
  function Patched(a: Canon, b: Canon): Canon {
    match (a, b)
    case (CArray(xs), CArray(ys)) => CArray(PatchedItems(xs, ys))
    case (CObject(f), CObject(g)) =>
      CObject(map k | k in g :: if k in f then Patched(f[k], g[k]) else g[k])
    case _ => b
  }

  function PatchedItems(xs: seq<Canon>, ys: seq<Canon>): seq<Canon> {
    if xs == [] then ys
    else if ys == [] then Survivors(xs)
    else [Patched(xs[0], ys[0])] + PatchedItems(xs[1..], ys[1..])
  }

  /** Every array compared is at most one longer than its target. */
  ghost predicate NoLongSurplus(a: Canon, b: Canon) {
    match (a, b)
    case (CArray(xs), CArray(ys)) =>
      |xs| <= |ys| + 1 && forall i :: 0 <= i < |xs| && i < |ys| ==> NoLongSurplus(xs[i], ys[i])
    case (CObject(f), CObject(g)) => forall k :: k in f && k in g ==> NoLongSurplus(f[k], g[k])
    case _ => true
  }

  // ----- runs of operations

  ghost predicate AllApplicable(c: Canon, ops: seq<Op>)
    decreases |ops|
  {
    ops == [] || (Applicable(c, ops[0]) && AllApplicable(Effect(c, ops[0]), ops[1..]))
  }

  ghost function Run(c: Canon, ops: seq<Op>): Canon
    requires AllApplicable(c, ops)
    decreases |ops|
  {
    if ops == [] then c else Run(Effect(c, ops[0]), ops[1..])
  }

  /** `ops` can be run from `c` and end in `d`. */
  ghost predicate Leads(c: Canon, ops: seq<Op>, d: Canon) {
    AllApplicable(c, ops) && Run(c, ops) == d
  }

  lemma {:induction false} LeadsConcat(c: Canon, p: seq<Op>, d: Canon, q: seq<Op>, e: Canon)
    requires Leads(c, p, d) && Leads(d, q, e)
    ensures Leads(c, p + q, e)
    decreases |p|
  {
    if p == [] {
      assert p + q == q;
    } else {
      assert (p + q)[1..] == p[1..] + q;
      LeadsConcat(Effect(c, p[0]), p[1..], d, q, e);
    }
  }

  lemma LeadsOne(c: Canon, op: Op)
    requires Applicable(c, op)
    ensures Leads(c, [op], Effect(c, op))
  {
    assert [op][1..] == [];
  }

  /** One edit of the node at `path`, seen from the whole tree. */
  lemma EditLeads(c: Canon, path: seq<Step>, e: Edit, node: Canon)
    requires Applicable(c, Op(path, e)) && node == EditC(GetC(c, path), e)
    ensures Leads(c, [Op(path, e)], PutC(c, path, node))
  {
    LeadsOne(c, Op(path, e));
  }

  /** Two stages that both work on the node at `path`. */
  lemma Continue(c: Canon, path: seq<Step>, p: seq<Op>, mid: Canon, q: seq<Op>, node: Canon)
    requires Has(c, path) && Leads(c, p, PutC(c, path, mid))
    requires Has(PutC(c, path, mid), path) && Leads(PutC(c, path, mid), q, PutC(PutC(c, path, mid), path, node))
    ensures Leads(c, p + q, PutC(c, path, node))
  {
    PutPut(c, path, mid, node);
    LeadsConcat(c, p, PutC(c, path, mid), q, PutC(c, path, node));
  }

  /** Removals past the end change nothing. */
  lemma {:induction false} RemovePastEnd(c: Canon, path: seq<Step>, pre: seq<Canon>, at: nat, end: nat)
    requires Has(c, path) && GetC(c, path) == CArray(pre) && |pre| <= at <= end
    ensures Leads(c, RemoveOps(path, at, end), PutC(c, path, CArray(pre)))
    decreases end - at
  {
    PutGet(c, path);
    if at < end {
      EditLeads(c, path, RemoveIdx(at), CArray(pre));
      RemovePastEnd(c, path, pre, at + 1, end);
      LeadsConcat(c, [Op(path, RemoveIdx(at))], c, RemoveOps(path, at + 1, end), c);
    }
  }

  /** Removing at c, c+1, ... up to past the end keeps every second surplus element. */
  lemma {:induction false} RemoveLeads(c: Canon, path: seq<Step>, pre: seq<Canon>, xs: seq<Canon>, end: nat)
    requires Has(c, path) && GetC(c, path) == CArray(pre + xs) && end >= |pre| + |xs|
    ensures Leads(c, RemoveOps(path, |pre|, end), PutC(c, path, CArray(pre + Survivors(xs))))
    decreases |xs|
  {
    if xs == [] {
      assert pre + xs == pre && pre + Survivors(xs) == pre;
      RemovePastEnd(c, path, pre, |pre|, end);
    } else {
      var node := CArray(pre + xs[1..]);
      assert RemoveAt(pre + xs, |pre|) == pre + xs[1..];
      EditLeads(c, path, RemoveIdx(|pre|), node);
      var c1 := PutC(c, path, node);
      GetPut(c, path, node);
      if |xs| == 1 {
        assert pre + xs[1..] == pre && pre + Survivors(xs) == pre;
        RemovePastEnd(c1, path, pre, |pre| + 1, end);
      } else {
        var pre' := pre + [xs[1]];
        assert pre + xs[1..] == pre' + xs[2..] && pre' + Survivors(xs[2..]) == pre + Survivors(xs);
        RemoveLeads(c1, path, pre', xs[2..], end);
      }
      Continue(c, path, [Op(path, RemoveIdx(|pre|))], node, RemoveOps(path, |pre| + 1, end),
               CArray(pre + Survivors(xs)));
    }
  }

  lemma {:induction false} AppendLeads(c: Canon, path: seq<Step>, pre: seq<Canon>, ys: seq<Json>)
    requires Has(c, path) && GetC(c, path) == CArray(pre)
    ensures Leads(c, AppendOps(path, ys), PutC(c, path, CArray(pre + AbsItems(ys))))
    decreases |ys|
  {
    if ys == [] {
      assert pre + AbsItems(ys) == pre;
      PutGet(c, path);
    } else {
      var pre' := pre + [Abs(ys[0])];
      EditLeads(c, path, Append(ys[0]), CArray(pre'));
      GetPut(c, path, CArray(pre'));
      AppendLeads(PutC(c, path, CArray(pre')), path, pre', ys[1..]);
      AbsItemsCons(ys);
      Assoc(pre, [Abs(ys[0])], AbsItems(ys[1..]));
      Continue(c, path, [Op(path, Append(ys[0]))], CArray(pre'), AppendOps(path, ys[1..]), CArray(pre + AbsItems(ys)));
    }
  }

  lemma ItemStep(c: Canon, path: seq<Step>, pre: seq<Canon>, xs: seq<Canon>, p: Canon)
    requires Has(c, path) && GetC(c, path) == CArray(pre + xs) && xs != []
    ensures Has(c, path + [Idx(|pre|)]) && GetC(c, path + [Idx(|pre|)]) == xs[0]
    ensures PutC(c, path + [Idx(|pre|)], p) == PutC(c, path, CArray((pre + [p]) + xs[1..]))
  {
    var s := Idx(|pre|);
    Compose(c, path, s, p);
    assert [s][1..] == [];
    assert (pre + xs)[|pre| := p] == (pre + [p]) + xs[1..];
  }

  /** Nothing left in `to`. */
  lemma SurplusLeads(c: Canon, path: seq<Step>, t: Json, pre: seq<Canon>, xs: seq<Json>)
    requires Items(t, xs) && xs != []
    requires Has(c, path) && GetC(c, path) == CArray(pre + AbsItems(xs))
    ensures Leads(c, ItemOps(path, t, |pre|, xs, []), PutC(c, path, CArray(pre + PatchedItems(AbsItems(xs), []))))
  {
    var end := |pre| + |xs|;
    RemoveLeads(c, path, pre, AbsItems(xs), end);
    var removes := RemoveOps(path, |pre|, end);
    assert removes + AppendOps(path, []) == removes;
  }

  /** Nothing left in `from`. */
  lemma ShortfallLeads(c: Canon, path: seq<Step>, t: Json, pre: seq<Canon>, ys: seq<Json>)
    requires Has(c, path) && GetC(c, path) == CArray(pre)
    ensures Leads(c, ItemOps(path, t, |pre|, [], ys), PutC(c, path, CArray(pre + PatchedItems([], AbsItems(ys)))))
  {
    AppendLeads(c, path, pre, ys);
    assert RemoveOps(path, |pre|, |pre|) + AppendOps(path, ys) == AppendOps(path, ys);
    assert PatchedItems([], AbsItems(ys)) == AbsItems(ys);
  }

  lemma AbsItemsCons(xs: seq<Json>)
    requires xs != []
    ensures AbsItems(xs) == [Abs(xs[0])] + AbsItems(xs[1..])
    ensures AbsItems(xs)[1..] == AbsItems(xs[1..])
  {
    var tail := xs[1..];
    assert forall i :: 0 <= i < |tail| ==> tail[i] == xs[i + 1];
  }

  lemma PatchedItemsCons(pre: seq<Canon>, xs: seq<Canon>, ys: seq<Canon>)
    requires xs != [] && ys != []
    ensures (pre + [Patched(xs[0], ys[0])]) + PatchedItems(xs[1..], ys[1..]) == pre + PatchedItems(xs, ys)
  {
  }

  ghost predicate Items(t: Json, xs: seq<Json>) {
    forall i :: 0 <= i < |xs| ==> xs[i] < t && WellFormed(xs[i])
  }

  lemma {:induction false} ItemsLead(c: Canon, path: seq<Step>, t: Json, u: Json, pre: seq<Canon>, xs: seq<Json>,
                                     ys: seq<Json>)
    requires Items(t, xs) && Items(u, ys)
    requires Has(c, path) && GetC(c, path) == CArray(pre + AbsItems(xs))
    ensures Leads(c, ItemOps(path, t, |pre|, xs, ys),
                  PutC(c, path, CArray(pre + PatchedItems(AbsItems(xs), AbsItems(ys)))))
    decreases t, 0, |xs|
  {
    if xs == [] {
      assert pre + AbsItems(xs) == pre && AbsItems(xs) == [];
      ShortfallLeads(c, path, t, pre, ys);
    } else if ys == [] {
      assert AbsItems(ys) == [];
      SurplusLeads(c, path, t, pre, xs);
    } else {
      AbsItemsCons(xs);
      ItemsTail(t, xs);
      ItemsTail(u, ys);
      var s, p, tail := Idx(|pre|), Patched(Abs(xs[0]), Abs(ys[0])), AbsItems(xs[1..]);
      var node := CArray((pre + [p]) + tail);
      ItemStep(c, path, pre, AbsItems(xs), p);
      DiffLeads(c, path + [s], xs[0], ys[0]);
      GetPut(c, path, node);
      ItemsLead(PutC(c, path, node), path, t, u, pre + [p], xs[1..], ys[1..]);
      ItemThenRest(c, path, t, pre, xs, ys, p, node);
    }
  }

  lemma ItemsTail(t: Json, xs: seq<Json>)
    requires Items(t, xs) && xs != []
    ensures Items(t, xs[1..]) && xs[0] < t && WellFormed(xs[0])
  {
  }

  lemma ItemThenRest(c: Canon, path: seq<Step>, t: Json, pre: seq<Canon>, xs: seq<Json>, ys: seq<Json>, p: Canon,
                     node: Canon)
    requires xs != [] && ys != [] && p == Patched(Abs(xs[0]), Abs(ys[0])) && Items(t, xs)
    requires Has(c, path) && Has(PutC(c, path, node), path)
    requires Leads(c, DiffOps(path + [Idx(|pre|)], xs[0], ys[0]), PutC(c, path, node))
    requires Leads(PutC(c, path, node), ItemOps(path, t, |pre| + 1, xs[1..], ys[1..]),
                   PutC(PutC(c, path, node), path,
                        CArray((pre + [p]) + PatchedItems(AbsItems(xs[1..]), AbsItems(ys[1..])))))
    ensures Leads(c, ItemOps(path, t, |pre|, xs, ys),
                  PutC(c, path, CArray(pre + PatchedItems(AbsItems(xs), AbsItems(ys)))))
  {
    AbsItemsCons(xs);
    AbsItemsCons(ys);
    PatchedItemsCons(pre, AbsItems(xs), AbsItems(ys));
    Continue(c, path, DiffOps(path + [Idx(|pre|)], xs[0], ys[0]), node, ItemOps(path, t, |pre| + 1, xs[1..], ys[1..]),
             CArray(pre + PatchedItems(AbsItems(xs), AbsItems(ys))));
  }

  function PatchedFields(f: map<string, Canon>, g: map<string, Canon>): map<string, Canon> {
    map k | k in g :: if k in f then Patched(f[k], g[k]) else g[k]
  }

  /** The fields of an object once the members still to come have been dealt with. */
  function Settled(all: map<string, Canon>, f: map<string, Canon>, g: map<string, Canon>): map<string, Canon> {
    (all - f.Keys) + PatchedFields(f, g)
  }

  ghost predicate Contains(all: map<string, Canon>, f: map<string, Canon>) {
    forall k :: k in f ==> k in all && all[k] == f[k]
  }

  lemma SettledMatched(all: map<string, Canon>, f: map<string, Canon>, g: map<string, Canon>, k: string)
    requires k in f && k in g && Contains(all, f)
    ensures var all1 := all[k := Patched(f[k], g[k])];
            Settled(all1, f - {k}, g - {k}) == Settled(all, f, g) && Contains(all1, f - {k})
  {
  }

  lemma SettledRemoved(all: map<string, Canon>, f: map<string, Canon>, g: map<string, Canon>, k: string)
    requires k in f && k !in g && Contains(all, f)
    ensures Settled(all - {k}, f - {k}, g) == Settled(all, f, g) && Contains(all - {k}, f - {k})
  {
  }

  lemma SettledAdded(all: map<string, Canon>, f: map<string, Canon>, g: map<string, Canon>, k: string)
    requires k !in f && k in g && Contains(all, f)
    ensures Settled(all[k := g[k]], f, g - {k}) == Settled(all, f, g) && Contains(all[k := g[k]], f)
  {
  }

  lemma MatchedStep(c: Canon, path: seq<Step>, all: map<string, Canon>, n: string, p: Canon)
    requires Has(c, path) && GetC(c, path) == CObject(all) && Fold(n) in all
    ensures Has(c, path + [Fld(n)]) && GetC(c, path + [Fld(n)]) == all[Fold(n)]
    ensures PutC(c, path + [Fld(n)], p) == PutC(c, path, CObject(all[Fold(n) := p]))
  {
    Compose(c, path, Fld(n), p);
    assert [Fld(n)][1..] == [];
  }

  lemma SortedTail(ms: seq<Member>)
    requires StrictlySorted(ms) && ms != []
    ensures StrictlySorted(ms[1..])
  {
  }

  /** Members of equal name: the values are compared in place. */
  lemma {:induction false} MatchedLeads(c: Canon, path: seq<Step>, t: Json, all: map<string, Canon>, ms: seq<Member>,
                                        ns: seq<Member>)
    requires ValuesBelow(ms, t) && StrictlySorted(ms) && StrictlySorted(ns)
    requires Has(c, path) && GetC(c, path) == CObject(all) && Contains(all, AbsMembers(ms))
    requires ms != [] && ns != [] && StrCaseCmp(ms[0].name, ns[0].name) == 0
    ensures Leads(c, MemberOps(path, t, ms, ns),
                  PutC(c, path, CObject(Settled(all, AbsMembers(ms), AbsMembers(ns)))))
    decreases t, 0, |ms| + |ns|, 0
  {
    var f, g, n, k := AbsMembers(ms), AbsMembers(ns), ms[0].name, Key(ms[0]);
    CmpTrichotomy(n, ns[0].name);
    HeadKeyOnce(ms);
    HeadKeyOnce(ns);
    SettledMatched(all, f, g, k);
    var all1 := all[k := Patched(f[k], g[k])];
    MatchedStep(c, path, all, n, Patched(f[k], g[k]));
    DiffLeads(c, path + [Fld(n)], ms[0].value, ns[0].value);
    GetPut(c, path, CObject(all1));
    SortedTail(ms);
    SortedTail(ns);
    MembersLead(PutC(c, path, CObject(all1)), path, t, all1, ms[1..], ns[1..]);
    Continue(c, path, DiffOps(path + [Fld(n)], ms[0].value, ns[0].value), CObject(all1),
             MemberOps(path, t, ms[1..], ns[1..]), CObject(Settled(all, f, g)));
  }

  /** A name only the source has: removed. */
  lemma {:induction false} RemovedLeads(c: Canon, path: seq<Step>, t: Json, all: map<string, Canon>, ms: seq<Member>,
                                        ns: seq<Member>)
    requires ValuesBelow(ms, t) && StrictlySorted(ms) && StrictlySorted(ns)
    requires Has(c, path) && GetC(c, path) == CObject(all) && Contains(all, AbsMembers(ms))
    requires ms != [] && (ns != [] ==> StrCaseCmp(ms[0].name, ns[0].name) < 0)
    ensures Leads(c, MemberOps(path, t, ms, ns),
                  PutC(c, path, CObject(Settled(all, AbsMembers(ms), AbsMembers(ns)))))
    decreases t, 0, |ms| + |ns|, 0
  {
    var f, g, k := AbsMembers(ms), AbsMembers(ns), Key(ms[0]);
    HeadKeyOnce(ms);
    SmallKeyAbsent(ms[0].name, ns);
    SettledRemoved(all, f, g, k);
    EditLeads(c, path, RemoveKey(ms[0].name), CObject(all - {k}));
    GetPut(c, path, CObject(all - {k}));
    SortedTail(ms);
    MembersLead(PutC(c, path, CObject(all - {k})), path, t, all - {k}, ms[1..], ns);
    Continue(c, path, [Op(path, RemoveKey(ms[0].name))], CObject(all - {k}),
             MemberOps(path, t, ms[1..], ns), CObject(Settled(all, f, g)));
  }

  /** A name only the target has: added. */
  lemma {:induction false} AddedLeads(c: Canon, path: seq<Step>, t: Json, all: map<string, Canon>, ms: seq<Member>,
                                      ns: seq<Member>)
    requires ValuesBelow(ms, t) && StrictlySorted(ms) && StrictlySorted(ns)
    requires Has(c, path) && GetC(c, path) == CObject(all) && Contains(all, AbsMembers(ms))
    requires ns != [] && (ms != [] ==> StrCaseCmp(ms[0].name, ns[0].name) > 0)
    ensures Leads(c, MemberOps(path, t, ms, ns),
                  PutC(c, path, CObject(Settled(all, AbsMembers(ms), AbsMembers(ns)))))
    decreases t, 0, |ms| + |ns|, 0
  {
    var f, g, k := AbsMembers(ms), AbsMembers(ns), Key(ns[0]);
    HeadKeyOnce(ns);
    if ms != [] { CmpTrichotomy(ms[0].name, ns[0].name); }
    SmallKeyAbsent(ns[0].name, ms);
    SettledAdded(all, f, g, k);
    var all1 := all[k := g[k]];
    EditLeads(c, path, AddKey(ns[0].name, ns[0].value), CObject(all1));
    GetPut(c, path, CObject(all1));
    SortedTail(ns);
    MembersLead(PutC(c, path, CObject(all1)), path, t, all1, ms, ns[1..]);
    Continue(c, path, [Op(path, AddKey(ns[0].name, ns[0].value))], CObject(all1),
             MemberOps(path, t, ms, ns[1..]), CObject(Settled(all, f, g)));
  }

  lemma {:induction false} MembersLead(c: Canon, path: seq<Step>, t: Json, all: map<string, Canon>, ms: seq<Member>,
                                       ns: seq<Member>)
    requires ValuesBelow(ms, t) && StrictlySorted(ms) && StrictlySorted(ns)
    requires Has(c, path) && GetC(c, path) == CObject(all) && Contains(all, AbsMembers(ms))
    ensures Leads(c, MemberOps(path, t, ms, ns),
                  PutC(c, path, CObject(Settled(all, AbsMembers(ms), AbsMembers(ns)))))
    decreases t, 0, |ms| + |ns|, 1
  {
    if ms == [] && ns == [] {
      assert Settled(all, AbsMembers(ms), AbsMembers(ns)) == all;
      PutGet(c, path);
    } else if ms != [] && ns != [] && StrCaseCmp(ms[0].name, ns[0].name) == 0 {
      MatchedLeads(c, path, t, all, ms, ns);
    } else if ms != [] && (ns == [] || StrCaseCmp(ms[0].name, ns[0].name) < 0) {
      RemovedLeads(c, path, t, all, ms, ns);
    } else {
      AddedLeads(c, path, t, all, ms, ns);
    }
  }

  lemma {:induction false} ObjectLeads(c: Canon, path: seq<Step>, from: Json, to: Json)
    requires WellFormed(from) && WellFormed(to) && from.Object? && to.Object?
    requires Has(c, path) && GetC(c, path) == Abs(from)
    ensures Leads(c, DiffOps(path, from, to), PutC(c, path, Patched(Abs(from), Abs(to))))
    decreases from, 0, |from.members| + |to.members|, 2
  {
    SortedValuesSmaller(from);
    SortedMembers(from.members);
    SortedMembers(to.members);
    SortMembersProps(from.members);
    SortMembersProps(to.members);
    var f, g := AbsMembers(from.members), AbsMembers(to.members);
    MembersLead(c, path, from, f, SortMembers(from.members), SortMembers(to.members));
    assert Settled(f, f, g) == PatchedFields(f, g);
    assert Patched(Abs(from), Abs(to)) == CObject(PatchedFields(f, g));
  }

  /** The operations emitted for a pair of nodes turn the first into `Patched` of both,
      whatever the rest of the tree is, and each finds its target. */
  lemma {:induction false} DiffLeads(c: Canon, path: seq<Step>, from: Json, to: Json)
    requires WellFormed(from) && WellFormed(to)
    requires Has(c, path) && GetC(c, path) == Abs(from)
    requires path != [] || (from.Array? && to.Array?) || (from.Object? && to.Object?)
    ensures Leads(c, DiffOps(path, from, to), PutC(c, path, Patched(Abs(from), Abs(to))))
    decreases from, 1, 0
  {
    if from.Array? && to.Array? {
      var xs, ys := AbsItems(from.items), AbsItems(to.items);
      assert [] + xs == xs && [] + PatchedItems(xs, ys) == PatchedItems(xs, ys);
      ItemsLead(c, path, from, to, [], from.items, to.items);
    } else if from.Object? && to.Object? {
      ObjectLeads(c, path, from, to);
    } else {
      ScalarLeads(c, path, from, to);
    }
  }

  /** Nodes that are not two arrays or two objects are kept when equal and replaced otherwise. */
  lemma ScalarLeads(c: Canon, path: seq<Step>, from: Json, to: Json)
    requires Has(c, path) && GetC(c, path) == Abs(from) && path != []
    requires !(from.Array? && to.Array?) && !(from.Object? && to.Object?)
    ensures Leads(c, DiffOps(path, from, to), PutC(c, path, Patched(Abs(from), Abs(to))))
  {
    if DiffOps(path, from, to) == [] {
      PutGet(c, path);
    } else {
      LeadsOne(c, Op(path, Set(to)));
    }
  }
}
