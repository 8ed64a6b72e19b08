/** Marks and linked nodes: the marks of a list say of its nodes what sorting and detaching make of
    them. */
module Links {
  import opened Option
  import opened CString
  import opened ListSort
  import opened ListSortHeap
  import opened CJson
  import opened Pointer
  import opened Marks
  import opened PatchRun
  import opened NodeIds
  import ListEdit
  import Patch

  /** Every node has an identity of its own. */
  ghost predicate Injective(ids: map<Node, Id>) {
    forall a, b :: a in ids && b in ids && ids[a] == ids[b] ==> a == b
  }

  /** `m` says which nodes are in the list and what the first one has as its `prev`. */
  ghost predicate Pictures(ids: map<Node, Id>, nodes: seq<Node>, prev: Node?, m: Marks) {
    && |m.below| == |nodes|
    && (forall i :: 0 <= i < |nodes| ==> nodes[i] in ids && m.below[i].id == ids[nodes[i]])
    && (if prev == null then m.prev.None? else prev in ids && m.prev == Some(ids[prev]))
  }

  // ----- detaching

  /** The marks tell whether the first node points back to a later one. */
  lemma LoopIff(ids: map<Node, Id>, nodes: seq<Node>, prev: Node?, m: Marks, d: Doc)
    requires Injective(ids) && Pictures(ids, nodes, prev, m)
    ensures Harm(d, m, None) == Some(Loop) <==> nodes != [] && prev != null && prev in nodes[1..]
  {
    if prev != null && nodes != [] && prev in nodes[1..] {
      var i :| 0 <= i < |nodes| - 1 && nodes[1..][i] == prev;
      assert nodes[i + 1] == prev;
    }
    if Harm(d, m, None) == Some(Loop) {
      var i :| 1 <= i < |m.below| && m.below[i].id == m.prev.value;
      assert nodes[1..][i - 1] == nodes[i];
    }
  }

  lemma WithoutPictures(ids: map<Node, Id>, nodes: seq<Node>, prev: Node?, m: Marks, i: nat)
    requires Pictures(ids, nodes, prev, m) && i < |nodes|
    ensures Pictures(ids, RemoveAt(nodes, i), if |nodes| == 1 then null else prev, Without(m, i))
  {
    forall k | 0 <= k < |nodes| - 1
      ensures RemoveAt(nodes, i)[k] in ids && RemoveAt(m.below, i)[k].id == ids[RemoveAt(nodes, i)[k]]
    {
      RemovedAt(nodes, i, k);
      RemovedAt(m.below, i, k);
    }
  }

  /** What a detach of the node at position `i` has left: by the marks, a cycle, or the list of the
      others with the marks that `Without` gives. */
  ghost predicate Detached(child: Node?, nodes: seq<Node>, i: nat, ids: map<Node, Id>, m: Marks, d: Doc)
    requires i < |nodes|
    reads nodes
  {
    if i == 0 && Harm(d, m, None) == Some(Loop) then
      exists k :: 0 < k < |nodes| && nodes[k].next == child == nodes[1] && ListEdit.Cycle(nodes[1..k + 1])
    else
      && IsList(child, RemoveAt(nodes, i))
      && Pictures(ids, RemoveAt(nodes, i), if |nodes| == 1 then null else RemoveAt(nodes, i)[0].prev, Without(m, i))
  }

  lemma FirstElsewhere(nodes: seq<Node>, stale: Node?)
    requires nodes != [] && stale != nodes[0]
    ensures stale == null || stale !in nodes[1..] <==> stale == null || stale !in nodes
    ensures stale != null && stale in nodes[1..] ==> exists k :: 0 < k < |nodes| && nodes[k] == stale
  {
    if stale != null && stale in nodes[1..] {
      var i :| 0 <= i < |nodes| - 1 && nodes[1..][i] == stale;
      assert nodes[i + 1] == stale;
    }
    if stale != null && stale in nodes {
      var i :| 0 <= i < |nodes| && nodes[i] == stale;
      assert nodes[1..][i - 1] == stale;
    }
  }

  /** cJSON_DetachItemFromArray has the effect of `Harm` and `Without`. */
  method DetachFromArray(c: ListEdit.Container, which: int, ghost nodes: seq<Node>, ghost stale: Node?,
                         ghost ids: map<Node, Id>, ghost m: Marks, ghost d: Doc) returns (x: Node?)
    requires IsList(c.child, nodes) && nodes != [] && nodes[0].prev == stale != nodes[0]
    requires Injective(ids) && Pictures(ids, nodes, stale, m)
    modifies c, nodes, stale
    ensures var i := Patch.Position(which);
            if i < |nodes| then x == nodes[i] && Detached(c.child, nodes, i, ids, m, d)
            else x == null && IsList(c.child, nodes)
  {
    ghost var i := Patch.Position(which);
    LoopIff(ids, nodes, stale, m, d);
    FirstElsewhere(nodes, stale);
    if i < |nodes| { WithoutPictures(ids, nodes, stale, m, i); }
    x := c.DetachItemFromArray(which, nodes, stale);
  }

  lemma FirstNamedIs(ms: seq<Member>, nodes: seq<Node>, name: string)
    requires |ms| == |nodes| && forall i :: 0 <= i < |ms| ==> nodes[i].name == ms[i].name
    ensures ListEdit.FirstNamed(nodes, name) == FindMember(ms, name)
  {
    var f, g := ListEdit.FirstNamed(nodes, name), FindMember(ms, name);
    assert f < |nodes| ==> StrCaseCmp(ms[f].name, name) == 0;
    assert g < |nodes| ==> StrCaseCmp(nodes[g].name, name) == 0;
  }

  /** The same by name: the first node of that name is the first member of that name. */
  method DetachFromObject(c: ListEdit.Container, name: string, ghost ms: seq<Member>, ghost nodes: seq<Node>,
                          ghost stale: Node?, ghost ids: map<Node, Id>, ghost m: Marks, ghost d: Doc)
    returns (x: Node?)
    requires IsList(c.child, nodes) && nodes != [] && nodes[0].prev == stale != nodes[0]
    requires |ms| == |nodes| && (forall i :: 0 <= i < |ms| ==> nodes[i].name == ms[i].name)
    requires Injective(ids) && Pictures(ids, nodes, stale, m)
    modifies c, nodes, stale
    ensures var i := FindMember(ms, name);
            if i < |nodes| then x == nodes[i] && Detached(c.child, nodes, i, ids, m, d)
            else x == null && IsList(c.child, nodes)
  {
    ghost var i := FindMember(ms, name);
    FirstNamedIs(ms, nodes, name);
    LoopIff(ids, nodes, stale, m, d);
    FirstElsewhere(nodes, stale);
    if i < |nodes| { WithoutPictures(ids, nodes, stale, m, i); }
    x := c.DetachItemFromObject(name, nodes, stale);
  }

  // ----- sorting

  lemma ArrangedPictures(ids: map<Node, Id>, nodes: seq<Node>, prev: Node?, m: Marks, order: seq<nat>,
                         sorted: seq<Node>, head: Node?)
    requires Pictures(ids, nodes, prev, m) && |order| == |sorted| == |nodes| > 0
    requires forall k :: 0 <= k < |order| ==> order[k] < |nodes| && sorted[k] == nodes[order[k]]
    requires head == if order[0] == 0 then prev else nodes[order[0] - 1]
    ensures Pictures(ids, sorted, head, Marks(m.id, HeadPrev(m, order), Arranged(m.below, order)))
  {
  }

  /** cJSONUtils_SortObject has the effect of `Order` and `HeadPrev`. */
  method SortObject(c: ListEdit.Container, ghost ms: seq<Member>, ghost nodes: seq<Node>, ghost ids: map<Node, Id>,
                    ghost m: Marks)
    requires IsList(c.child, nodes) && nodes != [] && Pictures(ids, nodes, nodes[0].prev, m)
    requires |ms| == |nodes| && forall i :: 0 <= i < |ms| ==> nodes[i].name == ms[i].name
    modifies c, nodes
    ensures c.child != null && IsList(c.child, Sort(nodes, ByName))
    ensures |m.below| == |ms| && forall k :: 0 <= k < |ms| ==> Order(ms)[k] < |ms|
    ensures Pictures(ids, Sort(nodes, ByName), c.child.prev,
                     Marks(m.id, HeadPrev(m, Order(ms)), Arranged(m.below, Order(ms))))
  {
    ghost var stale := nodes[0].prev;
    OrderOf(ms, nodes, ByName);
    ghost var o := Order(ms)[0];
    ghost var head := if o == 0 then stale else nodes[o - 1];
    assert o > 0 ==> nodes[o].prev == nodes[o - 1];
    ArrangedPictures(ids, nodes, stale, m, Order(ms), Sort(nodes, ByName), head);
    c.SortObject(nodes);
  }

  // ----- another list of the document

  ghost predicate MarkLoc(m: Marks, loc: Loc)
    decreases |loc|
  {
    loc == [] || (loc[0] < |m.below| && MarkLoc(m.below[loc[0]], loc[1..]))
  }

  lemma {:induction false} CountsAt(m: Marks, loc: Loc, x: Id)
    requires MarkLoc(m, loc) && MarkAt(m, loc).id == x
    ensures Count(m, x) >= 1
    decreases |loc|
  {
    if loc != [] {
      CountsAt(m.below[loc[0]], loc[1..], x);
      CountSplit(m.below, loc[0], x);
    }
  }

  /** A node at two places is counted twice. */
  lemma {:induction false} TwoPlaces(m: Marks, a: Loc, b: Loc, x: Id)
    requires MarkLoc(m, a) && MarkLoc(m, b) && a != b && MarkAt(m, a).id == x == MarkAt(m, b).id
    ensures Count(m, x) >= 2
    decreases |a|
  {
    if a == [] || b == [] {
      var c := if a == [] then b else a;
      CountsAt(m.below[c[0]], c[1..], x);
      CountSplit(m.below, c[0], x);
    } else if a[0] == b[0] {
      TwoPlaces(m.below[a[0]], a[1..], b[1..], x);
      CountSplit(m.below, a[0], x);
    } else {
      CountsAt(m.below[a[0]], a[1..], x);
      CountsAt(m.below[b[0]], b[1..], x);
      CountTwo(m.below, a[0], b[0], x);
    }
  }

  lemma CountTwo(ms: seq<Marks>, i: nat, j: nat, x: Id)
    requires i < |ms| && j < |ms| && i != j && Count(ms[i], x) >= 1 && Count(ms[j], x) >= 1
    ensures CountIn(ms, x) >= 2
  {
    if j < i {
      CountTwo(ms, j, i, x);
    } else {
      CountSplit(ms, i, x);
      assert ms[i + 1..][j - i - 1] == ms[j];
      CountSplit(ms[i + 1..], j - i - 1, x);
    }
  }

  lemma {:induction false} EndsWhere(m: Marks, p: Id) returns (loc: Loc)
    requires EndsList(m, p)
    ensures MarkLoc(m, loc) && MarkAt(m, loc).below != []
    ensures var k := MarkAt(m, loc); k.below[|k.below| - 1].id == p
  {
    if m.below != [] && m.below[|m.below| - 1].id == p { return []; }
    var i :| 0 <= i < |m.below| && EndsList(m.below[i], p);
    var rest := EndsWhere(m.below[i], p);
    loc := [i] + rest;
    assert loc[1..] == rest;
  }

  lemma {:induction false} EndsAt(m: Marks, loc: Loc, p: Id)
    requires MarkLoc(m, loc) && EndsList(MarkAt(m, loc), p)
    ensures EndsList(m, p)
    decreases |loc|
  {
    if loc != [] { EndsAt(m.below[loc[0]], loc[1..], p); }
  }

  lemma {:induction false} HoldsAt(m: Marks, loc: Loc, p: Id)
    requires MarkLoc(m, loc) && Holds(MarkAt(m, loc), p)
    ensures Holds(m, p)
    decreases |loc|
  {
    if loc != [] { HoldsAt(m.below[loc[0]], loc[1..], p); }
  }

  lemma {:induction false} MarkBelow(m: Marks, loc: Loc, j: nat)
    requires MarkLoc(m, loc) && j < |MarkAt(m, loc).below|
    ensures MarkLoc(m, loc + [j]) && MarkAt(m, loc + [j]) == MarkAt(m, loc).below[j]
    decreases |loc|
  {
    if loc == [] {
      assert loc + [j] == [j] && [j][1..] == [];
    } else {
      assert (loc + [j])[1..] == loc[1..] + [j];
      MarkBelow(m.below[loc[0]], loc[1..], j);
    }
  }

  /** In a document without a node at two places, a node ends a list exactly when it is the last of
      the list it is in. */
  lemma EndsIff(d: Doc, loc: Loc, j: nat)
    requires Sound(d) && MarkLoc(d.marks, loc) && j < |MarkAt(d.marks, loc).below|
    ensures var k := MarkAt(d.marks, loc);
            EndsList(d.marks, k.below[j].id) <==> j == |k.below| - 1
  {
    var k := MarkAt(d.marks, loc);
    var p := k.below[j].id;
    assert Count(d.marks, p) + CountIn(d.leaked, p) <= 1;
    if j == |k.below| - 1 { EndsAt(d.marks, loc, p); }
    if EndsList(d.marks, p) {
      var other := EndsWhere(d.marks, p);
      var last := |MarkAt(d.marks, other).below| - 1;
      MarkBelow(d.marks, loc, j);
      MarkBelow(d.marks, other, last);
      if loc + [j] != other + [last] {
        TwoPlaces(d.marks, loc + [j], other + [last], p);
      } else {
        assert (loc + [j])[..|loc|] == loc && (other + [last])[..|other|] == other;
      }
    }
  }

  /** The harm by the marks, when the first node points back into another list of the document. */
  lemma BesideHarm(d: Doc, loc: Loc, ids: map<Node, Id>, nodes: seq<Node>, m: Marks, others: seq<Node>, j: nat)
    requires Sound(d) && Injective(ids) && MarkLoc(d.marks, loc) && j < |others| && nodes != []
    requires Pictures(ids, nodes, others[j], m) && Disjoint(nodes, others)
    requires forall i :: 0 <= i < |others| ==> others[i] in ids && |MarkAt(d.marks, loc).below| == |others|
                                               && MarkAt(d.marks, loc).below[i].id == ids[others[i]]
    ensures Harm(d, m, None) == if |nodes| == 1 && j == |others| - 1 then None else Some(Splice)
  {
    EndsIff(d, loc, j);
    LoopIff(ids, nodes, others[j], m, d);
    assert others[j] !in nodes[1..];
    HoldsAt(d.marks, loc, ids[others[j]]);
  }

  /** A first node that points back into another list of the document: by the marks the detach is
      harmless exactly when that list is left as it was. */
  method DetachBeside(c: ListEdit.Container, ghost nodes: seq<Node>, ghost head: Node?, ghost others: seq<Node>,
                      ghost j: nat, ghost ids: map<Node, Id>, ghost m: Marks, ghost d: Doc, ghost loc: Loc)
    returns (x: Node?)
    requires IsList(c.child, nodes) && nodes != [] && IsList(head, others) && Disjoint(nodes, others)
    requires j < |others| && nodes[0].prev == others[j]
    requires Sound(d) && Injective(ids) && MarkLoc(d.marks, loc) && Pictures(ids, nodes, others[j], m)
    requires Pictures(ids, others, others[0].prev, MarkAt(d.marks, loc))
    modifies c, nodes, others[j]
    ensures Harm(d, m, None).None? <==> IsList(head, others)
    ensures IsList(c.child, nodes[1..])
  {
    BesideHarm(d, loc, ids, nodes, m, others, j);
    x := c.DetachBeside(nodes, head, others, j);
  }
}
