/** cJSONUtils_SortList on the linked nodes themselves: `next` and `prev` are relinked
    in place, and the chain that results is `ListSort.Sort` of the chain given. */
module ListSortHeap {
  import opened CString
  import opened ListSort

  class Node {
    const name: string
    var next: Node?
    var prev: Node?

    constructor (name: string)
      ensures this.name == name && next == null && prev == null
    {
      this.name := name;
      next, prev := null, null;
    }
  }

  const ByName: Node -> string := (n: Node) => n.name

  ghost predicate Distinct(nodes: seq<Node>) {
    forall i, j :: 0 <= i < j < |nodes| ==> nodes[i] != nodes[j]
  }

  /** `nodes` are linked both ways; nothing is said about either end. */
  ghost predicate Linked(nodes: seq<Node>)
    reads nodes
  {
    && Distinct(nodes)
    && (forall i :: 0 <= i < |nodes| - 1 ==> nodes[i].next == nodes[i + 1])
    && (forall i :: 1 <= i < |nodes| ==> nodes[i].prev == nodes[i - 1])
  }

  /** `head` is a null-terminated chain of exactly `nodes`. The head's own `prev` is free:
      the sort leaves whatever was there. */
  ghost predicate IsList(head: Node?, nodes: seq<Node>)
    reads nodes
  {
    && Linked(nodes)
    && (nodes == [] ==> head == null)
    && (nodes != [] ==> head == nodes[0] && nodes[|nodes| - 1].next == null)
  }

  /** The test for an already ascending list. */
  method IsAscending(list: Node, ghost nodes: seq<Node>) returns (yes: bool)
    requires IsList(list, nodes)
    ensures yes == StrictlyAscending(nodes, ByName)
  {
    var ptr := list;
    ghost var i := 0;
    while ptr.next != null && StrCaseCmp(ptr.name, ptr.next.name) < 0
      invariant 0 <= i < |nodes| && ptr == nodes[i]
      invariant forall k :: 0 <= k < i ==> Less(ByName(nodes[k]), ByName(nodes[k + 1]))
      decreases |nodes| - i
    {
      ptr, i := ptr.next, i + 1;
    }
    yes := ptr.next == null;
    assert i + 1 < |nodes| ==> nodes[i].next == nodes[i + 1];
    if yes {
      assert i == |nodes| - 1;
    } else {
      assert !Less(ByName(nodes[i]), ByName(nodes[i + 1]));
    }
  }

  /** One pointer advances two nodes for each node of the other. */
  method FindMiddle(list: Node, ghost nodes: seq<Node>) returns (second: Node)
    requires IsList(list, nodes) && |nodes| >= 2
    ensures second == nodes[(|nodes| + 1) / 2]
  {
    var slow: Node?, ptr: Node? := list, list;
    ghost var i := 0;
    while ptr != null
      invariant 0 <= i < |nodes| && slow == nodes[i]
      invariant ptr == null ==> i == (|nodes| + 1) / 2
      invariant ptr != null ==> 2 * i < |nodes| && ptr == nodes[2 * i]
      decreases |nodes| - i
    {
      assert 2 * i + 1 < |nodes| ==> nodes[2 * i].next == nodes[2 * i + 1];
      slow, i := slow.next, i + 1;
      ptr := ptr.next;
      if ptr != null {
        assert 2 * i < |nodes| ==> nodes[2 * i - 1].next == nodes[2 * i];
        ptr := ptr.next;
      }
    }
    second := slow;
  }

  ghost predicate Disjoint(a: seq<Node>, b: seq<Node>) {
    forall i, j :: 0 <= i < |a| && 0 <= j < |b| ==> a[i] != b[j]
  }

  /** The merged part so far: linked from `list` to `ptr`; `ptr.next` is still stale. */
  ghost predicate Built(list: Node?, ptr: Node?, out: seq<Node>)
    reads out
  {
    && Linked(out)
    && (out == [] ==> list == null && ptr == null)
    && (out != [] ==> list == out[0] && ptr == out[|out| - 1])
  }

  /** A merge under way: `out` is built, `xs` and `ys` are still to come. */
  ghost predicate Merging(list: Node?, ptr: Node?, out: seq<Node>, x: Node?, xs: seq<Node>, y: Node?, ys: seq<Node>)
    reads out, xs, ys
  {
    && Built(list, ptr, out) && IsList(x, xs) && IsList(y, ys)
    && Disjoint(out, xs) && Disjoint(out, ys) && Disjoint(xs, ys)
  }

  ghost predicate Within(nodes: seq<Node>, all: set<Node>) {
    forall i :: 0 <= i < |nodes| ==> nodes[i] in all
  }

  /** Move the front node of one sub-list to the end of the merged part. */
  method Append(list: Node?, ptr: Node?, x: Node, ghost y: Node?, ghost out: seq<Node>, ghost xs: seq<Node>,
                ghost ys: seq<Node>)
    returns (newList: Node, newPtr: Node, rest: Node?)
    requires Merging(list, ptr, out, x, xs, y, ys)
    modifies ptr, x
    ensures xs != [] && Merging(newList, newPtr, out + [xs[0]], rest, xs[1..], y, ys)
    ensures newList == (if list == null then x else list) && newList.prev == old(newList.prev)
  {
    assert x == xs[0];
    if list == null {
      newList, newPtr := x, x;
    } else {
      ptr.next := x;
      x.prev := ptr;
      newList, newPtr := list, x;
    }
    rest := x.next;
    assert IsList(rest, xs[1..]);
    assert Built(newList, newPtr, out + [xs[0]]);
  }

  /** Hang the tail that remains behind the merged part. */
  method AppendTail(list: Node?, ptr: Node?, x: Node, ghost out: seq<Node>, ghost xs: seq<Node>)
    returns (newList: Node)
    requires Built(list, ptr, out) && IsList(x, xs) && Disjoint(out, xs)
    modifies ptr, x
    ensures IsList(newList, out + xs)
    ensures newList == (if list == null then x else list) && newList.prev == old(newList.prev)
  {
    assert x == xs[0];
    if list == null {
      newList := x;
      assert out + xs == xs;
    } else {
      ptr.next := x;
      x.prev := ptr;
      newList := list;
    }
  }

  /** One merge step moves the chosen front entry to the merged part. */
  lemma MergeStep(out: seq<Node>, fr: seq<Node>, sr: seq<Node>)
    requires fr != [] && sr != []
    ensures Less(fr[0].name, sr[0].name) ==>
              out + Merge(fr, sr, ByName) == (out + [fr[0]]) + Merge(fr[1..], sr, ByName)
    ensures !Less(fr[0].name, sr[0].name) ==>
              out + Merge(fr, sr, ByName) == (out + [sr[0]]) + Merge(fr, sr[1..], ByName)
  {
  }

  /** Hang whatever is left behind the merged part. */
  method FinishMerge(list: Node?, ptr: Node?, first: Node?, second: Node?,
                     ghost out: seq<Node>, ghost fr: seq<Node>, ghost sr: seq<Node>)
    returns (newList: Node?)
    requires Merging(list, ptr, out, first, fr, second, sr)
    requires (first == null) != (second == null)
    modifies ptr, first, second
    ensures IsList(newList, out + Merge(fr, sr, ByName))
    ensures list != null ==> newList == list && newList.prev == old(newList.prev)
  {
    if first != null {
      newList := AppendTail(list, ptr, first, out, fr);
    } else {
      newList := AppendTail(list, ptr, second, out, sr);
    }
  }

  /** Merge two sorted sub-lists by relinking. */
  method MergeLists(f: Node, s: Node, ghost fs: seq<Node>, ghost ss: seq<Node>, ghost all: set<Node>)
    returns (list: Node?)
    requires IsList(f, fs) && IsList(s, ss) && Disjoint(fs, ss)
    requires Within(fs, all) && Within(ss, all)
    modifies all
    ensures IsList(list, Merge(fs, ss, ByName))
    ensures list in [f, s] && list.prev == old(list.prev)
  {
    var first: Node?, second: Node? := f, s;
    var ptr: Node?;
    list, ptr := null, null;
    ghost var out: seq<Node>, fr, sr := [], fs, ss;
    while first != null && second != null
      invariant Merging(list, ptr, out, first, fr, second, sr)
      invariant first != null || second != null
      invariant list == null ==> first == f && second == s && f.prev == old(f.prev) && s.prev == old(s.prev)
      invariant list != null ==> list in [f, s] && list.prev == old(list.prev)
      invariant Within(out, all) && Within(fr, all) && Within(sr, all)
      invariant out + Merge(fr, sr, ByName) == Merge(fs, ss, ByName)
      decreases |fr| + |sr|
    {
      MergeStep(out, fr, sr);
      if StrCaseCmp(first.name, second.name) < 0 {
        list, ptr, first := Append(list, ptr, first, second, out, fr, sr);
        out, fr := out + [fr[0]], fr[1..];
      } else {
        list, ptr, second := Append(list, ptr, second, first, out, sr, fr);
        out, sr := out + [sr[0]], sr[1..];
      }
    }
    list := FinishMerge(list, ptr, first, second, out, fr, sr);
  }

  /** Cut the list in the middle. */
  method Split(list: Node, ghost nodes: seq<Node>) returns (second: Node)
    requires IsList(list, nodes) && |nodes| >= 2
    modifies nodes
    ensures var mid := (|nodes| + 1) / 2; IsList(list, nodes[..mid]) && IsList(second, nodes[mid..])
    ensures forall i :: 0 <= i < |nodes| ==> nodes[i].prev == old(nodes[i].prev)
  {
    second := FindMiddle(list, nodes);
    ghost var mid := (|nodes| + 1) / 2;
    assert second.prev == nodes[mid - 1];
    second.prev.next := null;
  }

  lemma SortedPart(nodes: seq<Node>, part: seq<Node>, all: set<Node>)
    requires Within(part, all)
    ensures Within(Sort(part, ByName), all)
    ensures Disjoint(part, nodes) ==> Disjoint(Sort(part, ByName), nodes)
    ensures Disjoint(nodes, part) ==> Disjoint(nodes, Sort(part, ByName))
  {
    SortPermutes(part, ByName);
    forall i | 0 <= i < |part|
      ensures exists k :: 0 <= k < |part| && Sort(part, ByName)[i] == part[k]
    {
      assert Sort(part, ByName)[i] in multiset(Sort(part, ByName));
    }
  }

  /** Sort both halves and merge them. */
  method SortHalves(list: Node, second: Node, ghost fs: seq<Node>, ghost ss: seq<Node>, ghost all: set<Node>)
    returns (sorted: Node?)
    requires IsList(list, fs) && IsList(second, ss) && Disjoint(fs, ss)
    requires Within(fs, all) && Within(ss, all)
    modifies all
    ensures IsList(sorted, Merge(Sort(fs, ByName), Sort(ss, ByName), ByName))
    ensures sorted != null && (sorted in fs || sorted in ss) && sorted.prev == old(sorted.prev)
    decreases |fs| + |ss|, 0
  {
    SortedPart(ss, fs, all);
    SortedPart(Sort(fs, ByName), ss, all);
    var f := SortList(list, fs);
    assert IsList(second, ss);
    var s := SortList(second, ss);
    assert IsList(f, Sort(fs, ByName));
    sorted := MergeLists(f, s, Sort(fs, ByName), Sort(ss, ByName), all);
  }

  /** Sorts the chain in place: the nodes come back as one null-terminated chain in the
      order `Sort` gives, every node but the head pointing back to its predecessor. The new
      head keeps the `prev` it had. */
  method SortList(list: Node?, ghost nodes: seq<Node>) returns (sorted: Node?)
    requires IsList(list, nodes)
    modifies nodes
    ensures IsList(sorted, Sort(nodes, ByName))
    ensures sorted != null ==> sorted in nodes && sorted.prev == old(sorted.prev)
    decreases |nodes|, 1
  {
    assert |nodes| >= 2 ==> list.next == nodes[1];
    if list == null || list.next == null {
      return list;
    }
    var ascending := IsAscending(list, nodes);
    if ascending {
      return list;
    }
    ghost var mid := (|nodes| + 1) / 2;
    var second := Split(list, nodes);
    sorted := SortHalves(list, second, nodes[..mid], nodes[mid..], set n | n in nodes);
  }
}
