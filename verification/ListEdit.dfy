/** Editing the child list of a container: cJSON's add, detach, insert and replace on the linked
    nodes, and what becomes of them behind a sort. */
module ListEdit {
  import opened CString
  import opened ListSort
  import opened ListSortHeap
  import CJson
  import Patch

  /** `next` leads from the first of `cycle` through all of it and back. */
  ghost predicate Cycle(cycle: seq<Node>)
    reads cycle
  {
    && cycle != []
    && (forall i :: 0 <= i < |cycle| - 1 ==> cycle[i].next == cycle[i + 1])
    && cycle[|cycle| - 1].next == cycle[0]
  }

  lemma {:induction false} FollowsCycle(cycle: seq<Node>, nodes: seq<Node>, i: nat)
    requires Cycle(cycle) && IsList(cycle[0], nodes) && i < |nodes| && i < |cycle|
    ensures nodes[i] == cycle[i]
  {
    if i > 0 { FollowsCycle(cycle, nodes, i - 1); }
  }

  lemma NextInList(head: Node?, nodes: seq<Node>, i: nat)
    requires IsList(head, nodes) && i < |nodes|
    ensures nodes[i].next == if i + 1 < |nodes| then nodes[i + 1] else null
    ensures i + 1 < |nodes| ==> nodes[i + 1] != nodes[0]
  {
  }

  lemma NextInCycle(cycle: seq<Node>, i: nat)
    requires Cycle(cycle) && i < |cycle|
    ensures cycle[i].next == if i + 1 < |cycle| then cycle[i + 1] else cycle[0]
  {
  }

  /** A cycle is no null-terminated chain of any nodes. */
  lemma CycleIsNoList(cycle: seq<Node>, nodes: seq<Node>)
    requires Cycle(cycle)
    ensures !IsList(cycle[0], nodes)
  {
    if IsList(cycle[0], nodes) {
      var n := if |nodes| < |cycle| then |nodes| - 1 else |cycle| - 1;
      NextInList(cycle[0], nodes, n);
      NextInCycle(cycle, n);
      FollowsCycle(cycle, nodes, n);
      assert false;
    }
  }

  lemma NoListAt(cycle: seq<Node>)
    requires Cycle(cycle)
    ensures forall any: seq<Node> :: !IsList(cycle[0], any)
  {
    forall any: seq<Node>
      ensures !IsList(cycle[0], any)
    {
      CycleIsNoList(cycle, any);
    }
  }

  /** The neighbours of the node at `k` once the one at `i` is skipped. */
  ghost function NextBut(nodes: seq<Node>, i: nat, k: nat): Node? {
    var n := if k + 1 == i then k + 2 else k + 1;
    if n < |nodes| then nodes[n] else null
  }

  ghost function PrevBut(nodes: seq<Node>, i: nat, k: nat, stale: Node?): Node? {
    var n := if k == i + 1 then k - 2 else k - 1;
    if 0 <= n < |nodes| then nodes[n] else stale
  }

  /** All links of `nodes` but those of the node at `i`, which the others skip. */
  ghost predicate Unlinked(nodes: seq<Node>, i: nat, stale: Node?)
    reads nodes
  {
    && Distinct(nodes)
    && forall k {:trigger nodes[k].next} {:trigger nodes[k].prev} :: 0 <= k < |nodes| && k != i ==>
         nodes[k].next == NextBut(nodes, i, k) && nodes[k].prev == PrevBut(nodes, i, k, stale)
  }

  lemma UnlinkedIsList(nodes: seq<Node>, i: nat, stale: Node?)
    requires i < |nodes| && Unlinked(nodes, i, stale)
    ensures var rest := CJson.RemoveAt(nodes, i);
            && IsList(if rest == [] then null else rest[0], rest)
            && (rest != [] ==> rest[0].prev == stale)
  {
    var rest := CJson.RemoveAt(nodes, i);
    forall k | 0 <= k < |rest|
      ensures rest[k].next == (if k + 1 < |rest| then rest[k + 1] else null)
      ensures rest[k].prev == if k == 0 then stale else rest[k - 1]
    {
      UnlinkedNeighbours(nodes, i, stale, k);
    }
    RemovedDistinct(nodes, i);
  }

  lemma RemovedDistinct(nodes: seq<Node>, i: nat)
    requires i < |nodes| && Distinct(nodes)
    ensures Distinct(CJson.RemoveAt(nodes, i))
  {
    forall j, k | 0 <= j < k < |nodes| - 1
      ensures CJson.RemoveAt(nodes, i)[j] != CJson.RemoveAt(nodes, i)[k]
    {
      CJson.RemovedAt(nodes, i, j);
      CJson.RemovedAt(nodes, i, k);
    }
  }

  lemma UnlinkedNeighbours(nodes: seq<Node>, i: nat, stale: Node?, k: nat)
    requires i < |nodes| && Unlinked(nodes, i, stale) && k < |nodes| - 1
    ensures var rest := CJson.RemoveAt(nodes, i);
            && rest[k].next == (if k + 1 < |rest| then rest[k + 1] else null)
            && rest[k].prev == if k == 0 then stale else rest[k - 1]
  {
    UnlinkedNext(nodes, i, stale, k);
    UnlinkedPrev(nodes, i, stale, k);
  }

  lemma UnlinkedNext(nodes: seq<Node>, i: nat, stale: Node?, k: nat)
    requires i < |nodes| && Unlinked(nodes, i, stale) && k < |nodes| - 1
    ensures var rest := CJson.RemoveAt(nodes, i);
            rest[k].next == if k + 1 < |rest| then rest[k + 1] else null
  {
    CJson.RemovedAt(nodes, i, k);
    if k + 1 < |nodes| - 1 { CJson.RemovedAt(nodes, i, k + 1); }
  }

  lemma UnlinkedPrev(nodes: seq<Node>, i: nat, stale: Node?, k: nat)
    requires i < |nodes| && Unlinked(nodes, i, stale) && k < |nodes| - 1
    ensures var rest := CJson.RemoveAt(nodes, i);
            rest[k].prev == if k == 0 then stale else rest[k - 1]
  {
    CJson.RemovedAt(nodes, i, k);
    if k > 0 { CJson.RemovedAt(nodes, i, k - 1); }
  }

  /** The links behind the first node, where `stale` has been made to point to the second. */
  ghost predicate Bypassed(nodes: seq<Node>, stale: Node)
    requires nodes != []
    reads nodes, stale
  {
    && stale.next == (if 1 < |nodes| then nodes[1] else null)
    && forall k :: 0 < k < |nodes| && nodes[k] != stale ==>
         nodes[k].next == if k + 1 < |nodes| then nodes[k + 1] else null
  }

  lemma BypassedIsCycle(nodes: seq<Node>, k: nat)
    requires 0 < k < |nodes| && Distinct(nodes) && Bypassed(nodes, nodes[k])
    ensures Cycle(nodes[1..k + 1])
  {
    var cycle := nodes[1..k + 1];
    assert forall j :: 0 <= j < |cycle| ==> cycle[j] == nodes[j + 1];
  }

  /** The neighbours of the node at `k` with `x` in front of the one at `i`. */
  ghost function NextWith(nodes: seq<Node>, i: nat, x: Node, k: nat): Node? {
    if k + 1 == i then x else if k + 1 < |nodes| then nodes[k + 1] else null
  }

  ghost function PrevWith(nodes: seq<Node>, i: nat, x: Node, k: nat, head: Node?): Node? {
    if k == i then x else if 0 < k <= |nodes| then nodes[k - 1] else head
  }

  /** All links of `nodes` with `x` in front of the node at `i`. */
  ghost predicate Inserted(nodes: seq<Node>, i: nat, x: Node, head: Node?)
    requires i < |nodes|
    reads nodes, x
  {
    && Distinct(nodes) && x !in nodes && x.next == nodes[i] && x.prev == (if i == 0 then head else nodes[i - 1])
    && forall k :: 0 <= k < |nodes| ==>
         nodes[k].next == NextWith(nodes, i, x, k) && nodes[k].prev == PrevWith(nodes, i, x, k, head)
  }

  lemma InsertedIsList(nodes: seq<Node>, i: nat, x: Node, head: Node?)
    requires i < |nodes| && Inserted(nodes, i, x, head)
    ensures var r := Patch.InsertAt(nodes, i, x); IsList(r[0], r) && r[0].prev == head
  {
    var r := Patch.InsertAt(nodes, i, x);
    forall k | 0 <= k < |r|
      ensures r[k].next == (if k + 1 < |r| then r[k + 1] else null)
      ensures r[k].prev == if k == 0 then head else r[k - 1]
    {
      InsertedAt(nodes, i, x, k);
      if k + 1 < |r| { InsertedAt(nodes, i, x, k + 1); }
      if k > 0 { InsertedAt(nodes, i, x, k - 1); }
    }
    forall j, k | 0 <= j < k < |r|
      ensures r[j] != r[k]
    {
      InsertedAt(nodes, i, x, j);
      InsertedAt(nodes, i, x, k);
    }
  }

  lemma InsertedAt(nodes: seq<Node>, i: nat, x: Node, k: nat)
    requires i < |nodes| && k <= |nodes|
    ensures Patch.InsertAt(nodes, i, x)[k] == if k < i then nodes[k] else if k == i then x else nodes[k - 1]
  {
  }

  /** The position of a node that is not the first, or 0. */
  ghost function PlaceOf(nodes: seq<Node>, x: Node?): (k: nat)
    requires nodes != [] && x != nodes[0]
    ensures k == 0 ==> x == null || (x !in nodes && x !in nodes[1..])
    ensures k > 0 ==> k < |nodes| && nodes[k] == x
  {
    if x == null || x !in nodes then 0 else var k :| 0 <= k < |nodes| && nodes[k] == x; k
  }

  /** The other nodes of a list, without the one at `j`. */
  ghost function Rest(others: seq<Node>, j: nat): seq<Node>
    requires j < |others|
  {
    others[..j] + others[j + 1..]
  }

  /** The links of a list but those of its node at `j`. */
  ghost predicate Around(others: seq<Node>, j: nat)
    requires j < |others|
    reads Rest(others, j)
  {
    && (forall k :: 0 <= k < |others| && k != j ==>
          others[k] in Rest(others, j) && others[k].next == if k + 1 < |others| then others[k + 1] else null)
    && (forall k :: 1 <= k < |others| && k != j ==> others[k] in Rest(others, j) && others[k].prev == others[k - 1])
  }

  lemma AroundList(head: Node?, others: seq<Node>, j: nat)
    requires IsList(head, others) && j < |others|
    ensures Around(others, j)
  {
    forall k | 0 <= k < |others| && k != j
      ensures others[k] in Rest(others, j)
    {
      assert others[k] == Rest(others, j)[if k < j then k else k - 1];
    }
  }

  lemma Outside(nodes: seq<Node>, others: seq<Node>, j: nat)
    requires Disjoint(nodes, others) && Distinct(others) && j < |others| && nodes != []
    ensures others[j] !in nodes && Disjoint(nodes[1..], others)
    ensures forall n :: n in Rest(others, j) ==> n !in nodes && n != others[j]
  {
  }

  /** What a list becomes that goes on with another one behind its position `j`. */
  ghost predicate Joins(others: seq<Node>, j: nat, child: Node?, rest: seq<Node>)
    requires j < |others|
    reads others, rest
  {
    && Distinct(others) && Disjoint(rest, others) && Around(others, j)
    && IsList(child, rest) && (rest != [] ==> rest[0].prev == others[j])
    && others[j].next == child && (j > 0 ==> others[j].prev == others[j - 1])
  }

  lemma JoinedAt(others: seq<Node>, j: nat, rest: seq<Node>, k: nat)
    requires j < |others| && k < j + 1 + |rest|
    ensures (others[..j + 1] + rest)[k] == if k <= j then others[k] else rest[k - j - 1]
  {
  }

  lemma JoinedLinks(others: seq<Node>, j: nat, child: Node?, rest: seq<Node>, k: nat)
    requires j < |others| && Joins(others, j, child, rest) && k < j + 1 + |rest|
    ensures var all := others[..j + 1] + rest;
            && all[k].next == (if k + 1 < |all| then all[k + 1] else null)
            && (k > 0 ==> all[k].prev == all[k - 1])
  {
    JoinedAt(others, j, rest, k);
    if k + 1 < j + 1 + |rest| { JoinedAt(others, j, rest, k + 1); }
    if k > 0 { JoinedAt(others, j, rest, k - 1); }
    if k > j { NextInList(child, rest, k - j - 1); }
  }

  lemma JoinedDistinct(others: seq<Node>, j: nat, rest: seq<Node>)
    requires j < |others| && Distinct(others) && Distinct(rest) && Disjoint(rest, others)
    ensures Distinct(others[..j + 1] + rest)
  {
  }

  lemma Joined(others: seq<Node>, j: nat, child: Node?, rest: seq<Node>)
    requires j < |others| && Joins(others, j, child, rest)
    ensures IsList(others[0], others[..j + 1] + rest)
    ensures IsList(others[0], others) <==> rest == [] && j == |others| - 1
  {
    var all := others[..j + 1] + rest;
    JoinedDistinct(others, j, rest);
    forall k | 0 <= k < |all|
      ensures all[k].next == (if k + 1 < |all| then all[k + 1] else null)
      ensures k > 0 ==> all[k].prev == all[k - 1]
    {
      JoinedLinks(others, j, child, rest, k);
    }
    if rest == [] && j == |others| - 1 {
      assert all == others;
    } else {
      assert child == null || child !in others;
      if IsList(others[0], others) { NextInList(others[0], others, j); }
    }
  }

  /** Position of the first node whose name matches ignoring case, or |nodes|. */
  ghost function FirstNamed(nodes: seq<Node>, name: string): (i: nat)
    ensures i <= |nodes| && (i < |nodes| ==> StrCaseCmp(nodes[i].name, name) == 0)
    ensures forall j :: 0 <= j < i ==> StrCaseCmp(nodes[j].name, name) != 0
  {
    if nodes == [] || StrCaseCmp(nodes[0].name, name) == 0 then 0
    else
      var r := FirstNamed(nodes[1..], name);
      assert forall j :: 1 <= j < r + 1 ==> nodes[j] == nodes[1..][j - 1];
      r + 1
  }

  class Container {
    var child: Node?

    constructor (child: Node?)
      ensures this.child == child
    {
      this.child := child;
    }

    /** The walk every position-based edit starts with. */
    method Item(which: int, ghost nodes: seq<Node>) returns (c: Node?)
      requires IsList(child, nodes)
      ensures var i := Patch.Position(which); c == if i < |nodes| then nodes[i] else null
    {
      c := child;
      var left := which;
      ghost var i := 0;
      while c != null && left > 0
        invariant 0 <= i <= |nodes| && c == (if i < |nodes| then nodes[i] else null)
        invariant left == which - i && (which <= 0 ==> i == 0) && (which > 0 ==> left >= 0)
        decreases |nodes| - i
      {
        c, left, i := c.next, left - 1, i + 1;
      }
    }

    /** cJSON_AddItemToArray: hangs the node behind the last one, with the `next` it has. */
    method AddItemToArray(item: Node, ghost nodes: seq<Node>)
      requires IsList(child, nodes) && item !in nodes
      modifies this, nodes, item
      ensures item.next == old(item.next) && (item.next == null ==> IsList(child, nodes + [item]))
      ensures child == (if nodes == [] then item else nodes[0]) && Linked(nodes + [item])
      ensures nodes != [] ==> nodes[0].prev == old(nodes[0].prev)
      ensures nodes == [] ==> item.prev == old(item.prev)
    {
      var c := child;
      if c == null {
        child := item;
        return;
      }
      ghost var i := 0;
      while c.next != null
        invariant 0 <= i < |nodes| && c == nodes[i]
        invariant c.next == if i + 1 < |nodes| then nodes[i + 1] else null
        decreases |nodes| - i
      {
        c, i := c.next, i + 1;
      }
      c.next := item;
      item.prev := c;
    }

    /** The node at position `i`, unlinked the way the source does it. `stale` is what the first
        node's `prev` points to. */
    method Unlink(c: Node, ghost i: nat, ghost nodes: seq<Node>, ghost stale: Node?)
      requires IsList(child, nodes) && i < |nodes| && c == nodes[i] && nodes[0].prev == stale != nodes[0]
      modifies this, nodes, stale
      ensures c.next == null && c.prev == null
      ensures child == if i > 0 then nodes[0] else if |nodes| > 1 then nodes[1] else null
      ensures i > 0 || stale == null || stale !in nodes ==> Unlinked(nodes, i, stale)
      ensures i == 0 && stale != null ==> Bypassed(nodes, stale)
      ensures stale != null && stale !in nodes ==>
                stale.prev == old(stale.prev) && stale.next == if i == 0 then old(c.next) else old(stale.next)
    {
      assert c.prev == if i > 0 then nodes[i - 1] else stale;
      assert c.next == if i + 1 < |nodes| then nodes[i + 1] else null;
      if c.prev != null {
        c.prev.next := c.next;
      }
      if c.next != null {
        c.next.prev := c.prev;
      }
      if c == child {
        child := c.next;
      }
      c.prev := null;
      c.next := null;
    }

    /** cJSON_DetachItemFromArray. A node behind the first, or a first node whose `prev` is not in
        the list, leaves a proper list; a first node whose `prev` is a later node leaves a cycle.
        A `prev` outside the list is made to point to the node behind the one taken out. */
    method DetachItemFromArray(which: int, ghost nodes: seq<Node>, ghost stale: Node?) returns (c: Node?)
      requires IsList(child, nodes) && (nodes != [] ==> nodes[0].prev == stale != nodes[0])
      modifies this, nodes, stale
      ensures Patch.Position(which) >= |nodes| ==> c == null && child == old(child) && IsList(child, nodes)
      ensures Patch.Position(which) < |nodes| ==> c == nodes[Patch.Position(which)] && c.next == null && c.prev == null
      ensures var i := Patch.Position(which);
              i < |nodes| && (i > 0 || stale == null || stale !in nodes) ==>
              IsList(child, CJson.RemoveAt(nodes, i)) && (child != null ==> child.prev == stale)
      ensures stale != null && stale !in nodes ==>
                && stale.prev == old(stale.prev)
                && stale.next == if Patch.Position(which) == 0 < |nodes| then old(nodes[0].next) else old(stale.next)
      ensures forall k :: Patch.Position(which) == 0 < k < |nodes| && nodes[k] == stale ==>
                child == nodes[1] && Cycle(nodes[1..k + 1])
    {
      c := Item(which, nodes);
      if c == null {
        return;
      }
      ghost var i := Patch.Position(which);
      Unlink(c, i, nodes, stale);
      if i > 0 || stale == null || stale !in nodes {
        UnlinkedIsList(nodes, i, stale);
      } else {
        forall k | 0 < k < |nodes| && nodes[k] == stale
          ensures Cycle(nodes[1..k + 1])
        {
          BypassedIsCycle(nodes, k);
        }
      }
    }

    /** cJSON_DetachItemFromObject: the first node of that name, found by one walk and reached by
        another. */
    method DetachItemFromObject(name: string, ghost nodes: seq<Node>, ghost stale: Node?) returns (c: Node?)
      requires IsList(child, nodes) && (nodes != [] ==> nodes[0].prev == stale != nodes[0])
      modifies this, nodes, stale
      ensures FirstNamed(nodes, name) == |nodes| ==> c == null && child == old(child) && IsList(child, nodes)
      ensures FirstNamed(nodes, name) < |nodes| ==>
                c == nodes[FirstNamed(nodes, name)] && c.next == null && c.prev == null
      ensures var i := FirstNamed(nodes, name);
              i < |nodes| && (i > 0 || stale == null || stale !in nodes) ==>
              IsList(child, CJson.RemoveAt(nodes, i)) && (child != null ==> child.prev == stale)
      ensures stale != null && stale !in nodes ==>
                && stale.prev == old(stale.prev)
                && stale.next == if FirstNamed(nodes, name) == 0 < |nodes| then old(nodes[0].next) else old(stale.next)
      ensures forall k :: FirstNamed(nodes, name) == 0 < k < |nodes| && nodes[k] == stale ==>
                child == nodes[1] && Cycle(nodes[1..k + 1])
    {
      c := child;
      var i := 0;
      while c != null && StrCaseCmp(c.name, name) != 0
        invariant 0 <= i <= |nodes| && c == (if i < |nodes| then nodes[i] else null)
        invariant forall j :: 0 <= j < i ==> StrCaseCmp(nodes[j].name, name) != 0
        decreases |nodes| - i
      {
        c, i := c.next, i + 1;
      }
      assert i == FirstNamed(nodes, name);
      if c != null {
        c := DetachItemFromArray(i, nodes, stale);
      }
    }

    /** Detaching the first node leaves the list of the others exactly when that node's `prev` is
        not one of them; otherwise what is left is no list of any nodes. */
    method DetachFirst(ghost nodes: seq<Node>, ghost stale: Node?) returns (c: Node?)
      requires IsList(child, nodes) && nodes != [] && nodes[0].prev == stale != nodes[0]
      modifies this, nodes, stale
      ensures IsList(child, nodes[1..]) <==> stale == null || stale !in nodes[1..]
      ensures stale != null && stale in nodes[1..] ==> forall any: seq<Node> :: !IsList(child, any)
    {
      assert CJson.RemoveAt(nodes, 0) == nodes[1..];
      ghost var k := PlaceOf(nodes, stale);
      c := DetachItemFromArray(0, nodes, stale);
      if k > 0 {
        ghost var cycle := nodes[1..k + 1];
        assert Cycle(cycle) && cycle[0] == child;
        NoListAt(cycle);
        assert nodes[1..][k - 1] == stale;
      }
    }

    /** The same beside another list that holds the `prev` in question, at position `j`: the others
        are left as a list, and the other list goes on with them behind that position. So it is
        left as it was exactly when there are no others and the position is its last. */
    method DetachBeside(ghost nodes: seq<Node>, ghost head: Node?, ghost others: seq<Node>, ghost j: nat)
      returns (c: Node?)
      requires IsList(child, nodes) && nodes != [] && IsList(head, others) && Disjoint(nodes, others)
      requires j < |others| && nodes[0].prev == others[j]
      modifies this, nodes, others[j]
      ensures IsList(child, nodes[1..]) && IsList(head, others[..j + 1] + nodes[1..])
      ensures IsList(head, others) <==> |nodes| == 1 && j == |others| - 1
    {
      ghost var rest := nodes[1..];
      assert CJson.RemoveAt(nodes, 0) == rest;
      assert nodes[0].next == if rest == [] then null else rest[0];
      AroundList(head, others, j);
      Outside(nodes, others, j);
      c := DetachItemFromArray(0, nodes, others[j]);
      assert Around(others, j);
      Joined(others, j, child, rest);
    }

    /** Detaching the first node when its `prev` is the node about to be appended, as a move onto the
        first member does: that node then leads back to the others, which end up in a cycle. */
    method MoveOntoFirst(item: Node, ghost nodes: seq<Node>) returns (c: Node?)
      requires IsList(child, nodes) && |nodes| > 1 && item !in nodes && item.next == null && nodes[0].prev == item
      modifies this, nodes, item
      ensures child == nodes[1] && Cycle(nodes[1..] + [item])
    {
      assert CJson.RemoveAt(nodes, 0) == nodes[1..];
      assert nodes[0].next == nodes[1];
      c := DetachItemFromArray(0, nodes, item);
      ghost var rest := nodes[1..];
      assert item !in rest;
      AddItemToArray(item, rest);
      assert Linked(rest + [item]);
    }

    /** cJSON_InsertItemInArray: behind the end it appends. The first node of the result has the
        `prev` the first one had. */
    method InsertItemInArray(which: int, newitem: Node, ghost nodes: seq<Node>)
      requires IsList(child, nodes) && newitem !in nodes && newitem.next == null
      modifies this, nodes, newitem
      ensures IsList(child, Patch.InsertAt(nodes, Patch.Position(which), newitem))
      ensures nodes != [] ==> child.prev == old(nodes[0].prev)
    {
      var c := Item(which, nodes);
      if c == null {
        AddItemToArray(newitem, nodes);
        return;
      }
      ghost var i := Patch.Position(which);
      ghost var head := nodes[0].prev;
      Link(c, newitem, i, nodes);
      InsertedIsList(nodes, i, newitem, head);
    }

    /** Puts a node in front of the one at position `i`. */
    method Link(c: Node, newitem: Node, ghost i: nat, ghost nodes: seq<Node>)
      requires IsList(child, nodes) && i < |nodes| && c == nodes[i] && newitem !in nodes
      modifies this, nodes, newitem
      ensures child == (if i == 0 then newitem else nodes[0]) && Inserted(nodes, i, newitem, old(nodes[0].prev))
    {
      assert i > 0 ==> c.prev == nodes[i - 1];
      newitem.next := c;
      newitem.prev := c.prev;
      c.prev := newitem;
      if c == child {
        child := newitem;
      } else {
        newitem.prev.next := newitem;
      }
    }

    /** cJSONUtils_SortObject: the first node of the sorted list has no `prev` exactly when the
        first node had none and is still the first. */
    method SortObject(ghost nodes: seq<Node>)
      requires IsList(child, nodes)
      modifies this, nodes
      ensures IsList(child, Sort(nodes, ByName))
      ensures nodes != [] ==> child != null && child in nodes
      ensures forall i :: 0 <= i < |nodes| && child == nodes[i] ==> child.prev == old(nodes[i].prev)
      ensures nodes != [] ==> (child.prev == null <==> old(nodes[0].prev) == null && Sort(nodes, ByName)[0] == nodes[0])
    {
      child := SortList(child, nodes);
      if nodes != [] {
        ghost var i :| 0 <= i < |nodes| && child == nodes[i];
        assert i > 0 ==> old(nodes[i].prev) == nodes[i - 1];
      }
    }
  }

  lemma SortTwo(b: Node, a: Node)
    requires StrCaseCmp(b.name, a.name) > 0
    ensures Sort([b, a], ByName) == [a, b]
  {
    var s := [b, a];
    assert !Less(ByName(s[0]), ByName(s[1]));
    assert s[..1] == [b] && s[1..] == [a];
    assert Merge([b], [a], ByName) == [a] + Merge([b], [a][1..], ByName);
  }

  /** The smallest case: the members "b" and "a" sorted, and the first detached. What is left points
      to itself. */
  method StaleHead() returns (left: Node?)
    ensures left != null && left.next == left
  {
    var b := new Node("b");
    var a := new Node("a");
    b.next, a.prev := a, b;
    ghost var nodes := [b, a];
    var c := new Container(b);
    assert StrCaseCmp("b", "a") > 0;
    c.SortObject(nodes);
    SortTwo(b, a);
    var first := c.DetachItemFromArray(0, [a, b], b);
    left := c.child;
  }
}
