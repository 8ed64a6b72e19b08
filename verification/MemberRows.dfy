/** The members of an object while a diff of it is applied: which of them are still to come, and how
    one operation changes what is there. */
module MemberRows {
  import opened Option
  import opened CString
  import opened CJson
  import opened Compare
  import opened Diff
  import opened Marks
  import opened DiffSweep

  // ----- members that change places

  ghost predicate KeyIn(ms: seq<Member>, key: string) {
    exists i :: 0 <= i < |ms| && Key(ms[i]) == key
  }

  /** The member `x` with the marks `b` is among the given ones. */
  ghost predicate Among(cur: seq<Member>, marks: seq<Marks>, x: Member, b: Marks) {
    exists p :: 0 <= p < |cur| && p < |marks| && cur[p] == x && marks[p] == b
  }

  /** Members with marks become others: those of other names than `key` stay, no other name comes in,
      and a first node with a `prev` is the one there was. */
  ghost predicate Moves(cur: seq<Member>, k: Marks, next: seq<Member>, l: Marks, key: string) {
    && |k.below| == |cur| && |l.below| == |next|
    && (forall p :: 0 <= p < |cur| && Key(cur[p]) != key ==> Among(next, l.below, cur[p], k.below[p]))
    && (forall p :: 0 <= p < |next| ==> Key(next[p]) == key || KeyIn(cur, Key(next[p])))
    && (l.prev.Some? ==> k.prev.Some? && cur != [] && next != [] && next[0].name == cur[0].name)
  }

  lemma RemoveMoves(cur: seq<Member>, k: Marks, p: nat)
    requires p < |cur| == |k.below| && (p == 0 ==> k.prev.None?)
    ensures Moves(cur, k, RemoveAt(cur, p), Marks(k.id, if |cur| == 1 then None else k.prev, RemoveAt(k.below, p)),
                  Key(cur[p]))
  {
    var next, below := RemoveAt(cur, p), RemoveAt(k.below, p);
    forall q | 0 <= q < |cur| && Key(cur[q]) != Key(cur[p])
      ensures Among(next, below, cur[q], k.below[q])
    {
      var r := if q < p then q else q - 1;
      assert next[r] == cur[q] && below[r] == k.below[q];
    }
    forall r | 0 <= r < |next|
      ensures KeyIn(cur, Key(next[r]))
    {
      assert next[r] == cur[if r < p then r else r + 1];
    }
  }

  lemma AppendMoves(cur: seq<Member>, k: Marks, x: Member, y: Marks)
    requires |k.below| == |cur| && (k.prev.Some? ==> cur != [])
    ensures Moves(cur, k, cur + [x], Marks(k.id, k.prev, k.below + [y]), Key(x))
  {
    var next, below := cur + [x], k.below + [y];
    forall q | 0 <= q < |cur|
      ensures Among(next, below, cur[q], k.below[q]) && KeyIn(cur, Key(next[q]))
    {
      assert next[q] == cur[q] && below[q] == k.below[q];
    }
  }

  lemma SetMoves(cur: seq<Member>, k: Marks, p: nat, x: Json, y: Marks)
    requires p < |cur| == |k.below|
    ensures Moves(cur, k, cur[p := Member(cur[p].name, x)], Marks(k.id, k.prev, k.below[p := y]), Key(cur[p]))
  {
    var next, below := cur[p := Member(cur[p].name, x)], k.below[p := y];
    forall q | 0 <= q < |cur|
      ensures Key(cur[q]) != Key(cur[p]) ==> Among(next, below, cur[q], k.below[q])
      ensures KeyIn(cur, Key(next[q]))
    {
      assert Key(next[q]) == Key(cur[q]);
      if q != p { assert next[q] == cur[q] && below[q] == k.below[q]; }
    }
  }

  lemma MovesTwice(cur: seq<Member>, k: Marks, mid: seq<Member>, l: Marks, next: seq<Member>, n: Marks, key: string)
    requires Moves(cur, k, mid, l, key) && Moves(mid, l, next, n, key)
    ensures Moves(cur, k, next, n, key)
  {
    forall p | 0 <= p < |cur| && Key(cur[p]) != key
      ensures Among(next, n.below, cur[p], k.below[p])
    {
      var q :| 0 <= q < |mid| && q < |l.below| && mid[q] == cur[p] && l.below[q] == k.below[p];
    }
  }

  // ----- members still to come

  ghost predicate AllClear(below: seq<Marks>) {
    forall i :: 0 <= i < |below| ==> Clear(below[i])
  }

  /** Sorted members of the source, with their marks before the diff, and of the target. */
  ghost predicate Rows(t: Json, ms: seq<Member>, below: seq<Marks>, ns: seq<Member>) {
    && ValuesBelow(ms, t) && StrictlySorted(ms) && StrictlySorted(ns)
    && FitMembers(ms, below) && AllClear(below)
  }

  ghost predicate AllAmong(cur: seq<Member>, marks: seq<Marks>, xs: seq<Member>, bs: seq<Marks>) {
    |xs| == |bs| && forall i :: 0 <= i < |xs| ==> Among(cur, marks, xs[i], bs[i])
  }

  /** They are there as the diff has left them, and no other member has a name of the target. */
  ghost predicate Pending(cur: seq<Member>, k: Marks, t: Json, ms: seq<Member>, below: seq<Marks>, ns: seq<Member>) {
    && Rows(t, ms, below, ns) && |k.below| == |cur|
    && AllAmong(cur, k.below, DiffSweptMembers(t, ms, ns), DiffMemberMarks(t, ms, below, ns))
    && forall j :: 0 <= j < |ns| && KeyIn(cur, Key(ns[j])) ==> KeyIn(ms, Key(ns[j]))
  }

  /** A first node with a `prev` is none of those to come. */
  ghost predicate SafeFront(cur: seq<Member>, k: Marks, ms: seq<Member>) {
    k.prev.Some? ==> cur != [] && !KeyIn(ms, Key(cur[0]))
  }

  /** What is still to come once the members named `key` are dealt with. */
  ghost predicate Rest(t: Json, ms: seq<Member>, below: seq<Marks>, ns: seq<Member>,
                       ms': seq<Member>, below': seq<Marks>, ns': seq<Member>, key: string) {
    && Rows(t, ms, below, ns) && Rows(t, ms', below', ns')
    && !KeyIn(ms', key) && !KeyIn(ns', key)
    && AllAmong(DiffSweptMembers(t, ms, ns), DiffMemberMarks(t, ms, below, ns),
                DiffSweptMembers(t, ms', ns'), DiffMemberMarks(t, ms', below', ns'))
    && (forall i :: 0 <= i < |ms| && Key(ms[i]) != key ==> KeyIn(ms', Key(ms[i])))
    && (forall i :: 0 <= i < |ms'| ==> KeyIn(ms, Key(ms'[i])))
    && (forall j :: 0 <= j < |ns'| ==> KeyIn(ns, Key(ns'[j])))
  }

  lemma PendingNext(cur: seq<Member>, k: Marks, next: seq<Member>, l: Marks, key: string,
                    t: Json, ms: seq<Member>, below: seq<Marks>, ns: seq<Member>,
                    ms': seq<Member>, below': seq<Marks>, ns': seq<Member>)
    requires Pending(cur, k, t, ms, below, ns) && Moves(cur, k, next, l, key)
    requires Rest(t, ms, below, ns, ms', below', ns', key)
    ensures Pending(next, l, t, ms', below', ns')
    ensures SafeFront(cur, k, ms) ==> SafeFront(next, l, ms')
  {
    var xs, bs := DiffSweptMembers(t, ms', ns'), DiffMemberMarks(t, ms', below', ns');
    forall i | 0 <= i < |xs|
      ensures Among(next, l.below, xs[i], bs[i])
    {
      RowStays(cur, k, next, l, key, t, ms, below, ns, xs[i], bs[i]);
    }
    forall j | 0 <= j < |ns'| && KeyIn(next, Key(ns'[j]))
      ensures KeyIn(ms', Key(ns'[j]))
    {
      var p :| 0 <= p < |next| && Key(next[p]) == Key(ns'[j]);
      var i :| 0 <= i < |ns| && Key(ns[i]) == Key(ns'[j]);
    }
  }

  lemma RowStays(cur: seq<Member>, k: Marks, next: seq<Member>, l: Marks, key: string,
                 t: Json, ms: seq<Member>, below: seq<Marks>, ns: seq<Member>, x: Member, b: Marks)
    requires Pending(cur, k, t, ms, below, ns) && Moves(cur, k, next, l, key) && Key(x) != key
    requires Among(DiffSweptMembers(t, ms, ns), DiffMemberMarks(t, ms, below, ns), x, b)
    ensures Among(next, l.below, x, b)
  {
    var xs, bs := DiffSweptMembers(t, ms, ns), DiffMemberMarks(t, ms, below, ns);
    var i :| 0 <= i < |xs| && i < |bs| && xs[i] == x && bs[i] == b;
    assert Among(cur, k.below, xs[i], bs[i]);
    var p :| 0 <= p < |cur| && p < |k.below| && cur[p] == x && k.below[p] == b;
  }

  // ----- the three ways on

  lemma TailAmong(x: Member, b: Marks, xs: seq<Member>, bs: seq<Marks>)
    requires |xs| == |bs|
    ensures AllAmong([x] + xs, [b] + bs, xs, bs)
  {
    forall i | 0 <= i < |xs|
      ensures Among([x] + xs, [b] + bs, xs[i], bs[i])
    {
      assert ([x] + xs)[i + 1] == xs[i] && ([b] + bs)[i + 1] == bs[i];
    }
  }

  lemma TailKeys(ms: seq<Member>)
    requires DistinctNames(ms) && ms != []
    ensures !KeyIn(ms[1..], Key(ms[0]))
    ensures forall i :: 0 <= i < |ms| && Key(ms[i]) != Key(ms[0]) ==> KeyIn(ms[1..], Key(ms[i]))
    ensures forall i :: 0 <= i < |ms[1..]| ==> KeyIn(ms, Key(ms[1..][i]))
  {
    forall i | 1 <= i < |ms|
      ensures KeyIn(ms[1..], Key(ms[i]))
    {
      assert ms[1..][i - 1] == ms[i];
    }
    forall i | 0 <= i < |ms[1..]|
      ensures KeyIn(ms, Key(ms[1..][i]))
    {
      assert ms[1..][i] == ms[i + 1];
    }
  }

  lemma SmallKeyOut(n: string, ms: seq<Member>)
    requires StrictlySorted(ms) && NulFree(n) && (ms != [] ==> Less(n, ms[0].name))
    ensures !KeyIn(ms, Fold(n))
  {
    SmallKeyAbsent(n, ms);
    if KeyIn(ms, Fold(n)) {
      var i :| 0 <= i < |ms| && Key(ms[i]) == Fold(n);
      MemberIn(ms, i);
    }
  }

  lemma RowsTail(t: Json, ms: seq<Member>, below: seq<Marks>, ns: seq<Member>)
    requires Rows(t, ms, below, ns)
    ensures ms != [] ==> Rows(t, ms[1..], below[1..], ns)
    ensures ns != [] ==> Rows(t, ms, below, ns[1..])
  {
    if ms != [] { SortedTail(ms); }
    if ns != [] { SortedTail(ns); }
  }

  lemma AllAmongSelf(xs: seq<Member>, bs: seq<Marks>)
    requires |xs| == |bs|
    ensures AllAmong(xs, bs, xs, bs)
  {
  }

  lemma RestMatched(t: Json, ms: seq<Member>, below: seq<Marks>, ns: seq<Member>)
    requires Rows(t, ms, below, ns) && ms != [] && ns != [] && Walk(ms, ns) == 0
    ensures Rest(t, ms, below, ns, ms[1..], below[1..], ns[1..], Key(ms[0]))
  {
    CmpTrichotomy(ms[0].name, ns[0].name);
    RowsTail(t, ms, below, ns);
    RowsTail(t, ms, below, ns[1..]);
    TailKeys(ms);
    TailKeys(ns);
    TailAmong(Member(ms[0].name, DiffSwept(ms[0].value, ns[0].value)), DiffMarks(ms[0].value, below[0], ns[0].value),
              DiffSweptMembers(t, ms[1..], ns[1..]), DiffMemberMarks(t, ms[1..], below[1..], ns[1..]));
  }

  lemma RemovedRow(t: Json, ms: seq<Member>, below: seq<Marks>, ns: seq<Member>)
    requires Rows(t, ms, below, ns) && ms != [] && Walk(ms, ns) < 0
    ensures Rows(t, ms[1..], below[1..], ns)
    ensures DiffSweptMembers(t, ms, ns) == [ms[0]] + DiffSweptMembers(t, ms[1..], ns)
    ensures DiffMemberMarks(t, ms, below, ns) == [below[0]] + DiffMemberMarks(t, ms[1..], below[1..], ns)
  {
    RowsTail(t, ms, below, ns);
    if ns == [] { assert ms == [ms[0]] + ms[1..] && below == [below[0]] + below[1..]; }
  }

  lemma RestRemoved(t: Json, ms: seq<Member>, below: seq<Marks>, ns: seq<Member>)
    requires Rows(t, ms, below, ns) && ms != [] && Walk(ms, ns) < 0
    ensures Rest(t, ms, below, ns, ms[1..], below[1..], ns, Key(ms[0]))
  {
    SmallKeyOut(ms[0].name, ns);
    RowsTail(t, ms, below, ns);
    TailKeys(ms);
    RemovedRow(t, ms, below, ns);
    TailAmong(ms[0], below[0], DiffSweptMembers(t, ms[1..], ns), DiffMemberMarks(t, ms[1..], below[1..], ns));
  }

  lemma RestAdded(t: Json, ms: seq<Member>, below: seq<Marks>, ns: seq<Member>)
    requires Rows(t, ms, below, ns) && ns != [] && Walk(ms, ns) > 0
    ensures Rest(t, ms, below, ns, ms, below, ns[1..], Key(ns[0])) && !KeyIn(ms, Key(ns[0]))
  {
    if ms != [] { CmpTrichotomy(ms[0].name, ns[0].name); }
    SmallKeyOut(ns[0].name, ms);
    RowsTail(t, ms, below, ns);
    TailKeys(ns);
    AllAmongSelf(DiffSweptMembers(t, ms, ns[1..]), DiffMemberMarks(t, ms, below, ns[1..]));
  }
}
