/** The member sort of cJSON_Utils as a function of the sequence of list entries:
    leave ascending lists alone, else split in the middle, sort both halves and merge. */
module ListSort {
  import opened CString

  predicate StrictlyAscending<T>(s: seq<T>, key: T -> string) {
    forall i :: 0 <= i < |s| - 1 ==> Less(key(s[i]), key(s[i + 1]))
  }

  function Merge<T>(f: seq<T>, s: seq<T>, key: T -> string): (r: seq<T>)
    ensures |r| == |f| + |s|
  {
    if f == [] then s
    else if s == [] then f
    else if Less(key(f[0]), key(s[0])) then [f[0]] + Merge(f[1..], s, key)
    else [s[0]] + Merge(f, s[1..], key)
  }

  function Sort<T>(s: seq<T>, key: T -> string): (r: seq<T>)
    ensures |r| == |s|
    decreases |s|
  {
    if |s| < 2 || StrictlyAscending(s, key) then s
    else
      var mid := (|s| + 1) / 2;
      Merge(Sort(s[..mid], key), Sort(s[mid..], key), key)
  }

  /** Non-decreasing under the case-folded name order. */
  ghost predicate Ordered<T>(s: seq<T>, key: T -> string) {
    forall i, j :: 0 <= i < j < |s| ==> StrCaseCmp(key(s[i]), key(s[j])) <= 0
  }

  ghost predicate NulFreeKeys<T>(s: seq<T>, key: T -> string) {
    forall x :: x in s ==> NulFree(key(x))
  }

  lemma {:induction false} MergePermutes<T>(f: seq<T>, s: seq<T>, key: T -> string)
    ensures multiset(Merge(f, s, key)) == multiset(f) + multiset(s)
  {
    if f == [] || s == [] {
    } else if Less(key(f[0]), key(s[0])) {
      MergePermutes(f[1..], s, key);
      HeadOut(f);
    } else {
      MergePermutes(f, s[1..], key);
      HeadOut(s);
    }
  }

  lemma HeadOut<T>(s: seq<T>)
    requires s != []
    ensures multiset(s) == multiset{s[0]} + multiset(s[1..])
  {
    assert s == [s[0]] + s[1..];
  }

  /** Sorting only reorders. */
  lemma {:induction false} SortPermutes<T>(s: seq<T>, key: T -> string)
    ensures multiset(Sort(s, key)) == multiset(s)
    decreases |s|
  {
    if |s| >= 2 && !StrictlyAscending(s, key) {
      var mid := (|s| + 1) / 2;
      SortPermutes(s[..mid], key);
      SortPermutes(s[mid..], key);
      MergePermutes(Sort(s[..mid], key), Sort(s[mid..], key), key);
      Halves(s, mid);
    }
  }

  lemma Halves<T>(s: seq<T>, mid: nat)
    requires mid <= |s|
    ensures multiset(s) == multiset(s[..mid]) + multiset(s[mid..])
  {
    assert s == s[..mid] + s[mid..];
  }

  /** Two entries of the same name change places: the sort is not stable. */
  lemma TiesSwap<T>(a: T, b: T, key: T -> string)
    requires StrCaseCmp(key(a), key(b)) == 0
    ensures Sort([a, b], key) == [b, a]
  {
    var s := [a, b];
    assert !Less(key(s[0]), key(s[1]));
    assert s[..1] == [a] && s[1..] == [b];
    assert Sort([a], key) == [a] && Sort([b], key) == [b];
    assert Merge([a], [b], key) == [b] + Merge([a], [], key);
  }

  lemma SameMembers<T>(s: seq<T>, r: seq<T>)
    requires multiset(s) == multiset(r)
    ensures forall x :: x in s <==> x in r
  {
    forall x
      ensures x in s <==> x in r
    {
      assert x in s <==> x in multiset(s);
      assert x in r <==> x in multiset(r);
    }
  }

  lemma {:induction false} AscendingIsOrdered<T>(s: seq<T>, key: T -> string, i: nat, j: nat)
    requires StrictlyAscending(s, key) && NulFreeKeys(s, key) && i < j < |s|
    ensures StrCaseCmp(key(s[i]), key(s[j])) <= 0
  {
    if i + 1 < j {
      AscendingIsOrdered(s, key, i, j - 1);
      LessTransitive(key(s[i]), key(s[j - 1]), key(s[j]));
    }
  }

  ghost predicate Bound<T>(x: T, s: seq<T>, key: T -> string) {
    forall i :: 0 <= i < |s| ==> StrCaseCmp(key(x), key(s[i])) <= 0
  }

  lemma HeadIsLeast<T>(x: T, s: seq<T>, key: T -> string)
    requires NulFree(key(x)) && NulFreeKeys(s, key) && Ordered(s, key) && s != []
    requires StrCaseCmp(key(x), key(s[0])) <= 0
    ensures Bound(x, s, key)
  {
    forall j | 0 <= j < |s|
      ensures StrCaseCmp(key(x), key(s[j])) <= 0
    {
      if j > 0 { LessTransitive(key(x), key(s[0]), key(s[j])); }
    }
  }

  lemma {:induction false} MergeBound<T>(x: T, f: seq<T>, s: seq<T>, key: T -> string)
    requires Bound(x, f, key) && Bound(x, s, key)
    ensures Bound(x, Merge(f, s, key), key)
  {
    if f == [] || s == [] {
    } else if Less(key(f[0]), key(s[0])) {
      MergeBound(x, f[1..], s, key);
    } else {
      MergeBound(x, f, s[1..], key);
    }
  }

  lemma {:induction false} MergeOrdered<T>(f: seq<T>, s: seq<T>, key: T -> string)
    requires NulFreeKeys(f, key) && NulFreeKeys(s, key)
    requires Ordered(f, key) && Ordered(s, key)
    ensures Ordered(Merge(f, s, key), key)
  {
    if f == [] || s == [] {
    } else if Less(key(f[0]), key(s[0])) {
      MergeOrdered(f[1..], s, key);
      HeadIsLeast(f[0], s, key);
      MergeBound(f[0], f[1..], s, key);
    } else {
      MergeOrdered(f, s[1..], key);
      CmpTrichotomy(key(f[0]), key(s[0]));
      HeadIsLeast(s[0], f, key);
      MergeBound(s[0], f, s[1..], key);
    }
  }

  /** The result is non-decreasing under the folded order and has the same entries. */
  lemma {:induction false} SortOrders<T>(s: seq<T>, key: T -> string)
    requires NulFreeKeys(s, key)
    ensures Ordered(Sort(s, key), key)
    ensures forall x :: x in Sort(s, key) <==> x in s
    decreases |s|
  {
    SortPermutes(s, key);
    SameMembers(Sort(s, key), s);
    if |s| < 2 {
    } else if StrictlyAscending(s, key) {
      forall i, j | 0 <= i < j < |s|
        ensures StrCaseCmp(key(s[i]), key(s[j])) <= 0
      {
        AscendingIsOrdered(s, key, i, j);
      }
    } else {
      var mid := (|s| + 1) / 2;
      assert forall x :: x in s[..mid] || x in s[mid..] ==> x in s;
      SortOrders(s[..mid], key);
      SortOrders(s[mid..], key);
      assert NulFreeKeys(Sort(s[..mid], key), key);
      assert NulFreeKeys(Sort(s[mid..], key), key);
      MergeOrdered(Sort(s[..mid], key), Sort(s[mid..], key), key);
    }
  }

  // ----- sorting only looks at the keys

  function Map<S, T>(h: S -> T, s: seq<S>): (r: seq<T>)
    ensures |r| == |s| && forall i :: 0 <= i < |s| ==> r[i] == h(s[i])
  {
    seq(|s|, i requires 0 <= i < |s| => h(s[i]))
  }

  lemma MapTail<S, T>(h: S -> T, s: seq<S>)
    requires s != []
    ensures Map(h, s)[1..] == Map(h, s[1..]) && [h(s[0])] + Map(h, s[1..]) == Map(h, s)
  {
  }

  lemma MapParts<S, T>(h: S -> T, s: seq<S>, mid: nat)
    requires mid <= |s|
    ensures Map(h, s)[..mid] == Map(h, s[..mid]) && Map(h, s)[mid..] == Map(h, s[mid..])
  {
  }

  lemma {:induction false} MergeMap<S, T>(f: seq<S>, g: seq<S>, h: S -> T, key: S -> string, key': T -> string)
    requires forall x :: key'(h(x)) == key(x)
    ensures Merge(Map(h, f), Map(h, g), key') == Map(h, Merge(f, g, key))
    decreases |f| + |g|
  {
    if f != [] && g != [] {
      MapTail(h, f);
      MapTail(h, g);
      if Less(key(f[0]), key(g[0])) {
        MergeMap(f[1..], g, h, key, key');
        MapCons(h, f[0], Merge(f[1..], g, key));
      } else {
        MergeMap(f, g[1..], h, key, key');
        MapCons(h, g[0], Merge(f, g[1..], key));
      }
    }
  }

  lemma MapCons<S, T>(h: S -> T, x: S, s: seq<S>)
    ensures Map(h, [x] + s) == [h(x)] + Map(h, s)
  {
  }

  lemma AscendingMap<S, T>(s: seq<S>, h: S -> T, key: S -> string, key': T -> string)
    requires forall x :: key'(h(x)) == key(x)
    ensures StrictlyAscending(Map(h, s), key') == StrictlyAscending(s, key)
  {
    var r := Map(h, s);
    assert forall i :: 0 <= i < |s| ==> key'(r[i]) == key(s[i]);
    if StrictlyAscending(r, key') {
      forall i | 0 <= i < |s| - 1
        ensures Less(key(s[i]), key(s[i + 1]))
      {
        assert Less(key'(r[i]), key'(r[i + 1]));
      }
    }
  }

  predicate SortsAway<T>(s: seq<T>, key: T -> string) {
    |s| >= 2 && !StrictlyAscending(s, key)
  }

  lemma AwayMap<S, T>(s: seq<S>, h: S -> T, key: S -> string, key': T -> string)
    requires forall x :: key'(h(x)) == key(x)
    ensures SortsAway(Map(h, s), key') == SortsAway(s, key)
  {
    AscendingMap(s, h, key, key');
  }

  lemma SortStays<T>(s: seq<T>, key: T -> string)
    requires !SortsAway(s, key)
    ensures Sort(s, key) == s
  {
  }

  lemma SortSplits<T>(s: seq<T>, key: T -> string, lo: seq<T>, hi: seq<T>)
    requires SortsAway(s, key) && lo == s[..(|s| + 1) / 2] && hi == s[(|s| + 1) / 2..]
    ensures Sort(s, key) == Merge(Sort(lo, key), Sort(hi, key), key)
  {
  }

  /** Sorting entries with equal keys rearranges them alike. */
  lemma {:induction false} SortMap<S, T>(s: seq<S>, h: S -> T, key: S -> string, key': T -> string)
    requires forall x :: key'(h(x)) == key(x)
    ensures Sort(Map(h, s), key') == Map(h, Sort(s, key))
    decreases |s|
  {
    AwayMap(s, h, key, key');
    if !SortsAway(s, key) {
      SortStays(s, key);
      SortStays(Map(h, s), key');
    } else {
      var mid := (|s| + 1) / 2;
      assert mid < |s|;
      var lo, hi := s[..mid], s[mid..];
      MapParts(h, s, mid);
      SortSplits(s, key, lo, hi);
      SortSplits(Map(h, s), key', Map(h, lo), Map(h, hi));
      SortMap(lo, h, key, key');
      SortMap(hi, h, key, key');
      MergeMap(Sort(lo, key), Sort(hi, key), h, key, key');
    }
  }
}
