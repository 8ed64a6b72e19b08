/** JSON trees as cJSON builds them, and the canonical form that forgets member order
    and letter case of member names. */
module CJson {
  import opened CString
  import opened ListSort

  datatype Json =
    | False
    | True
    | Null
    | Number(valueint: int, valuedouble: real)
    | String(valuestring: string)
    | Array(items: seq<Json>)
    | Object(members: seq<Member>)

  datatype Member = Member(name: string, value: Json)

  /** The `type` field. */
  function Type(t: Json): int {
    match t
    case False => 0
    case True => 1
    case Null => 2
    case Number(_, _) => 3
    case String(_) => 4
    case Array(_) => 5
    case Object(_) => 6
  }

  function Name(m: Member): string { m.name }

  function Key(m: Member): string { Fold(m.name) }

  /** Sibling names are C strings, pairwise different even when case is ignored. */
  ghost predicate DistinctNames(ms: seq<Member>) {
    && (forall i :: 0 <= i < |ms| ==> NulFree(ms[i].name))
    && (forall i, j :: 0 <= i < j < |ms| ==> Key(ms[i]) != Key(ms[j]))
  }

  ghost predicate WellFormed(t: Json) {
    match t
    case String(s) => NulFree(s)
    case Array(items) => forall i :: 0 <= i < |items| ==> WellFormed(items[i])
    case Object(ms) => DistinctNames(ms) && forall i :: 0 <= i < |ms| ==> WellFormed(ms[i].value)
    case _ => true
  }

  /** Trees up to member order and case of names: an object is a finite map. */
  datatype Canon =
    | CFalse
    | CTrue
    | CNull
    | CNumber(int, real)
    | CString(string)
    | CArray(items: seq<Canon>)
    | CObject(fields: map<string, Canon>)

  function Abs(t: Json): Canon {
    match t
    case False => CFalse
    case True => CTrue
    case Null => CNull
    case Number(i, d) => CNumber(i, d)
    case String(s) => CString(s)
    case Array(items) => CArray(AbsItems(items))
    case Object(ms) => CObject(AbsMembers(ms))
  }

  function AbsItems(items: seq<Json>): (r: seq<Canon>)
    ensures |r| == |items| && forall i :: 0 <= i < |items| ==> r[i] == Abs(items[i])
  {
    seq(|items|, i requires 0 <= i < |items| => Abs(items[i]))
  }

  /** The first member of a name wins, as in cJSON_GetObjectItem. */
  function AbsMembers(ms: seq<Member>): map<string, Canon> {
    if ms == [] then map[] else AbsMembers(ms[1..])[Key(ms[0]) := Abs(ms[0].value)]
  }

  /** With distinct names every member is in the map ... */
  lemma {:induction false} MemberIn(ms: seq<Member>, i: nat)
    requires DistinctNames(ms) && i < |ms|
    ensures Key(ms[i]) in AbsMembers(ms) && AbsMembers(ms)[Key(ms[i])] == Abs(ms[i].value)
  {
    if i > 0 { MemberIn(ms[1..], i - 1); }
  }

  /** ... and every entry of the map is a member. */
  lemma {:induction false} EntryOf(ms: seq<Member>, k: string) returns (i: nat)
    requires k in AbsMembers(ms)
    ensures i < |ms| && Key(ms[i]) == k
  {
    if k == Key(ms[0]) {
      i := 0;
    } else {
      i := EntryOf(ms[1..], k);
      i := i + 1;
    }
  }

  /** Index of the first member whose name matches ignoring case, or |ms|. */
  function FindMember(ms: seq<Member>, name: string): (i: nat)
    ensures i <= |ms|
    ensures i < |ms| ==> StrCaseCmp(ms[i].name, name) == 0
    ensures forall j :: 0 <= j < i ==> StrCaseCmp(ms[j].name, name) != 0
  {
    if ms == [] then 0
    else if StrCaseCmp(ms[0].name, name) == 0 then 0
    else
      var r := FindMember(ms[1..], name);
      assert forall j :: 1 <= j < r + 1 ==> ms[j] == ms[1..][j - 1];
      r + 1
  }

  lemma FindMemberByKey(ms: seq<Member>, name: string)
    requires DistinctNames(ms) && NulFree(name)
    ensures FindMember(ms, name) < |ms| <==> Fold(name) in AbsMembers(ms)
    ensures FindMember(ms, name) < |ms| ==> Key(ms[FindMember(ms, name)]) == Fold(name)
  {
    var f := FindMember(ms, name);
    if f < |ms| {
      CmpTrichotomy(ms[f].name, name);
      MemberIn(ms, f);
    } else if Fold(name) in AbsMembers(ms) {
      var j := EntryOf(ms, Fold(name));
      CmpTrichotomy(ms[j].name, name);
    }
  }

  // ----- list edits and what they do to the canonical form

  function RemoveAt<T>(s: seq<T>, i: nat): seq<T>
    requires i < |s|
  {
    s[..i] + s[i + 1..]
  }

  lemma RemovedAt<T>(s: seq<T>, i: nat, k: nat)
    requires i < |s| && k < |s| - 1
    ensures RemoveAt(s, i)[k] == s[if k < i then k else k + 1]
  {
  }

  lemma RemoveKeepsDistinct(ms: seq<Member>, i: nat)
    requires DistinctNames(ms) && i < |ms|
    ensures DistinctNames(RemoveAt(ms, i))
    ensures forall j :: 0 <= j < |ms| - 1 ==> Key(RemoveAt(ms, i)[j]) != Key(ms[i])
  {
    var r := RemoveAt(ms, i);
    assert forall j :: 0 <= j < i ==> r[j] == ms[j];
    assert forall j :: i <= j < |r| ==> r[j] == ms[j + 1];
  }

  lemma RemoveKeepsEntry(ms: seq<Member>, i: nat, k: string)
    requires DistinctNames(ms) && i < |ms| && k in AbsMembers(ms) && k != Key(ms[i])
    requires DistinctNames(RemoveAt(ms, i))
    ensures k in AbsMembers(RemoveAt(ms, i)) && AbsMembers(RemoveAt(ms, i))[k] == AbsMembers(ms)[k]
  {
    var r := RemoveAt(ms, i);
    var j := EntryOf(ms, k);
    MemberIn(ms, j);
    var j' := if j < i then j else j - 1;
    RemovedAt(ms, i, j');
    MemberIn(r, j');
  }

  lemma RemoveAddsNoEntry(ms: seq<Member>, i: nat, k: string)
    requires DistinctNames(ms) && i < |ms|
    requires DistinctNames(RemoveAt(ms, i)) && k in AbsMembers(RemoveAt(ms, i))
    ensures k in AbsMembers(ms) && k != Key(ms[i])
  {
    var r := RemoveAt(ms, i);
    var j := EntryOf(r, k);
    var j' := if j < i then j else j + 1;
    assert r[j] == ms[j'];
    MemberIn(ms, j');
  }

  lemma AbsRemoveMember(ms: seq<Member>, i: nat)
    requires DistinctNames(ms) && i < |ms|
    ensures DistinctNames(RemoveAt(ms, i))
    ensures AbsMembers(RemoveAt(ms, i)) == AbsMembers(ms) - {Key(ms[i])}
  {
    var r := RemoveAt(ms, i);
    RemoveKeepsDistinct(ms, i);
    forall k | k in AbsMembers(ms) && k != Key(ms[i])
      ensures k in AbsMembers(r) && AbsMembers(r)[k] == AbsMembers(ms)[k]
    {
      RemoveKeepsEntry(ms, i, k);
    }
    forall k | k in AbsMembers(r)
      ensures k in AbsMembers(ms) && k != Key(ms[i])
    {
      RemoveAddsNoEntry(ms, i, k);
    }
  }

  lemma AbsAppendMember(ms: seq<Member>, m: Member)
    requires DistinctNames(ms) && NulFree(m.name) && Key(m) !in AbsMembers(ms)
    ensures DistinctNames(ms + [m])
    ensures AbsMembers(ms + [m]) == AbsMembers(ms)[Key(m) := Abs(m.value)]
  {
    var r := ms + [m];
    forall i | 0 <= i < |ms|
      ensures Key(ms[i]) != Key(m)
    {
      MemberIn(ms, i);
    }
    assert DistinctNames(r);
    var f := AbsMembers(ms)[Key(m) := Abs(m.value)];
    forall k | k in f
      ensures k in AbsMembers(r) && AbsMembers(r)[k] == f[k]
    {
      if k == Key(m) {
        MemberIn(r, |ms|);
      } else {
        var j := EntryOf(ms, k);
        MemberIn(ms, j);
        assert r[j] == ms[j];
        MemberIn(r, j);
      }
    }
    forall k | k in AbsMembers(r)
      ensures k in f
    {
      var j := EntryOf(r, k);
      if j < |ms| { MemberIn(ms, j); }
    }
  }

  lemma AbsSetMember(ms: seq<Member>, i: nat, v: Json)
    requires DistinctNames(ms) && i < |ms|
    ensures DistinctNames(ms[i := Member(ms[i].name, v)])
    ensures AbsMembers(ms[i := Member(ms[i].name, v)]) == AbsMembers(ms)[Key(ms[i]) := Abs(v)]
  {
    var r := ms[i := Member(ms[i].name, v)];
    assert forall j :: 0 <= j < |ms| ==> r[j].name == ms[j].name;
    var f := AbsMembers(ms)[Key(ms[i]) := Abs(v)];
    forall k | k in f
      ensures k in AbsMembers(r) && AbsMembers(r)[k] == f[k]
    {
      if k == Key(ms[i]) {
        MemberIn(r, i);
      } else {
        var j := EntryOf(ms, k);
        MemberIn(ms, j);
        MemberIn(r, j);
      }
    }
    forall k | k in AbsMembers(r)
      ensures k in f
    {
      var j := EntryOf(r, k);
      MemberIn(ms, j);
    }
  }

  /** cJSONUtils_SortObject on the members. */
  function SortMembers(ms: seq<Member>): (r: seq<Member>)
    ensures |r| == |ms|
  {
    Sort(ms, Name)
  }

  /** Sorting keeps the members, leaves distinct names distinct, and orders them strictly. */
  lemma SortMembersProps(ms: seq<Member>)
    requires DistinctNames(ms)
    ensures multiset(SortMembers(ms)) == multiset(ms)
    ensures forall m :: m in SortMembers(ms) <==> m in ms
    ensures DistinctNames(SortMembers(ms))
    ensures forall i, j :: 0 <= i < j < |ms| ==> Less(SortMembers(ms)[i].name, SortMembers(ms)[j].name)
    ensures AbsMembers(SortMembers(ms)) == AbsMembers(ms)
  {
    var r := SortMembers(ms);
    SortPermutes(ms, Name);
    SortOrders(ms, Name);
    DistinctPermutation(ms, r);
    forall i, j | 0 <= i < j < |ms|
      ensures Less(r[i].name, r[j].name)
    {
      assert StrCaseCmp(Name(r[i]), Name(r[j])) <= 0;
      CmpTrichotomy(r[i].name, r[j].name);
    }
    AbsPermutation(ms, r);
  }

  lemma AbsPermutation(ms: seq<Member>, r: seq<Member>)
    requires DistinctNames(ms) && DistinctNames(r) && forall m :: m in r <==> m in ms
    ensures AbsMembers(r) == AbsMembers(ms)
  {
    forall k | k in AbsMembers(ms)
      ensures k in AbsMembers(r) && AbsMembers(r)[k] == AbsMembers(ms)[k]
    {
      var i := EntryOf(ms, k);
      MemberIn(ms, i);
      assert ms[i] in ms;
      var j :| 0 <= j < |r| && r[j] == ms[i];
      MemberIn(r, j);
    }
    forall k | k in AbsMembers(r)
      ensures k in AbsMembers(ms)
    {
      var i := EntryOf(r, k);
      assert r[i] in r;
      var j :| 0 <= j < |ms| && ms[j] == r[i];
      MemberIn(ms, j);
    }
  }

  lemma DistinctPermutation(ms: seq<Member>, r: seq<Member>)
    requires DistinctNames(ms) && multiset(r) == multiset(ms)
    ensures DistinctNames(r)
  {
    SameMembers(ms, r);
    forall i | 0 <= i < |r|
      ensures NulFree(r[i].name)
    {
      assert r[i] in ms;
    }
    forall i, j | 0 <= i < j < |r|
      ensures Key(r[i]) != Key(r[j])
    {
      if Key(r[i]) == Key(r[j]) {
        assert r[i] in ms && r[j] in ms;
        var a :| 0 <= a < |ms| && ms[a] == r[i];
        var b :| 0 <= b < |ms| && ms[b] == r[j];
        assert a == b;
        TwoOccurrences(r, i, j);
        OneOccurrence(ms, a);
        assert false;
      }
    }
  }

  lemma TwoOccurrences(r: seq<Member>, i: nat, j: nat)
    requires i < j < |r| && r[i] == r[j]
    ensures multiset(r)[r[i]] >= 2
  {
    assert r == r[..i] + [r[i]] + r[i + 1..j] + [r[j]] + r[j + 1..];
  }

  lemma OneOccurrence(ms: seq<Member>, a: nat)
    requires DistinctNames(ms) && a < |ms|
    ensures multiset(ms)[ms[a]] == 1
  {
    var p, q := ms[..a], ms[a + 1..];
    assert ms == p + [ms[a]] + q;
    assert ms[a] !in p && ms[a] !in q;
    assert ms[a] !in multiset(p) && ms[a] !in multiset(q);
  }
}
