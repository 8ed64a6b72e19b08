/** Bounded fairness of the scheduler over whole runs. */
module Fairness {
  import opened Option
  import opened Handles
  import opened Sched

  /** One call of emfSchedProcess: what the program asked of the scheduler since the last call,
      the clock during the scan, which slot was run and what its callback asked for. */
  datatype Round = Round(before: seq<Action>, clock: nat -> int, ran: Option<nat>, effects: seq<Action>)

  /** The slots when the round's scan looks at them, and after the round. */
  ghost function Scanned(s: Slots, r: Round): Slots {
    ActAll(s, r.before)
  }

  ghost function Afterwards(s: Slots, r: Round): Slots {
    if r.ran.Some? then ActAll(Scanned(s, r), r.effects) else Scanned(s, r)
  }

  /** The rounds are a run of the scheduler from the given slots and cursor. */
  ghost predicate IsRun(s: Slots, next: nat, rounds: seq<Round>)
    decreases |rounds|
  {
    rounds == [] ||
    (var r := rounds[0];
     && Picks(Scanned(s, r), next, r.clock, r.ran)
     && IsRun(Afterwards(s, r), After(Scanned(s, r), next, r.ran), rounds[1..]))
  }

  /** Slot `j` is scheduled, and due whenever a scan looks at it, up to the round that runs it. */
  ghost predicate StaysDue(s: Slots, rounds: seq<Round>, j: nat)
    decreases |rounds|
  {
    rounds == [] ||
    (var r := rounds[0];
     && DueThroughout(Scanned(s, r), r.clock, j)
     && (r.ran == Some(j) || StaysDue(Afterwards(s, r), rounds[1..], j)))
  }

  ghost predicate DueThroughout(c: Slots, clock: nat -> int, j: nat) {
    j < |c| && forall k: nat :: Due(c[j], clock(k))
  }

  /** No scan of the run finds more than `m` slots. */
  ghost predicate Bounded(s: Slots, rounds: seq<Round>, m: nat)
    decreases |rounds|
  {
    rounds == [] || (Top(Scanned(s, rounds[0])) <= m && Bounded(Afterwards(s, rounds[0]), rounds[1..], m))
  }

  /** The scheduler driven through any plan of calls, the `ran` fields of the plan being ignored:
      what it does is a run. */
  method Drive(t: Scheduler, plan: seq<Round>) returns (rounds: seq<Round>)
    requires t.Valid()
    modifies t, t.sched
    ensures t.Valid() && IsRun(old(t.sched.slots), old(t.next), rounds)
    ensures |rounds| == |plan| && forall i :: 0 <= i < |plan| ==> rounds[i] == plan[i].(ran := rounds[i].ran)
    decreases |plan|
  {
    if plan == [] {
      return [];
    }
    t.Perform(plan[0].before);
    var ran := t.SchedProcess(plan[0].clock, plan[0].effects);
    var r := plan[0].(ran := if ran.Some? then Some(ran.value.schedid) else None);
    var rest := Drive(t, plan[1..]);
    rounds := [r] + rest;
    assert rounds[1..] == rest;
  }

  /** How many callbacks can run before slot `j`, in a table of at most `m` slots. */
  function Ahead(next: nat, j: nat, m: nat): (a: nat)
    requires j < m
    ensures a < m
  {
    if next <= j then j - next else if next >= m then j else m - next + j
  }

  /** A round with a due callback waiting runs something, and unless it runs that callback it
      leaves fewer ahead of it. */
  lemma RoundAdvances(c: Slots, next: nat, clock: nat -> int, ran: Option<nat>, j: nat, m: nat)
    requires DueThroughout(c, clock, j) && Top(c) <= m && Picks(c, next, clock, ran)
    ensures j < m && ran.Some?
    ensures ran != Some(j) ==> Ahead(After(c, next, ran), j, m) < Ahead(next, j, m)
  {
    var max := Top(c);
    var start := Start(next, max);
    assert Due(c[j], clock(0));
    var d := if start <= j then j - start else max - start + j;
    assert Slot(start, d, max) == j && Due(c[Slot(start, d, max)], clock(d));
    assert ran.Some?;
    var i := ran.value;
    var k :| 0 <= k < max && i == Slot(start, k, max) && Due(c[i], clock(k))
      && forall g :: 0 <= g < k ==> !Due(c[Slot(start, g, max)], clock(g));
    assert k <= d;
  }

  /** A callback that stays due runs once those ahead of it have. */
  lemma {:induction false} RunsInTurn(s: Slots, next: nat, rounds: seq<Round>, j: nat, m: nat) returns (i: nat)
    requires IsRun(s, next, rounds) && StaysDue(s, rounds, j) && Bounded(s, rounds, m)
    requires j < m && |rounds| > Ahead(next, j, m)
    ensures i <= Ahead(next, j, m) && rounds[i].ran == Some(j)
    decreases |rounds|
  {
    var r := rounds[0];
    if r.ran == Some(j) {
      return 0;
    }
    RoundAdvances(Scanned(s, r), next, r.clock, r.ran, j, m);
    i := RunsInTurn(Afterwards(s, r), After(Scanned(s, r), next, r.ran), rounds[1..], j, m);
    i := i + 1;
  }

  /** Bounded fairness: in a run whose table stays within `m` slots, a callback that stays
      scheduled and due is run by one of the first `m` calls, wherever the cursor stood, however
      the others come, go and are rescheduled. */
  lemma Fair(s: Slots, next: nat, rounds: seq<Round>, j: nat, m: nat)
    requires IsRun(s, next, rounds) && StaysDue(s, rounds, j) && Bounded(s, rounds, m)
    requires |rounds| >= m > 0
    ensures exists i :: 0 <= i < m && rounds[i].ran == Some(j)
  {
    assert j < m by {
      RoundAdvances(Scanned(s, rounds[0]), next, rounds[0].clock, rounds[0].ran, j, m);
    }
    var i := RunsInTurn(s, next, rounds, j, m);
  }

  // ----- when nothing is added

  ghost predicate AddsNone(acts: seq<Action>) {
    forall i :: 0 <= i < |acts| ==> !acts[i].Sched?
  }

  lemma {:induction false} TopFalls(s: Slots, acts: seq<Action>)
    requires AddsNone(acts)
    ensures Top(ActAll(s, acts)) <= Top(s)
    decreases |acts|
  {
    if acts != [] {
      var a := acts[0];
      TopFalls(Act(s, a), acts[1..]);
      if a.Resched? && InUse(s, a.id) {
        TopSame(s, a.id, s[a.id].value.(at := Seconds(a.delay) + a.now));
      } else if a.Unsched? && InUse(s, a.id) {
        TopFreed(s, a.id);
      }
    }
  }

  lemma {:induction false} NoneAdded(s: Slots, rounds: seq<Round>, m: nat)
    requires Top(s) <= m
    requires forall i :: 0 <= i < |rounds| ==> AddsNone(rounds[i].before) && AddsNone(rounds[i].effects)
    ensures Bounded(s, rounds, m)
    decreases |rounds|
  {
    if rounds != [] {
      var r := rounds[0];
      TopFalls(s, r.before);
      TopFalls(Scanned(s, r), r.effects);
      NoneAdded(Afterwards(s, r), rounds[1..], m);
    }
  }

  /** With no new callbacks, the present schedMax is the bound. */
  lemma FairWithoutAdditions(s: Slots, next: nat, rounds: seq<Round>, j: nat)
    requires IsRun(s, next, rounds) && StaysDue(s, rounds, j) && |rounds| >= Top(s) > 0
    requires forall i :: 0 <= i < |rounds| ==> AddsNone(rounds[i].before) && AddsNone(rounds[i].effects)
    ensures exists i :: 0 <= i < Top(s) && rounds[i].ran == Some(j)
  {
    NoneAdded(s, rounds, Top(s));
    Fair(s, next, rounds, j, Top(s));
  }

  // ----- without a bound there is no fairness

  /** Slots 0 to m-1 hold callbacks due at time 0, and the rest are free. */
  ghost predicate Full(s: Slots, m: nat) {
    m <= |s| && (forall i :: 0 <= i < m ==> Due(s[i], 0)) && forall i :: m <= i < |s| ==> s[i].None?
  }

  /** `n` rounds in which the callback run schedules one more, due at once. */
  ghost function Growing(m: nat, n: nat): (rounds: seq<Round>)
    ensures |rounds| == n && forall i :: 0 <= i < n ==> rounds[i].ran == Some(m + i)
    decreases n
  {
    if n == 0 then []
    else [Round([], (_: nat) => 0, Some(m), [Sched(0, 0, 0, 0)])] + Growing(m + 1, n - 1)
  }

  lemma FullGrows(s: Slots, m: nat)
    requires Full(s, m)
    ensures Top(s) == m
    ensures Full(ActAll(s, [Sched(0, 0, 0, 0)]), m + 1)
  {
    TopIs(s, m);
    FullEntered(s, m);
    ActOne(s, Sched(0, 0, 0, 0));
  }

  lemma ActOne(s: Slots, a: Action)
    ensures ActAll(s, [a]) == Act(s, a)
  {
    assert [a][1..] == [];
    assert ActAll(s, [a]) == ActAll(Act(s, a), []);
  }

  lemma FullEntered(s: Slots, m: nat)
    requires Full(s, m)
    ensures Full(Act(s, Sched(0, 0, 0, 0)), m + 1)
  {
    assert forall i :: 0 <= i < m ==> Due(s[i], 0) && s[i].Some?;
    assert m < |s| ==> s[m].None?;
    var cb := Callback(0, 0, m, 0);
    EnteredAt(s, cb, m, Entered(s, cb));
    assert Act(s, Sched(0, 0, 0, 0)) == Entered(s, cb);
  }

  /** A round in which the last slot runs and schedules one more. */
  ghost predicate Grows(r: Round, m: nat) {
    r.before == [] && r.ran == Some(m) && r.effects == [Sched(0, 0, 0, 0)] && forall k: nat :: r.clock(k) == 0
  }

  lemma GrowingRound(s: Slots, m: nat, r: Round)
    requires m >= 1 && Full(s, m + 1) && Grows(r, m)
    ensures Scanned(s, r) == s && Picks(s, m, r.clock, r.ran) && After(s, m, r.ran) == m + 1
    ensures Full(Afterwards(s, r), m + 2) && DueThroughout(s, r.clock, 0)
  {
    FullGrows(s, m + 1);
    assert Slot(m, 0, m + 1) == m && Due(s[m], r.clock(0));
  }

  lemma RunMore(s: Slots, next: nat, r: Round, rest: seq<Round>, j: nat)
    requires Picks(Scanned(s, r), next, r.clock, r.ran)
    requires IsRun(Afterwards(s, r), After(Scanned(s, r), next, r.ran), rest)
    requires DueThroughout(Scanned(s, r), r.clock, j) && StaysDue(Afterwards(s, r), rest, j)
    ensures IsRun(s, next, [r] + rest) && StaysDue(s, [r] + rest, j)
  {
    assert ([r] + rest)[1..] == rest;
  }

  ghost predicate AllGrow(rounds: seq<Round>, m: nat)
    decreases |rounds|
  {
    rounds == [] || (Grows(rounds[0], m) && AllGrow(rounds[1..], m + 1))
  }

  lemma {:induction false} GrowingGrows(m: nat, n: nat)
    ensures AllGrow(Growing(m, n), m)
    decreases n
  {
    if n > 0 {
      GrowingGrows(m + 1, n - 1);
      assert Growing(m, n)[1..] == Growing(m + 1, n - 1);
    }
  }

  /** Such rounds pass over a due callback in slot 0. */
  lemma {:induction false} PassesOver(s: Slots, m: nat, rounds: seq<Round>)
    requires m >= 1 && Full(s, m + 1) && AllGrow(rounds, m)
    ensures IsRun(s, m, rounds) && StaysDue(s, rounds, 0)
    decreases |rounds|
  {
    if rounds != [] {
      var r, rest := rounds[0], rounds[1..];
      assert rounds == [r] + rest;
      GrowingRound(s, m, r);
      PassesOver(Afterwards(s, r), m + 1, rest);
      RunMore(s, m, r, rest, 0);
    }
  }

  /** Runs of every length pass over a due callback in slot 0. */
  lemma Starves(s: Slots, m: nat, n: nat)
    requires m >= 1 && Full(s, m + 1)
    ensures IsRun(s, m, Growing(m, n)) && StaysDue(s, Growing(m, n), 0)
    ensures forall i :: 0 <= i < n ==> Growing(m, n)[i].ran != Some(0)
  {
    GrowingGrows(m, n);
    PassesOver(s, m, Growing(m, n));
  }
}
