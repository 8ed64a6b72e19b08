/** The round-robin callback scheduler over the handle table: which callback a call runs, and
    how many calls a due callback can be passed over. */
module Sched {
  import opened Option
  import opened Handles

  datatype Callback = Callback(routine: int, arg: int, schedid: nat, at: int)

  type Slots = seq<Option<Callback>>

  /** A schedule id as callers hold it; -1 is none. */
  type Handle = i: int | -1 <= i witness -1

  /** A call into the scheduler, with the clock it reads. */
  datatype Action =
    | Sched(delay: int, routine: int, arg: int, now: int)
    | Resched(id: Handle, delay: int, now: int)
    | Unsched(id: Handle)

  /** Milliseconds to seconds, dividing towards zero. */
  function Seconds(delay: int): int {
    var ms := delay + 500;
    if ms >= 0 then ms / 1000 else -((-ms) / 1000)
  }

  /** Seconds rounds a delay to the nearest second, halves up; below -500 the division towards
      zero takes negative delays up to the second above. */
  lemma SecondsRounds(delay: int)
    ensures delay >= -500 ==> 1000 * Seconds(delay) - 500 <= delay < 1000 * Seconds(delay) + 500
    ensures delay < -500 ==> 1000 * Seconds(delay) - 1500 < delay <= 1000 * Seconds(delay) - 500
  {
  }

  predicate InUse(s: Slots, id: Handle) {
    0 <= id < |s| && s[id].Some?
  }

  /** All callbacks but those in slot `id` are scheduled as before. */
  ghost predicate OthersKept(s: Slots, r: Slots, id: Handle) {
    forall i: Handle {:trigger InUse(s, i)} {:trigger InUse(r, i)} :: i != id ==>
      (InUse(s, i) <==> InUse(r, i)) && (InUse(s, i) ==> r[i] == s[i])
  }

  /** What an action does to the slots. */
  function Act(s: Slots, a: Action): Slots {
    match a
    case Sched(d, proc, arg, now) => Entered(s, Callback(proc, arg, FirstFree(s), Seconds(d) + now))
    case Resched(id, d, now) => if InUse(s, id) then s[id := Some(s[id].value.(at := Seconds(d) + now))] else s
    case Unsched(id) => if InUse(s, id) then Freed(s, id) else s
  }

  function ActAll(s: Slots, acts: seq<Action>): Slots
    decreases |acts|
  {
    if acts == [] then s else ActAll(Act(s, acts[0]), acts[1..])
  }

  /** Every callback knows its own slot. */
  ghost predicate Named(s: Slots) {
    forall i :: 0 <= i < |s| && s[i].Some? ==> s[i].value.schedid == i
  }

  lemma ActKeepsNamed(s: Slots, a: Action)
    requires Named(s)
    ensures Named(Act(s, a))
  {
    if a.Sched? {
      var cb := Callback(a.routine, a.arg, FirstFree(s), Seconds(a.delay) + a.now);
      EnteredAt(s, cb, FirstFree(s), Act(s, a));
    }
  }

  // ----- the cyclic scan

  predicate Due(c: Option<Callback>, now: int) {
    c.Some? && c.value.at <= now
  }

  /** The slot `k` places after `start`, going round below `max`. */
  function Slot(start: nat, k: nat, max: nat): (i: nat)
    requires start < max && k < max
    ensures i < max
  {
    if start + k < max then start + k else start + k - max
  }

  /** Where a scan starts: `next`, or 0 once the table has shrunk below it. */
  function Start(next: nat, max: nat): nat {
    if next >= max then 0 else next
  }

  /** The first due slot in cyclic order, `clock(k)` being the time when the scan is `k` places
      along. */
  ghost predicate Picks(s: Slots, next: nat, clock: nat -> int, ran: Option<nat>) {
    var max := Top(s);
    var start := Start(next, max);
    match ran
    case None => forall k :: 0 <= k < max ==> !Due(s[Slot(start, k, max)], clock(k))
    case Some(i) =>
      exists k :: 0 <= k < max && i == Slot(start, k, max) && Due(s[i], clock(k))
        && forall j :: 0 <= j < k ==> !Due(s[Slot(start, j, max)], clock(j))
  }

  /** The cursor after a call that ran `ran`. */
  function After(s: Slots, next: nat, ran: Option<nat>): nat {
    match ran
    case None => if Top(s) == 0 then next else Start(next, Top(s))
    case Some(i) => i + 1
  }

  /** Changing what a slot in use holds moves neither the top nor the count. */
  lemma TopSame(s: Slots, i: nat, x: Callback)
    requires i < |s| && s[i].Some?
    ensures Top(s[i := Some(x)]) == Top(s) && Count(s[i := Some(x)]) == Count(s)
  {
    TopIs(s[i := Some(x)], Top(s));
    CountSet(s, i, Some(x));
  }

  /** Filling the zeroed entry just made is entering the callback. */
  lemma FillEntry(was: Slots, blank: Callback, cb: Callback, r: Slots)
    requires r == Entered(was, blank) && cb.schedid == FirstFree(was)
    ensures cb.schedid < |r| && r[cb.schedid := Some(cb)] == Entered(was, cb)
    ensures InUse(Entered(was, cb), cb.schedid) && Entered(was, cb)[cb.schedid] == Some(cb)
    ensures Named(was) ==> Named(Entered(was, cb))
    ensures Top(Entered(was, cb)) == Top(r) && Count(Entered(was, cb)) == Count(r)
  {
    EnteredAt(was, blank, cb.schedid, r);
    TopSame(r, cb.schedid, cb);
    assert r[cb.schedid := Some(cb)] == Grown(was)[cb.schedid := Some(cb)];
    EnteredAt(was, cb, cb.schedid, Entered(was, cb));
  }

  /** Scheduling a callback fills a slot that was free and keeps all others. */
  lemma SchedKeepsOthers(s: Slots, delay: int, routine: int, arg: int, now: int)
    ensures var id, r := FirstFree(s), Act(s, Sched(delay, routine, arg, now));
            && !InUse(s, id) && OthersKept(s, r, id)
            && InUse(r, id) && r[id] == Some(Callback(routine, arg, id, Seconds(delay) + now))
  {
    EnteredIs(s, Callback(routine, arg, FirstFree(s), Seconds(delay) + now));
  }

  class Scheduler {
    const sched: HandleMap<Callback>
    var schedMax: nat
    var next: nat

    /** schedMax is one past the largest slot in use. */
    ghost predicate Valid()
      reads this, sched
    {
      sched.Valid() && schedMax == Top(sched.slots) && Named(sched.slots)
    }

    constructor ()
      ensures Valid() && fresh(sched) && sched.slots == [] && next == 0
    {
      sched := new HandleMap<Callback>();
      schedMax, next := 0, 0;
    }

    /** emfSchedCallback. */
    method SchedCallback(delay: int, routine: int, arg: int, now: int) returns (schedid: nat)
      requires Valid()
      modifies this`schedMax, sched
      ensures Valid() && sched.slots == Act(old(sched.slots), Sched(delay, routine, arg, now))
      ensures InUse(sched.slots, schedid)
      ensures sched.slots[schedid] == Some(Callback(routine, arg, schedid, Seconds(delay) + now))
    {
      ghost var was := sched.slots;
      var blank := Callback(0, 0, 0, 0);
      schedid, schedMax := sched.AllocEntry(schedMax, blank);
      var cb := Callback(routine, arg, schedid, Seconds(delay) + now);
      FillEntry(was, blank, cb, sched.slots);
      sched.slots := sched.slots[schedid := Some(cb)];
    }

    /** emfReschedCallback. */
    method ReschedCallback(schedid: Handle, delay: int, now: int)
      requires Valid()
      modifies sched
      ensures Valid() && sched.slots == Act(old(sched.slots), Resched(schedid, delay, now))
      ensures InUse(sched.slots, schedid) <==> InUse(old(sched.slots), schedid)
      ensures InUse(old(sched.slots), schedid) ==>
                sched.slots[schedid] == Some(old(sched.slots)[schedid].value.(at := Seconds(delay) + now))
      ensures OthersKept(old(sched.slots), sched.slots, schedid)
    {
      if schedid == -1 || schedid >= schedMax || sched.slots[schedid].None? {
        return;
      }
      ActKeepsNamed(sched.slots, Resched(schedid, delay, now));
      var cb := sched.slots[schedid].value.(at := Seconds(delay) + now);
      TopSame(sched.slots, schedid, cb);
      sched.slots := sched.slots[schedid := Some(cb)];
    }

    /** emfUnschedCallback. */
    method UnschedCallback(schedid: Handle)
      requires Valid()
      modifies this`schedMax, sched
      ensures Valid() && sched.slots == Act(old(sched.slots), Unsched(schedid))
      ensures !InUse(sched.slots, schedid) && OthersKept(old(sched.slots), sched.slots, schedid)
    {
      if schedid == -1 || schedid >= schedMax || sched.slots[schedid].None? {
        return;
      }
      ActKeepsNamed(sched.slots, Unsched(schedid));
      schedMax := sched.Free(schedid);
    }

    /** What a callback, or the program between calls, asks of the scheduler. */
    method Perform(acts: seq<Action>)
      requires Valid()
      modifies this`schedMax, sched
      ensures Valid() && sched.slots == ActAll(old(sched.slots), acts)
    {
      assert acts[0..] == acts;
      for i := 0 to |acts|
        invariant Valid() && ActAll(sched.slots, acts[i..]) == ActAll(old(sched.slots), acts)
      {
        assert acts[i..][1..] == acts[i + 1..];
        match acts[i]
        case Sched(d, proc, arg, now) => var id := SchedCallback(d, proc, arg, now);
        case Resched(id, d, now) => ReschedCallback(id, d, now);
        case Unsched(id) => UnschedCallback(id);
      }
    }

    /** The scan loop of emfSchedProcess. */
    method Scan(clock: nat -> int) returns (ran: Option<nat>)
      requires Valid() && next < schedMax
      ensures Picks(sched.slots, next, clock, ran)
    {
      var schedid := next;
      var k := 0;   // places along the scan, to index the clock's readings
      while true
        invariant 0 <= k < schedMax && schedid == Slot(next, k, schedMax)
        invariant forall j :: 0 <= j < k ==> !Due(sched.slots[Slot(next, j, schedMax)], clock(j))
        decreases schedMax - k
      {
        if sched.slots[schedid].Some? && sched.slots[schedid].value.at <= clock(k) {
          return Some(schedid);
        }
        schedid := schedid + 1;
        if schedid >= schedMax {
          schedid := 0;
        }
        if schedid == next {
          return None;
        }
        k := k + 1;
      }
    }

    /** emfSchedProcess: runs at most one callback, the first due in cyclic order from `next`,
        whose own calls into the scheduler are `effects`. */
    method SchedProcess(clock: nat -> int, effects: seq<Action>) returns (ran: Option<Callback>)
      requires Valid()
      modifies this`schedMax, this`next, sched
      ensures Valid()
      ensures Picks(old(sched.slots), old(next), clock, if ran.Some? then Some(ran.value.schedid) else None)
      ensures ran.Some? ==> InUse(old(sched.slots), ran.value.schedid)
      ensures ran.Some? ==> ran == old(sched.slots)[ran.value.schedid]
      ensures sched.slots == if ran.Some? then ActAll(old(sched.slots), effects) else old(sched.slots)
      ensures next == After(old(sched.slots), old(next), if ran.Some? then Some(ran.value.schedid) else None)
    {
      if schedMax == 0 {
        return None;
      }
      if next >= schedMax {
        next := 0;
      }
      var schedid := Scan(clock);
      match schedid
      case None => ran := None;
      case Some(i) =>
        ran := sched.slots[i];
        Perform(effects);
        next := i + 1;
    }
  }
}
