/** The order in which a run queue serves its tasks. The run remembers, for every task, the event that last queued it; the
    lists of both arrays turn out to be in that order, so that among equals the one that has waited longest runs. */
module QueueOrder {
  import Words
  import opened RunQueues

  type Stamps = map<Task, nat>

  function At(st: Stamps, t: Task): nat { if t in st then st[t] else 0 }

  /** Event number `n` queues a task: a wake-up of one that is off the queue, or the running task's own return. */
  ghost function Stamped(s: State, e: Event, st: Stamps, n: nat): Stamps {
    match e
    case Wake(t) => if t in s.onRq then st else st[t := n]
    case Leave(_) => st
    case Decide(running, _) => if running && s.curr.Some? then st[s.curr.value := n] else st
  }

  /** By the time of queueing, strictly, all before event `n`. */
  ghost predicate Sorted(l: seq<Task>, st: Stamps, n: nat) {
    (forall i, j :: 0 <= i < j < |l| ==> At(st, l[i]) < At(st, l[j])) && forall i :: 0 <= i < |l| ==> At(st, l[i]) < n
  }

  ghost predicate Rows(qs: seq<PrioQueue>, st: Stamps, n: nat) {
    forall p :: 0 <= p < |qs| ==> Sorted(qs[p].tasks, st, n)
  }

  ghost predicate Ordered(s: State, st: Stamps, n: nat) {
    Rows(s.active, st, n) && Rows(s.expired, st, n)
  }

  /** No list has the task. */
  ghost predicate Absent(qs: seq<PrioQueue>, t: Task) {
    forall p :: 0 <= p < |qs| ==> t !in qs[p].tasks
  }

  lemma OffQueue(s: State, t: Task)
    requires Valid(s) && t !in s.onRq
    ensures Absent(s.active, t) && Absent(s.expired, t)
  {
    hide Total, Once, In;
    forall p | 0 <= p < MAX_PRIO ensures t !in s.active[p].tasks { RowIn(s.active, s.activeMap, p, t); }
    forall p | 0 <= p < MAX_PRIO ensures t !in s.expired[p].tasks { RowIn(s.expired, s.expiredMap, p, t); }
  }

  lemma RowIn(qs: seq<PrioQueue>, map_: seq<nat>, p: nat, t: Task)
    requires Shaped(qs, map_) && Agrees(qs, map_) && p < MAX_PRIO
    ensures t in qs[p].tasks ==> t.prio == p && In(qs, t)
  {
    assert QueueOk(qs[p], p, Words.BitAt(map_, p));
  }

  lemma {:induction false} WithoutSorted(l: seq<Task>, t: Task, st: Stamps, n: nat)
    requires Sorted(l, st, n)
    ensures Sorted(Without(l, t), st, n) && forall x :: x in Without(l, t) ==> x in l
    decreases |l|
  {
    if l != [] {
      SortedTail(l, st, n);
      if l[0] != t {
        WithoutSorted(l[1..], t, st, n);
        SortedCons(l[0], Without(l[1..], t), l[1..], st, n);
      }
    }
  }

  lemma SortedTail(l: seq<Task>, st: Stamps, n: nat)
    requires Sorted(l, st, n) && l != []
    ensures Sorted(l[1..], st, n) && (forall x :: x in l[1..] ==> At(st, l[0]) < At(st, x)) && At(st, l[0]) < n
  {
    forall i | 0 <= i < |l[1..]| ensures l[1..][i] == l[i + 1] {}
    forall x | x in l[1..] ensures At(st, l[0]) < At(st, x) {
      var i :| 0 <= i < |l[1..]| && l[1..][i] == x;
      assert l[i + 1] == x;
    }
  }

  lemma SortedCons(x: Task, r: seq<Task>, l: seq<Task>, st: Stamps, n: nat)
    requires Sorted(r, st, n) && (forall y :: y in r ==> y in l) && (forall y :: y in l ==> At(st, x) < At(st, y)) && At(st, x) < n
    ensures Sorted([x] + r, st, n)
  {
    var l2 := [x] + r;
    forall i, j | 0 <= i < j < |l2| ensures At(st, l2[i]) < At(st, l2[j]) {
      assert l2[j] == r[j - 1] && r[j - 1] in r;
      if i > 0 { assert l2[i] == r[i - 1]; }
    }
    forall i | 0 <= i < |l2| ensures At(st, l2[i]) < n { if i > 0 { assert l2[i] == r[i - 1]; } }
  }

  lemma SortedPush(l: seq<Task>, t: Task, st: Stamps, n: nat)
    requires Sorted(l, st, n) && t !in l
    ensures Sorted(l + [t], st[t := n], n + 1) && Sorted(l, st[t := n], n + 1)
  {
    forall i | 0 <= i < |l| ensures At(st[t := n], l[i]) == At(st, l[i]) { assert l[i] in l; }
  }

  lemma RowsPush(qs: seq<PrioQueue>, t: Task, st: Stamps, n: nat)
    requires Rows(qs, st, n) && Absent(qs, t) && t.prio < |qs|
    ensures Rows(Push(qs, t), st[t := n], n + 1) && Rows(qs, st[t := n], n + 1)
  {
    hide Sorted;
    forall p | 0 <= p < |qs| ensures Sorted(Push(qs, t)[p].tasks, st[t := n], n + 1) && Sorted(qs[p].tasks, st[t := n], n + 1) {
      SortedPush(qs[p].tasks, t, st, n);
    }
  }

  lemma RowsUnlink(s: State, t: Task, st: Stamps, n: nat)
    requires Ordered(s, st, n) && Well(s) && t.prio < MAX_PRIO
    ensures Ordered(Dequeue(s, t), st, n)
  {
    hide Sorted, Without, Words.ClearAt;
    WithoutSorted(s.active[t.prio].tasks, t, st, n);
    WithoutSorted(s.expired[t.prio].tasks, t, st, n);
  }

  lemma Later(s: State, st: Stamps, n: nat)
    requires Ordered(s, st, n)
    ensures Ordered(s, st, n + 1)
  {
    forall p | 0 <= p < |s.active| ensures Sorted(s.active[p].tasks, st, n + 1) { assert Sorted(s.active[p].tasks, st, n); }
    forall p | 0 <= p < |s.expired| ensures Sorted(s.expired[p].tasks, st, n + 1) { assert Sorted(s.expired[p].tasks, st, n); }
  }

  lemma TurnedOrdered(s: State, st: Stamps, n: nat)
    requires Well(s) && Ordered(s, st, n)
    ensures Ordered(Turned(s), st, n)
  {
    hide Rows, Lowest;
  }

  lemma QueuedOrdered(s: State, t: Task, next: Option<Task>, sliceUp: bool, st: Stamps, n: nat)
    requires Valid(s) && t !in s.onRq && t.prio < MAX_PRIO && Ordered(s, st, n)
    ensures Ordered(Requeued(s, t, next, true, sliceUp), st[t := n], n + 1) && Ordered(Enqueue(s, t), st[t := n], n + 1)
  {
    OffQueue(s, t);
    hide Rows, Absent, Agrees, Total, Once, Push;
    RowsPush(s.active, t, st, n);
    RowsPush(s.expired, t, st, n);
  }

  /** Every step keeps both arrays in the order of queueing. */
  lemma OrderStep(s: State, e: Event, st: Stamps, n: nat)
    requires Good(s) && Allowed(s, e) && Ordered(s, st, n)
    ensures Ordered(Step(s, e), Stamped(s, e, st, n), n + 1)
  {
    hide Ordered, Agrees, Total, Once, Lowest, Taken, Turned, First, Requeued, Enqueue, Dequeue;
    Later(s, st, n);
    match e
    case Wake(t) => if t !in s.onRq { QueuedOrdered(s, t, None, false, st, n); }
    case Leave(t) =>
      RowsUnlink(s, t, st, n);
      Later(Dequeue(s, t), st, n);
    case Decide(running, sliceUp) => DecideOrdered(s, running, sliceUp, st, n);
  }

  lemma TakenOrdered(s: State, st: Stamps, n: nat)
    requires Good(s) && Ordered(s, st, n)
    ensures Ordered(Taken(s), st, n)
  {
    hide Ordered, Agrees, Total, Once, Dequeue;
    if s.curr.Some? && s.curr.value in s.onRq { RowsUnlink(s, s.curr.value, st, n); }
  }

  lemma DecideOrdered(s: State, running: bool, sliceUp: bool, st: Stamps, n: nat)
    requires Good(s) && Ordered(s, st, n)
    ensures Ordered(Schedule(s, running, sliceUp), Stamped(s, Decide(running, sliceUp), st, n), n + 1)
  {
    hide Ordered, Agrees, Total, Once, Lowest, Taken, Turned, First, Requeued;
    TakenKeeps(s);
    TakenOrdered(s, st, n);
    PickNextTask(Taken(s));
    TurnedOrdered(Taken(s), st, n);
    var s2 := Turned(Taken(s));
    Later(s2, st, n);
    if s.curr.Some? {
      if running { QueuedOrdered(s2, s.curr.value, First(s2), sliceUp, st, n); }
      else { SameRows(s2, Requeued(s2, s.curr.value, First(s2), running, sliceUp), s.curr.value, First(s2), sliceUp, st, n + 1); }
    } else {
      CurrOnly(s2, First(s2), st, n + 1);
    }
  }

  lemma SameRows(s: State, s': State, c: Task, next: Option<Task>, sliceUp: bool, st: Stamps, n: nat)
    requires Well(s) && c.prio < MAX_PRIO && Ordered(s, st, n) && s' == Requeued(s, c, next, false, sliceUp)
    ensures Ordered(s', st, n)
  {
  }

  lemma CurrOnly(s: State, next: Option<Task>, st: Stamps, n: nat)
    requires Ordered(s, st, n)
    ensures Ordered(s.(curr := next), st, n)
  {
  }

  // ---- over runs

  ghost function StampsOf(trace: seq<State>, es: seq<Event>, n: nat): Stamps
    requires n <= |es| && |trace| == |es| + 1
  {
    if n == 0 then map[] else Stamped(trace[n - 1], es[n - 1], StampsOf(trace, es, n - 1), n - 1)
  }

  /** Over any run without a lone expiry, both arrays list the tasks of each priority in the order of the events that last
      queued them. */
  lemma {:induction false} OrderedRun(trace: seq<State>, es: seq<Event>, n: nat)
    requires Run(trace, es) && NoLoneExpiry(trace, es) && n <= |es|
    ensures Good(trace[n]) && Ordered(trace[n], StampsOf(trace, es, n), n)
  {
    hide Good, Ordered, Step, Allowed, LoneExpiry, Stamped, Empty, LoadIs, AllDropped;
    RunsAreSafe(trace, es, n);
    if n == 0 {
      EmptyOrdered();
    } else {
      OrderedRun(trace, es, n - 1);
      assert Next(trace[n - 1], es[n - 1], trace[n]);
      OrderStep(trace[n - 1], es[n - 1], StampsOf(trace, es, n - 1), n - 1);
    }
  }

  lemma EmptyOrdered()
    ensures Ordered(Empty(), map[], 0)
  {
    EmptyAgrees();
    hide NoTasks, NoBits, Agrees;
    SortedNone();
  }

  lemma SortedNone()
    ensures Sorted([], map[], 0)
  {
  }

  // ---- what a decision runs

  /** `y` waits in `qs` and comes first: no other waiting task is more urgent, or as urgent and queued earlier. */
  ghost predicate ComesFirst(qs: seq<PrioQueue>, curr: Option<Task>, y: Task, st: Stamps) {
    In(qs, y) && curr != Some(y) &&
    forall x :: In(qs, x) && curr != Some(x) ==> y.prio < x.prio || (y.prio == x.prio && At(st, y) <= At(st, x))
  }

  ghost predicate SomeoneWaits(qs: seq<PrioQueue>, curr: Option<Task>) {
    exists x :: In(qs, x) && curr != Some(x)
  }

  /** What a decision runs next, in terms of the state before it: the first of the waiting active tasks; if none waits there,
      the first of the expired ones; if none waits at all, nothing changes hands. */
  lemma DecideRuns(s: State, running: bool, sliceUp: bool, st: Stamps, n: nat)
    requires Good(s) && Ordered(s, st, n)
    ensures var s' := Schedule(s, running, sliceUp);
      if SomeoneWaits(s.active, s.curr) then s'.curr.Some? && ComesFirst(s.active, s.curr, s'.curr.value, st)
      else if SomeoneWaits(s.expired, s.curr) then s'.curr.Some? && ComesFirst(s.expired, s.curr, s'.curr.value, st)
      else s'.curr == s.curr
  {
    hide Ordered, Agrees, Total, Once, Lowest, Taken, Turned, First, Requeued, In, Best, Vacant, ComesFirst, SomeoneWaits;
    TakenKeeps(s);
    TakenOrdered(s, st, n);
    TakenIn(s);
    var s1 := Taken(s);
    PickNextTask(s1);
    var next := First(Turned(s1));
    ScheduleCurr(s, running, sliceUp);
    VacantMeans(s.active, s1.active, s1.activeMap, s.curr);
    VacantMeans(s.expired, s1.expired, s1.expiredMap, s.curr);
    if !Vacant(s1.active) {
      BestFirst(s.active, s1.active, s1.activeMap, s.curr, next.value, st, n, s1);
    } else if !Vacant(s1.expired) {
      BestFirst(s.expired, s1.expired, s1.expiredMap, s.curr, next.value, st, n, s1);
    }
  }

  lemma ScheduleCurr(s: State, running: bool, sliceUp: bool)
    requires Well(s) && (s.curr.Some? ==> s.curr.value.prio < MAX_PRIO)
    ensures var next := First(Turned(Taken(s)));
            Schedule(s, running, sliceUp).curr == if next.Some? then next else s.curr
  {
    hide Lowest, First, Words.SetAt, Words.ClearAt, Push, Unlink;
  }

  /** With the running task taken off, exactly the waiting ones are left. */
  lemma TakenIn(s: State)
    requires Good(s)
    ensures forall x :: In(Taken(s).active, x) <==> In(s.active, x) && s.curr != Some(x)
    ensures forall x :: In(Taken(s).expired, x) <==> In(s.expired, x) && s.curr != Some(x)
  {
    hide Agrees, Total, Without, Words.ClearAt;
    if s.curr.Some? {
      var c := s.curr.value;
      if c in s.onRq {
        OnceApart(s.active[c.prio], s.expired[c.prio], c);
        UnlinkElsewhere(s.expired, c);
        forall x | x != c ensures x in Without(s.active[c.prio].tasks, c) <==> x in s.active[c.prio].tasks {
          WithoutMembers(s.active[c.prio].tasks, c, x);
        }
      }
    }
  }

  lemma VacantMeans(qs: seq<PrioQueue>, qs1: seq<PrioQueue>, map_: seq<nat>, curr: Option<Task>)
    requires Shaped(qs1, map_) && Agrees(qs1, map_)
    requires forall x :: In(qs1, x) <==> In(qs, x) && curr != Some(x)
    ensures Vacant(qs1) <==> !SomeoneWaits(qs, curr)
  {
    hide Agrees;
    SomebodyIn(qs1, map_);
    if !Vacant(qs1) {
      var x :| In(qs1, x);
      assert In(qs, x) && curr != Some(x);
    }
  }

  lemma BestFirst(qs: seq<PrioQueue>, qs1: seq<PrioQueue>, map_: seq<nat>, curr: Option<Task>, y: Task, st: Stamps, n: nat, s1: State)
    requires Shaped(qs1, map_) && Agrees(qs1, map_) && Best(qs1, y)
    requires Ordered(s1, st, n) && (qs1 == s1.active || qs1 == s1.expired)
    requires forall x :: In(qs1, x) <==> In(qs, x) && curr != Some(x)
    ensures ComesFirst(qs, curr, y, st)
  {
    hide Agrees, Shaped, Sorted;
    assert In(qs1, y);
    assert Sorted(qs1[y.prio].tasks, st, n);
    HeadFirst(qs1[y.prio].tasks, st, n);
    forall x | In(qs, x) && curr != Some(x) ensures y.prio < x.prio || (y.prio == x.prio && At(st, y) <= At(st, x)) {
      assert In(qs1, x);
    }
  }

  lemma HeadFirst(l: seq<Task>, st: Stamps, n: nat)
    requires Sorted(l, st, n)
    ensures forall x :: x in l ==> At(st, l[0]) <= At(st, x)
  {
    forall x | x in l ensures At(st, l[0]) <= At(st, x) {
      var i :| 0 <= i < |l| && l[i] == x;
    }
  }

  /** What becomes of the task that was running: still runnable, it is back in a queue, the expired one exactly if its slice
      is up; otherwise it is in none. No other task leaves or joins. */
  lemma DecideKeepsTasks(s: State, running: bool, sliceUp: bool)
    requires Good(s)
    ensures var s' := Schedule(s, running, sliceUp);
      if s.curr.None? then s'.onRq == s.onRq
      else if running then s'.onRq == s.onRq + {s.curr.value} && (if sliceUp then In(s'.expired, s.curr.value) else In(s'.active, s.curr.value))
      else s'.onRq == s.onRq - {s.curr.value}
  {
    hide Agrees, Total, Once, Lowest, Taken, Turned, First, In, Enqueue, Expire;
    TakenKeeps(s);
    PickNextTask(Taken(s));
    var s2 := Turned(Taken(s));
    if s.curr.Some? && running {
      EnqueueKeeps(s2, s.curr.value);
      ExpireKeeps(s2, s.curr.value);
      QueuedTask(s2, s.curr.value);
    }
  }

  lemma QueuedTask(s: State, t: Task)
    requires Well(s) && t.prio < MAX_PRIO
    ensures Enqueue(s, t).onRq == s.onRq + {t} && Expire(s, t).onRq == s.onRq + {t}
  {
  }

  /** First come, first served: over any run without a lone expiry, of two tasks of one priority that wait in the same array,
      the one queued later is not run by a decision. */
  lemma FirstComeFirstServed(trace: seq<State>, es: seq<Event>, n: nat, a: Task, b: Task)
    requires Run(trace, es) && NoLoneExpiry(trace, es) && n < |es| && es[n].Decide? && a.prio == b.prio
    requires var st := StampsOf(trace, es, n); At(st, a) < At(st, b)
    requires trace[n].curr != Some(a) && trace[n].curr != Some(b)
    requires In(trace[n].active, a) && In(trace[n].active, b)
    ensures trace[n + 1].curr != Some(b)
  {
    OrderedRun(trace, es, n);
    hide Good, Ordered, Schedule, StampsOf, NoLoneExpiry, In;
    assert Next(trace[n], es[n], trace[n + 1]);
    DecideRuns(trace[n], es[n].running, es[n].sliceUp, StampsOf(trace, es, n), n);
    assert In(trace[n].active, a);
  }

  /** Two tasks woken one after the other on an empty queue run in that order. */
  lemma TwoInTurn(a: Task, b: Task)
    requires a != b && a.prio == b.prio < MAX_PRIO
    ensures Good(Enqueue(Empty(), a))
    ensures var s := Enqueue(Enqueue(Empty(), a), b);
      Good(s) && Schedule(s, false, false).curr == Some(a)
  {
    hide Agrees, Total, Once, In, Empty, Enqueue, Schedule, Ordered;
    EmptyGood();
    EmptyHas();
    EmptyOrdered();
    Arrives(Empty(), a, map[], 0);
    var s1 := Enqueue(Empty(), a);
    Arrives(s1, b, map[a := 0], 1);
    var s2 := Enqueue(s1, b);
    DecideRuns(s2, false, false, map[a := 0][b := 1], 2);
    StaysIn(s1, a, b);
    assert In(s2.active, a) && s2.curr == None;
    assert SomeoneWaits(s2.active, s2.curr);
    var y := Schedule(s2, false, false).curr.value;
    assert In(s2.active, y) && y in s2.onRq;
  }

  lemma StaysIn(s: State, a: Task, b: Task)
    requires Well(s) && b.prio < MAX_PRIO && In(s.active, a)
    ensures In(Enqueue(s, b).active, a)
  {
    StillIn(s, b);
  }

  lemma Arrives(s: State, t: Task, st: Stamps, n: nat)
    requires Good(s) && t.prio < MAX_PRIO && t !in s.onRq && Ordered(s, st, n)
    ensures var s' := Enqueue(s, t);
      Good(s') && Ordered(s', st[t := n], n + 1) && s'.onRq == s.onRq + {t} && s'.curr == s.curr && In(s'.active, t)
  {
    hide Agrees, Total, Once, Ordered;
    AddedKeeps(s, t);
    EnqueueKeeps(s, t);
    QueuedOrdered(s, t, None, false, st, n);
  }
}
