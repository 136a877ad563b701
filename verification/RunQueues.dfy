/** One CPU's O(1) run queue: two arrays of priority queues, each with a bitmap of its non-empty priorities, as in
    kernel/sched.c. The state of a queue is a value; class `RunQueue` performs the same steps in place. */
module RunQueues {
  import opened Words

  const MAX_PRIO: nat := 140
  const BITMAP_WORDS: nat := 8

  datatype Option<T> = None | Some(value: T)

  /** A task together with the priority it is queued under. */
  datatype Task = Task(id: nat, prio: nat)

  datatype PrioQueue = PrioQueue(tasks: seq<Task>, count: int)

  /** `onRq` holds the tasks of this CPU whose `on_rq` flag is set; `curr` is None for the idle task and for NULL. */
  datatype State = State(active: seq<PrioQueue>, activeMap: seq<nat>, expired: seq<PrioQueue>, expiredMap: seq<nat>,
                         nrRunning: int, load: nat, onRq: set<Task>, curr: Option<Task>)

  // ---- what the bitmaps, counts and lists mean

  ghost predicate Shaped(qs: seq<PrioQueue>, map_: seq<nat>) {
    |qs| == MAX_PRIO && |map_| == BITMAP_WORDS && IsBitmap(map_)
  }

  ghost predicate Well(s: State) {
    Shaped(s.active, s.activeMap) && Shaped(s.expired, s.expiredMap)
  }

  ghost predicate QueueOk(q: PrioQueue, p: nat, bit: bool) {
    q.count == |q.tasks| && (bit <==> q.tasks != []) && forall t <- q.tasks :: t.prio == p
  }

  /** A bit is set iff its queue is non-empty iff its count is positive, and no bit lies past the last priority. */
  ghost predicate Agrees(qs: seq<PrioQueue>, map_: seq<nat>)
    requires Shaped(qs, map_)
  {
    (forall p :: 0 <= p < MAX_PRIO ==> QueueOk(qs[p], p, BitAt(map_, p))) &&
    InRange(map_)
  }

  ghost predicate InRange(map_: seq<nat>)
    requires |map_| == BITMAP_WORDS
  {
    forall p :: MAX_PRIO <= p < 64 * BITMAP_WORDS ==> !BitAt(map_, p)
  }

  predicate In(qs: seq<PrioQueue>, t: Task) {
    t.prio < |qs| && t in qs[t.prio].tasks
  }

  /** No task is queued twice at one priority, in either array. */
  ghost predicate Once(a: PrioQueue, e: PrioQueue) {
    forall t: Task :: multiset(a.tasks)[t] + multiset(e.tasks)[t] <= 1
  }

  function Total(qs: seq<PrioQueue>): nat {
    if |qs| == 0 then 0 else Total(qs[..|qs| - 1]) + |qs[|qs| - 1].tasks|
  }

  ghost predicate Valid(s: State) {
    Well(s) && Agrees(s.active, s.activeMap) && Agrees(s.expired, s.expiredMap) &&
    (forall p :: 0 <= p < MAX_PRIO ==> Once(s.active[p], s.expired[p])) &&
    (forall t :: t in s.onRq <==> In(s.active, t) || In(s.expired, t)) &&
    s.nrRunning == Total(s.active) + Total(s.expired)
  }

  /** Nothing queued. */
  function NoTasks(): seq<PrioQueue> {
    seq(MAX_PRIO, i => PrioQueue([], 0))
  }

  function NoBits(): seq<nat> {
    [0, 0, 0, 0, 0, 0, 0, 0]
  }

  function Empty(): State {
    State(NoTasks(), NoBits(), NoTasks(), NoBits(), 0, 0, {}, None)
  }

  // ---- the steps

  function Push(qs: seq<PrioQueue>, t: Task): (r: seq<PrioQueue>)
    requires t.prio < |qs|
    ensures |r| == |qs|
  {
    qs[t.prio := PrioQueue(qs[t.prio].tasks + [t], qs[t.prio].count + 1)]
  }

  function Less(x: nat, d: nat): nat {
    (x - d) % U64
  }

  /** `enqueue_task` */
  function Enqueue(s: State, t: Task): State
    requires Well(s) && t.prio < MAX_PRIO
  {
    s.(active := Push(s.active, t), activeMap := SetAt(s.activeMap, t.prio), nrRunning := s.nrRunning + 1,
       onRq := s.onRq + {t}, load := (s.load + (MAX_PRIO - t.prio)) % U64)
  }

  /** `expire_task` adds to the other array and does not give the load back. */
  function Expire(s: State, t: Task): State
    requires Well(s) && t.prio < MAX_PRIO
  {
    s.(expired := Push(s.expired, t), expiredMap := SetAt(s.expiredMap, t.prio), nrRunning := s.nrRunning + 1,
       onRq := s.onRq + {t})
  }

  function Without(ts: seq<Task>, t: Task): (r: seq<Task>)
    ensures multiset(r) == multiset(ts) - multiset{t}
    ensures t in ts ==> |r| == |ts| - 1
    ensures t !in ts ==> r == ts
  {
    if |ts| == 0 then ts
    else if ts[0] == t then
      assert ts == [t] + ts[1..]; ts[1..]
    else
      assert ts == [ts[0]] + ts[1..]; [ts[0]] + Without(ts[1..], t)
  }

  /** `list_del` on the task's link, whichever list of its priority it is in. */
  function Unlink(qs: seq<PrioQueue>, t: Task): (r: seq<PrioQueue>)
    requires t.prio < |qs|
    ensures |r| == |qs|
  {
    qs[t.prio := PrioQueue(Without(qs[t.prio].tasks, t), qs[t.prio].count)]
  }

  /** `dequeue_task`: the link decides which list shrinks, but count and bit are always those of the active array. */
  function Dequeue(s: State, t: Task): State
    requires Well(s) && t.prio < MAX_PRIO
  {
    var a := Unlink(s.active, t);
    var c := a[t.prio].count - 1;
    s.(active := a[t.prio := PrioQueue(a[t.prio].tasks, c)],
       expired := Unlink(s.expired, t),
       activeMap := if c == 0 then ClearAt(s.activeMap, t.prio) else s.activeMap,
       nrRunning := s.nrRunning - 1, onRq := s.onRq - {t}, load := Less(s.load, MAX_PRIO - t.prio))
  }

  /** `swap_arrays` */
  function Swap(s: State): State {
    s.(active := s.expired, activeMap := s.expiredMap, expired := s.active, expiredMap := s.activeMap)
  }

  /** `find_first_set_bit`, from word `i` on. */
  function Lowest(ws: seq<nat>, i: nat): (r: int)
    requires i <= |ws| && IsBitmap(ws) && forall j :: 0 <= j < i ==> ws[j] == 0
    ensures r == -1 ==> forall q :: 0 <= q < 64 * |ws| ==> !BitAt(ws, q)
    ensures r != -1 ==> 0 <= r < 64 * |ws| && BitAt(ws, r) && forall q :: 0 <= q < r ==> !BitAt(ws, q)
    decreases |ws| - i
  {
    if i == |ws| then AllWordsZero(ws); -1
    else if ws[i] != 0 then FirstSetBit(ws, i); 64 * i + LowestBit(ws[i])
    else Lowest(ws, i + 1)
  }

  /** The array swap of `pick_next_task`: only when active is empty and expired is not. */
  function Turned(s: State): (r: State)
    requires Well(s)
    ensures Well(r)
  {
    if Lowest(s.activeMap, 0) < 0 && Lowest(s.expiredMap, 0) >= 0 then Swap(s) else s
  }

  /** The task `pick_next_task` returns after the swap; None is the idle task. */
  function First(s: State): Option<Task>
    requires Well(s)
  {
    var p := Lowest(s.activeMap, 0);
    if 0 <= p < |s.active| && s.active[p].tasks != [] then Some(s.active[p].tasks[0]) else None
  }

  /** `s` after `schedule_impl` took the running task off its queue. */
  function Taken(s: State): (r: State)
    requires Well(s) && (s.curr.Some? ==> s.curr.value.prio < MAX_PRIO)
    ensures Well(r)
  {
    WellDequeue(s);
    if s.curr.Some? && s.curr.value in s.onRq then Dequeue(s, s.curr.value) else s
  }

  /** What becomes of the task that was running, `c`, after `next` was picked. */
  function Requeued(s: State, c: Task, next: Option<Task>, running: bool, sliceUp: bool): State
    requires Well(s) && c.prio < MAX_PRIO
  {
    var s3 := if !running then s else if sliceUp then Expire(s, c) else Enqueue(s, c);
    if next.Some? then s3.(curr := next) else s3
  }

  /** `schedule_impl` up to the context switch: `running` and `sliceUp` are the state and time slice of the task that
      was running. */
  function Schedule(s: State, running: bool, sliceUp: bool): State
    requires Well(s) && (s.curr.Some? ==> s.curr.value.prio < MAX_PRIO)
  {
    var s2 := Turned(Taken(s));
    if s.curr.Some? then Requeued(s2, s.curr.value, First(s2), running, sliceUp)
    else if First(s2).Some? then s2.(curr := First(s2)) else s2
  }

  lemma WellDequeue(s: State)
    requires Well(s) && (s.curr.Some? ==> s.curr.value.prio < MAX_PRIO)
    ensures s.curr.Some? ==> Well(Dequeue(s, s.curr.value))
  {
    if s.curr.Some? { ClearAtBits(s.activeMap, s.curr.value.prio); }
  }

  // ---- every step keeps the agreement

  lemma {:induction false} TotalUpdate(qs: seq<PrioQueue>, p: nat, q: PrioQueue)
    requires p < |qs|
    ensures Total(qs[p := q]) == Total(qs) - |qs[p].tasks| + |q.tasks|
  {
    var n := |qs| - 1;
    if p < n {
      TotalUpdate(qs[..n], p, q);
      assert qs[p := q][..n] == qs[..n][p := q];
    } else {
      assert qs[p := q][..n] == qs[..n];
    }
  }

  lemma PushAgrees(qs: seq<PrioQueue>, map_: seq<nat>, t: Task)
    requires Shaped(qs, map_) && Agrees(qs, map_) && t.prio < MAX_PRIO
    ensures Shaped(Push(qs, t), SetAt(map_, t.prio)) && Agrees(Push(qs, t), SetAt(map_, t.prio))
    ensures Total(Push(qs, t)) == Total(qs) + 1
    ensures forall u :: In(Push(qs, t), u) <==> In(qs, u) || u == t
  {
    hide BitAt, SetAt, Total;
    SetAtBits(map_, t.prio);
    TotalUpdate(qs, t.prio, PrioQueue(qs[t.prio].tasks + [t], qs[t.prio].count + 1));
  }

  lemma PushOnce(a: PrioQueue, e: PrioQueue, t: Task)
    requires Once(a, e) && t !in a.tasks && t !in e.tasks
    ensures Once(PrioQueue(a.tasks + [t], a.count + 1), e)
    ensures Once(e, PrioQueue(a.tasks + [t], a.count + 1))
  {
  }

  lemma EnqueueKeeps(s: State, t: Task)
    requires Valid(s) && t.prio < MAX_PRIO && t !in s.onRq
    ensures Valid(Enqueue(s, t)) && In(Enqueue(s, t).active, t)
  {
    hide Agrees, Once, Total;
    PushAgrees(s.active, s.activeMap, t);
    PushOnce(s.active[t.prio], s.expired[t.prio], t);
  }

  lemma ExpireKeeps(s: State, t: Task)
    requires Valid(s) && t.prio < MAX_PRIO && t !in s.onRq
    ensures Valid(Expire(s, t)) && In(Expire(s, t).expired, t) && !In(Expire(s, t).active, t)
  {
    hide Agrees, Once, Total;
    PushAgrees(s.expired, s.expiredMap, t);
    assert Once(s.expired[t.prio], s.active[t.prio]) by { OnceFlips(s.active[t.prio], s.expired[t.prio]); }
    PushOnce(s.expired[t.prio], s.active[t.prio], t);
  }

  lemma OnceFlips(a: PrioQueue, e: PrioQueue)
    requires Once(a, e)
    ensures Once(e, a)
  {
  }

  lemma OnceApart(a: PrioQueue, e: PrioQueue, t: Task)
    requires Once(a, e) && t in a.tasks
    ensures t !in e.tasks && t !in Without(a.tasks, t)
    ensures forall c :: Once(PrioQueue(Without(a.tasks, t), c), e)
  {
    assert multiset(a.tasks)[t] >= 1;
  }

  lemma UnlinkElsewhere(qs: seq<PrioQueue>, t: Task)
    requires t.prio < |qs| && t !in qs[t.prio].tasks
    ensures Unlink(qs, t) == qs
  {
  }

  lemma WithoutMembers(ts: seq<Task>, t: Task, u: Task)
    requires u != t
    ensures u in Without(ts, t) <==> u in ts
  {
    assert u in Without(ts, t) <==> u in multiset(Without(ts, t));
  }

  lemma TakenAgrees(qs: seq<PrioQueue>, map_: seq<nat>, t: Task, qs': seq<PrioQueue>, map': seq<nat>)
    requires Shaped(qs, map_) && Agrees(qs, map_) && In(qs, t) && t.prio < MAX_PRIO
    requires qs' == qs[t.prio := PrioQueue(Without(qs[t.prio].tasks, t), qs[t.prio].count - 1)]
    requires map' == if qs[t.prio].count == 1 then ClearAt(map_, t.prio) else map_
    requires t !in qs'[t.prio].tasks
    ensures Shaped(qs', map') && Agrees(qs', map')
    ensures Total(qs') == Total(qs) - 1
    ensures forall u :: In(qs', u) <==> In(qs, u) && u != t
  {
    hide BitAt, ClearAt, Total, Without;
    ClearAtBits(map_, t.prio);
    TotalUpdate(qs, t.prio, qs'[t.prio]);
    forall u ensures u != t ==> (u in qs'[t.prio].tasks <==> u in qs[t.prio].tasks) {
      if u != t { WithoutMembers(qs[t.prio].tasks, t, u); }
    }
    assert QueueOk(qs[t.prio], t.prio, BitAt(map_, t.prio));
    assert QueueOk(qs'[t.prio], t.prio, BitAt(map', t.prio));
  }

  /** Dequeuing a task that is in the active array. */
  lemma DequeueKeeps(s: State, t: Task)
    requires Valid(s) && In(s.active, t)
    ensures Valid(Dequeue(s, t)) && t !in Dequeue(s, t).onRq
    ensures Dequeue(s, t).onRq == s.onRq - {t}
  {
    hide Agrees, Total, Without, Once;
    var p := t.prio;
    assert Well(s);
    OnceApart(s.active[p], s.expired[p], t);
    UnlinkElsewhere(s.expired, t);
    var s' := Dequeue(s, t);
    assert s'.active == s.active[p := PrioQueue(Without(s.active[p].tasks, t), s.active[p].count - 1)];
    TakenAgrees(s.active, s.activeMap, t, s'.active, s'.activeMap);
  }

  lemma SwapKeeps(s: State)
    requires Valid(s)
    ensures Valid(Swap(s))
  {
    hide Agrees, Total, Once;
    forall p | 0 <= p < MAX_PRIO ensures Once(s.expired[p], s.active[p]) { OnceFlips(s.active[p], s.expired[p]); }
  }

  // ---- what is picked

  /** `t` is the oldest task of the smallest-numbered non-empty priority. */
  ghost predicate Best(qs: seq<PrioQueue>, t: Task) {
    t.prio < |qs| && qs[t.prio].tasks != [] && t == qs[t.prio].tasks[0] &&
    forall p :: 0 <= p < t.prio ==> qs[p].tasks == []
  }

  ghost predicate Vacant(qs: seq<PrioQueue>) {
    forall p :: 0 <= p < |qs| ==> qs[p].tasks == []
  }

  ghost predicate Picked(s: State, next: Option<Task>) {
    if !Vacant(s.active) then next.Some? && Best(s.active, next.value)
    else if !Vacant(s.expired) then next.Some? && Best(s.expired, next.value)
    else next == None
  }

  lemma LowestMeans(qs: seq<PrioQueue>, map_: seq<nat>)
    requires Shaped(qs, map_) && Agrees(qs, map_)
    ensures Lowest(map_, 0) < 0 <==> Vacant(qs)
    ensures Lowest(map_, 0) >= 0 ==> Lowest(map_, 0) < MAX_PRIO && qs[Lowest(map_, 0)].tasks != []
    ensures Lowest(map_, 0) >= 0 ==> Best(qs, qs[Lowest(map_, 0)].tasks[0])
  {
    hide BitAt;
    var r := Lowest(map_, 0);
    if r >= 0 {
      assert r < MAX_PRIO;
      assert QueueOk(qs[r], r, BitAt(map_, r));
      forall p | 0 <= p < r ensures qs[p].tasks == [] { assert QueueOk(qs[p], p, BitAt(map_, p)); }
    } else {
      forall p | 0 <= p < MAX_PRIO ensures qs[p].tasks == [] { assert QueueOk(qs[p], p, BitAt(map_, p)); }
    }
  }

  /** `pick_next_task` takes the oldest task of the smallest non-empty active priority, else of expired, else idle; the
      task it takes is then in the active array. */
  lemma PickNextTask(s: State)
    requires Valid(s)
    ensures Valid(Turned(s)) && Picked(s, First(Turned(s)))
    ensures Turned(s).onRq == s.onRq && Turned(s).curr == s.curr && Turned(s).load == s.load
    ensures First(Turned(s)).Some? ==> In(Turned(s).active, First(Turned(s)).value)
    ensures First(Turned(s)).None? <==> s.onRq == {}
  {
    hide Agrees, Total, Once, Lowest, Vacant, Best;
    LowestMeans(s.active, s.activeMap);
    LowestMeans(s.expired, s.expiredMap);
    SwapKeeps(s);
    NobodyIn(s);
    var s' := Turned(s);
    var r := Lowest(s'.activeMap, 0);
    if r >= 0 {
      assert Best(s'.active, s'.active[r].tasks[0]);
      BestIn(s'.active, s'.active[r].tasks[0]);
    }
  }

  lemma BestIn(qs: seq<PrioQueue>, t: Task)
    requires Best(qs, t)
    ensures In(qs, t)
  {
  }

  lemma NobodyIn(s: State)
    requires Valid(s)
    ensures Vacant(s.active) && Vacant(s.expired) <==> s.onRq == {}
  {
    hide Total, Once, Agrees;
    SomebodyIn(s.active, s.activeMap);
    SomebodyIn(s.expired, s.expiredMap);
    if s.onRq != {} {
      var t :| t in s.onRq;
      assert In(s.active, t) || In(s.expired, t);
    }
  }

  lemma SomebodyIn(qs: seq<PrioQueue>, map_: seq<nat>)
    requires Shaped(qs, map_) && Agrees(qs, map_)
    ensures !Vacant(qs) ==> exists t :: In(qs, t)
  {
    hide BitAt;
    if !Vacant(qs) {
      var p :| 0 <= p < MAX_PRIO && qs[p].tasks != [];
      assert QueueOk(qs[p], p, BitAt(map_, p));
      assert In(qs, qs[p].tasks[0]);
    }
  }

  // ---- whole runs

  /** What one CPU's queue goes through: a wake-up, losing a waiting task to another CPU, or a scheduling decision. */
  datatype Event = Wake(task: Task) | Leave(task: Task) | Decide(running: bool, sliceUp: bool)

  /** What the callers guarantee: priorities in range, and `find_migratable` only offers waiting active tasks. */
  predicate Allowed(s: State, e: Event) {
    match e
    case Wake(t) => t.prio < MAX_PRIO
    case Leave(t) => In(s.active, t) && s.curr != Some(t)
    case Decide(_, _) => true
  }

  function Step(s: State, e: Event): State
    requires Well(s) && Allowed(s, e) && (s.curr.Some? ==> s.curr.value.prio < MAX_PRIO)
  {
    match e
    case Wake(t) => if t in s.onRq then s else Enqueue(s, t)
    case Leave(t) => Dequeue(s, t)
    case Decide(running, sliceUp) => Schedule(s, running, sliceUp)
  }

  /** The running task, when queued, is in the active array, where `dequeue_task` expects it. */
  ghost predicate Good(s: State) {
    Valid(s) && (s.curr.Some? ==> s.curr.value.prio < MAX_PRIO) &&
    (s.curr.Some? && s.curr.value in s.onRq ==> In(s.active, s.curr.value))
  }

  /** The decision that misplaces the running task: its slice is up and nobody else is queued. */
  predicate LoneExpiry(s: State, e: Event) {
    e.Decide? && e.running && e.sliceUp && s.curr.Some? && s.onRq <= {s.curr.value}
  }

  /** One step from a good state keeps bitmaps, counts, lists and `nr_running` in agreement, and leads to a good state
      unless it expires the running task with nobody else queued. */
  lemma StepKeeps(s: State, e: Event)
    requires Good(s) && Allowed(s, e)
    ensures Valid(Step(s, e))
    ensures Good(Step(s, e)) <==> !LoneExpiry(s, e)
  {
    hide Agrees, Total, Once, Without, Lowest;
    match e
    case Wake(t) => if t !in s.onRq { EnqueueKeeps(s, t); StillIn(s, t); }
    case Leave(t) => DequeueKeeps(s, t); StillInAfterLeave(s, t);
    case Decide(running, sliceUp) => ScheduleKeeps(s, running, sliceUp);
  }

  lemma StillIn(s: State, t: Task)
    requires Well(s) && t.prio < MAX_PRIO
    ensures forall u :: In(s.active, u) ==> In(Enqueue(s, t).active, u)
  {
  }

  lemma StillInAfterLeave(s: State, t: Task)
    requires Well(s) && t.prio < MAX_PRIO
    ensures forall u :: In(s.active, u) && u != t ==> In(Dequeue(s, t).active, u)
  {
    hide Without;
    forall u | In(s.active, u) && u != t ensures In(Dequeue(s, t).active, u) {
      WithoutMembers(s.active[t.prio].tasks, t, u);
    }
  }

  lemma RequeuedKeeps(s: State, c: Task, next: Option<Task>, running: bool, sliceUp: bool)
    requires Valid(s) && c.prio < MAX_PRIO && c !in s.onRq && s.curr == Some(c)
    requires next.Some? ==> In(s.active, next.value)
    ensures Valid(Requeued(s, c, next, running, sliceUp))
    ensures Good(Requeued(s, c, next, running, sliceUp)) <==> !(next.None? && running && sliceUp)
  {
    hide Agrees, Total, Once;
    if running {
      EnqueueKeeps(s, c);
      ExpireKeeps(s, c);
      StillIn(s, c);
    }
  }

  lemma TakenKeeps(s: State)
    requires Good(s)
    ensures Valid(Taken(s)) && Taken(s).curr == s.curr
    ensures Taken(s).onRq == if s.curr.Some? then s.onRq - {s.curr.value} else s.onRq
  {
    hide Agrees, Total, Once;
    if s.curr.Some? && s.curr.value in s.onRq { DequeueKeeps(s, s.curr.value); }
  }

  lemma ScheduleKeeps(s: State, running: bool, sliceUp: bool)
    requires Good(s)
    ensures Valid(Schedule(s, running, sliceUp))
    ensures Good(Schedule(s, running, sliceUp)) <==> !LoneExpiry(s, Decide(running, sliceUp))
  {
    hide Agrees, Total, Once, In, Taken, Turned, First, Requeued;
    TakenKeeps(s);
    PickNextTask(Taken(s));
    var s2 := Turned(Taken(s));
    if s.curr.Some? {
      RequeuedKeeps(s2, s.curr.value, First(s2), running, sliceUp);
    } else {
      FreshPick(s2, First(s2));
    }
  }

  lemma FreshPick(s: State, next: Option<Task>)
    requires Valid(s) && s.curr.None? && (next.Some? ==> In(s.active, next.value))
    ensures Good(if next.Some? then s.(curr := next) else s)
  {
    hide Agrees, Total, Once;
  }

  // ---- the load

  /** What the queued tasks weigh: MAX_PRIO minus the priority, summed. */
  function Weight(qs: seq<PrioQueue>): nat
    requires |qs| <= MAX_PRIO
  {
    if |qs| == 0 then 0 else Weight(qs[..|qs| - 1]) + (MAX_PRIO + 1 - |qs|) * |qs[|qs| - 1].tasks|
  }

  lemma {:induction false} WeightUpdate(qs: seq<PrioQueue>, p: nat, q: PrioQueue)
    requires p < |qs| <= MAX_PRIO
    ensures Weight(qs[p := q]) == Weight(qs) + (MAX_PRIO - p) * (|q.tasks| - |qs[p].tasks|)
  {
    var n := |qs| - 1;
    if p < n {
      WeightUpdate(qs[..n], p, q);
      assert qs[p := q][..n] == qs[..n][p := q];
    } else {
      assert qs[p := q][..n] == qs[..n];
      Distribute(MAX_PRIO - p, |q.tasks|, |qs[p].tasks|);
    }
  }

  lemma Distribute(w: int, a: int, b: int)
    ensures w * a == w * b + w * (a - b)
  {
  }

  /** `load` is the weight of the queued tasks less `lost`, modulo 2^64. */
  ghost predicate LoadIs(s: State, lost: nat)
    requires Well(s)
  {
    s.load == (Weight(s.active) + Weight(s.expired) - lost) % U64
  }

  lemma PushWeight(qs: seq<PrioQueue>, t: Task)
    requires |qs| == MAX_PRIO && t.prio < MAX_PRIO
    ensures Weight(Push(qs, t)) == Weight(qs) + (MAX_PRIO - t.prio)
  {
    hide Weight;
    WeightUpdate(qs, t.prio, Push(qs, t)[t.prio]);
  }

  lemma EnqueueLoad(s: State, t: Task, lost: nat)
    requires Well(s) && t.prio < MAX_PRIO && LoadIs(s, lost)
    requires Well(Enqueue(s, t))
    ensures LoadIs(Enqueue(s, t), lost)
  {
    hide Weight, SetAt, Push;
    PushWeight(s.active, t);
    ModAdd(Weight(s.active) + Weight(s.expired) - lost, MAX_PRIO - t.prio);
  }

  lemma ExpireLoad(s: State, t: Task, lost: nat)
    requires Well(s) && t.prio < MAX_PRIO && LoadIs(s, lost)
    requires Well(Expire(s, t))
    ensures LoadIs(Expire(s, t), lost + (MAX_PRIO - t.prio))
  {
    hide Weight, SetAt, Push;
    PushWeight(s.expired, t);
  }

  lemma DequeueWeight(s: State, t: Task)
    requires Valid(s) && In(s.active, t)
    requires Well(Dequeue(s, t))
    ensures Weight(Dequeue(s, t).active) == Weight(s.active) - (MAX_PRIO - t.prio)
    ensures Dequeue(s, t).expired == s.expired && Dequeue(s, t).load == Less(s.load, MAX_PRIO - t.prio)
  {
    hide Weight, ClearAt, Agrees, Total, Once, Without;
    OnceApart(s.active[t.prio], s.expired[t.prio], t);
    UnlinkElsewhere(s.expired, t);
    var q := PrioQueue(Without(s.active[t.prio].tasks, t), s.active[t.prio].count - 1);
    assert Dequeue(s, t).active == s.active[t.prio := q];
    WeightUpdate(s.active, t.prio, q);
  }

  lemma DequeueLoad(s: State, t: Task, lost: nat)
    requires Valid(s) && In(s.active, t) && LoadIs(s, lost)
    requires Well(Dequeue(s, t))
    ensures LoadIs(Dequeue(s, t), lost)
  {
    hide Weight, Agrees, Total, Once, Dequeue;
    DequeueWeight(s, t);
    ModAdd(Weight(s.active) + Weight(s.expired) - lost, -(MAX_PRIO - t.prio));
  }

  /** The weight a step drops from `load` for good. */
  function Dropped(s: State, e: Event): nat
    requires s.curr.Some? ==> s.curr.value.prio < MAX_PRIO
  {
    if e.Decide? && e.running && e.sliceUp && s.curr.Some? then MAX_PRIO - s.curr.value.prio else 0
  }

  lemma StepLoad(s: State, e: Event, lost: nat)
    requires Good(s) && Allowed(s, e) && LoadIs(s, lost)
    requires Well(Step(s, e))
    ensures LoadIs(Step(s, e), lost + Dropped(s, e))
  {
    hide Weight, Agrees, Total, Once, Lowest, Enqueue, Dequeue, Schedule;
    match e
    case Wake(t) => if t !in s.onRq { EnqueueLoad(s, t, lost); }
    case Leave(t) => DequeueLoad(s, t, lost);
    case Decide(running, sliceUp) => ScheduleLoad(s, running, sliceUp, lost);
  }

  lemma TakenLoad(s: State, lost: nat)
    requires Good(s) && LoadIs(s, lost)
    ensures LoadIs(Taken(s), lost)
  {
    hide Weight, Agrees, Total, Once, Dequeue;
    WellDequeue(s);
    if s.curr.Some? && s.curr.value in s.onRq { DequeueLoad(s, s.curr.value, lost); }
  }

  lemma RequeuedLoad(s: State, c: Task, next: Option<Task>, running: bool, sliceUp: bool, lost: nat)
    requires Well(s) && c.prio < MAX_PRIO && LoadIs(s, lost)
    requires Well(Requeued(s, c, next, running, sliceUp))
    ensures LoadIs(Requeued(s, c, next, running, sliceUp), lost + if running && sliceUp then MAX_PRIO - c.prio else 0)
  {
    hide Weight, Enqueue, Expire;
    if running && sliceUp { ExpireLoad(s, c, lost); } else if running { EnqueueLoad(s, c, lost); }
  }

  lemma ScheduleLoad(s: State, running: bool, sliceUp: bool, lost: nat)
    requires Good(s) && LoadIs(s, lost)
    requires Well(Schedule(s, running, sliceUp))
    ensures LoadIs(Schedule(s, running, sliceUp), lost + Dropped(s, Decide(running, sliceUp)))
  {
    hide Weight, Agrees, Total, Once, Lowest, Taken, First, Requeued;
    TakenLoad(s, lost);
    var s2 := Turned(Taken(s));
    assert LoadIs(s2, lost);
    if s.curr.Some? { RequeuedLoad(s2, s.curr.value, First(s2), running, sliceUp, lost); }
  }

  // ---- safety over every run

  ghost predicate Next(s: State, e: Event, s': State) {
    Well(s) && (s.curr.Some? ==> s.curr.value.prio < MAX_PRIO) && Allowed(s, e) && s' == Step(s, e)
  }

  ghost predicate Run(trace: seq<State>, es: seq<Event>) {
    |trace| == |es| + 1 && trace[0] == Empty() &&
    forall i :: 0 <= i < |es| ==> Next(trace[i], es[i], trace[i + 1])
  }

  /** No decision of the run expires the running task with nobody else queued. */
  ghost predicate NoLoneExpiry(trace: seq<State>, es: seq<Event>)
    requires |trace| == |es| + 1
  {
    forall i :: 0 <= i < |es| ==> !LoneExpiry(trace[i], es[i])
  }

  ghost function AllDropped(trace: seq<State>, es: seq<Event>, n: nat): nat
    requires n <= |es| && Run(trace, es)
  {
    if n == 0 then 0
    else
      assert Next(trace[n - 1], es[n - 1], trace[n]); AllDropped(trace, es, n - 1) + Dropped(trace[n - 1], es[n - 1])
  }

  lemma EmptyGood()
    ensures Good(Empty()) && LoadIs(Empty(), 0)
  {
    hide Agrees, Total, Weight, NoBits, NoTasks, Once, In;
    EmptyAgrees();
    VacantGood(Empty());
  }

  lemma VacantGood(s: State)
    requires Well(s) && Agrees(s.active, s.activeMap) && Agrees(s.expired, s.expiredMap)
    requires forall p :: 0 <= p < MAX_PRIO ==> s.active[p] == s.expired[p] == PrioQueue([], 0)
    requires s.nrRunning == 0 && s.load == 0 && s.onRq == {} && s.curr == None
    ensures Good(s) && LoadIs(s, 0)
  {
    hide Agrees, Total, Weight, Once;
    NoTotal(s.active);
    NoTotal(s.expired);
    OnceEmpty();
  }

  lemma OnceEmpty()
    ensures Once(PrioQueue([], 0), PrioQueue([], 0))
  {
  }

  lemma EmptyAgrees()
    ensures Shaped(NoTasks(), NoBits()) && Agrees(NoTasks(), NoBits())
    ensures forall p :: 0 <= p < MAX_PRIO ==> NoTasks()[p] == PrioQueue([], 0)
  {
    hide BitAt;
    AllWordsZero(NoBits());
  }

  lemma {:induction false} NoTotal(qs: seq<PrioQueue>)
    requires |qs| <= MAX_PRIO && forall i :: 0 <= i < |qs| ==> qs[i].tasks == []
    ensures Total(qs) == 0 && Weight(qs) == 0
  {
    if |qs| > 0 { NoTotal(qs[..|qs| - 1]); }
  }

  /** Over any run without a lone expiry, every state agrees with itself, the running task is where `dequeue_task`
      looks for it, and `load` is the weight of the queued tasks less the weights of all expiries so far. */
  lemma {:induction false} RunsAreSafe(trace: seq<State>, es: seq<Event>, n: nat)
    requires Run(trace, es) && NoLoneExpiry(trace, es) && n <= |es|
    ensures Good(trace[n]) && LoadIs(trace[n], AllDropped(trace, es, n))
  {
    hide Good, LoadIs, Step, Allowed, Dropped, LoneExpiry;
    if n == 0 {
      EmptyGood();
    } else {
      RunsAreSafe(trace, es, n - 1);
      assert Next(trace[n - 1], es[n - 1], trace[n]);
      StepKeeps(trace[n - 1], es[n - 1]);
      GoodIsWell(trace[n]);
      StepLoad(trace[n - 1], es[n - 1], AllDropped(trace, es, n - 1));
    }
  }

  lemma GoodIsWell(s: State)
    requires Good(s)
    ensures Well(s)
  {
  }

  // ---- the exception

  /** How far a count is from its list. */
  function Skew(q: PrioQueue): int {
    q.count - |q.tasks|
  }

  /** When the running task is in the expired array, the next decision always breaks the counts, whatever it does. */
  lemma MisplacedBreaks(s: State, running: bool, sliceUp: bool)
    requires Valid(s) && s.curr.Some? && s.curr.value.prio < MAX_PRIO && In(s.expired, s.curr.value)
    ensures !Valid(Schedule(s, running, sliceUp))
  {
    hide Total, Lowest, First;
    var c := s.curr.value;
    var p := c.prio;
    assert QueueOk(s.active[p], p, BitAt(s.activeMap, p)) && QueueOk(s.expired[p], p, BitAt(s.expiredMap, p));
    OnceFlips(s.active[p], s.expired[p]);
    OnceApart(s.expired[p], s.active[p], c);
    var s1 := Taken(s);
    assert Skew(s1.active[p]) == -1 && Skew(s1.expired[p]) == 1;
    SkewStays(Turned(s1), c, First(Turned(s1)), running, sliceUp);
    SkewInvalid(Schedule(s, running, sliceUp), p);
  }

  lemma SkewStays(s: State, c: Task, next: Option<Task>, running: bool, sliceUp: bool)
    requires Well(s) && c.prio < MAX_PRIO
    ensures Skew(Requeued(s, c, next, running, sliceUp).active[c.prio]) == Skew(s.active[c.prio])
    ensures |Requeued(s, c, next, running, sliceUp).active| == MAX_PRIO
  {
  }

  lemma SkewInvalid(s: State, p: nat)
    requires |s.active| == MAX_PRIO && p < MAX_PRIO && Skew(s.active[p]) != 0
    ensures !Valid(s)
  {
    hide Valid;
    ValidSkew(s, p);
  }

  lemma ValidSkew(s: State, p: nat)
    requires |s.active| == MAX_PRIO && p < MAX_PRIO
    ensures Valid(s) ==> Skew(s.active[p]) == 0
  {
    hide Total, Once, BitAt;
    if Valid(s) { assert QueueOk(s.active[p], p, BitAt(s.activeMap, p)); }
  }

  /** The row of priority `p`, and the lowest bit of each map. */
  ghost predicate Row(s: State, p: nat, active: PrioQueue, expired: PrioQueue, lowActive: int, lowExpired: int) {
    Well(s) && p < MAX_PRIO && s.active[p] == active && s.expired[p] == expired &&
    Lowest(s.activeMap, 0) == lowActive && Lowest(s.expiredMap, 0) == lowExpired
  }

  /** A lone task whose slice is up ends in the expired array while it keeps running. */
  lemma FirstDecision(s: State, t: Task)
    requires Good(s) && s.curr == Some(t) && s.onRq == {t}
    ensures var s1 := Schedule(s, true, true);
            s1.curr == Some(t) && s1.onRq == {t} &&
            Row(s1, t.prio, PrioQueue([], 0), PrioQueue([t], 1), -1, t.prio)
  {
    hide Total, Once, BitAt, Lowest, Agrees, Vacant;
    TakenKeeps(s);
    var s' := Taken(s);
    assert s'.onRq == {};
    NobodyIn(s');
    LowestMeans(s'.active, s'.activeMap);
    LowestMeans(s'.expired, s'.expiredMap);
    VacantRow(s'.active, s'.activeMap, t.prio);
    VacantRow(s'.expired, s'.expiredMap, t.prio);
    OnlyBit(s'.expiredMap, t.prio);
    assert [] + [t] == [t];
    assert First(s') == None;
  }

  lemma VacantRow(qs: seq<PrioQueue>, map_: seq<nat>, p: nat)
    requires Shaped(qs, map_) && Agrees(qs, map_) && Vacant(qs) && p < MAX_PRIO
    ensures qs[p] == PrioQueue([], 0)
  {
    assert QueueOk(qs[p], p, BitAt(map_, p));
  }

  lemma OnlyBit(map_: seq<nat>, p: nat)
    requires |map_| == BITMAP_WORDS && IsBitmap(map_) && Lowest(map_, 0) == -1 && p < MAX_PRIO
    ensures IsBitmap(SetAt(map_, p)) && Lowest(SetAt(map_, p), 0) == p
  {
    hide BitAt, SetAt;
    SetAtBits(map_, p);
    assert BitAt(SetAt(map_, p), p);
  }

  /** The next decision dequeues it from the wrong array: the emptied expired row keeps its bit and count, the arrays
      are swapped for it, and the task joins a row that already claims one. */
  lemma SecondDecision(s: State, t: Task)
    requires s.curr == Some(t) && s.onRq == {t} && t.prio < MAX_PRIO
    requires Row(s, t.prio, PrioQueue([], 0), PrioQueue([t], 1), -1, t.prio)
    ensures var s2 := Schedule(s, true, false);
            s2.curr == Some(t) && s2.onRq == {t} &&
            Row(s2, t.prio, PrioQueue([t], 2), PrioQueue([], -1), t.prio, -1)
  {
    hide BitAt, Lowest, SetAt;
    var s' := Taken(s);
    assert s'.active[t.prio] == PrioQueue([], -1);
    assert s'.expired[t.prio] == PrioQueue([], 1);
    var s'' := Turned(s');
    assert s''.active == s'.expired && First(s'') == None;
    assert [] + [t] == [t];
    SameBit(s''.activeMap, t.prio);
  }

  lemma SameBit(map_: seq<nat>, p: nat)
    requires |map_| == BITMAP_WORDS && IsBitmap(map_) && Lowest(map_, 0) == p
    ensures IsBitmap(SetAt(map_, p)) && Lowest(SetAt(map_, p), 0) == p
  {
    hide BitAt, SetAt;
    SetAtBits(map_, p);
    assert BitAt(SetAt(map_, p), p);
  }

  /** When it then sleeps, its row is empty but still marked. */
  lemma ThirdDecision(s: State, t: Task, sliceUp: bool)
    requires s.curr == Some(t) && s.onRq == {t} && t.prio < MAX_PRIO
    requires Row(s, t.prio, PrioQueue([t], 2), PrioQueue([], -1), t.prio, -1)
    ensures var s3 := Schedule(s, false, sliceUp);
            s3.curr == Some(t) && s3.onRq == {} && Phantom(s3, t.prio)
  {
    hide BitAt, Lowest;
    var s' := Taken(s);
    assert s'.active[t.prio] == PrioQueue([], 1);
    assert First(Turned(s')) == None;
  }

  /** The lowest bit set belongs to an empty queue. */
  ghost predicate Phantom(s: State, p: nat) {
    Well(s) && p < MAX_PRIO && s.active[p].tasks == [] && Lowest(s.activeMap, 0) == p
  }

  lemma WakeUnderPhantom(s: State, p: nat, u: Task)
    requires Phantom(s, p) && p < u.prio < MAX_PRIO && u !in s.onRq
    ensures Phantom(Enqueue(s, u), p) && In(Enqueue(s, u).active, u)
  {
    hide BitAt, SetAt;
    SetAtBits(s.activeMap, u.prio);
    assert BitAt(SetAt(s.activeMap, u.prio), p);
  }

  /** The state after: `t` yields alone, is rescheduled, sleeps, and `u` wakes up. */
  function Stranded(s: State, t: Task, u: Task): State
    requires Good(s) && s.curr == Some(t) && s.onRq == {t} && t.prio < u.prio < MAX_PRIO
  {
    FirstDecision(s, t);
    var s1 := Schedule(s, true, true);
    SecondDecision(s1, t);
    var s2 := Schedule(s1, true, false);
    ThirdDecision(s2, t, false);
    Enqueue(Schedule(s2, false, false), u)
  }

  /** Such a state is two steps from an empty queue: wake the task and decide. */
  lemma LoneReachable(t: Task)
    requires t.prio < MAX_PRIO
    ensures Good(Enqueue(Empty(), t))
    ensures var s := Schedule(Enqueue(Empty(), t), false, false); Good(s) && s.curr == Some(t) && s.onRq == {t}
  {
    hide Agrees, Total, Once, Lowest, In, Turned, First, BitAt, SetAt, NoTasks, NoBits, Empty;
    EmptyGood();
    EmptyHas();
    AddedKeeps(Empty(), t);
    var s1 := Enqueue(Empty(), t);
    TakenKeeps(s1);
    PickNextTask(s1);
    ScheduleKeeps(s1, false, false);
    assert First(Turned(s1)).value in s1.onRq;
  }

  lemma EmptyHas()
    ensures Empty().onRq == {} && Empty().curr == None && Well(Empty())
  {
    hide NoTasks, NoBits, Agrees;
    EmptyAgrees();
  }

  /** Every task is queued under its own priority. */
  ghost predicate Homed(qs: seq<PrioQueue>) {
    forall q, t :: 0 <= q < |qs| && t in qs[q].tasks ==> t.prio == q
  }

  /** Priority `p` is marked in the active map although its queue is empty. */
  ghost predicate Haunted(s: State, p: nat) {
    Well(s) && p < MAX_PRIO && BitAt(s.activeMap, p) && s.active[p].tasks == [] && Homed(s.active) &&
    (s.curr.Some? ==> s.curr.value.prio < MAX_PRIO)
  }

  /** No task of priority `p` is woken, moved, or still running. */
  predicate Quiet(s: State, e: Event, p: nat) {
    match e
    case Wake(t) => t.prio != p
    case Leave(t) => t.prio != p
    case Decide(running, _) => s.curr.Some? && s.curr.value.prio == p ==> s.curr.value !in s.onRq && !running
  }

  lemma HauntedEnqueue(s: State, t: Task, p: nat)
    requires Haunted(s, p) && t.prio < MAX_PRIO && t.prio != p
    ensures Haunted(Enqueue(s, t), p) && Haunted(Expire(s, t), p)
  {
    hide BitAt, SetAt, Lowest;
    SetAtBits(s.activeMap, t.prio);
    SetAtBits(s.expiredMap, t.prio);
  }

  lemma HauntedDequeue(s: State, t: Task, p: nat)
    requires Haunted(s, p) && t.prio < MAX_PRIO && t.prio != p
    ensures Haunted(Dequeue(s, t), p)
  {
    hide BitAt, ClearAt, Lowest, Without;
    ClearAtBits(s.activeMap, t.prio);
    forall u | u in Without(s.active[t.prio].tasks, t) ensures u in s.active[t.prio].tasks {
      assert u in multiset(Without(s.active[t.prio].tasks, t));
    }
  }

  /** The arrays are not swapped, and only a task more urgent than `p` can be picked. */
  lemma HauntedPick(s: State, p: nat)
    requires Haunted(s, p)
    ensures Turned(s) == s && (First(s).Some? ==> First(s).value.prio < p)
  {
    hide BitAt;
    var q := Lowest(s.activeMap, 0);
    assert 0 <= q <= p;
  }

  /** Whatever tasks of other priorities do, the mark stays and nothing less urgent than `p` is picked. */
  lemma HauntedStep(s: State, e: Event, p: nat)
    requires Haunted(s, p) && Allowed(s, e) && Quiet(s, e, p)
    ensures Haunted(Step(s, e), p)
    ensures Step(s, e).curr == s.curr || (Step(s, e).curr.Some? && Step(s, e).curr.value.prio < p)
  {
    hide Haunted, Enqueue, Dequeue, Schedule;
    match e
    case Wake(t) => HauntedIs(s, p); HauntedEnqueue(s, t, p); Same(s, t);
    case Leave(t) => HauntedIs(s, p); HauntedDequeue(s, t, p); Same(s, t);
    case Decide(running, sliceUp) => HauntedDecide(s, running, sliceUp, p);
  }

  lemma HauntedIs(s: State, p: nat)
    requires Haunted(s, p)
    ensures Well(s) && (s.curr.Some? ==> s.curr.value.prio < MAX_PRIO)
  {
  }

  lemma Same(s: State, t: Task)
    requires Well(s) && t.prio < MAX_PRIO
    ensures Enqueue(s, t).curr == s.curr && Dequeue(s, t).curr == s.curr && Expire(s, t).curr == s.curr
  {
  }

  lemma HauntedDecide(s: State, running: bool, sliceUp: bool, p: nat)
    requires Haunted(s, p) && Quiet(s, Decide(running, sliceUp), p)
    ensures var s' := Schedule(s, running, sliceUp);
            Haunted(s', p) && (s'.curr == s.curr || (s'.curr.Some? && s'.curr.value.prio < p))
  {
    hide Haunted, Enqueue, Expire, Dequeue, Turned, First;
    HauntedIs(s, p);
    if s.curr.Some? {
      Same(s, s.curr.value);
      if s.curr.value.prio != p { HauntedDequeue(s, s.curr.value, p); }
    }
    var s1 := Taken(s);
    HauntedPick(s1, p);
    if s.curr.Some? {
      Same(s1, s.curr.value);
      if running { HauntedEnqueue(s1, s.curr.value, p); }
      HauntedCurr(if !running then s1 else if sliceUp then Expire(s1, s.curr.value) else Enqueue(s1, s.curr.value), First(s1), p);
    } else {
      HauntedCurr(s1, First(s1), p);
    }
  }

  lemma HauntedCurr(s: State, next: Option<Task>, p: nat)
    requires Haunted(s, p) && (next.Some? ==> next.value.prio < p)
    ensures Haunted(s.(curr := next), p)
  {
    hide BitAt, Homed;
  }

  lemma {:induction false} HauntedRun(trace: seq<State>, es: seq<Event>, p: nat, n: nat)
    requires |trace| == |es| + 1 && Haunted(trace[0], p) && n <= |es|
    requires forall i :: 0 <= i < |es| ==> Next(trace[i], es[i], trace[i + 1]) && Quiet(trace[i], es[i], p)
    ensures Haunted(trace[n], p) && (trace[n].curr == trace[0].curr || (trace[n].curr.Some? && trace[n].curr.value.prio < p))
  {
    hide Haunted, Quiet, Step, Allowed;
    if n > 0 {
      HauntedRun(trace, es, p, n - 1);
      assert Next(trace[n - 1], es[n - 1], trace[n]);
      HauntedStep(trace[n - 1], es[n - 1], p);
    }
  }

  lemma PhantomHaunts(s: State, p: nat)
    requires Phantom(s, p) && Homed(s.active) && (s.curr.Some? ==> s.curr.value.prio < MAX_PRIO)
    ensures Haunted(s, p)
  {
    hide BitAt;
  }

  /** From every good state where `t` runs alone, those steps leave a less urgent task `u` queued and active; and over every
      run after that, with any wake-ups, migrations and decisions of tasks of other priorities, as long as no task of the
      priority of `t` stirs, `u` is never picked. */
  lemma PhantomStarves(s: State, t: Task, u: Task, trace: seq<State>, es: seq<Event>, n: nat)
    requires Good(s) && s.curr == Some(t) && s.onRq == {t} && t.prio < u.prio < MAX_PRIO
    requires |trace| == |es| + 1 && n <= |es| && trace[0] == Stranded(s, t, u)
    requires forall i :: 0 <= i < |es| ==> Next(trace[i], es[i], trace[i + 1]) && Quiet(trace[i], es[i], t.prio)
    ensures In(trace[0].active, u) && u in trace[0].onRq && trace[n].curr != Some(u)
  {
    hide Lowest, Schedule, Agrees, Total, Once, BitAt, SetAt, Haunted, Next, Quiet;
    FirstDecision(s, t);
    var s1 := Schedule(s, true, true);
    SecondDecision(s1, t);
    var s2 := Schedule(s1, true, false);
    ThirdDecision(s2, t, false);
    var s3 := Schedule(s2, false, false);
    WakeUnderPhantom(s3, t.prio, u);
    StrandedHomed(s, t, u);
    PhantomHaunts(Enqueue(s3, u), t.prio);
    HauntedRun(trace, es, t.prio, n);
  }

  lemma GoodHomed(s: State)
    requires Good(s)
    ensures Homed(s.active) && Homed(s.expired)
  {
    hide BitAt, Total, Once;
    forall q, x | 0 <= q < MAX_PRIO && x in s.active[q].tasks ensures x.prio == q {
      assert QueueOk(s.active[q], q, BitAt(s.activeMap, q));
    }
    forall q, x | 0 <= q < MAX_PRIO && x in s.expired[q].tasks ensures x.prio == q {
      assert QueueOk(s.expired[q], q, BitAt(s.expiredMap, q));
    }
  }

  lemma ScheduleHomed(s: State, running: bool, sliceUp: bool)
    requires Well(s) && (s.curr.Some? ==> s.curr.value.prio < MAX_PRIO) && Homed(s.active) && Homed(s.expired)
    ensures Homed(Schedule(s, running, sliceUp).active) && Homed(Schedule(s, running, sliceUp).expired)
  {
    hide Lowest, BitAt, SetAt, ClearAt, First, Homed;
    if s.curr.Some? { UnlinkHomed(s, s.curr.value); }
    var s2 := Turned(Taken(s));
    assert Homed(s2.active) && Homed(s2.expired);
    if s.curr.Some? { PushHomed(s2.active, s.curr.value); PushHomed(s2.expired, s.curr.value); }
  }

  lemma PushHomed(qs: seq<PrioQueue>, t: Task)
    requires Homed(qs) && t.prio < |qs|
    ensures Homed(Push(qs, t))
  {
  }

  lemma UnlinkHomed(s: State, t: Task)
    requires Well(s) && t.prio < MAX_PRIO && Homed(s.active) && Homed(s.expired)
    ensures Homed(Dequeue(s, t).active) && Homed(Dequeue(s, t).expired)
  {
    hide Without;
    forall u | u in Without(s.active[t.prio].tasks, t) ensures u in s.active[t.prio].tasks {
      assert u in multiset(Without(s.active[t.prio].tasks, t));
    }
    forall u | u in Without(s.expired[t.prio].tasks, t) ensures u in s.expired[t.prio].tasks {
      assert u in multiset(Without(s.expired[t.prio].tasks, t));
    }
  }

  lemma StrandedHomed(s: State, t: Task, u: Task)
    requires Good(s) && s.curr == Some(t) && s.onRq == {t} && t.prio < u.prio < MAX_PRIO
    ensures Homed(Stranded(s, t, u).active)
  {
    hide Schedule, Lowest, Homed, Agrees, Total, Once, BitAt, SetAt;
    GoodHomed(s);
    FirstDecision(s, t);
    ScheduleHomed(s, true, true);
    var s1 := Schedule(s, true, true);
    SecondDecision(s1, t);
    ScheduleHomed(s1, true, false);
    var s2 := Schedule(s1, true, false);
    ThirdDecision(s2, t, false);
    ScheduleHomed(s2, false, false);
    PushHomed(Schedule(s2, false, false).active, u);
  }

  // ---- moving a task to another CPU

  /** Moving a waiting active task conserves the queued tasks, `nr_running` and the load of the two CPUs together. */
  lemma MigrateConserves(src: State, dst: State, t: Task)
    requires Good(src) && Good(dst) && In(src.active, t) && src.curr != Some(t) && src.onRq !! dst.onRq
    ensures var (src', dst') := (Dequeue(src, t), Enqueue(dst, t));
            Good(src') && Good(dst') && src'.onRq !! dst'.onRq && src'.onRq + dst'.onRq == src.onRq + dst.onRq &&
            src'.nrRunning + dst'.nrRunning == src.nrRunning + dst.nrRunning &&
            (src'.load + dst'.load) % U64 == (src.load + dst.load) % U64
  {
    hide Agrees, Total, Once;
    assert t in src.onRq;
    DequeueKeeps(src, t);
    StillInAfterLeave(src, t);
    EnqueueKeeps(dst, t);
    StillIn(dst, t);
    LoadsConserved(src.load, dst.load, MAX_PRIO - t.prio);
  }

  lemma LoadsConserved(a: nat, b: nat, w: nat)
    ensures (Less(a, w) + (b + w) % U64) % U64 == (a + b) % U64
  {
    ModAdd(a - w, (b + w) % U64);
    ModAdd(b + w, a - w);
  }

  // ---- the same steps in place

  class RunQueue {
    var active: array<PrioQueue>
    var expired: array<PrioQueue>
    const activeBitmap: array<nat>
    const expiredBitmap: array<nat>
    var nrRunning: int
    var load: nat
    var onRq: set<Task>
    var curr: Option<Task>

    /** The four arrays are distinct and of their fixed sizes. */
    ghost predicate Laid()
      reads this, active, expired, activeBitmap, expiredBitmap
    {
      active != expired && activeBitmap != expiredBitmap &&
      Shaped(active[..], activeBitmap[..]) && Shaped(expired[..], expiredBitmap[..])
    }

    ghost function St(): State
      reads this, active, expired, activeBitmap, expiredBitmap
    {
      State(active[..], activeBitmap[..], expired[..], expiredBitmap[..], nrRunning, load, onRq, curr)
    }

    constructor ()
      ensures Laid() && St() == Empty()
      ensures fresh(active) && fresh(expired) && fresh(activeBitmap) && fresh(expiredBitmap)
    {
      active := new PrioQueue[MAX_PRIO](_ => PrioQueue([], 0));
      expired := new PrioQueue[MAX_PRIO](_ => PrioQueue([], 0));
      activeBitmap := new nat[BITMAP_WORDS](_ => 0);
      expiredBitmap := new nat[BITMAP_WORDS](_ => 0);
      nrRunning, load, onRq, curr := 0, 0, {}, None;
      new;
      assert active[..] == NoTasks() && expired[..] == NoTasks();
      assert activeBitmap[..] == NoBits() && expiredBitmap[..] == NoBits();
    }

    method EnqueueTask(t: Task)
      requires Laid() && t.prio < MAX_PRIO
      modifies this`nrRunning, this`load, this`onRq, active, activeBitmap
      ensures Laid() && St() == Enqueue(old(St()), t)
    {
      hide BitAt, IsBitmap, SetAt;
      active[t.prio] := PrioQueue(active[t.prio].tasks + [t], active[t.prio].count + 1);
      SetPrioBit(activeBitmap, t.prio);
      nrRunning := nrRunning + 1;
      onRq := onRq + {t};
      load := (load + (MAX_PRIO - t.prio)) % U64;
    }

    method ExpireTask(t: Task)
      requires Laid() && t.prio < MAX_PRIO
      modifies this`nrRunning, this`onRq, expired, expiredBitmap
      ensures Laid() && St() == Expire(old(St()), t)
    {
      hide BitAt, IsBitmap, SetAt;
      expired[t.prio] := PrioQueue(expired[t.prio].tasks + [t], expired[t.prio].count + 1);
      SetPrioBit(expiredBitmap, t.prio);
      nrRunning := nrRunning + 1;
      onRq := onRq + {t};
    }

    /** `list_del` and the count of the active row. */
    method TakeOff(t: Task)
      requires Laid() && t.prio < MAX_PRIO
      modifies active, expired
      ensures Laid() && expired[..] == Unlink(old(expired[..]), t)
      ensures active[..] == var a := Unlink(old(active[..]), t); a[t.prio := PrioQueue(a[t.prio].tasks, a[t.prio].count - 1)]
    {
      hide Without, BitAt, IsBitmap;
      ghost var a0, e0 := active[..], expired[..];
      var p := t.prio;
      active[p] := PrioQueue(Without(active[p].tasks, t), active[p].count);
      expired[p] := PrioQueue(Without(expired[p].tasks, t), expired[p].count);
      active[p] := PrioQueue(active[p].tasks, active[p].count - 1);
      assert active[..] == a0[p := PrioQueue(Without(a0[p].tasks, t), a0[p].count - 1)];
      assert expired[..] == e0[p := PrioQueue(Without(e0[p].tasks, t), e0[p].count)];
    }

    method DequeueTask(t: Task)
      requires Laid() && t.prio < MAX_PRIO
      modifies this`nrRunning, this`load, this`onRq, active, expired, activeBitmap
      ensures Laid() && St() == Dequeue(old(St()), t)
    {
      hide Without, BitAt, IsBitmap, ClearAt, Unlink;
      TakeOff(t);
      if active[t.prio].count == 0 { ClearPrioBit(activeBitmap, t.prio); }
      nrRunning := nrRunning - 1;
      onRq := onRq - {t};
      load := Less(load, MAX_PRIO - t.prio);
    }

    method SwapArrays()
      requires Laid()
      modifies this`active, this`expired, activeBitmap, expiredBitmap
      ensures Laid() && St() == Swap(old(St()))
      ensures active == old(expired) && expired == old(active)
    {
      active, expired := expired, active;
      var i := 0;
      while i < BITMAP_WORDS
        modifies activeBitmap, expiredBitmap
        invariant 0 <= i <= BITMAP_WORDS
        invariant forall k :: 0 <= k < i ==>
                    activeBitmap[k] == old(expiredBitmap[k]) &&
                    expiredBitmap[k] == old(activeBitmap[k])
        invariant forall k :: i <= k < BITMAP_WORDS ==>
                    activeBitmap[k] == old(activeBitmap[k]) &&
                    expiredBitmap[k] == old(expiredBitmap[k])
      {
        var w := activeBitmap[i];
        activeBitmap[i] := expiredBitmap[i];
        expiredBitmap[i] := w;
        i := i + 1;
      }
      assert activeBitmap[..] == old(expiredBitmap[..]) && expiredBitmap[..] == old(activeBitmap[..]);
    }

    /** The task to run next, None for idle; the arrays trade places when only expired has tasks. */
    method PickNext() returns (next: Option<Task>)
      requires Laid() && InRange(activeBitmap[..]) && InRange(expiredBitmap[..])
      modifies this`active, this`expired, activeBitmap, expiredBitmap
      ensures Laid() && St() == Turned(old(St())) && next == First(St())
      ensures {active, expired} == old({active, expired})
    {
      hide Lowest, BitAt;
      var p := FindFirstSetBit(activeBitmap);
      if p < 0 {
        p := FindFirstSetBit(expiredBitmap);
        if p >= 0 {
          SwapArrays();
          p := FindFirstSetBit(activeBitmap);
        }
      }
      if p < 0 {
        next := None;
      } else {
        next := if active[p].tasks == [] then None else Some(active[p].tasks[0]);
      }
    }

    /** `schedule_impl` up to the context switch. */
    method ScheduleImpl(running: bool, sliceUp: bool)
      requires Laid() && (curr.Some? ==> curr.value.prio < MAX_PRIO)
      requires InRange(activeBitmap[..]) && InRange(expiredBitmap[..])
      modifies this, active, expired, activeBitmap, expiredBitmap
      ensures Laid() && St() == Schedule(old(St()), running, sliceUp)
      ensures {active, expired} == old({active, expired})
    {
      hide InRange, Turned, First, Enqueue, Expire, Dequeue;
      TakenInRange(St());
      if curr.Some? && curr.value in onRq { DequeueTask(curr.value); }
      var next := PickNext();
      if curr.Some? && running {
        if sliceUp { ExpireTask(curr.value); } else { EnqueueTask(curr.value); }
      }
      if next.Some? { curr := next; }
    }
  }

  lemma TakenInRange(s: State)
    requires Well(s) && (s.curr.Some? ==> s.curr.value.prio < MAX_PRIO) && InRange(s.activeMap)
    ensures InRange(Taken(s).activeMap) && Taken(s).expiredMap == s.expiredMap
  {
    hide BitAt, ClearAt;
    if s.curr.Some? { ClearAtBits(s.activeMap, s.curr.value.prio); }
  }

  /** `set_prio_bit`: exactly that bit is added. */
  method SetPrioBit(bitmap: array<nat>, p: nat)
    requires p < 64 * bitmap.Length && IsBitmap(bitmap[..])
    modifies bitmap
    ensures IsBitmap(bitmap[..]) && bitmap[..] == SetAt(old(bitmap[..]), p)
    ensures forall q :: 0 <= q < 64 * bitmap.Length ==> BitAt(bitmap[..], q) == (q == p || old(BitAt(bitmap[..], q)))
  {
    hide Or, Bit;
    SetAtBits(bitmap[..], p);
    bitmap[p / 64] := Or(bitmap[p / 64], Pow2(p % 64));
    assert bitmap[..] == SetAt(old(bitmap[..]), p);
  }

  /** `clear_prio_bit`: exactly that bit is removed. */
  method ClearPrioBit(bitmap: array<nat>, p: nat)
    requires p < 64 * bitmap.Length && IsBitmap(bitmap[..])
    modifies bitmap
    ensures IsBitmap(bitmap[..]) && bitmap[..] == ClearAt(old(bitmap[..]), p)
    ensures forall q :: 0 <= q < 64 * bitmap.Length ==> BitAt(bitmap[..], q) == (q != p && old(BitAt(bitmap[..], q)))
  {
    hide AndNot, Bit;
    ClearAtBits(bitmap[..], p);
    bitmap[p / 64] := AndNot(bitmap[p / 64], Pow2(p % 64));
    assert bitmap[..] == ClearAt(old(bitmap[..]), p);
  }

  /** `find_first_set_bit`: the lowest set bit of the map, or -1. */
  method FindFirstSetBit(bitmap: array<nat>) returns (r: int)
    requires IsBitmap(bitmap[..])
    ensures r == Lowest(bitmap[..], 0)
    ensures r == -1 <==> forall q :: 0 <= q < 64 * bitmap.Length ==> !BitAt(bitmap[..], q)
    ensures r != -1 ==> 0 <= r < 64 * bitmap.Length && BitAt(bitmap[..], r) && forall q :: 0 <= q < r ==> !BitAt(bitmap[..], q)
  {
    hide BitAt;
    var i := 0;
    while i < bitmap.Length
      invariant 0 <= i <= bitmap.Length
      invariant forall j :: 0 <= j < i ==> bitmap[..][j] == 0
      invariant Lowest(bitmap[..], 0) == Lowest(bitmap[..], i)
    {
      if bitmap[i] != 0 {
        return 64 * i + LowestBit(bitmap[i]);
      }
      i := i + 1;
    }
    r := -1;
  }

  /** `task_migrate`: a queued task is in the source's active array and is not running; one that is off the queue is
      only added to the destination. */
  method TaskMigrate(t: Task, src: RunQueue, dst: RunQueue)
    requires src != dst && src.Laid() && dst.Laid() && Good(src.St()) && Good(dst.St()) && t.prio < MAX_PRIO
    requires {src.active, src.expired} !! {dst.active, dst.expired}
    requires {src.activeBitmap, src.expiredBitmap} !! {dst.activeBitmap, dst.expiredBitmap}
    requires src.onRq !! dst.onRq && t !in dst.onRq
    requires t in src.onRq ==> In(src.St().active, t) && src.curr != Some(t)
    modifies src, src.active, src.expired, src.activeBitmap, dst, dst.active, dst.activeBitmap
    ensures src.Laid() && dst.Laid() && Good(src.St()) && Good(dst.St())
    ensures src.onRq == old(src.onRq) - {t} && dst.onRq == old(dst.onRq) + {t} && dst.St() == Enqueue(old(dst.St()), t)
    ensures t in old(src.onRq) ==> src.nrRunning + dst.nrRunning == old(src.nrRunning + dst.nrRunning)
    ensures t in old(src.onRq) ==> (src.load + dst.load) % U64 == old((src.load + dst.load) % U64)
    ensures t !in old(src.onRq) ==> src.St() == old(src.St())
  {
    hide Good, Enqueue, Dequeue, Less;
    Flags(src.St(), dst.St(), t);
    AddedKeeps(dst.St(), t);
    if t in src.onRq {
      MigrateConserves(src.St(), dst.St(), t);
      src.DequeueTask(t);
    }
    dst.EnqueueTask(t);
  }

  lemma AddedKeeps(s: State, t: Task)
    requires Good(s) && t.prio < MAX_PRIO && t !in s.onRq
    ensures Well(s) && Good(Enqueue(s, t))
  {
    hide Agrees, Total, Once;
    EnqueueKeeps(s, t);
    StillIn(s, t);
  }

  lemma Flags(src: State, dst: State, t: Task)
    requires Well(src) && Well(dst) && t.prio < MAX_PRIO
    ensures Dequeue(src, t).onRq == src.onRq - {t} && Enqueue(dst, t).onRq == dst.onRq + {t}
  {
  }
}
