/** The 256-slot timer wheel: `add_timer`, `mod_timer`, `del_timer` and `run_timer_softirq`. */
module TimerWheel {
  import opened Words

  const SLOTS: nat := 256
  const HALF: nat := 0x8000_0000_0000_0000

  type Tick = t: nat | t < U64

  /** A `timer_list`: its expiry tick and whether it has a function to call. */
  datatype Timer = Timer(expires: Tick, callable: bool)

  /** `expires & TIMER_WHEEL_MASK` */
  function Slot(t: Tick): nat { And(t, 255) }

  lemma SlotIsMod(t: Tick)
    ensures Slot(t) == t % 256 < SLOTS
  {
    assert Pow2(8) == 256;
    MaskIsMod(t, 8);
  }

  /** Ticks from `now` to `e`, modulo 2^64. */
  function Delta(e: Tick, now: Tick): Tick { (e - now) % U64 }

  /** `(s64)(e - now) > 0` */
  predicate Future(e: Tick, now: Tick) { 0 < Delta(e, now) < HALF }

  type Timers = map<nat, Timer>

  /** A call of a timer's function: which timer, at which tick. */
  datatype Call = Call(id: nat, tick: Tick)

  /** `slots` lists the pending timers of each slot in list order; `calls` is the history of callbacks. */
  datatype Wheel = Wheel(now: Tick, slots: seq<seq<nat>>, timers: Timers, calls: seq<Call>)

  ghost predicate NoDup(s: seq<nat>) { forall i, j :: 0 <= i < j < |s| ==> s[i] != s[j] }

  /** Every pending timer is once on the list of its slot and nowhere else. */
  ghost predicate Inv(w: Wheel) {
    |w.slots| == SLOTS &&
    (forall k :: 0 <= k < SLOTS ==> NoDup(w.slots[k])) &&
    (forall k, id :: 0 <= k < SLOTS && id in w.slots[k] ==> id in w.timers && k == Slot(w.timers[id].expires))
  }

  /** `timer_pending` */
  predicate Pending(w: Wheel, id: nat)
    requires |w.slots| == SLOTS
  {
    id in w.timers && Slot(w.timers[id].expires) < SLOTS && id in w.slots[Slot(w.timers[id].expires)]
  }

  // ---- the operations on lists

  function Without(s: seq<nat>, id: nat): seq<nat> {
    if s == [] then [] else if s[0] == id then s[1..] else [s[0]] + Without(s[1..], id)
  }

  /** The timers of a slot whose tick has not come. */
  function Keep(l: seq<nat>, timers: Timers, now: Tick): seq<nat> {
    if l == [] then []
    else if l[0] in timers && Future(timers[l[0]].expires, now) then [l[0]] + Keep(l[1..], timers, now)
    else Keep(l[1..], timers, now)
  }

  /** The callbacks made when a slot is run. */
  function Fire(l: seq<nat>, timers: Timers, now: Tick): seq<Call> {
    if l == [] then []
    else if l[0] in timers && !Future(timers[l[0]].expires, now) && timers[l[0]].callable then [Call(l[0], now)] + Fire(l[1..], timers, now)
    else Fire(l[1..], timers, now)
  }

  /** Put a timer with the given expiry at the tail of its slot. */
  function Arm(w: Wheel, id: nat, t: Timer): Wheel
    requires |w.slots| == SLOTS
  {
    SlotIsMod(t.expires);
    w.(slots := w.slots[Slot(t.expires) := w.slots[Slot(t.expires)] + [id]], timers := w.timers[id := t])
  }

  function Unlink(w: Wheel, id: nat): Wheel
    requires |w.slots| == SLOTS
  {
    if Pending(w, id) then
      var k := Slot(w.timers[id].expires);
      w.(slots := w.slots[k := Without(w.slots[k], id)])
    else w
  }

  /** One tick: the counter advances and the softirq runs the slot of the new tick. */
  function RunTick(w: Wheel): Wheel
    requires |w.slots| == SLOTS
  {
    var now: Tick := (w.now + 1) % U64;
    SlotIsMod(now);
    var l := w.slots[Slot(now)];
    w.(now := now, slots := w.slots[Slot(now) := Keep(l, w.timers, now)], calls := w.calls + Fire(l, w.timers, now))
  }

  datatype Action =
    | Advance                                 // the tick interrupt
    | Add(id: nat, timer: Timer)              // set up and add_timer
    | Mod(id: nat, expires: Tick)             // mod_timer
    | Del(id: nat)                            // del_timer

  /** One step. `add_timer` on a pending timer would corrupt the list, so such a step is not taken. */
  function Next(w: Wheel, a: Action): Wheel
    requires |w.slots| == SLOTS
  {
    match a
    case Advance => RunTick(w)
    case Add(id, t) => if Pending(w, id) then w else if t.callable then Arm(w, id, t) else w.(timers := w.timers[id := t])
    case Mod(id, e) => if id in w.timers then Arm(Unlink(w, id), id, w.timers[id].(expires := e)) else w
    case Del(id) => Unlink(w, id)
  }

  lemma {:induction false} WithoutFacts(s: seq<nat>, id: nat)
    requires NoDup(s)
    ensures NoDup(Without(s, id))
    ensures forall x :: x in Without(s, id) <==> x in s && x != id
  {
    if s != [] {
      assert s == [s[0]] + s[1..];
      assert s[0] !in s[1..];
      if s[0] != id { WithoutFacts(s[1..], id); }
    }
  }

  lemma {:induction false} KeepFacts(l: seq<nat>, timers: Timers, now: Tick)
    requires NoDup(l)
    ensures NoDup(Keep(l, timers, now))
    ensures forall x :: x in Keep(l, timers, now) <==> x in l && x in timers && Future(timers[x].expires, now)
  {
    if l != [] {
      assert l == [l[0]] + l[1..];
      assert l[0] !in l[1..];
      KeepFacts(l[1..], timers, now);
    }
  }

  // ---- what every step keeps

  lemma UnlinkKeeps(w: Wheel, id: nat)
    requires Inv(w)
    ensures Inv(Unlink(w, id)) && !Pending(Unlink(w, id), id)
    ensures forall x :: x != id ==> Pending(Unlink(w, id), x) == Pending(w, x)
  {
    if Pending(w, id) {
      WithoutFacts(w.slots[Slot(w.timers[id].expires)], id);
    }
  }

  lemma ArmKeeps(w: Wheel, id: nat, t: Timer)
    requires Inv(w) && !Pending(w, id)
    ensures Inv(Arm(w, id, t)) && Pending(Arm(w, id, t), id)
    ensures forall x :: x != id ==> Pending(Arm(w, id, t), x) == Pending(w, x)
  {
    SlotIsMod(t.expires);
    assert forall k :: 0 <= k < SLOTS ==> id !in w.slots[k];
  }

  lemma TickKeeps(w: Wheel)
    requires Inv(w)
    ensures Inv(RunTick(w))
    ensures forall x :: Pending(RunTick(w), x) <==>
              Pending(w, x) && (Slot(w.timers[x].expires) == Slot(RunTick(w).now) ==> Future(w.timers[x].expires, RunTick(w).now))
  {
    var now: Tick := (w.now + 1) % U64;
    SlotIsMod(now);
    KeepFacts(w.slots[Slot(now)], w.timers, now);
  }

  lemma NextKeepsInv(w: Wheel, a: Action)
    requires Inv(w)
    ensures Inv(Next(w, a))
  {
    hide Slot, Keep, Fire, Without;
    match a
    case Advance => TickKeeps(w);
    case Add(id, t) =>
      if !Pending(w, id) {
        if t.callable { ArmKeeps(w, id, t); }
        else { assert forall k :: 0 <= k < SLOTS ==> id !in w.slots[k]; }
      }
    case Mod(id, e) =>
      if id in w.timers {
        UnlinkKeeps(w, id);
        ArmKeeps(Unlink(w, id), id, w.timers[id].(expires := e));
      }
    case Del(id) => UnlinkKeeps(w, id);
  }

  function Run(w: Wheel, acts: seq<Action>): (w': Wheel)
    requires Inv(w)
    ensures Inv(w')
    decreases |acts|
  {
    if acts == [] then w
    else
      NextKeepsInv(w, acts[0]);
      Run(Next(w, acts[0]), acts[1..])
  }

  // ---- when a timer fires

  /** The ticks at which a timer's function was called. */
  function CallsOf(calls: seq<Call>, id: nat): seq<Tick> {
    if calls == [] then []
    else CallsOf(calls[..|calls| - 1], id) + if calls[|calls| - 1].id == id then [calls[|calls| - 1].tick] else []
  }

  lemma {:induction false} CallsOfAppend(xs: seq<Call>, ys: seq<Call>, id: nat)
    ensures CallsOf(xs + ys, id) == CallsOf(xs, id) + CallsOf(ys, id)
    decreases |ys|
  {
    if ys == [] {
      assert xs + ys == xs;
    } else {
      var y := ys[..|ys| - 1];
      assert (xs + ys)[..|xs + ys| - 1] == xs + y;
      CallsOfAppend(xs, y, id);
    }
  }

  lemma {:induction false} FireOf(l: seq<nat>, timers: Timers, now: Tick, id: nat)
    requires NoDup(l)
    ensures CallsOf(Fire(l, timers, now), id) ==
              if id in l && id in timers && !Future(timers[id].expires, now) && timers[id].callable then [now] else []
  {
    if l != [] {
      assert l == [l[0]] + l[1..];
      assert l[0] !in l[1..];
      FireOf(l[1..], timers, now, id);
      CallsOfAppend([Call(l[0], now)], Fire(l[1..], timers, now), id);
      assert [Call(l[0], now)][..0] == [];
    }
  }

  /** What one tick does to one timer. */
  lemma TickOf(w: Wheel, id: nat)
    requires Inv(w) && Inv(RunTick(w))
    ensures var w' := RunTick(w);
      if Pending(w, id) && Slot(w.timers[id].expires) == Slot(w'.now) && !Future(w.timers[id].expires, w'.now) then
        !Pending(w', id) && CallsOf(w'.calls, id) == CallsOf(w.calls, id) + if w.timers[id].callable then [w'.now] else []
      else Pending(w', id) == Pending(w, id) && CallsOf(w'.calls, id) == CallsOf(w.calls, id)
  {
    var now := RunTick(w).now;
    SlotIsMod(now);
    TickKeeps(w);
    FireOf(w.slots[Slot(now)], w.timers, now, id);
    CallsOfAppend(w.calls, Fire(w.slots[Slot(now)], w.timers, now), id);
    hide Fire, Keep, CallsOf;
    if id in w.slots[Slot(now)] { assert Pending(w, id); }
  }

  ghost predicate Leaves(a: Action, id: nat) {
    match a
    case Advance => true
    case Add(i, _) => i != id
    case Mod(i, _) => i != id
    case Del(i) => i != id
  }

  /** A step that is no tick and names another timer. */
  lemma OtherStep(w: Wheel, a: Action, id: nat)
    requires Inv(w) && !a.Advance? && Leaves(a, id)
    ensures var w' := Next(w, a);
      w'.now == w.now && w'.calls == w.calls && Inv(w') && Pending(w', id) == Pending(w, id) &&
      (id in w.timers ==> id in w'.timers && w'.timers[id] == w.timers[id])
  {
    NextKeepsInv(w, a);
    hide Slot, Without;
    match a
    case Add(i, t) => if !Pending(w, i) && t.callable { ArmKeeps(w, i, t); }
    case Mod(i, e) =>
      if i in w.timers {
        UnlinkKeeps(w, i);
        ArmKeeps(Unlink(w, i), i, w.timers[i].(expires := e));
      }
    case Del(i) => UnlinkKeeps(w, i);
  }

  ghost predicate AllLeave(acts: seq<Action>, id: nat) { forall i :: 0 <= i < |acts| ==> Leaves(acts[i], id) }

  function Ticks(acts: seq<Action>): nat {
    if acts == [] then 0 else (if acts[0].Advance? then 1 else 0) + Ticks(acts[1..])
  }

  /** A timer that is not pending is not called. */
  lemma {:induction false} IdleStays(w: Wheel, id: nat, acts: seq<Action>)
    requires Inv(w) && !Pending(w, id) && AllLeave(acts, id)
    ensures !Pending(Run(w, acts), id) && CallsOf(Run(w, acts).calls, id) == CallsOf(w.calls, id)
    decreases |acts|
  {
    assert |w.slots| == SLOTS;
    hide Inv, Next, CallsOf, Pending;
    if acts != [] {
      var w' := Next(w, acts[0]);
      NextKeepsInv(w, acts[0]);
      assert Leaves(acts[0], id) && AllLeave(acts[1..], id);
      if acts[0].Advance? { AdvanceOf(w, id); } else { OtherStep(w, acts[0], id); }
      IdleStays(w', id, acts[1..]);
    }
  }

  lemma AdvanceOf(w: Wheel, id: nat)
    requires Inv(w)
    ensures var w' := Next(w, Advance);
      Inv(w') && w'.now == (w.now + 1) % U64 && w'.timers == w.timers &&
      if Pending(w, id) && Slot(w.timers[id].expires) == Slot(w'.now) && !Future(w.timers[id].expires, w'.now) then
        !Pending(w', id) && CallsOf(w'.calls, id) == CallsOf(w.calls, id) + if w.timers[id].callable then [w'.now] else []
      else Pending(w', id) == Pending(w, id) && CallsOf(w'.calls, id) == CallsOf(w.calls, id)
  {
    TickKeeps(w);
    TickOf(w, id);
  }

  lemma DeltaSteps(e: Tick, now: Tick)
    ensures Delta(e, (now + 1) % U64) == if Delta(e, now) == 0 then U64 - 1 else Delta(e, now) - 1
    ensures Delta(e, now) == 0 <==> e == now
  {
  }

  lemma PendingTimer(w: Wheel, id: nat)
    requires |w.slots| == SLOTS && Pending(w, id)
    ensures id in w.timers
  {
  }

  /** A timer armed for a future tick is called exactly once, at exactly that tick, and not before: for any run that
      leaves it alone, whatever other timers come and go. */
  lemma {:induction false} FiresOnTime(w: Wheel, id: nat, acts: seq<Action>)
    requires Inv(w) && Pending(w, id) && w.timers[id].callable && AllLeave(acts, id)
    requires Future(w.timers[id].expires, w.now)
    ensures var e, w' := w.timers[id].expires, Run(w, acts);
      if Ticks(acts) < Delta(e, w.now) then Pending(w', id) && CallsOf(w'.calls, id) == CallsOf(w.calls, id)
      else !Pending(w', id) && CallsOf(w'.calls, id) == CallsOf(w.calls, id) + [e]
    decreases |acts|
  {
    PendingTimer(w, id);
    if acts != [] {
      hide Inv, Next, CallsOf, Pending, Slot;
      var e, w' := w.timers[id].expires, Next(w, acts[0]);
      NextKeepsInv(w, acts[0]);
      assert Leaves(acts[0], id) && AllLeave(acts[1..], id);
      if acts[0].Advance? {
        AdvanceOf(w, id);
        DeltaSteps(e, w.now);
        DeltaSteps(e, w'.now);
        if e == w'.now { IdleStays(w', id, acts[1..]); } else { FiresOnTime(w', id, acts[1..]); }
      } else {
        OtherStep(w, acts[0], id);
        FiresOnTime(w', id, acts[1..]);
      }
    }
  }

  // ---- timers armed at or before the current tick

  /** Ticks until the slot of `e` is run next, from 1 to 256. */
  function Wait(e: Tick, now: Tick): nat { (e - now - 1) % 256 + 1 }

  lemma WaitSteps(e: Tick, now: Tick)
    ensures var now' := (now + 1) % U64;
      (Slot(e) == Slot(now') <==> Wait(e, now) == 1) && (Wait(e, now) > 1 ==> Wait(e, now') == Wait(e, now) - 1)
  {
    hide Slot;
    var now' := (now + 1) % U64;
    SlotIsMod(e);
    SlotIsMod(now');
    assert now' % 256 == (now + 1) % 256;
    WaitArith(e, now);
  }

  lemma WaitArith(e: int, now: int)
    ensures (e % 256 == (now + 1) % 256) <==> (e - now - 1) % 256 == 0
    ensures (e - now - 1) % 256 > 0 ==> (e - (now + 1) - 1) % 256 == (e - now - 1) % 256 - 1
  {
  }

  /** A late timer keeps its sign until its slot is run: never more than 2^63 - Wait ticks late. */
  predicate StaysLate(e: Tick, now: Tick) {
    Delta(e, now) == 0 || Delta(e, now) >= HALF + Wait(e, now)
  }

  lemma RunStep(w: Wheel, acts: seq<Action>, id: nat)
    requires Inv(w) && acts != [] && AllLeave(acts, id)
    ensures Inv(Next(w, acts[0])) && Run(w, acts) == Run(Next(w, acts[0]), acts[1..])
    ensures Leaves(acts[0], id) && AllLeave(acts[1..], id)
    ensures Ticks(acts) == (if acts[0].Advance? then 1 else 0) + Ticks(acts[1..])
  {
    NextKeepsInv(w, acts[0]);
    hide Inv, Next;
  }

  /** One tick in the life of a late timer. */
  lemma LateStep(e: Tick, now: Tick)
    requires !Future(e, now)
    ensures var now' := (now + 1) % U64;
      if Wait(e, now) == 1 then Slot(e) == Slot(now') && (Future(e, now') <==> !StaysLate(e, now))
      else
        Slot(e) != Slot(now') && Wait(e, now') == Wait(e, now) - 1 &&
        (now' + Wait(e, now')) % U64 == (now + Wait(e, now)) % U64 &&
        (if Future(e, now') then !StaysLate(e, now) && Wait(e, now') < Delta(e, now') else StaysLate(e, now') == StaysLate(e, now))
  {
    hide Slot;
    DeltaSteps(e, now);
    WaitSteps(e, now);
    ModAdd(now + 1, Wait(e, now) - 1);
  }

  /** A timer armed at or before the current tick is called when its slot is run next, at most 256 ticks on, if and
      only if it is not so late that its lateness turns into the future first; in that case it is pending still,
      uncalled, and due at its tick in the next round. */
  lemma {:induction false} LateTimer(w: Wheel, id: nat, acts: seq<Action>)
    requires Inv(w) && Pending(w, id) && w.timers[id].callable && AllLeave(acts, id)
    requires !Future(w.timers[id].expires, w.now)
    requires Ticks(acts) == Wait(w.timers[id].expires, w.now)
    ensures var e, w' := w.timers[id].expires, Run(w, acts);
      if StaysLate(e, w.now) then
        !Pending(w', id) && CallsOf(w'.calls, id) == CallsOf(w.calls, id) + [(w.now + Wait(e, w.now)) % U64]
      else Pending(w', id) && CallsOf(w'.calls, id) == CallsOf(w.calls, id)
    decreases |acts|
  {
    PendingTimer(w, id);
    assert |w.slots| == SLOTS;
    assert acts != [];
    RunStep(w, acts, id);
    hide Inv, Next, CallsOf, Pending, Slot, Future, StaysLate, Delta, Run, Ticks, Wait, AllLeave;
    var e, w' := w.timers[id].expires, Next(w, acts[0]);
    if acts[0].Advance? {
      AdvanceOf(w, id);
      LateStep(e, w.now);
      if Wait(e, w.now) == 1 {
        if StaysLate(e, w.now) { IdleStays(w', id, acts[1..]); } else { NoTick(w', id, acts[1..]); }
      } else if Future(e, w'.now) {
        FiresOnTime(w', id, acts[1..]);
      } else {
        LateTimer(w', id, acts[1..]);
      }
    } else {
      OtherStep(w, acts[0], id);
      LateTimer(w', id, acts[1..]);
    }
  }

  /** Without a tick nothing is called. */
  lemma {:induction false} NoTick(w: Wheel, id: nat, acts: seq<Action>)
    requires Inv(w) && AllLeave(acts, id) && Ticks(acts) == 0
    ensures Pending(Run(w, acts), id) == Pending(w, id) && CallsOf(Run(w, acts).calls, id) == CallsOf(w.calls, id)
    decreases |acts|
  {
    assert |w.slots| == SLOTS;
    hide Inv, Next, CallsOf, Pending, Slot;
    if acts != [] {
      NextKeepsInv(w, acts[0]);
      assert Leaves(acts[0], id) && AllLeave(acts[1..], id);
      OtherStep(w, acts[0], id);
      NoTick(Next(w, acts[0]), id, acts[1..]);
    }
  }

  // ---- what each call does to its timer

  /** `mod_timer`: the timer is pending with the new expiry and its old function; nothing else changes. */
  lemma AfterMod(w: Wheel, id: nat, e: Tick)
    requires Inv(w) && id in w.timers
    ensures var w' := Next(w, Mod(id, e));
      && Inv(w') && Pending(w', id) && w'.timers == w.timers[id := Timer(e, w.timers[id].callable)]
      && (forall j :: j != id ==> Pending(w', j) == Pending(w, j)) && w'.now == w.now && w'.calls == w.calls
  {
    hide Slot, Without, Pending, Inv;
    IsWheel(w);
    NextKeepsInv(w, Mod(id, e));
    UnlinkKeeps(w, id);
    UnlinkOnly(w, id);
    IsWheel(Unlink(w, id));
    ArmKeeps(Unlink(w, id), id, w.timers[id].(expires := e));
  }

  lemma IsWheel(w: Wheel)
    requires Inv(w)
    ensures |w.slots| == SLOTS
  {
  }

  lemma UnlinkOnly(w: Wheel, id: nat)
    requires |w.slots| == SLOTS
    ensures var w' := Unlink(w, id); w'.timers == w.timers && w'.now == w.now && w'.calls == w.calls && |w'.slots| == SLOTS
  {
  }

  /** `add_timer` of a timer that is not pending: pending with its own expiry exactly if it has a function. */
  lemma AfterAdd(w: Wheel, id: nat, t: Timer)
    requires Inv(w) && !Pending(w, id)
    ensures var w' := Next(w, Add(id, t));
      && Inv(w') && (Pending(w', id) <==> t.callable) && w'.timers == w.timers[id := t]
      && (forall j :: j != id ==> Pending(w', j) == Pending(w, j)) && w'.now == w.now && w'.calls == w.calls
  {
    hide Slot, Without;
    NextKeepsInv(w, Add(id, t));
    if t.callable { ArmKeeps(w, id, t); } else { assert forall k :: 0 <= k < SLOTS ==> id !in w.slots[k]; }
  }

  /** `del_timer`: the timer is not pending; nothing else changes. */
  lemma AfterDel(w: Wheel, id: nat)
    requires Inv(w)
    ensures var w' := Next(w, Del(id));
      && Inv(w') && !Pending(w', id) && w'.timers == w.timers
      && (forall j :: j != id ==> Pending(w', j) == Pending(w, j)) && w'.now == w.now && w'.calls == w.calls
  {
    hide Slot, Without, Pending, Inv;
    IsWheel(w);
    NextKeepsInv(w, Del(id));
    UnlinkKeeps(w, id);
    UnlinkOnly(w, id);
  }

  lemma RunCons(w: Wheel, a: Action, acts: seq<Action>)
    requires Inv(w)
    ensures Inv(Next(w, a)) && Run(w, [a] + acts) == Run(Next(w, a), acts)
  {
    NextKeepsInv(w, a);
    assert ([a] + acts)[1..] == acts;
  }

  /** The calls a timer gets in a run, from one wheel to the other. */
  ghost predicate CalledOnceAt(w: Wheel, w': Wheel, id: nat, e: Tick, ticks: nat) {
    if ticks < Delta(e, w.now) then CallsOf(w'.calls, id) == CallsOf(w.calls, id)
    else CallsOf(w'.calls, id) == CallsOf(w.calls, id) + [e]
  }

  /** After `mod_timer` to a future tick, in any run that leaves the timer alone, its function is called exactly once, at
      exactly the tick given to `mod_timer`, wherever the timer stood before. */
  lemma ModFires(w: Wheel, id: nat, e: Tick, acts: seq<Action>)
    requires Inv(w) && id in w.timers && w.timers[id].callable && Future(e, w.now) && AllLeave(acts, id)
    ensures CalledOnceAt(w, Run(w, [Mod(id, e)] + acts), id, e, Ticks(acts))
  {
    hide Inv, Next, Pending, CallsOf, Run;
    IsWheel(w);
    RunCons(w, Mod(id, e), acts);
    AfterMod(w, id, e);
    FiresOnTime(Next(w, Mod(id, e)), id, acts);
  }

  /** After `add_timer` for a future tick likewise. */
  lemma AddFires(w: Wheel, id: nat, t: Timer, acts: seq<Action>)
    requires Inv(w) && !Pending(w, id) && t.callable && Future(t.expires, w.now) && AllLeave(acts, id)
    ensures CalledOnceAt(w, Run(w, [Add(id, t)] + acts), id, t.expires, Ticks(acts))
  {
    hide Next, CallsOf, Run, Slot;
    RunCons(w, Add(id, t), acts);
    AfterAdd(w, id, t);
    FiresOnTime(Next(w, Add(id, t)), id, acts);
  }

  /** After `del_timer` the function is not called again until the timer is armed again. */
  lemma DelSilences(w: Wheel, id: nat, acts: seq<Action>)
    requires Inv(w) && AllLeave(acts, id)
    ensures CallsOf(Run(w, [Del(id)] + acts).calls, id) == CallsOf(w.calls, id)
  {
    hide Next, CallsOf, Run, Slot;
    RunCons(w, Del(id), acts);
    AfterDel(w, id);
    IdleStays(Next(w, Del(id)), id, acts);
  }

  // ---- timers due at the same tick are called in the order they were armed

  type Stamps = map<nat, nat>

  function At(st: Stamps, id: nat): nat { if id in st then st[id] else 0 }

  /** The action arms the timer: links it at its slot. */
  predicate Arms(w: Wheel, a: Action, id: nat)
    requires |w.slots| == SLOTS
  {
    (a.Add? && a.id == id && a.timer.callable && !Pending(w, id)) || (a.Mod? && a.id == id && id in w.timers)
  }

  /** Which step armed each timer last, steps being counted from `n`. */
  ghost function Stamped(w: Wheel, a: Action, st: Stamps, n: nat): Stamps
    requires |w.slots| == SLOTS
  {
    if (a.Add? || a.Mod?) && Arms(w, a, a.id) then st[a.id := n] else st
  }

  ghost predicate Sorted(l: seq<nat>, st: Stamps) {
    forall i, j :: 0 <= i < j < |l| ==> At(st, l[i]) < At(st, l[j])
  }

  /** Every slot lists its timers by the step that armed them, all before step `n`. */
  ghost predicate Ordered(w: Wheel, st: Stamps, n: nat) {
    |w.slots| == SLOTS && forall k :: 0 <= k < SLOTS ==> Sorted(w.slots[k], st) && forall x :: x in w.slots[k] ==> At(st, x) < n
  }

  lemma {:induction false} WithoutSorted(l: seq<nat>, id: nat, st: Stamps)
    requires Sorted(l, st)
    ensures Sorted(Without(l, id), st) && forall x :: x in Without(l, id) ==> x in l
  {
    if l != [] {
      TailSorted(l, st);
      if l[0] != id {
        WithoutSorted(l[1..], id, st);
        ConsSorted(l[0], Without(l[1..], id), l[1..], st);
      }
    }
  }

  lemma TailSorted(l: seq<nat>, st: Stamps)
    requires Sorted(l, st) && l != []
    ensures Sorted(l[1..], st) && forall x :: x in l[1..] ==> At(st, l[0]) < At(st, x)
  {
    forall i, j | 0 <= i < j < |l[1..]| ensures At(st, l[1..][i]) < At(st, l[1..][j]) {
      assert l[1..][i] == l[i + 1] && l[1..][j] == l[j + 1];
    }
    forall x | x in l[1..] ensures At(st, l[0]) < At(st, x) {
      var i :| 0 <= i < |l[1..]| && l[1..][i] == x;
      assert l[i + 1] == x;
    }
  }

  lemma ConsSorted(x: nat, r: seq<nat>, l: seq<nat>, st: Stamps)
    requires Sorted(r, st) && (forall y :: y in r ==> y in l) && forall y :: y in l ==> At(st, x) < At(st, y)
    ensures Sorted([x] + r, st)
  {
    forall i, j | 0 <= i < j < |[x] + r| ensures At(st, ([x] + r)[i]) < At(st, ([x] + r)[j]) {
      assert ([x] + r)[j] == r[j - 1] && r[j - 1] in r;
      if i > 0 { assert ([x] + r)[i] == r[i - 1]; }
    }
  }

  lemma {:induction false} KeepSorted(l: seq<nat>, timers: Timers, now: Tick, st: Stamps)
    requires Sorted(l, st)
    ensures Sorted(Keep(l, timers, now), st) && forall x :: x in Keep(l, timers, now) ==> x in l
  {
    hide Future;
    if l != [] {
      TailSorted(l, st);
      KeepSorted(l[1..], timers, now, st);
      ConsSorted(l[0], Keep(l[1..], timers, now), l[1..], st);
    }
  }

  ghost function Ids(cs: seq<Call>): seq<nat> {
    seq(|cs|, i requires 0 <= i < |cs| => cs[i].id)
  }

  /** The callbacks of one slot come in list order. */
  lemma {:induction false} FireSorted(l: seq<nat>, timers: Timers, now: Tick, st: Stamps)
    requires Sorted(l, st)
    ensures Sorted(Ids(Fire(l, timers, now)), st) && forall x :: x in Ids(Fire(l, timers, now)) ==> x in l
  {
    hide Future;
    if l != [] {
      TailSorted(l, st);
      FireSorted(l[1..], timers, now, st);
      var r := Fire(l[1..], timers, now);
      ConsSorted(l[0], Ids(r), l[1..], st);
      assert Ids([Call(l[0], now)] + r) == [l[0]] + Ids(r);
    }
  }

  lemma PushSorted(l: seq<nat>, id: nat, st: Stamps, n: nat)
    requires Sorted(l, st) && id !in l && forall x :: x in l ==> At(st, x) < n
    ensures Sorted(l + [id], st[id := n]) && forall x :: x in l + [id] ==> At(st[id := n], x) < n + 1
  {
    forall i, j | 0 <= i < j < |l + [id]| ensures At(st[id := n], (l + [id])[i]) < At(st[id := n], (l + [id])[j]) {
      assert l[i] in l;
      if j < |l| { assert l[j] in l; }
    }
  }

  lemma StampElsewhere(l: seq<nat>, id: nat, st: Stamps, n: nat)
    requires Sorted(l, st) && id !in l && forall x :: x in l ==> At(st, x) < n
    ensures Sorted(l, st[id := n]) && forall x :: x in l ==> At(st[id := n], x) < n + 1
  {
    forall i, j | 0 <= i < j < |l| ensures At(st[id := n], l[i]) < At(st[id := n], l[j]) { assert l[i] in l && l[j] in l; }
  }

  lemma ArmOrdered(w: Wheel, id: nat, t: Timer, st: Stamps, n: nat)
    requires Ordered(w, st, n) && forall k :: 0 <= k < SLOTS ==> id !in w.slots[k]
    ensures Ordered(Arm(w, id, t), st[id := n], n + 1)
  {
    SlotIsMod(t.expires);
    hide Sorted, Slot;
    var w' := Arm(w, id, t);
    forall k | 0 <= k < SLOTS ensures Sorted(w'.slots[k], st[id := n]) && forall x :: x in w'.slots[k] ==> At(st[id := n], x) < n + 1 {
      if k == Slot(t.expires) { PushSorted(w.slots[k], id, st, n); } else { StampElsewhere(w.slots[k], id, st, n); }
    }
  }

  lemma UnlinkOrdered(w: Wheel, id: nat, st: Stamps, n: nat)
    requires Ordered(w, st, n) && Inv(w)
    ensures Ordered(Unlink(w, id), st, n) && forall k :: 0 <= k < SLOTS ==> id !in Unlink(w, id).slots[k]
  {
    hide Sorted, Without;
    UnlinkKeeps(w, id);
    if Pending(w, id) { WithoutSorted(w.slots[Slot(w.timers[id].expires)], id, st); }
    NotLinked(Unlink(w, id), id);
  }

  lemma Later(w: Wheel, st: Stamps, n: nat)
    requires Ordered(w, st, n)
    ensures Ordered(w, st, n + 1)
  {
    hide Sorted;
  }

  /** Every step keeps the lists in the order of arming. */
  lemma OrderStep(w: Wheel, a: Action, st: Stamps, n: nat)
    requires Inv(w) && Ordered(w, st, n)
    ensures Ordered(Next(w, a), Stamped(w, a, st, n), n + 1)
  {
    hide Ordered, Keep, Fire, Slot;
    Later(w, st, n);
    match a
    case Advance => TickOrdered(w, st, n);
    case Add(id, t) =>
      if !Pending(w, id) {
        if t.callable { NotLinked(w, id); ArmOrdered(w, id, t, st, n); } else { SameSlots(w, w.(timers := w.timers[id := t]), st, n + 1); }
      }
    case Mod(id, e) =>
      if id in w.timers {
        UnlinkOrdered(w, id, st, n);
        ArmOrdered(Unlink(w, id), id, w.timers[id].(expires := e), st, n);
      }
    case Del(id) =>
      UnlinkOrdered(w, id, st, n);
      Later(Unlink(w, id), st, n);
  }

  lemma NotLinked(w: Wheel, id: nat)
    requires Inv(w) && !Pending(w, id)
    ensures forall k :: 0 <= k < SLOTS ==> id !in w.slots[k]
  {
  }

  lemma SameSlots(w: Wheel, w': Wheel, st: Stamps, n: nat)
    requires Ordered(w, st, n) && w'.slots == w.slots
    ensures Ordered(w', st, n)
  {
    hide Sorted;
  }

  lemma TickOrdered(w: Wheel, st: Stamps, n: nat)
    requires Ordered(w, st, n)
    ensures Ordered(RunTick(w), st, n + 1)
  {
    hide Sorted, Keep, Fire;
    var now: Tick := (w.now + 1) % U64;
    SlotIsMod(now);
    KeepSorted(w.slots[Slot(now)], w.timers, now, st);
  }

  /** The arming step of every timer after a run. */
  ghost function StampsOf(w: Wheel, acts: seq<Action>, st: Stamps, n: nat): Stamps
    requires Inv(w)
    decreases |acts|
  {
    if acts == [] then st
    else
      NextKeepsInv(w, acts[0]);
      StampsOf(Next(w, acts[0]), acts[1..], Stamped(w, acts[0], st, n), n + 1)
  }

  lemma {:induction false} OrderedRun(w: Wheel, acts: seq<Action>, st: Stamps, n: nat)
    requires Inv(w) && Ordered(w, st, n)
    ensures Ordered(Run(w, acts), StampsOf(w, acts, st, n), n + |acts|)
    decreases |acts|
  {
    IsWheel(w);
    hide Inv, Next, Ordered, Stamped;
    if acts != [] {
      NextKeepsInv(w, acts[0]);
      OrderStep(w, acts[0], st, n);
      OrderedRun(Next(w, acts[0]), acts[1..], Stamped(w, acts[0], st, n), n + 1);
    }
  }

  /** In any run from an empty wheel, the functions called at one tick are called in the order in which their timers were
      armed. */
  lemma CalledInOrder(w: Wheel, acts: seq<Action>)
    requires Inv(w) && forall k :: 0 <= k < SLOTS ==> w.slots[k] == []
    ensures var w1 := Run(w, acts);
      && |w1.slots| == SLOTS && w1.calls <= Next(w1, Advance).calls
      && Sorted(Ids(Next(w1, Advance).calls[|w1.calls|..]), StampsOf(w, acts, map[], 1))
  {
    hide Sorted, Fire, Keep, Ids, Inv, Run;
    IsWheel(w);
    assert Ordered(w, map[], 1) by { EmptyOrdered(w); }
    OrderedRun(w, acts, map[], 1);
    var w1 := Run(w, acts);
    var now: Tick := (w1.now + 1) % U64;
    IsWheel(w1);
    SlotIsMod(now);
    FireSorted(w1.slots[Slot(now)], w1.timers, now, StampsOf(w, acts, map[], 1));
    assert Next(w1, Advance).calls[|w1.calls|..] == Fire(w1.slots[Slot(now)], w1.timers, now);
  }

  lemma EmptyOrdered(w: Wheel)
    requires |w.slots| == SLOTS && forall k :: 0 <= k < SLOTS ==> w.slots[k] == []
    ensures Ordered(w, map[], 1)
  {
  }

  // ---- the wheel in memory

  class TimerBase {
    const slots: array<seq<nat>>
    var timers: Timers
    var jiffies: Tick
    ghost var calls: seq<Call>

    ghost function View(): Wheel
      reads this, slots
    {
      Wheel(jiffies, slots[..], timers, calls)
    }

    ghost predicate Valid()
      reads this, slots
    {
      slots.Length == SLOTS && Inv(View())
    }

    /** `timers_init` */
    constructor ()
      ensures Valid() && fresh(slots) && timers == map[] && jiffies == 0 && calls == []
      ensures forall k :: 0 <= k < SLOTS ==> slots[k] == []
    {
      slots := new seq<nat>[SLOTS](_ => []);
      timers, jiffies, calls := map[], 0, [];
    }

    /** Setting up a timer and `add_timer`. */
    method AddTimer(id: nat, t: Timer)
      requires Valid() && !Pending(View(), id)
      modifies this`timers, slots
      ensures Valid() && View() == Next(old(View()), Add(id, t))
    {
      NextKeepsInv(View(), Add(id, t));
      SlotIsMod(t.expires);
      timers := timers[id := t];
      if !t.callable { return; }
      var slot := Slot(t.expires);
      slots[slot] := slots[slot] + [id];
    }

    /** `mod_timer` */
    method ModTimer(id: nat, expires: Tick)
      requires Valid() && id in timers
      modifies this`timers, slots
      ensures Valid() && View() == Next(old(View()), Mod(id, expires))
    {
      NextKeepsInv(View(), Mod(id, expires));
      SlotIsMod(timers[id].expires);
      SlotIsMod(expires);
      var was := DelTimer(id);
      timers := timers[id := timers[id].(expires := expires)];
      slots[Slot(expires)] := slots[Slot(expires)] + [id];
    }

    /** `del_timer`: says whether the timer was pending. */
    method DelTimer(id: nat) returns (wasPending: bool)
      requires Valid() && id in timers
      modifies slots
      ensures Valid() && View() == Next(old(View()), Del(id)) && wasPending == Pending(old(View()), id)
    {
      NextKeepsInv(View(), Del(id));
      SlotIsMod(timers[id].expires);
      var slot := Slot(timers[id].expires);
      wasPending := id in slots[slot];
      if wasPending { slots[slot] := Without(slots[slot], id); }
    }

    /** `run_timer_softirq` on its slot: unlink what is due, in list order, and call it. */
    method WalkSlot(slot: nat)
      requires slot < slots.Length && forall x :: x in slots[slot] ==> x in timers
      modifies this`calls, slots
      ensures slots[..] == old(slots[..])[slot := Keep(old(slots[slot]), timers, jiffies)]
      ensures calls == old(calls) + Fire(old(slots[slot]), timers, jiffies)
    {
      hide Keep, Fire, Future;
      var kept, rest := [], slots[slot];
      ghost var fired: seq<Call> := [];
      ghost var l0 := rest;
      assert kept + rest == rest;
      assert kept + Keep(rest, timers, jiffies) == Keep(l0, timers, jiffies);
      assert fired + Fire(rest, timers, jiffies) == Fire(l0, timers, jiffies);
      assert slots[..] == old(slots[..])[slot := kept + rest];
      while rest != []
        invariant kept + Keep(rest, timers, jiffies) == Keep(l0, timers, jiffies)
        invariant calls == old(calls) + fired && fired + Fire(rest, timers, jiffies) == Fire(l0, timers, jiffies)
        invariant slots[..] == old(slots[..])[slot := kept + rest]
        invariant forall x :: x in rest ==> x in timers
        decreases |rest|
      {
        var id, next := rest[0], rest[1..];
        WalkStep(rest, timers, jiffies);
        assert rest == [id] + next;
        if Future(timers[id].expires, jiffies) {
          assert (kept + [id]) + next == kept + rest;
          assert (kept + [id]) + Keep(next, timers, jiffies) == kept + Keep(rest, timers, jiffies);
          kept := kept + [id];
          assert [] + Fire(next, timers, jiffies) == Fire(next, timers, jiffies);
        } else {
          slots[slot] := kept + next;
          assert [] + Keep(next, timers, jiffies) == Keep(next, timers, jiffies);
          if timers[id].callable {
            assert (fired + [Call(id, jiffies)]) + Fire(next, timers, jiffies) == fired + Fire(rest, timers, jiffies);
            calls, fired := calls + [Call(id, jiffies)], fired + [Call(id, jiffies)];
          } else {
            assert [] + Fire(next, timers, jiffies) == Fire(next, timers, jiffies);
          }
        }
        rest := next;
      }
      WalkEnd(timers, jiffies);
      assert kept + [] == kept && fired + [] == fired;
    }

    /** One tick interrupt: `jiffies` advances and the softirq runs. */
    method TickInterrupt()
      requires Valid()
      modifies this`jiffies, this`calls, slots
      ensures Valid() && View() == Next(old(View()), Advance)
    {
      NextKeepsInv(View(), Advance);
      SlotIsMod((jiffies + 1) % U64);
      hide Keep, Fire, Slot;
      jiffies := (jiffies + 1) % U64;
      WalkSlot(Slot(jiffies));
    }
  }

  /** What the walk does with the timer at the front. */
  lemma WalkStep(l: seq<nat>, timers: Timers, now: Tick)
    requires l != [] && l[0] in timers
    ensures var due := !Future(timers[l[0]].expires, now);
      Keep(l, timers, now) == (if due then [] else [l[0]]) + Keep(l[1..], timers, now) &&
      Fire(l, timers, now) == (if due && timers[l[0]].callable then [Call(l[0], now)] else []) + Fire(l[1..], timers, now)
  {
  }

  lemma WalkEnd(timers: Timers, now: Tick)
    ensures Keep([], timers, now) == [] && Fire([], timers, now) == []
  {
  }
}
