/** The PID allocator: `alloc_pid` and `free_pid` over a bitmap. */
module Pids {
  import opened Words

  const PID_MAX: nat := 32768
  const RESERVED_PIDS: nat := 300

  /** The next PID the search tries. */
  function After(pid: nat): nat {
    if pid + 1 >= PID_MAX then RESERVED_PIDS else pid + 1
  }

  /** `q` is tried before `pid` by a search that begins at `start`. */
  ghost predicate TriedBefore(start: nat, q: nat, pid: nat) {
    if pid >= start then start <= q < pid else start <= q < PID_MAX || RESERVED_PIDS <= q < pid
  }

  /** The PID tried `n` steps after `start`. */
  function Probe(start: nat, n: nat): nat {
    if n == 0 then start else After(Probe(start, n - 1))
  }

  /** The loop's own exit test, being back at `start`, can only ever succeed from RESERVED_PIDS up: the wrap never
      returns below. A start below it must find its PID on the way, which is what `Valid` guarantees. */
  lemma WrapReturnsOnlyAbove(start: nat)
    requires start < PID_MAX
    ensures (exists n: nat :: n > 0 && Probe(start, n) == start) <==> start >= RESERVED_PIDS
  {
    if start >= RESERVED_PIDS {
      ProbeUp(start, PID_MAX - 1 - start);
      ProbeFrom(start, PID_MAX - start, start - RESERVED_PIDS);
      assert Probe(start, PID_MAX - RESERVED_PIDS) == start;
    } else {
      forall n: nat | n > 0 ensures Probe(start, n) != start { ProbeAbove(start, n); }
    }
  }

  lemma {:induction false} ProbeUp(start: nat, n: nat)
    requires start + n < PID_MAX
    ensures Probe(start, n) == start + n
  {
    if n > 0 { ProbeUp(start, n - 1); }
  }

  lemma {:induction false} ProbeFrom(start: nat, m: nat, n: nat)
    requires start < PID_MAX && m == PID_MAX - start && Probe(start, m) == RESERVED_PIDS && RESERVED_PIDS + n < PID_MAX
    ensures Probe(start, m + n) == RESERVED_PIDS + n
  {
    if n > 0 { ProbeFrom(start, m, n - 1); }
  }

  lemma {:induction false} ProbeAbove(start: nat, n: nat)
    requires start < RESERVED_PIDS && n > 0
    ensures Probe(start, n) > start
  {
    if n > 1 { ProbeAbove(start, n - 1); }
  }

  class PidAllocator {
    const bitmap: array<nat>
    var lastPid: nat

    ghost predicate Used(p: nat)
      requires bitmap.Length == 512 && p < PID_MAX
      reads bitmap
    {
      BitAt(bitmap[..], p)
    }

    /** The last clause is what makes the search end: below RESERVED_PIDS, where the wrap never returns to, the search
        always finds its PID at once. */
    ghost predicate Valid()
      reads this, bitmap
    {
      bitmap.Length == 512 && IsBitmap(bitmap[..]) && lastPid < PID_MAX && Used(0) &&
      (lastPid < RESERVED_PIDS ==> forall p :: lastPid < p < PID_MAX && p != 1 ==> !Used(p))
    }

    /** An empty bitmap with PID 0 reserved for the idle task. */
    constructor ()
      ensures Valid() && fresh(bitmap) && forall p :: 0 < p < PID_MAX ==> !Used(p)
    {
      bitmap := new nat[512](_ => 0);
      lastPid := 0;
      new;
      AllWordsZero(bitmap[..]);
      SetAtBits(bitmap[..], 0);
      ghost var before := bitmap[..];
      bitmap[0] := Or(bitmap[0], Pow2(0));
      assert bitmap[..] == SetAt(before, 0);
    }

    /** `create_init_task` reserves PID 1. */
    method ReserveInit()
      requires Valid()
      modifies bitmap
      ensures Valid() && forall p :: 0 <= p < PID_MAX ==> (Used(p) <==> p == 1 || old(Used(p)))
    {
      hide Bit, Or, Pow2;
      SetAtBits(bitmap[..], 1);
      ghost var before := bitmap[..];
      bitmap[0] := Or(bitmap[0], Pow2(1));
      assert bitmap[..] == SetAt(before, 1);
      assert forall p :: 0 <= p < PID_MAX ==> (Used(p) <==> p == 1 || old(Used(p)));
    }

    /** `alloc_pid`: the first unused PID in search order, or -1 when every PID from RESERVED_PIDS up is taken. */
    method AllocPid() returns (r: int)
      requires Valid()
      modifies this`lastPid, bitmap
      ensures Valid()
      ensures r == -1 <==> forall p :: RESERVED_PIDS <= p < PID_MAX ==> old(Used(p))
      ensures r == -1 ==> bitmap[..] == old(bitmap[..]) && lastPid == old(lastPid)
      ensures r != -1 ==> 0 <= r < PID_MAX && !old(Used(r)) && lastPid == r
      ensures r != -1 ==> forall p :: 0 <= p < PID_MAX ==> (Used(p) <==> p == r || old(Used(p)))
      ensures r != -1 ==> forall q :: 0 <= q < PID_MAX && TriedBefore(After(old(lastPid)), q, r) ==> old(Used(q))
    {
      hide Bit, Or, Pow2;
      var start := lastPid + 1;
      if start >= PID_MAX { start := RESERVED_PIDS; }
      var pid, first := start, true;
      while first || pid != start
        invariant 0 < pid < PID_MAX && bitmap[..] == old(bitmap[..]) && lastPid == old(lastPid)
        invariant pid < start ==> pid >= RESERVED_PIDS
        invariant first ==> pid == start
        invariant !first && pid != start ==> forall q :: 0 <= q < PID_MAX && TriedBefore(start, q, pid) ==> Used(q)
        invariant !first && pid == start ==> forall q :: RESERVED_PIDS <= q < PID_MAX ==> Used(q)
        invariant start < RESERVED_PIDS ==> pid >= start && (pid > start ==> start == 1 && pid == 2)
        decreases first, if first || pid > start then 2 * PID_MAX - pid else start - pid
      {
        var idx, bit := pid / 64, pid % 64;
        if !Bit(bitmap[idx], bit) {
          ghost var before := bitmap[..];
          assert !Used(pid);
          assert pid < RESERVED_PIDS ==> !Used(RESERVED_PIDS);
          SetAtBits(before, pid);
          bitmap[idx] := Or(bitmap[idx], Pow2(bit));
          assert bitmap[..] == SetAt(before, pid);
          lastPid := pid;
          assert forall p :: 0 <= p < PID_MAX ==> (Used(p) <==> p == pid || old(Used(p)));
          return pid;
        }
        assert Used(pid);
        pid := pid + 1;
        if pid >= PID_MAX { pid := RESERVED_PIDS; }
        first := false;
      }
      r := -1;
    }

    /** `free_pid`: reserved and out-of-range PIDs are ignored. */
    method FreePid(pid: int)
      requires Valid()
      modifies bitmap
      ensures Valid()
      ensures pid < RESERVED_PIDS || pid >= PID_MAX ==> bitmap[..] == old(bitmap[..])
      ensures RESERVED_PIDS <= pid < PID_MAX ==> forall p :: 0 <= p < PID_MAX ==> (Used(p) <==> p != pid && old(Used(p)))
    {
      if pid < RESERVED_PIDS || pid >= PID_MAX { return; }
      ghost var before := bitmap[..];
      ClearAtBits(before, pid);
      bitmap[pid / 64] := AndNot(bitmap[pid / 64], Pow2(pid % 64));
      assert bitmap[..] == ClearAt(before, pid);
    }
  }
}
