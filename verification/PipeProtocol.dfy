/** Pipes under concurrency: `pipe_read` and `pipe_write` as interleaved atomic steps, one per critical
    section of the pipe lock, for any number of callers. The buffer is the queue that RingBuffers proves
    `pbuf_write` and `pbuf_read` to implement. */
module PipeProtocol {
  import opened RingBuffers

  const PIPE_BUF: nat := 4096
  const EINTR: int := 4
  const EAGAIN: int := 11
  const EPIPE: int := 32

  /** Where a call stands. `Woken` is a writer that slept, was woken without a signal, and went round its
      loop still holding the lock it is about to take again. */
  datatype Pc = Check | Enter | Asleep | Woken | Done(result: int)

  datatype Writer = Writer(buf: seq<bv8>, nonblock: bool, written: nat, pc: Pc)
  datatype Reader = Reader(want: nat, nonblock: bool, got: seq<bv8>, pc: Pc)

  /** Bytes moved by one critical section, and the call that moved them. */
  datatype Chunk = Chunk(id: nat, bytes: seq<bv8>)

  datatype Pipe = Pipe(
    cap: nat,
    queue: seq<bv8>,
    locked: bool,                 // the lock is held between steps
    readEnds: nat, writeEnds: nat,
    writers: map<nat, Writer>, readers: map<nat, Reader>,
    committed: seq<Chunk>,        // history: every pbuf_write, in lock order
    delivered: seq<Chunk>)        // history: every pbuf_read, in lock order

  datatype Action =
    | CallWrite(id: nat, buf: seq<bv8>, nonblock: bool)
    | CallRead(id: nat, want: nat, nonblock: bool)
    | SetEnds(readEnds: nat, writeEnds: nat)      // opens and closes by other processes
    | CheckReaders(id: nat)                       // the unlocked test at the top of pipe_write
    | WriteSection(id: nat)                       // one locked section of pipe_write
    | WriteWake(id: nat, signal: bool)            // pipe_wait returns in pipe_write, lock re-taken
    | ReadSection(id: nat)
    | ReadWake(id: nat, signal: bool)

  function Initial(cap: nat): Pipe {
    Pipe(cap, [], false, 1, 1, map[], map[], [], [])
  }

  predicate Atomic(w: Writer) { |w.buf| <= PIPE_BUF }

  /** What `pipe_write` returns when it gives up with error `err`. */
  function GiveUp(w: Writer, err: int): Pc {
    Done(if w.written > 0 then w.written else -err)
  }

  function WriteStep(s: Pipe, id: nat, w: Writer): Pipe
    requires |s.queue| <= s.cap && w.written <= |w.buf|
  {
    var space := s.cap - |s.queue|;
    if s.readEnds == 0 then
      s.(writers := s.writers[id := w.(pc := GiveUp(w, EPIPE))])
    else if space == 0 || (Atomic(w) && space < |w.buf|) then
      s.(writers := s.writers[id := w.(pc := if w.nonblock then GiveUp(w, EAGAIN) else Asleep)])
    else
      var bytes := Accepted(s.cap, s.queue, w.buf[w.written..]);
      var written := w.written + |bytes|;
      s.(queue := s.queue + bytes,
         committed := s.committed + [Chunk(id, bytes)],
         writers := s.writers[id := w.(written := written, pc := if written < |w.buf| then Enter else Done(written))])
  }

  function ReadStep(s: Pipe, id: nat, r: Reader): Pipe {
    if |s.queue| > 0 then
      var bytes := Oldest(s.queue, r.want);
      s.(queue := s.queue[|bytes|..],
         delivered := s.delivered + [Chunk(id, bytes)],
         readers := s.readers[id := r.(got := bytes, pc := Done(|bytes|))])
    else
      s.(readers := s.readers[id := r.(pc := if s.writeEnds == 0 then Done(0) else if r.nonblock then Done(-EAGAIN) else Asleep)])
  }

  /** One step; an action that is not enabled leaves the state alone. */
  function Next(s: Pipe, a: Action): Pipe
    requires Inv(s)
  {
    match a
    case CallWrite(id, buf, nonblock) =>
      if id in s.writers then s
      else s.(writers := s.writers[id := Writer(buf, nonblock, 0, if |buf| == 0 then Done(0) else Check)])
    case CallRead(id, want, nonblock) =>
      if id in s.readers then s
      else s.(readers := s.readers[id := Reader(want, nonblock, [], if want == 0 then Done(0) else Enter)])
    case SetEnds(r, w) => s.(readEnds := r, writeEnds := w)
    case CheckReaders(id) =>
      if id in s.writers && s.writers[id].pc == Check then
        var w := s.writers[id];
        s.(writers := s.writers[id := w.(pc := if s.readEnds == 0 then Done(-EPIPE) else Enter)])
      else s
    case WriteSection(id) =>
      if id in s.writers && s.writers[id].pc == Enter && !s.locked then WriteStep(s, id, s.writers[id]) else s
    case WriteWake(id, signal) =>
      if id in s.writers && s.writers[id].pc == Asleep && !s.locked then
        var w := s.writers[id];
        if signal then s.(writers := s.writers[id := w.(pc := GiveUp(w, EINTR))])
        else s.(writers := s.writers[id := w.(pc := Woken)], locked := true)
      else s
    case ReadSection(id) =>
      if id in s.readers && s.readers[id].pc == Enter && !s.locked then ReadStep(s, id, s.readers[id]) else s
    case ReadWake(id, signal) =>
      if id in s.readers && s.readers[id].pc == Asleep && !s.locked then
        s.(readers := s.readers[id := s.readers[id].(pc := if signal then Done(-EINTR) else Enter)])
      else s
  }

  // ---- what every run keeps

  /** All bytes of a history, in order. */
  function Bytes(cs: seq<Chunk>): seq<bv8> {
    if cs == [] then [] else Bytes(cs[..|cs| - 1]) + cs[|cs| - 1].bytes
  }

  /** The bytes one call moved. */
  function BytesOf(cs: seq<Chunk>, id: nat): seq<bv8> {
    if cs == [] then []
    else BytesOf(cs[..|cs| - 1], id) + if cs[|cs| - 1].id == id then cs[|cs| - 1].bytes else []
  }

  lemma Append(cs: seq<Chunk>, c: Chunk)
    ensures Bytes(cs + [c]) == Bytes(cs) + c.bytes
    ensures forall id :: BytesOf(cs + [c], id) == BytesOf(cs, id) + if c.id == id then c.bytes else []
  {
    assert (cs + [c])[..|cs|] == cs;
  }

  /** Result of a finished write: the bytes written if any, else 0 for an empty request, else an error. */
  ghost predicate WriteResult(w: Writer) {
    match w.pc
    case Done(r) => (w.written > 0 ==> r == w.written) && (w.written == 0 ==> if |w.buf| == 0 then r == 0 else r < 0)
    case Check => w.written == 0 && |w.buf| > 0
    case _ => w.written < |w.buf|
  }

  /** A caller's progress: its bytes were committed in order, and a small request whole in one chunk. */
  ghost predicate WriterOk(cs: seq<Chunk>, id: nat, w: Writer) {
    w.written <= |w.buf| && BytesOf(cs, id) == w.buf[..w.written] && WriteResult(w) &&
    (Atomic(w) ==> w.written == 0 || w.written == |w.buf|) &&
    (w.written == 0 ==> forall j :: 0 <= j < |cs| ==> cs[j].id != id) &&
    (Atomic(w) ==> forall j :: 0 <= j < |cs| && cs[j].id == id ==> cs[j].bytes == w.buf)
  }

  ghost predicate ReaderOk(cs: seq<Chunk>, id: nat, r: Reader) {
    BytesOf(cs, id) == r.got && |r.got| <= r.want &&
    match r.pc
    case Done(n) => if |r.got| > 0 then n == |r.got| else n <= 0
    case _ => r.got == [] && r.want > 0
  }

  ghost predicate Inv(s: Pipe) {
    |s.queue| <= s.cap &&
    Bytes(s.delivered) + s.queue == Bytes(s.committed) &&
    (forall id :: id in s.writers ==> WriterOk(s.committed, id, s.writers[id])) &&
    (forall id :: id in s.readers ==> ReaderOk(s.delivered, id, s.readers[id])) &&
    (forall j :: 0 <= j < |s.committed| ==> s.committed[j].id in s.writers) &&
    (forall j :: 0 <= j < |s.delivered| ==> s.delivered[j].id in s.readers) &&
    (s.locked <==> exists id :: id in s.writers && s.writers[id].pc == Woken)
  }

  ghost predicate SomeWoken(ws: map<nat, Writer>) {
    exists id :: id in ws && ws[id].pc == Woken
  }

  lemma WokenKept(ws: map<nat, Writer>, id: nat, w: Writer)
    requires w.pc != Woken && (id in ws ==> ws[id].pc != Woken)
    ensures SomeWoken(ws[id := w]) <==> SomeWoken(ws)
  {
    if SomeWoken(ws) {
      var k :| k in ws && ws[k].pc == Woken;
      assert ws[id := w][k].pc == Woken;
    }
  }

  /** Another call's chunk does not disturb a writer. */
  lemma WriterOkApart(cs: seq<Chunk>, c: Chunk, id: nat, w: Writer)
    requires WriterOk(cs, id, w) && c.id != id
    ensures WriterOk(cs + [c], id, w)
  {
    Append(cs, c);
  }

  /** A writer that changes its program counter only. */
  lemma WriterMoves(s: Pipe, id: nat, w: Writer)
    requires Inv(s) && WriterOk(s.committed, id, w) && w.pc != Woken
    requires id in s.writers ==> s.writers[id].pc != Woken
    ensures Inv(s.(writers := s.writers[id := w]))
  {
    hide WriterOk, ReaderOk, Bytes, BytesOf;
    WokenKept(s.writers, id, w);
    var s' := s.(writers := s.writers[id := w]);
    assert SomeWoken(s.writers) <==> s.locked;
    assert s'.locked <==> SomeWoken(s'.writers);
  }

  lemma ReaderMoves(s: Pipe, id: nat, r: Reader)
    requires Inv(s) && ReaderOk(s.delivered, id, r)
    ensures Inv(s.(readers := s.readers[id := r]))
  {
    hide WriterOk, ReaderOk, Bytes, BytesOf;
  }

  lemma NewIdHasNoBytes(cs: seq<Chunk>, id: nat)
    requires forall j :: 0 <= j < |cs| ==> cs[j].id != id
    ensures BytesOf(cs, id) == []
  {
    if cs != [] { NewIdHasNoBytes(cs[..|cs| - 1], id); }
  }

  lemma AppendCommit(s: Pipe, c: Chunk, w: Writer)
    requires Inv(s) && c.id in s.writers && s.writers[c.id].pc != Woken && w.pc != Woken
    requires WriterOk(s.committed + [c], c.id, w) && |s.queue| + |c.bytes| <= s.cap
    ensures Inv(s.(queue := s.queue + c.bytes, committed := s.committed + [c], writers := s.writers[c.id := w]))
  {
    hide WriterOk, ReaderOk, BytesOf, Bytes;
    var s' := s.(queue := s.queue + c.bytes, committed := s.committed + [c], writers := s.writers[c.id := w]);
    Append(s.committed, c);
    assert Bytes(s'.delivered) + s'.queue == (Bytes(s.delivered) + s.queue) + c.bytes;
    forall k | k in s'.writers ensures WriterOk(s'.committed, k, s'.writers[k]) {
      if k != c.id { WriterOkApart(s.committed, c, k, s.writers[k]); }
    }
    WokenKept(s.writers, c.id, w);
    assert SomeWoken(s.writers) <==> s.locked;
    assert s'.locked <==> SomeWoken(s'.writers);
  }

  /** The committing branch of `pipe_write`. */
  lemma CommitKeeps(s: Pipe, id: nat, w: Writer)
    requires Inv(s) && id in s.writers && s.writers[id] == w && w.pc == Enter && !s.locked
    requires s.readEnds > 0 && s.cap > |s.queue| && !(Atomic(w) && s.cap - |s.queue| < |w.buf|)
    ensures Inv(WriteStep(s, id, w))
  {
    var bytes := Accepted(s.cap, s.queue, w.buf[w.written..]);
    CommitWriter(s.committed, id, w, s.cap, s.queue);
    AppendCommit(s, Chunk(id, bytes), WriteStep(s, id, w).writers[id]);
  }

  lemma CommitWriter(cs: seq<Chunk>, id: nat, w: Writer, cap: nat, queue: seq<bv8>)
    requires WriterOk(cs, id, w) && w.pc == Enter && |queue| < cap && !(Atomic(w) && cap - |queue| < |w.buf|)
    ensures var bytes := Accepted(cap, queue, w.buf[w.written..]);
            var written := w.written + |bytes|;
            WriterOk(cs + [Chunk(id, bytes)], id, w.(written := written, pc := if written < |w.buf| then Enter else Done(written)))
  {
    hide Bytes, BytesOf;
    var bytes := Accepted(cap, queue, w.buf[w.written..]);
    Append(cs, Chunk(id, bytes));
    assert w.buf[..w.written] + bytes == w.buf[..w.written + |bytes|];
    if Atomic(w) {
      assert w.written == 0 && bytes == w.buf;
    }
  }

  lemma WriteSectionKeeps(s: Pipe, id: nat)
    requires Inv(s) && id in s.writers && s.writers[id].pc == Enter && !s.locked
    ensures Inv(WriteStep(s, id, s.writers[id]))
  {
    var w := s.writers[id];
    var space := s.cap - |s.queue|;
    if s.readEnds == 0 {
      WriterMoves(s, id, w.(pc := GiveUp(w, EPIPE)));
    } else if space == 0 || (Atomic(w) && space < |w.buf|) {
      WriterMoves(s, id, w.(pc := if w.nonblock then GiveUp(w, EAGAIN) else Asleep));
    } else {
      CommitKeeps(s, id, w);
    }
  }

  lemma ReaderOkApart(cs: seq<Chunk>, c: Chunk, id: nat, r: Reader)
    requires ReaderOk(cs, id, r) && c.id != id
    ensures ReaderOk(cs + [c], id, r)
  {
    hide Bytes, BytesOf;
    Append(cs, c);
  }

  lemma AppendDelivery(s: Pipe, c: Chunk, r: Reader, rest: seq<bv8>)
    requires Inv(s) && c.id in s.readers && s.queue == c.bytes + rest && ReaderOk(s.delivered + [c], c.id, r)
    ensures Inv(s.(queue := rest, delivered := s.delivered + [c], readers := s.readers[c.id := r]))
  {
    hide WriterOk, ReaderOk, BytesOf, Bytes;
    var s' := s.(queue := rest, delivered := s.delivered + [c], readers := s.readers[c.id := r]);
    Append(s.delivered, c);
    assert Bytes(s'.delivered) + s'.queue == Bytes(s.delivered) + s.queue;
    forall k | k in s'.readers ensures ReaderOk(s'.delivered, k, s'.readers[k]) {
      if k != c.id { ReaderOkApart(s.delivered, c, k, s.readers[k]); }
    }
  }

  lemma DeliveredReader(cs: seq<Chunk>, id: nat, r: Reader, queue: seq<bv8>)
    requires ReaderOk(cs, id, r) && r.pc == Enter && queue != []
    ensures var bytes := Oldest(queue, r.want);
            ReaderOk(cs + [Chunk(id, bytes)], id, r.(got := bytes, pc := Done(|bytes|)))
  {
    hide Bytes, BytesOf;
    Append(cs, Chunk(id, Oldest(queue, r.want)));
  }

  lemma ReadSectionKeeps(s: Pipe, id: nat)
    requires Inv(s) && id in s.readers && s.readers[id].pc == Enter && !s.locked
    ensures Inv(ReadStep(s, id, s.readers[id]))
  {
    hide WriterOk, SomeWoken, Bytes, BytesOf;
    var r := s.readers[id];
    assert ReaderOk(s.delivered, id, r);
    if |s.queue| == 0 {
      ReaderMoves(s, id, ReadStep(s, id, r).readers[id]);
    } else {
      var bytes := Oldest(s.queue, r.want);
      DeliveredReader(s.delivered, id, r, s.queue);
      hide ReaderOk;
      assert s.queue == bytes + s.queue[|bytes|..];
      AppendDelivery(s, Chunk(id, bytes), r.(got := bytes, pc := Done(|bytes|)), s.queue[|bytes|..]);
    }
  }

  lemma WriteWakeKeeps(s: Pipe, id: nat)
    requires Inv(s) && id in s.writers && s.writers[id].pc == Asleep && !s.locked
    ensures Inv(s.(writers := s.writers[id := s.writers[id].(pc := Woken)], locked := true))
  {
    var s' := s.(writers := s.writers[id := s.writers[id].(pc := Woken)], locked := true);
    assert s'.writers[id].pc == Woken;
  }

  lemma CallsKeep(s: Pipe, id: nat, data: seq<bv8>, want: nat, nonblock: bool)
    requires Inv(s)
    ensures Inv(Next(s, CallWrite(id, data, nonblock))) && Inv(Next(s, CallRead(id, want, nonblock)))
  {
    if id !in s.writers {
      NewIdHasNoBytes(s.committed, id);
      WriterMoves(s, id, Writer(data, nonblock, 0, if |data| == 0 then Done(0) else Check));
    }
    if id !in s.readers {
      NewIdHasNoBytes(s.delivered, id);
      ReaderMoves(s, id, Reader(want, nonblock, [], if want == 0 then Done(0) else Enter));
    }
  }

  lemma WriterStepsKeep(s: Pipe, id: nat, signal: bool)
    requires Inv(s)
    ensures Inv(Next(s, CheckReaders(id))) && Inv(Next(s, WriteWake(id, signal)))
  {
    if id in s.writers && s.writers[id].pc == Check {
      WriterMoves(s, id, s.writers[id].(pc := if s.readEnds == 0 then Done(-EPIPE) else Enter));
    }
    if id in s.writers && s.writers[id].pc == Asleep && !s.locked {
      if signal { WriterMoves(s, id, s.writers[id].(pc := GiveUp(s.writers[id], EINTR))); }
      else { WriteWakeKeeps(s, id); }
    }
  }

  lemma ReadWakeKeeps(s: Pipe, id: nat, signal: bool)
    requires Inv(s)
    ensures Inv(Next(s, ReadWake(id, signal)))
  {
    if id in s.readers && s.readers[id].pc == Asleep && !s.locked {
      ReaderMoves(s, id, s.readers[id].(pc := if signal then Done(-EINTR) else Enter));
    }
  }

  /** Every step keeps the invariant. */
  lemma NextKeepsInv(s: Pipe, a: Action)
    requires Inv(s)
    ensures Inv(Next(s, a))
  {
    hide WriterOk, ReaderOk, Bytes, BytesOf, WriteStep, ReadStep;
    match a
    case CallWrite(id, buf, nonblock) => CallsKeep(s, id, buf, 0, nonblock);
    case CallRead(id, want, nonblock) => CallsKeep(s, id, [], want, nonblock);
    case SetEnds(r, w) =>
    case CheckReaders(id) => WriterStepsKeep(s, id, false);
    case WriteSection(id) =>
      if id in s.writers && s.writers[id].pc == Enter && !s.locked { WriteSectionKeeps(s, id); }
    case WriteWake(id, signal) => WriterStepsKeep(s, id, signal);
    case ReadSection(id) =>
      if id in s.readers && s.readers[id].pc == Enter && !s.locked { ReadSectionKeeps(s, id); }
    case ReadWake(id, signal) => ReadWakeKeeps(s, id, signal);
  }

  /** Any interleaving whatsoever. */
  function Run(s: Pipe, acts: seq<Action>): (s': Pipe)
    requires Inv(s)
    ensures Inv(s')
    decreases |acts|
  {
    if acts == [] then s
    else
      NextKeepsInv(s, acts[0]);
      Run(Next(s, acts[0]), acts[1..])
  }

  // ---- what a run guarantees its callers

  lemma ChunkLengths(cs: seq<Chunk>, id: nat, j: nat, k: nat)
    requires j < k < |cs| && cs[j].id == id && cs[k].id == id
    ensures |BytesOf(cs, id)| >= |cs[j].bytes| + |cs[k].bytes|
  {
    if k < |cs| - 1 { ChunkLengths(cs[..|cs| - 1], id, j, k); } else { ChunkLength(cs[..|cs| - 1], id, j); }
  }

  lemma ChunkLength(cs: seq<Chunk>, id: nat, j: nat)
    requires j < |cs| && cs[j].id == id
    ensures |BytesOf(cs, id)| >= |cs[j].bytes|
  {
    if j < |cs| - 1 { ChunkLength(cs[..|cs| - 1], id, j); }
  }

  lemma HasChunk(cs: seq<Chunk>, id: nat) returns (j: nat)
    requires BytesOf(cs, id) != []
    ensures j < |cs| && cs[j].id == id
  {
    if cs[|cs| - 1].id == id { j := |cs| - 1; } else { j := HasChunk(cs[..|cs| - 1], id); }
  }

  /** Exactly one critical section carries the whole of `buf` for call `id`. */
  ghost predicate CommittedOnce(cs: seq<Chunk>, id: nat, buf: seq<bv8>) {
    exists j :: 0 <= j < |cs| && cs[j] == Chunk(id, buf) && forall k :: 0 <= k < |cs| && k != j ==> cs[k].id != id
  }

  ghost predicate NotCommitted(cs: seq<Chunk>, id: nat) {
    forall k :: 0 <= k < |cs| ==> cs[k].id != id
  }

  lemma AtomicWrite(cs: seq<Chunk>, id: nat, w: Writer)
    requires WriterOk(cs, id, w) && Atomic(w) && |w.buf| > 0
    ensures if w.written == 0 then NotCommitted(cs, id) else CommittedOnce(cs, id, w.buf)
  {
    if w.written > 0 {
      var j := HasChunk(cs, id);
      forall k | 0 <= k < |cs| && k != j ensures cs[k].id != id {
        if cs[k].id == id {
          if j < k { ChunkLengths(cs, id, j, k); } else { ChunkLengths(cs, id, k, j); }
        }
      }
      assert cs[j] == Chunk(id, w.buf);
    }
  }

  /** The result of a finished write tells what was committed. */
  ghost predicate WriteReport(cs: seq<Chunk>, id: nat, w: Writer)
    requires w.pc.Done?
  {
    var r := w.pc.result;
    w.written <= |w.buf| && BytesOf(cs, id) == w.buf[..w.written] &&
    (if r > 0 then r == w.written else w.written == 0 && NotCommitted(cs, id)) &&
    (r == 0 <==> w.buf == []) &&
    (Atomic(w) && r > 0 ==> r == |w.buf| && CommittedOnce(cs, id, w.buf))
  }

  ghost predicate ReadReport(cs: seq<Chunk>, id: nat, r: Reader)
    requires r.pc.Done?
  {
    BytesOf(cs, id) == r.got && if r.pc.result > 0 then |r.got| == r.pc.result <= r.want else r.got == []
  }

  lemma FinishedWrite(cs: seq<Chunk>, id: nat, w: Writer)
    requires WriterOk(cs, id, w) && w.pc.Done?
    ensures WriteReport(cs, id, w)
  {
    if Atomic(w) && |w.buf| > 0 { AtomicWrite(cs, id, w); }
  }

  /** In every interleaving: bytes read so far, then the buffered bytes, are the bytes committed in commit
      order; a write of at most PIPE_BUF bytes is committed whole and in one piece or not at all, and its result
      says which; any write has committed exactly the in-order prefix that its positive result counts; and a
      read's positive result counts the bytes it was given. */
  lemma PipeSafety(cap: nat, acts: seq<Action>)
    ensures var s := Run(Initial(cap), acts);
      && |s.queue| <= s.cap
      && Bytes(s.delivered) + s.queue == Bytes(s.committed)
      && (forall id :: id in s.writers && s.writers[id].pc.Done? ==> WriteReport(s.committed, id, s.writers[id]))
      && (forall id :: id in s.readers && s.readers[id].pc.Done? ==> ReadReport(s.delivered, id, s.readers[id]))
  {
    hide Run, Bytes, BytesOf, WriteReport, WriterOk;
    var s := Run(Initial(cap), acts);
    forall id | id in s.writers && s.writers[id].pc.Done? ensures WriteReport(s.committed, id, s.writers[id]) {
      FinishedWrite(s.committed, id, s.writers[id]);
    }
  }

  // ---- what a call is answered, and when

  /** There is no room for a write: none at all, or too little for one that must go in one piece. */
  predicate NoRoom(s: Pipe, w: Writer) {
    |s.queue| >= s.cap || (|w.buf| <= 4096 && s.cap - |s.queue| < |w.buf|)
  }

  /** A reader's critical section: end of file exactly on an empty pipe without writers, EAGAIN exactly on an empty pipe with
      writers for a caller that will not wait, sleep exactly for one that will; and otherwise the oldest bytes, as many as
      asked for and there. Nobody else's call moves. */
  lemma ReadAnswers(s: Pipe, id: nat)
    requires Inv(s) && !s.locked && id in s.readers && s.readers[id].pc == Enter
    ensures var r, s' := s.readers[id], Next(s, ReadSection(id));
      && id in s'.readers
      && (s'.readers[id].pc == Done(0) <==> s.queue == [] && s.writeEnds == 0)
      && (s'.readers[id].pc == Done(-EAGAIN) <==> s.queue == [] && s.writeEnds > 0 && r.nonblock)
      && (s'.readers[id].pc == Asleep <==> s.queue == [] && s.writeEnds > 0 && !r.nonblock)
      && (s.queue != [] ==>
            var n := if r.want < |s.queue| then r.want else |s.queue|;
            s'.readers[id].pc == Done(n) && s'.readers[id].got == s.queue[..n] && s'.queue == s.queue[n..])
      && (s.queue == [] ==> s'.queue == [] && s'.readers[id].got == [])
      && s'.writers == s.writers && s'.readers - {id} == s.readers - {id} && !s'.locked
  {
    hide WriterOk, Bytes, BytesOf;
    assert ReaderOk(s.delivered, id, s.readers[id]);
  }

  /** A writer's critical section: it commits exactly when somebody reads and there is room, the next bytes of its buffer, as
      many as fit; a write of at most 4096 bytes all of them. Without readers it ends with EPIPE, without room with EAGAIN
      or asleep, unless it has written something to report. */
  lemma WriteAnswers(s: Pipe, id: nat)
    requires Inv(s) && !s.locked && id in s.writers && s.writers[id].pc == Enter
    ensures var w, s' := s.writers[id], Next(s, WriteSection(id));
      && id in s'.writers
      && (s'.writers[id].written > w.written <==> s.readEnds > 0 && !NoRoom(s, w))
      && (s.readEnds > 0 && !NoRoom(s, w) ==>
            var left, room := |w.buf| - w.written, s.cap - |s.queue|;
            var n := if left < room then left else room;
            s'.writers[id].written == w.written + n && s'.queue == s.queue + w.buf[w.written..w.written + n] &&
            s'.writers[id].pc == (if w.written + n == |w.buf| then Done(|w.buf|) else Enter) &&
            (|w.buf| <= 4096 ==> w.written + n == |w.buf|))
      && (s.readEnds == 0 ==> s'.queue == s.queue && s'.writers[id].pc == Done(if w.written > 0 then w.written else -EPIPE))
      && (s.readEnds > 0 && NoRoom(s, w) ==>
            s'.queue == s.queue &&
            s'.writers[id].pc == if w.nonblock then Done(if w.written > 0 then w.written else -EAGAIN) else Asleep)
      && s'.readers == s.readers && s'.writers - {id} == s.writers - {id} && !s'.locked
  {
    hide ReaderOk, Bytes, BytesOf;
    assert WriterOk(s.committed, id, s.writers[id]);
  }

  /** The steps around the critical sections: the test for readers at the top of a write, and the end of a sleep. */
  lemma WakeAnswers(s: Pipe, id: nat, signal: bool)
    requires Inv(s)
    ensures id in s.writers && s.writers[id].pc == Check ==>
            Next(s, CheckReaders(id)).writers == s.writers[id := s.writers[id].(pc := if s.readEnds == 0 then Done(-EPIPE) else Enter)]
    ensures id in s.readers && s.readers[id].pc == Asleep && !s.locked ==>
            Next(s, ReadWake(id, signal)).readers == s.readers[id := s.readers[id].(pc := if signal then Done(-EINTR) else Enter)]
    ensures id in s.writers && s.writers[id].pc == Asleep && !s.locked && signal ==>
            var w := s.writers[id];
            Next(s, WriteWake(id, signal)).writers == s.writers[id := w.(pc := Done(if w.written > 0 then w.written else -EINTR))]
  {
  }

  /** Every call under way was made with the arguments it has. */
  lemma {:induction false} CallMade(cap: nat, acts: seq<Action>, id: nat)
    ensures var s := Run(Initial(cap), acts);
      && (id in s.readers ==> CallRead(id, s.readers[id].want, s.readers[id].nonblock) in acts)
      && (id in s.writers ==> CallWrite(id, s.writers[id].buf, s.writers[id].nonblock) in acts)
    decreases |acts|
  {
    InitialInv(cap);
    hide Inv;
    if acts == [] {
      RunNil(Initial(cap));
    } else {
      var n := |acts| - 1;
      var s := Run(Initial(cap), acts[..n]);
      assert acts[..n] + [acts[n]] == acts;
      RunSnoc(Initial(cap), acts[..n], acts[n]);
      CallMade(cap, acts[..n], id);
      CallStep(s, acts[n], id);
      assert acts[n] in acts && forall a :: a in acts[..n] ==> a in acts;
    }
  }

  lemma CallStep(s: Pipe, a: Action, id: nat)
    requires Inv(s)
    ensures id in Next(s, a).readers ==>
            var r := Next(s, a).readers[id];
            a == CallRead(id, r.want, r.nonblock) || (id in s.readers && s.readers[id].want == r.want && s.readers[id].nonblock == r.nonblock)
    ensures id in Next(s, a).writers ==>
            var w := Next(s, a).writers[id];
            a == CallWrite(id, w.buf, w.nonblock) || (id in s.writers && s.writers[id].buf == w.buf && s.writers[id].nonblock == w.nonblock)
  {
    hide ReaderOk, Bytes, BytesOf;
    if id in s.writers { assert WriterOk(s.committed, id, s.writers[id]); }
  }

  lemma {:induction false} RunSnoc(s: Pipe, acts: seq<Action>, a: Action)
    requires Inv(s)
    ensures Run(s, acts + [a]) == Next(Run(s, acts), a)
    decreases |acts|
  {
    hide Next, Inv;
    if acts == [] {
      assert [] + [a] == [a];
      RunNil(s);
      RunCons(s, a, []);
      NextKeepsInv(s, a);
      RunNil(Next(s, a));
    } else {
      NextKeepsInv(s, acts[0]);
      assert (acts + [a])[1..] == acts[1..] + [a] && (acts + [a])[0] == acts[0];
      RunSnoc(Next(s, acts[0]), acts[1..], a);
    }
  }

  /** The step that ended a read, and what it found: `r` is the reader afterwards. */
  ghost predicate ReadEnd(s: Pipe, a: Action, id: nat, r: Reader) {
    && id in s.readers && !s.locked && r.pc.Done? && s.readers[id].want == r.want && s.readers[id].nonblock == r.nonblock
    && ((a == ReadSection(id) && s.readers[id].pc == Enter &&
         (if r.pc.result == 0 then s.queue == [] && s.writeEnds == 0
          else if r.pc.result == -EAGAIN then s.queue == [] && s.writeEnds > 0 && r.nonblock
          else s.queue != [] && r.pc.result == (if r.want < |s.queue| then r.want else |s.queue|) && r.got == s.queue[..r.pc.result]))
        || (a == ReadWake(id, true) && s.readers[id].pc == Asleep && r.pc.result == -EINTR))
  }

  lemma ReaderStep(s: Pipe, a: Action, id: nat)
    requires Inv(s) && id in Next(s, a).readers && Next(s, a).readers[id].pc.Done? && Next(s, a).readers[id].want > 0
    ensures (id in s.readers && s.readers[id] == Next(s, a).readers[id]) || ReadEnd(s, a, id, Next(s, a).readers[id])
  {
    hide WriterOk, Bytes, BytesOf;
    if a == ReadSection(id) && id in s.readers && s.readers[id].pc == Enter && !s.locked { ReadAnswers(s, id); }
  }

  /** Every read for something that returned did so in a step of the run that found what its result says: 0 on an empty pipe
      without writers, EAGAIN on an empty pipe with writers, EINTR on a signal while asleep, and a positive number the oldest
      bytes there were. */
  lemma {:induction false} ReadReturned(cap: nat, acts: seq<Action>, id: nat)
    requires var s := Run(Initial(cap), acts); id in s.readers && s.readers[id].pc.Done? && s.readers[id].want > 0
    ensures exists k :: 0 <= k < |acts| && ReadEnd(Run(Initial(cap), acts[..k]), acts[k], id, Run(Initial(cap), acts).readers[id])
    decreases |acts|
  {
    InitialInv(cap);
    hide Inv, Next, ReadEnd;
    if acts == [] {
      RunNil(Initial(cap));
    } else {
      var n := |acts| - 1;
      var s := Run(Initial(cap), acts[..n]);
      assert acts[..n] + [acts[n]] == acts;
      RunSnoc(Initial(cap), acts[..n], acts[n]);
      ReaderStep(s, acts[n], id);
      if !ReadEnd(s, acts[n], id, Run(Initial(cap), acts).readers[id]) {
        ReadReturned(cap, acts[..n], id);
        var k :| 0 <= k < n && ReadEnd(Run(Initial(cap), acts[..n][..k]), acts[..n][k], id, s.readers[id]);
        assert acts[..n][..k] == acts[..k];
      }
    }
  }

  /** The step that ended a write, and what it found. */
  ghost predicate WriteEnd(s: Pipe, a: Action, id: nat, w: Writer) {
    && id in s.writers && w.pc.Done? && s.writers[id].buf == w.buf && s.writers[id].nonblock == w.nonblock
    && (if w.pc.result == |w.buf| then a == WriteSection(id) && s.readEnds > 0 && !NoRoom(s, w)
        else
          && w.pc.result == (if w.written > 0 then w.written else w.pc.result)
          && (w.written > 0 ==> |w.buf| > 4096)
          && ((s.readEnds == 0 && (a == WriteSection(id) || a == CheckReaders(id)) && (w.written == 0 ==> w.pc.result == -EPIPE))
              || (s.readEnds > 0 && NoRoom(s, w) && w.nonblock && a == WriteSection(id) && (w.written == 0 ==> w.pc.result == -EAGAIN))
              || (a == WriteWake(id, true) && s.writers[id].pc == Asleep && (w.written == 0 ==> w.pc.result == -EINTR))))
  }

  /** A critical section moves nobody else's call. */
  lemma SectionsApart(s: Pipe, a: Action, id: nat)
    requires Inv(s)
    ensures (a.WriteSection? && a.id != id) || a.ReadSection? ==>
            (id in Next(s, a).writers <==> id in s.writers) && (id in s.writers ==> Next(s, a).writers[id] == s.writers[id])
  {
    hide ReaderOk, WriterOk, Bytes, BytesOf;
    if a.WriteSection? && a.id in s.writers { assert WriterOk(s.committed, a.id, s.writers[a.id]); }
  }

  lemma WriterStep(s: Pipe, a: Action, id: nat)
    requires Inv(s) && id in Next(s, a).writers && Next(s, a).writers[id].pc.Done? && Next(s, a).writers[id].buf != []
    ensures (id in s.writers && s.writers[id] == Next(s, a).writers[id]) || WriteEnd(s, a, id, Next(s, a).writers[id])
  {
    hide Next, Inv, WriteEnd;
    if a == WriteSection(id) {
      WriterSection(s, id);
    } else if a.WriteSection? || a.ReadSection? {
      SectionsApart(s, a, id);
    } else {
      WriterOutside(s, a, id);
    }
  }

  lemma WriterSection(s: Pipe, id: nat)
    requires Inv(s)
    requires var s' := Next(s, WriteSection(id)); id in s'.writers && s'.writers[id].pc.Done? && s'.writers[id].buf != []
    ensures var s' := Next(s, WriteSection(id));
            (id in s.writers && s.writers[id] == s'.writers[id]) || WriteEnd(s, WriteSection(id), id, s'.writers[id])
  {
    hide ReaderOk, Bytes, BytesOf;
    if id in s.writers && s.writers[id].pc == Enter && !s.locked {
      WriteAnswers(s, id);
      assert WriterOk(s.committed, id, s.writers[id]);
      WriteKeepsCall(s, id);
    }
  }

  lemma WriteKeepsCall(s: Pipe, id: nat)
    requires Inv(s) && !s.locked && id in s.writers && s.writers[id].pc == Enter
    ensures var w, s' := s.writers[id], Next(s, WriteSection(id));
            s'.writers[id].buf == w.buf && s'.writers[id].nonblock == w.nonblock &&
            (s'.writers[id].pc.Done? && s'.writers[id].pc.result != |w.buf| ==> s'.writers[id].written == w.written)
  {
    hide ReaderOk, Bytes, BytesOf;
    assert WriterOk(s.committed, id, s.writers[id]);
  }

  lemma WriterOutside(s: Pipe, a: Action, id: nat)
    requires Inv(s) && !a.WriteSection? && !a.ReadSection?
    requires id in Next(s, a).writers && Next(s, a).writers[id].pc.Done? && Next(s, a).writers[id].buf != []
    ensures (id in s.writers && s.writers[id] == Next(s, a).writers[id]) || WriteEnd(s, a, id, Next(s, a).writers[id])
  {
    hide ReaderOk, Bytes, BytesOf, WriteStep, ReadStep;
    if id in s.writers { assert WriterOk(s.committed, id, s.writers[id]); }
  }

  /** Every write of something that returned did so in a step of the run that found what its result says: the whole length
      after its last bytes went in, EPIPE without readers, EAGAIN without room, EINTR on a signal while asleep; and a number
      short of the length only for more than 4096 bytes, in one of those three cases. */
  lemma {:induction false} WriteReturned(cap: nat, acts: seq<Action>, id: nat)
    requires var s := Run(Initial(cap), acts); id in s.writers && s.writers[id].pc.Done? && s.writers[id].buf != []
    ensures exists k :: 0 <= k < |acts| && WriteEnd(Run(Initial(cap), acts[..k]), acts[k], id, Run(Initial(cap), acts).writers[id])
    decreases |acts|
  {
    InitialInv(cap);
    hide Inv, Next, WriteEnd;
    if acts == [] {
      RunNil(Initial(cap));
    } else {
      var n := |acts| - 1;
      var s := Run(Initial(cap), acts[..n]);
      assert acts[..n] + [acts[n]] == acts;
      RunSnoc(Initial(cap), acts[..n], acts[n]);
      WriterStep(s, acts[n], id);
      if !WriteEnd(s, acts[n], id, Run(Initial(cap), acts).writers[id]) {
        WriteReturned(cap, acts[..n], id);
        var k :| 0 <= k < n && WriteEnd(Run(Initial(cap), acts[..n][..k]), acts[..n][k], id, s.writers[id]);
        assert acts[..n][..k] == acts[..k];
      }
    }
  }

  /** A step takes the lock for good exactly when a writer that slept wakes without a signal: its loop goes
      round with the lock still held and asks for it again. */
  lemma WedgeExactly(s: Pipe, a: Action)
    requires Inv(s) && !s.locked
    ensures Next(s, a).locked <==>
      a.WriteWake? && !a.signal && a.id in s.writers && s.writers[a.id].pc == Asleep
  {
  }

  lemma WedgedStep(s: Pipe, a: Action)
    requires Inv(s) && s.locked
    ensures var s' := Next(s, a);
      s'.locked && s'.queue == s.queue && s'.committed == s.committed && s'.delivered == s.delivered
  {
  }

  /** From then on the pipe is dead: no interleaving moves another byte. */
  lemma {:induction false} WedgedForever(s: Pipe, acts: seq<Action>)
    requires Inv(s) && s.locked
    ensures var s' := Run(s, acts);
      s'.locked && s'.queue == s.queue && s'.committed == s.committed && s'.delivered == s.delivered
    decreases |acts|
  {
    hide Inv, Next;
    if acts != [] {
      NextKeepsInv(s, acts[0]);
      WedgedStep(s, acts[0]);
      WedgedForever(Next(s, acts[0]), acts[1..]);
    }
  }

  ghost predicate NoneBlocks(s: Pipe) {
    !s.locked && forall id :: id in s.writers ==> s.writers[id].nonblock && s.writers[id].pc != Asleep
  }

  lemma NoneBlocksStep(s: Pipe, a: Action)
    requires Inv(s) && NoneBlocks(s) && (a.CallWrite? ==> a.nonblock)
    ensures NoneBlocks(Next(s, a))
  {
    hide Bytes, BytesOf, ReaderOk, WriteResult, Accepted, Oldest;
  }

  /** Writers that never block keep the pipe alive: with O_NONBLOCK on every write the lock is free after every run. */
  lemma {:induction false} NonblockingNeverWedges(s: Pipe, acts: seq<Action>)
    requires Inv(s) && NoneBlocks(s)
    requires forall i :: 0 <= i < |acts| && acts[i].CallWrite? ==> acts[i].nonblock
    ensures !Run(s, acts).locked
    decreases |acts|
  {
    hide Inv, Next;
    if acts != [] {
      NextKeepsInv(s, acts[0]);
      NoneBlocksStep(s, acts[0]);
      NonblockingNeverWedges(Next(s, acts[0]), acts[1..]);
    }
  }

  lemma RunCons(s: Pipe, a: Action, rest: seq<Action>)
    requires Inv(s)
    ensures Inv(Next(s, a)) && Run(s, [a] + rest) == Run(Next(s, a), rest)
  {
    NextKeepsInv(s, a);
    assert ([a] + rest)[1..] == rest;
  }

  /** The dead state is reached by an ordinary run, for every capacity: fill the pipe, block a one-byte write,
      drain the pipe, wake the writer. */
  lemma WedgeReachable(full: seq<bv8>, b: bv8)
    requires |full| > 0
    ensures var s := Run(Initial(|full|), [CallWrite(0, full, true), CheckReaders(0), WriteSection(0),
                                           CallWrite(1, [b], false), CheckReaders(1), WriteSection(1),
                                           CallRead(0, |full|, true), ReadSection(0), WriteWake(1, false)]);
            s.locked && s.queue == [] && 1 in s.writers && s.writers[1] == Writer([b], false, 0, Woken)
  {
    hide Inv, Run;
    var a := [CallWrite(0, full, true), CheckReaders(0), WriteSection(0),
              CallWrite(1, [b], false), CheckReaders(1), WriteSection(1),
              CallRead(0, |full|, true), ReadSection(0), WriteWake(1, false)];
    var s3 := FillRun(full, a[3..]);
    assert a == [CallWrite(0, full, true), CheckReaders(0), WriteSection(0)] + a[3..];
    var s6 := BlockRun(s3, full, b, a[6..]);
    assert a[3..] == [CallWrite(1, [b], false), CheckReaders(1), WriteSection(1)] + a[6..];
    assert a[6..] == [CallRead(0, |full|, true), ReadSection(0), WriteWake(1, false)];
    DrainRun(s6, full, b);
  }

  lemma FillRun(full: seq<bv8>, rest: seq<Action>) returns (s: Pipe)
    requires |full| > 0
    ensures Inv(s) && !s.locked && s.queue == full && s.cap == |full| && s.readEnds == 1
    ensures 1 !in s.writers && 0 !in s.readers
    ensures Run(Initial(|full|), [CallWrite(0, full, true), CheckReaders(0), WriteSection(0)] + rest) == Run(s, rest)
  {
    hide Inv, Run;
    var s0 := Initial(|full|);
    InitialInv(|full|);
    RunThree(s0, CallWrite(0, full, true), CheckReaders(0), WriteSection(0), rest);
    var s1 := Next(s0, CallWrite(0, full, true));
    var s2 := Next(s1, CheckReaders(0));
    assert s2.writers[0] == Writer(full, true, 0, Enter);
    s := Next(s2, WriteSection(0));
    assert full[0..] == full && Accepted(|full|, [], full) == full;
  }

  lemma BlockRun(s0: Pipe, full: seq<bv8>, b: bv8, rest: seq<Action>) returns (s: Pipe)
    requires Inv(s0) && !s0.locked && s0.queue == full && s0.cap == |full| && s0.readEnds == 1
    requires 1 !in s0.writers && 0 !in s0.readers
    ensures Inv(s) && !s.locked && s.queue == full && 0 !in s.readers
    ensures 1 in s.writers && s.writers[1] == Writer([b], false, 0, Asleep)
    ensures Run(s0, [CallWrite(1, [b], false), CheckReaders(1), WriteSection(1)] + rest) == Run(s, rest)
  {
    hide Inv, Run;
    RunThree(s0, CallWrite(1, [b], false), CheckReaders(1), WriteSection(1), rest);
    var s1 := Next(s0, CallWrite(1, [b], false));
    var s2 := Next(s1, CheckReaders(1));
    s := Next(s2, WriteSection(1));
  }

  lemma DrainRun(s0: Pipe, full: seq<bv8>, b: bv8)
    requires Inv(s0) && !s0.locked && s0.queue == full && |full| > 0 && 0 !in s0.readers
    requires 1 in s0.writers && s0.writers[1] == Writer([b], false, 0, Asleep)
    ensures var s := Run(s0, [CallRead(0, |full|, true), ReadSection(0), WriteWake(1, false)]);
            s.locked && s.queue == [] && 1 in s.writers && s.writers[1] == Writer([b], false, 0, Woken)
  {
    hide Inv, Run;
    RunThree(s0, CallRead(0, |full|, true), ReadSection(0), WriteWake(1, false), []);
    assert [CallRead(0, |full|, true), ReadSection(0), WriteWake(1, false)] + [] ==
           [CallRead(0, |full|, true), ReadSection(0), WriteWake(1, false)];
    var s1 := Next(s0, CallRead(0, |full|, true));
    var s2 := Next(s1, ReadSection(0));
    assert s1.readers[0] == Reader(|full|, true, [], Enter);
    assert Oldest(full, |full|) == full;
    assert s2.queue == [];
    RunNil(Next(s2, WriteWake(1, false)));
  }

  lemma InitialInv(cap: nat)
    ensures Inv(Initial(cap))
  {
  }

  lemma RunNil(s: Pipe)
    requires Inv(s)
    ensures Run(s, []) == s
  {
  }

  lemma RunThree(s: Pipe, a: Action, b: Action, c: Action, rest: seq<Action>)
    requires Inv(s)
    ensures Inv(Next(s, a)) && Inv(Next(Next(s, a), b)) && Inv(Next(Next(Next(s, a), b), c))
    ensures Run(s, [a, b, c] + rest) == Run(Next(Next(Next(s, a), b), c), rest)
  {
    hide Inv, Next;
    assert [a, b, c] + rest == [a] + ([b] + ([c] + rest));
    RunCons(s, a, [b] + ([c] + rest));
    RunCons(Next(s, a), b, [c] + rest);
    RunCons(Next(Next(s, a), b), c, rest);
  }
}
