/** Address spaces: `mm_alloc` and the deep copy `mm_copy` that fork performs. */
module AddressSpace {
  import opened Words
  import opened PhysicalMemory
  import opened PageTables
  import opened FrameBudget

  datatype Vma = Vma(start: nat, end: nat, flags: nat)
  /** `mm_struct`: the root table, the list of VMAs, and the code/data/brk/stack bounds. */
  datatype Mm = Mm(pgd: Frame, vmas: seq<Vma>, bounds: seq<nat>)

  ghost predicate GoodVma(a: Vma) {
    a.start % 4096 == 0 && a.end % 4096 == 0 && a.start <= a.end <= USER_END
  }

  ghost predicate InVmas(vmas: seq<Vma>, v: nat) {
    exists a :: a in vmas && a.start <= v < a.end
  }

  lemma EmptyTree(mem: Memory, pgd: Frame, t: Tables)
    requires t == map[Pml4 := pgd]
    requires forall j :: 0 <= j < 256 ==> Load(mem, pgd)[j] == ZERO
    ensures Tree(mem, t) && t.Values == {pgd}
    ensures forall q :: UserQuad(q) ==> Leaf(mem, t, q) == ZERO
  {
    assert t[Pml4] == pgd;
    forall n, i | n in t && !n.Pt? && UserSlot(n, i) ensures SlotOk(mem, t, n, i) {
      assert n == Pml4 && Child(n, i) !in t;
    }
  }

  /** `mm_alloc`: an empty user half under a fresh root, the kernel half shared. `structOk` says whether the `kmalloc` of
      the `mm_struct` succeeded. */
  method MmAlloc(m: Machine, kernelRoot: Frame, structOk: bool) returns (ok: bool, pgd: Frame, ghost t: Tables)
    requires m.Valid() && kernelRoot !in m.Free()
    modifies m`mem, m.bitmap
    ensures m.Valid() && t == map[Pml4 := pgd]
    ensures ok <==> structOk && old(m.Free()) != {}
    ensures !ok ==> m.Free() == old(m.Free()) && m.mem == old(m.mem)
    ensures ok ==> Owned(m, t) && pgd in old(m.Free()) && m.Free() == old(m.Free()) - {pgd} && m.base <= pgd < m.base + FRAMES
    ensures ok ==> Open(m.mem, t) && forall q :: UserQuad(q) ==> Leaf(m.mem, t, q) == ZERO
    ensures ok ==> forall i :: 256 <= i < 512 ==> Load(m.mem, pgd)[i] == Load(old(m.mem), kernelRoot)[i]
    ensures forall f: Frame :: f != pgd ==> Load(m.mem, f) == Load(old(m.mem), f)
  {
    if !structOk { return false, 0, map[Pml4 := 0]; }
    pgd := m.AllocPage();
    t := map[Pml4 := pgd];
    ok := pgd != 0;
    if !ok { return; }
    ZeroFrame(m, pgd);
    var i := 256;
    while i < 512
      modifies m`mem
      invariant 256 <= i <= 512 && pgd in m.mem
      invariant m.mem == old(m.mem)[pgd := m.mem[pgd]]
      invariant forall j :: 0 <= j < 256 || i <= j < 512 ==> m.mem[pgd][j] == ZERO
      invariant forall j :: 256 <= j < i ==> m.mem[pgd][j] == Load(old(m.mem), kernelRoot)[j]
    {
      m.mem := StoreWord(m.mem, pgd, i, Load(m.mem, kernelRoot)[i]);
      i := i + 1;
    }
    EmptyTree(m.mem, pgd, t);
  }

  // ---- any run of mappings from an empty address space

  datatype Request = Request(virt: nat, phys: Word, flags: Word)

  /** What a page holds after the requests `rs`, of which those marked `done` took effect: the last one wins. */
  ghost function LastMapped(rs: seq<Request>, done: seq<bool>, page: nat): Word
    requires |done| == |rs|
  {
    if rs == [] then ZERO
    else
      var n := |rs| - 1;
      if done[n] && rs[n].virt / 4096 == page then LeafWord(rs[n].phys, rs[n].flags)
      else LastMapped(rs[..n], done[..n], page)
  }

  ghost predicate Remembered(mem: Memory, pgd: Frame, rs: seq<Request>, done: seq<bool>) {
    |done| == |rs| && forall v :: 0 <= v < USER_END ==> PteForVirtIn(mem, pgd, v) == LastMapped(rs, done, v / 4096)
  }

  lemma RememberMore(mem: Memory, mem': Memory, pgd: Frame, rs: seq<Request>, done: seq<bool>, r: Request, mapped: bool)
    requires Remembered(mem, pgd, rs, done) && r.virt < USER_END
    requires mapped ==> forall v :: 0 <= v < USER_END && v / 4096 == r.virt / 4096 ==>
               PteForVirtIn(mem', pgd, v) == LeafWord(r.phys, r.flags)
    requires forall v :: 0 <= v < USER_END && (!mapped || v / 4096 != r.virt / 4096) ==>
               PteForVirtIn(mem', pgd, v) == PteForVirtIn(mem, pgd, v)
    ensures Remembered(mem', pgd, rs + [r], done + [mapped])
  {
    hide PteForVirtIn;
    assert (rs + [r])[..|rs|] == rs && (done + [mapped])[..|rs|] == done;
  }

  lemma SamePageSameEntry(mem: Memory, pgd: Frame, v: nat, w: nat)
    requires v / 4096 == w / 4096 && v < USER_END && w < USER_END
    ensures PteForVirtIn(mem, pgd, v) == PteForVirtIn(mem, pgd, w)
  {
    hide PteForVirtIn, Indices;
    IndicesOfPage(v, w);
    SameIndices(mem, pgd, v, w);
  }

  lemma SameIndices(mem: Memory, pgd: Frame, v: nat, w: nat)
    requires Indices(v) == Indices(w)
    ensures PteForVirtIn(mem, pgd, v) == PteForVirtIn(mem, pgd, w)
  {
  }

  /** A client that creates an address space and makes any requests at all in it: the tables hold exactly what a plain
      map updated by the requests would hold, and a request is lost only for page 0 or when every frame is taken. */
  method MapAll(m: Machine, kernelRoot: Frame, rs: seq<Request>)
    returns (ok: bool, pgd: Frame, ghost t: Tables, ghost done: seq<bool>)
    requires m.Valid() && kernelRoot !in m.Free() && forall r :: r in rs ==> r.virt < USER_END
    modifies m`mem, m.bitmap
    ensures ok <==> old(m.Free()) != {}
    ensures ok ==> Owned(m, t) && t[Pml4] == pgd && Remembered(m.mem, pgd, rs, done)
    ensures ok ==> Reachable(m.mem, pgd)
    ensures ok ==> forall i :: 0 <= i < |rs| && !done[i] ==> rs[i].virt == 0 || m.Free() == {}
    ensures ok ==> forall i :: 0 <= i < |rs| && done[i] ==> rs[i].virt != 0
  {
    hide Tree, PteForVirtIn, VirtToPhysIn, LeafWord, Leaf, Mapped, SameLeaves, FreeSet, LastMapped, Remembered, Grown, Counted, Path, Open, Flagged, Passes, Reachable, Bit;
    done := [];
    ok, pgd, t := MmAlloc(m, kernelRoot, true);
    if !ok { return; }
    NothingMapped(m.mem, t);
    var i := 0;
    while i < |rs|
      invariant 0 <= i <= |rs| && |done| == i && Pml4 in t && Owned(m, t) && t[Pml4] == pgd
      invariant Remembered(m.mem, pgd, rs[..i], done) && Open(m.mem, t)
      invariant forall j :: 0 <= j < i && !done[j] ==> rs[j].virt == 0 || m.Free() == {}
      invariant forall j :: 0 <= j < i && done[j] ==> rs[j].virt != 0
    {
      ghost var mem0, mapped := m.mem, false;
      ghost var free0, t0 := m.Free(), t;
      mapped, t := MapPageInPgd(m, pgd, rs[i].virt, rs[i].phys, rs[i].flags, t);
      forall v | 0 <= v < USER_END && v / 4096 == rs[i].virt / 4096
        ensures PteForVirtIn(m.mem, pgd, v) == PteForVirtIn(m.mem, pgd, rs[i].virt)
      {
        SamePageSameEntry(m.mem, pgd, v, rs[i].virt);
      }
      RememberMore(mem0, m.mem, pgd, rs[..i], done, rs[i], mapped);
      assert rs[..i + 1] == rs[..i] + [rs[i]];
      GrownKeepsFree(mem0, free0, t0, m.mem, m.Free(), t);
      done := done + [mapped];
      i := i + 1;
    }
    assert rs[..i] == rs;
    OpenReaches(m.mem, t);
  }

  /** The way to every present user page lets user accesses and writes through; the leaf alone decides. */
  ghost predicate Reachable(mem: Memory, pgd: Frame) {
    forall v :: 0 <= v < USER_END && Present(PteForVirtIn(mem, pgd, v)) ==>
      Passes(mem, pgd, v, 0) && Passes(mem, pgd, v, 1) && Passes(mem, pgd, v, 2)
  }

  lemma OpenReaches(mem: Memory, t: Tables)
    requires Tree(mem, t) && Pml4 in t && Open(mem, t)
    ensures Reachable(mem, t[Pml4])
  {
    hide Tree, Open, PteForVirtIn, Passes;
    forall v | 0 <= v < USER_END && Present(PteForVirtIn(mem, t[Pml4], v))
      ensures Passes(mem, t[Pml4], v, 0) && Passes(mem, t[Pml4], v, 1) && Passes(mem, t[Pml4], v, 2)
    {
      OpenSeen(mem, t, v);
    }
  }

  lemma GrownKeepsFree(mem: Memory, free: set<nat>, t: Tables, mem': Memory, free': set<nat>, t': Tables)
    requires Grown(mem, free, t, mem', free', t')
    ensures free' <= free && (Pml4 in t ==> KernelHalf(mem, mem', t[Pml4]))
  {
  }

  lemma NothingMapped(mem: Memory, t: Tables)
    requires Tree(mem, t) && forall q :: UserQuad(q) ==> Leaf(mem, t, q) == ZERO
    ensures Remembered(mem, t[Pml4], [], [])
  {
    forall v | 0 <= v < USER_END ensures PteForVirtIn(mem, t[Pml4], v) == ZERO {
      WalkersReadLeaf(mem, t, v);
      assert UserQuad(Indices(v));
    }
  }

  /** One child page: present in the parent too, same flags, same contents, on a frame that was free
      before the copy, is taken now, and is no table of the child. */
  ghost predicate PageCopied(mem0: Memory, free0: set<nat>, tp: Tables, mem: Memory, free: set<nat>, tc: Tables, q: Quad)
    requires UserQuad(q)
  {
    var c, p := Leaf(mem, tc, q), Leaf(mem0, tp, q);
    Present(c) ==>
      Present(p) && c.low == p.low && c.high == And12(p.high, NX) &&
      c.frame in free0 && c.frame !in free && c.frame !in tc.Values &&
      Load(mem, c.frame) == Load(mem0, p.frame)
  }

  ghost predicate NoSharedFrame(mem: Memory, tc: Tables) {
    forall q, r :: UserQuad(q) && UserQuad(r) && q != r && Present(Leaf(mem, tc, q)) && Present(Leaf(mem, tc, r)) ==>
      Leaf(mem, tc, q).frame != Leaf(mem, tc, r).frame
  }

  /** The child so far is a copy of the parent at the pages in `seen`: at all of them, unless `starved`, some
      allocation of a frame having failed. */
  ghost predicate Copied(mem0: Memory, free0: set<nat>, tp: Tables, mem: Memory, free: set<nat>, tc: Tables,
                         seen: set<nat>, starved: bool) {
    (forall q :: UserQuad(q) ==> PageCopied(mem0, free0, tp, mem, free, tc, q)) &&
    NoSharedFrame(mem, tc) &&
    (forall v :: v in seen ==> v < USER_END) &&
    (forall v :: v in seen && v != 0 && !starved && Present(Leaf(mem0, tp, Indices(v))) ==> Present(Leaf(mem, tc, Indices(v)))) &&
    (forall v :: 0 <= v < USER_END && v % 4096 == 0 && Present(Leaf(mem, tc, Indices(v))) ==> v in seen && v != 0)
  }

  /** Everything outside the frames that were free at the start is as it was. */
  ghost predicate Outside(mem0: Memory, free0: set<nat>, mem: Memory) {
    forall f: Frame :: f !in free0 ==> Load(mem, f) == Load(mem0, f)
  }

  /** Copying a page into a fresh frame `dst` and mapping it: leaf words other than `k`'s are kept, and so is
      every frame that is neither a table of the child nor free; `dst` holds the parent's page. */
  ghost predicate Step(mem: Memory, free: set<nat>, tc: Tables, mem2: Memory, free2: set<nat>, tc2: Tables,
                       dst: Frame, page: Page, mapped: bool, k: Quad, w: Word) {
    dst in free && dst !in free2 && free2 <= free && dst !in tc2.Values &&
    (forall n :: n in tc2 && n !in tc ==> tc2[n] in free) &&
    (forall n :: n in tc ==> n in tc2 && tc2[n] == tc[n]) &&
    (forall f: Frame :: f !in tc.Values && f !in free ==> Load(mem2, f) == Load(mem, f)) &&
    Load(mem2, dst) == page &&
    (forall q :: UserQuad(q) && !(mapped && q == k) ==> Leaf(mem2, tc2, q) == Leaf(mem, tc, q)) &&
    (mapped ==> UserQuad(k) && Leaf(mem2, tc2, k) == w)
  }

  lemma MapIsStep(mem: Memory, free: set<nat>, tc: Tables, mem1: Memory, mem2: Memory, free2: set<nat>, tc2: Tables,
                  dst: Frame, page: Page, mapped: bool, pg: nat, w: Word)
    requires pg < USER_END
    requires dst in free && tc.Values !! free && mem1 == mem[dst := page]
    requires Grown(mem1, free - {dst}, tc, mem2, free2, tc2) && tc2.Values !! free2
    requires if mapped then Mapped(mem1, tc, mem2, tc2, pg, w) else SameLeaves(mem1, tc, mem2, tc2)
    ensures Step(mem, free, tc, mem2, free2, tc2, dst, page, mapped, Indices(pg), w)
  {
    assert dst !in tc.Values;
    assert Load(mem1, dst) == page;
    forall q | UserQuad(q) && !(mapped && q == Indices(pg)) ensures Leaf(mem2, tc2, q) == Leaf(mem, tc, q) {
      assert Leaf(mem1, tc, q) == Leaf(mem, tc, q);
    }
  }

  lemma StepKeepsPages(mem0: Memory, free0: set<nat>, tp: Tables, mem: Memory, free: set<nat>, tc: Tables,
                       mem2: Memory, free2: set<nat>, tc2: Tables, dst: Frame, page: Page, mapped: bool, k: Quad, w: Word)
    requires Step(mem, free, tc, mem2, free2, tc2, dst, page, mapped, k, w) && free <= free0
    requires forall q :: UserQuad(q) ==> PageCopied(mem0, free0, tp, mem, free, tc, q)
    requires UserQuad(k)
    requires var p := Leaf(mem0, tp, k);
             mapped ==> Present(p) && page == Load(mem0, p.frame) && w == Word(And12(p.high, NX), dst, p.low)
    ensures forall q :: UserQuad(q) ==> PageCopied(mem0, free0, tp, mem2, free2, tc2, q)
  {
    forall q | UserQuad(q) ensures PageCopied(mem0, free0, tp, mem2, free2, tc2, q) {
      if !(mapped && q == k) {
        assert PageCopied(mem0, free0, tp, mem, free, tc, q);
        assert Leaf(mem2, tc2, q) == Leaf(mem, tc, q);
      }
    }
  }

  lemma StepKeepsDistinct(mem0: Memory, free0: set<nat>, tp: Tables, mem: Memory, free: set<nat>, tc: Tables,
                          mem2: Memory, free2: set<nat>, tc2: Tables, dst: Frame, page: Page, mapped: bool, k: Quad, w: Word)
    requires Step(mem, free, tc, mem2, free2, tc2, dst, page, mapped, k, w) && w.frame == dst
    requires forall q :: UserQuad(q) ==> PageCopied(mem0, free0, tp, mem, free, tc, q)
    requires NoSharedFrame(mem, tc)
    ensures NoSharedFrame(mem2, tc2)
  {
    forall q | UserQuad(q) && !(mapped && q == k) && Present(Leaf(mem2, tc2, q))
      ensures Leaf(mem2, tc2, q).frame != dst
    {
      assert PageCopied(mem0, free0, tp, mem, free, tc, q);
    }
  }

  lemma PresentBit(low: Bits12)
    requires Bit(low, 0)
    ensures Or(low, PRESENT) == low
  {
    OrZero(low / 2);
  }

  /** Flags of the copy: `pte_flags` keeps bits 52-63 and 0-11, the mapping keeps NX and 0-11. */
  lemma LeafOfCopy(src: Word, dst: Frame)
    requires Present(src)
    ensures LeafWord(Word(0, dst, 0), Word(src.high, 0, src.low)) == Word(And12(src.high, NX), dst, src.low)
  {
    PresentBit(src.low);
    OrZero(And(src.high, NX));
  }

  /** What is known of the parent throughout: a tree whose tables and mapped frames are not free. */
  ghost predicate Parent(mem0: Memory, free0: set<nat>, tp: Tables) {
    Tree(mem0, tp) && tp.Values !! free0 &&
    forall q :: UserQuad(q) && Present(Leaf(mem0, tp, q)) ==> Leaf(mem0, tp, q).frame !in free0
  }

  /** The pages among `seen` that the parent has. */
  ghost function PresentOf(mem0: Memory, tp: Tables, seen: set<nat>): set<nat> {
    set v | v in seen && Present(Leaf(mem0, tp, Indices(v)))
  }

  lemma PresentOfMore(mem0: Memory, tp: Tables, seen: set<nat>, pg: nat)
    ensures PresentOf(mem0, tp, seen + {pg}) ==
              if Present(Leaf(mem0, tp, Indices(pg))) then PresentOf(mem0, tp, seen) + {pg} else PresentOf(mem0, tp, seen)
  {
  }

  /** The invariant of the copy: the child owns its tree, nothing else has changed, the pages `seen` are copied, and the
      frames are accounted for: `free1` were free and the root was the only table when the copy began, and `visits` frames
      were asked for pages. */
  ghost predicate Copying(m: Machine, mem0: Memory, free0: set<nat>, free1: set<nat>, tp: Tables, tc: Tables,
                          seen: set<nat>, visits: nat, starved: bool)
    reads m, m.bitmap
  {
    Pml4 in tc && Owned(m, tc) && Open(m.mem, tc) && m.Free() <= free0 && tc.Values <= free0 &&
    Outside(mem0, free0, m.mem) && Copied(mem0, free0, tp, m.mem, m.Free(), tc, seen, starved) &&
    Paid(free1, {Pml4}, m.Free(), tc.Keys, PathsOf(PresentOf(mem0, tp, seen)), visits, starved)
  }

  /** A page the parent has and the child, although the loop came by, has not. */
  ghost predicate Lost(mem0: Memory, tp: Tables, mem: Memory, tc: Tables, seen: set<nat>) {
    exists v :: v in seen && 0 < v < USER_END && Present(Leaf(mem0, tp, Indices(v))) && !Present(Leaf(mem, tc, Indices(v)))
  }

  /** The parent reads the same through the new memory. */
  lemma ParentUnchanged(mem0: Memory, free0: set<nat>, tp: Tables, mem: Memory)
    requires Parent(mem0, free0, tp) && Outside(mem0, free0, mem)
    ensures Tree(mem, tp) && SameLeaves(mem0, tp, mem, tp)
  {
    forall n | n in tp ensures Load(mem, tp[n]) == Load(mem0, tp[n]) {
      assert tp[n] in tp.Values;
    }
    forall n, i | n in tp && !n.Pt? && UserSlot(n, i) ensures SlotOk(mem, tp, n, i) {
      assert SlotOk(mem0, tp, n, i);
    }
  }

  lemma ParentPte(mem0: Memory, free0: set<nat>, tp: Tables, mem: Memory, pg: nat)
    requires Parent(mem0, free0, tp) && Outside(mem0, free0, mem) && pg < USER_END
    ensures PteForVirtIn(mem, tp[Pml4], pg) == Leaf(mem0, tp, Indices(pg))
    ensures var p := Leaf(mem0, tp, Indices(pg)); Present(p) ==> Load(mem, p.frame) == Load(mem0, p.frame)
  {
    ParentUnchanged(mem0, free0, tp, mem);
    WalkersReadLeaf(mem, tp, pg);
    assert UserQuad(Indices(pg));
  }

  /** A page already behind us stays so; one with nothing to copy needs nothing. */
  lemma SkipPage(mem0: Memory, free0: set<nat>, tp: Tables, mem: Memory, free: set<nat>, tc: Tables, seen: set<nat>, pg: nat,
                 was: bool, starved: bool)
    requires Copied(mem0, free0, tp, mem, free, tc, seen, was) && (was ==> starved)
    requires pg < USER_END && (!Present(Leaf(mem0, tp, Indices(pg))) || starved)
    ensures Copied(mem0, free0, tp, mem, free, tc, seen + {pg}, starved)
  {
  }

  lemma StepOutside(mem0: Memory, free0: set<nat>, mem: Memory, free: set<nat>, tc: Tables,
                    mem2: Memory, free2: set<nat>, tc2: Tables, dst: Frame, page: Page, mapped: bool, k: Quad, w: Word)
    requires Step(mem, free, tc, mem2, free2, tc2, dst, page, mapped, k, w) && free <= free0
    requires Outside(mem0, free0, mem) && tc.Values <= free0
    ensures Outside(mem0, free0, mem2) && tc2.Values <= free0 && free2 <= free0
  {
    forall f | f in tc2.Values ensures f in free0 {
      var n :| n in tc2 && tc2[n] == f;
      if n in tc { assert tc[n] in tc.Values; }
    }
  }

  lemma CopyStep(mem0: Memory, free0: set<nat>, tp: Tables, mem: Memory, free: set<nat>, tc: Tables, seen: set<nat>,
                 mem2: Memory, free2: set<nat>, tc2: Tables, dst: Frame, page: Page, mapped: bool, pg: nat, w: Word,
                 was: bool, starved: bool)
    requires Copied(mem0, free0, tp, mem, free, tc, seen, was) && free <= free0 && (was ==> starved)
    requires pg < USER_END && pg % 4096 == 0
    requires Step(mem, free, tc, mem2, free2, tc2, dst, page, mapped, Indices(pg), w)
    requires var p := Leaf(mem0, tp, Indices(pg));
             Present(p) && page == Load(mem0, p.frame) && w == Word(And12(p.high, NX), dst, p.low)
    requires if mapped then pg != 0 else pg == 0 || starved
    ensures Copied(mem0, free0, tp, mem2, free2, tc2, seen + {pg}, starved)
  {
    StepKeepsPages(mem0, free0, tp, mem, free, tc, mem2, free2, tc2, dst, page, mapped, Indices(pg), w);
    StepKeepsDistinct(mem0, free0, tp, mem, free, tc, mem2, free2, tc2, dst, page, mapped, Indices(pg), w);
    forall v | v in seen + {pg} && v != 0 && !starved && Present(Leaf(mem0, tp, Indices(v)))
      ensures Present(Leaf(mem2, tc2, Indices(v)))
    {
      assert UserQuad(Indices(v));
    }
    forall v | 0 <= v < USER_END && v % 4096 == 0 && Present(Leaf(mem2, tc2, Indices(v)))
      ensures v in seen + {pg} && v != 0
    {
      IndicesOfPage(v, pg);
      assert UserQuad(Indices(v));
    }
  }

  /** The body of the page loop of `mm_copy`. */
  method CopyPage(m: Machine, pgd: Frame, childPgd: Frame, pg: nat,
                  ghost mem0: Memory, ghost free0: set<nat>, ghost free1: set<nat>, ghost tp: Tables, ghost tc: Tables,
                  ghost seen: set<nat>, ghost visits: nat, ghost was: bool)
    returns (ghost tc': Tables, ghost visits': nat, ghost starved: bool)
    requires Parent(mem0, free0, tp) && Copying(m, mem0, free0, free1, tp, tc, seen, visits, was) && Pml4 in tc
    requires Pml4 in tp && pgd == tp[Pml4] && childPgd == tc[Pml4] && pg < USER_END && pg % 4096 == 0
    modifies m`mem, m.bitmap
    ensures Copying(m, mem0, free0, free1, tp, tc', seen + {pg}, visits', starved) && Pml4 in tc' && tc'[Pml4] == childPgd
    ensures visits' == visits + if Present(Leaf(mem0, tp, Indices(pg))) then 1 else 0
    ensures KernelHalf(old(m.mem), m.mem, childPgd)
    ensures was ==> starved && tc' == tc && m.mem == old(m.mem)
    ensures starved && !was && pg != 0 && pg !in seen ==> Lost(mem0, tp, m.mem, tc', seen + {pg})
  {
    hide Copied, Tree, Step, Mapped, SameLeaves, Outside, Parent, Grown, PteForVirtIn, VirtToPhysIn, LeafWord, FreeSet, Leaf,
         Paid, Counted, Path, PathsOf, PresentOf, Lost, KernelHalf, Open, Flagged, Passes, Bit;
    tc', visits', starved := tc, visits, was;
    var src := PteForVirtIn(m.mem, pgd, pg);
    ParentPte(mem0, free0, tp, m.mem, pg);
    PresentOfMore(mem0, tp, seen, pg);
    KernelSame(m.mem, childPgd);
    ghost var mem, free := m.mem, m.Free();
    if !Present(src) {
      SkipPage(mem0, free0, tp, mem, free, tc, seen, pg, was, was);
      return;
    }
    ghost var pages := PresentOf(mem0, tp, seen);
    PathsOfMore(pages, pg);
    StarvedEmpty(free1, free, tc.Keys, PathsOf(pages), visits, was);
    visits' := visits + 1;
    var dst := m.AllocPage();
    if dst == 0 {
      starved := true;
      SkipPage(mem0, free0, tp, mem, free, tc, seen, pg, was, true);
      PaidNothing(free1, {Pml4}, tc.Keys, PathsOf(pages), visits, was, PathTo(pg));
      LostHere(mem0, free0, tp, mem, free, tc, seen, mem, tc, pg, was);
      return;
    }
    TreeApart(m.mem, tc, dst, Load(m.mem, src.frame));
    OpenApart(m.mem, tc, dst, Load(m.mem, src.frame));
    KernelStored(m.mem, childPgd, dst, Load(m.mem, src.frame));
    m.mem := m.mem[dst := Load(m.mem, src.frame)];
    ghost var mem1, mapped := m.mem, false;
    mapped, tc' := MapPageInPgd(m, childPgd, pg, Word(0, dst, 0), Word(src.high, 0, src.low), tc);
    GrownKeepsFree(mem1, free - {dst}, tc, m.mem, m.Free(), tc');
    KernelJoin(mem, mem1, m.mem, childPgd);
    if pg == 0 {
      PaidLeak(free1, {Pml4}, free, tc.Keys, PathsOf(pages), visits, dst);
    } else {
      starved := !mapped;
      PaidPage(free1, {Pml4}, free, tc, PathsOf(pages), visits, dst, m.Free(), tc', PathTo(pg), mapped);
    }
    LeafOfCopy(src, dst);
    CopiedOne(mem0, free0, tp, mem, free, tc, seen, mem1, m.mem, m.Free(), tc', dst, mapped, pg, was, starved);
  }

  /** Everything the copy of one page means, once its frame is filled and mapped as far as frames go. */
  lemma CopiedOne(mem0: Memory, free0: set<nat>, tp: Tables, mem: Memory, free: set<nat>, tc: Tables, seen: set<nat>,
                  mem1: Memory, mem2: Memory, free2: set<nat>, tc2: Tables, dst: Frame, mapped: bool, pg: nat,
                  was: bool, starved: bool)
    requires Copied(mem0, free0, tp, mem, free, tc, seen, was) && free <= free0 && (was ==> starved)
    requires Outside(mem0, free0, mem) && tc.Values <= free0
    requires pg < USER_END && pg % 4096 == 0 && dst in free && tc.Values !! free && tc2.Values !! free2
    requires var p := Leaf(mem0, tp, Indices(pg));
             Present(p) && Load(mem, p.frame) == Load(mem0, p.frame) && mem1 == mem[dst := Load(mem, p.frame)] &&
             if mapped then Mapped(mem1, tc, mem2, tc2, pg, Word(And12(p.high, NX), dst, p.low)) else SameLeaves(mem1, tc, mem2, tc2)
    requires Grown(mem1, free - {dst}, tc, mem2, free2, tc2)
    requires if mapped then pg != 0 else pg == 0 || starved
    ensures Copied(mem0, free0, tp, mem2, free2, tc2, seen + {pg}, starved)
    ensures Outside(mem0, free0, mem2) && tc2.Values <= free0 && free2 <= free0
    ensures !mapped && pg != 0 && pg !in seen ==> Lost(mem0, tp, mem2, tc2, seen + {pg})
  {
    hide Copied, Step, Mapped, SameLeaves, Outside, Grown, Leaf, Lost;
    var p := Leaf(mem0, tp, Indices(pg));
    var w := Word(And12(p.high, NX), dst, p.low);
    var page := Load(mem, p.frame);
    MapIsStep(mem, free, tc, mem1, mem2, free2, tc2, dst, page, mapped, pg, w);
    CopyStep(mem0, free0, tp, mem, free, tc, seen, mem2, free2, tc2, dst, page, mapped, pg, w, was, starved);
    StepOutside(mem0, free0, mem, free, tc, mem2, free2, tc2, dst, page, mapped, Indices(pg), w);
    if !mapped && pg != 0 {
      NotMappedStays(mem, free, tc, mem2, free2, tc2, dst, page, pg, w);
      LostHere(mem0, free0, tp, mem, free, tc, seen, mem2, tc2, pg, was);
    }
  }

  lemma StarvedEmpty(free1: set<nat>, free: set<nat>, keys: set<Node>, paths: set<Node>, visits: nat, starved: bool)
    requires Paid(free1, {Pml4}, free, keys, paths, visits, starved)
    ensures starved ==> free == {}
  {
  }

  /** A page first met when no frame can be had stays out of the child. */
  lemma LostHere(mem0: Memory, free0: set<nat>, tp: Tables, mem: Memory, free: set<nat>, tc: Tables, seen: set<nat>,
                 mem2: Memory, tc2: Tables, pg: nat, was: bool)
    requires Copied(mem0, free0, tp, mem, free, tc, seen, was) && pg < USER_END && pg % 4096 == 0
    requires Present(Leaf(mem0, tp, Indices(pg))) && Leaf(mem2, tc2, Indices(pg)) == Leaf(mem, tc, Indices(pg))
    ensures pg != 0 && pg !in seen ==> Lost(mem0, tp, mem2, tc2, seen + {pg})
  {
  }

  lemma NotMappedStays(mem: Memory, free: set<nat>, tc: Tables, mem2: Memory, free2: set<nat>, tc2: Tables,
                       dst: Frame, page: Page, pg: nat, w: Word)
    requires Step(mem, free, tc, mem2, free2, tc2, dst, page, false, Indices(pg), w) && pg < USER_END
    ensures Leaf(mem2, tc2, Indices(pg)) == Leaf(mem, tc, Indices(pg))
  {
    assert UserQuad(Indices(pg));
  }

  lemma KernelSame(mem: Memory, root: Frame)
    ensures KernelHalf(mem, mem, root)
  {
  }

  lemma KernelStored(mem: Memory, root: Frame, f: Frame, page: Page)
    ensures f != root ==> KernelHalf(mem, mem[f := page], root)
  {
  }

  lemma KernelJoin(mem: Memory, mem1: Memory, mem2: Memory, root: Frame)
    requires KernelHalf(mem, mem1, root) && KernelHalf(mem1, mem2, root)
    ensures KernelHalf(mem, mem2, root)
  {
  }

  ghost function PageStarts(a: nat, b: nat): set<nat> {
    set v: nat | a <= v < b && IsPageStart(v)
  }

  ghost predicate IsPageStart(v: nat) { v % 4096 == 0 }

  lemma NoPageStarts(mem0: Memory, tp: Tables, a: nat)
    ensures PageStarts(a, a) == {} && |PresentIn(mem0, tp, a, a)| == 0
  {
    assert PageStarts(a, a) == {};
    assert PresentIn(mem0, tp, a, a) == {};
  }

  lemma PageStartsNext(mem0: Memory, tp: Tables, a: nat, pg: nat, b: nat)
    requires a <= pg < b && pg % 4096 == 0 && b % 4096 == 0
    ensures PageStarts(a, pg + 4096) == PageStarts(a, pg) + {pg} && pg in PageStarts(a, b) && pg !in PageStarts(a, pg)
    ensures |PresentIn(mem0, tp, a, pg + 4096)| ==
              |PresentIn(mem0, tp, a, pg)| + if Present(Leaf(mem0, tp, Indices(pg))) then 1 else 0
  {
    hide Leaf;
    assert forall v: nat :: IsPageStart(v) && v < pg + 4096 ==> v <= pg;
    assert IsPageStart(pg);
    assert PageStarts(a, pg + 4096) == PageStarts(a, pg) + {pg};
    PresentOfMore(mem0, tp, PageStarts(a, pg), pg);
    assert pg !in PresentIn(mem0, tp, a, pg);
  }

  /** The pages of one VMA that the parent has. */
  ghost function PresentIn(mem0: Memory, tp: Tables, a: nat, b: nat): set<nat> {
    PresentOf(mem0, tp, PageStarts(a, b))
  }

  /** The loop over the pages of one VMA. */
  method CopyVma(m: Machine, pgd: Frame, childPgd: Frame, vma: Vma,
                 ghost mem0: Memory, ghost free0: set<nat>, ghost free1: set<nat>, ghost tp: Tables, ghost tc: Tables,
                 ghost seen: set<nat>, ghost visits: nat, ghost was: bool)
    returns (ghost tc': Tables, ghost seen': set<nat>, ghost visits': nat, ghost starved: bool)
    requires Parent(mem0, free0, tp) && Copying(m, mem0, free0, free1, tp, tc, seen, visits, was) && Pml4 in tc
    requires Pml4 in tp && pgd == tp[Pml4] && childPgd == tc[Pml4] && GoodVma(vma)
    modifies m`mem, m.bitmap
    ensures Copying(m, mem0, free0, free1, tp, tc', seen', visits', starved) && Pml4 in tc' && tc'[Pml4] == childPgd
    ensures seen' == seen + PageStarts(vma.start, vma.end)
    ensures visits' == visits + |PresentIn(mem0, tp, vma.start, vma.end)|
    ensures KernelHalf(old(m.mem), m.mem, childPgd)
    ensures was ==> starved && tc' == tc && m.mem == old(m.mem)
    ensures starved && !was && 0 < vma.start && PageStarts(vma.start, vma.end) !! seen ==> Lost(mem0, tp, m.mem, tc', seen')
  {
    hide Copied, Parent, Outside, Tree, PageStarts, FreeSet, Paid, PathsOf, PresentIn, Leaf, Lost, KernelHalf, Copying;
    tc', seen', visits', starved := tc, seen, visits, was;
    NoPageStarts(mem0, tp, vma.start);
    KernelSame(m.mem, childPgd);
    ghost var tidy := !was && 0 < vma.start && PageStarts(vma.start, vma.end) !! seen;
    var pg := vma.start;
    while pg < vma.end
      invariant vma.start <= pg <= vma.end && pg % 4096 == 0
      invariant Copying(m, mem0, free0, free1, tp, tc', seen', visits', starved) && Pml4 in tc' && tc'[Pml4] == childPgd
      invariant seen' == seen + PageStarts(vma.start, pg)
      invariant visits' == visits + |PresentIn(mem0, tp, vma.start, pg)|
      invariant KernelHalf(old(m.mem), m.mem, childPgd)
      invariant was ==> starved && tc' == tc && m.mem == old(m.mem)
      invariant tidy && starved ==> Lost(mem0, tp, m.mem, tc', seen')
    {
      ghost var mem1, seen1, st1 := m.mem, seen', starved;
      PageStartsNext(mem0, tp, vma.start, pg, vma.end);
      assert tidy ==> pg !in seen' && pg != 0;
      tc', visits', starved := CopyPage(m, pgd, childPgd, pg, mem0, free0, free1, tp, tc', seen', visits', starved);
      KernelJoin(old(m.mem), mem1, m.mem, childPgd);
      seen' := seen' + {pg};
      if st1 { LostStays(mem0, tp, m.mem, tc', seen1, pg); }
      pg := pg + 4096;
    }
  }

  lemma LostStays(mem0: Memory, tp: Tables, mem: Memory, tc: Tables, seen: set<nat>, pg: nat)
    ensures Lost(mem0, tp, mem, tc, seen) ==> Lost(mem0, tp, mem, tc, seen + {pg})
  {
  }

  /** All page starts inside the VMAs, and how many frames the loop asks for on their behalf. */
  ghost function PagesOf(vmas: seq<Vma>): set<nat> {
    if vmas == [] then {} else PagesOf(vmas[..|vmas| - 1]) + PageStarts(vmas[|vmas| - 1].start, vmas[|vmas| - 1].end)
  }

  ghost function Visits(mem0: Memory, tp: Tables, vmas: seq<Vma>): nat {
    if vmas == [] then 0
    else Visits(mem0, tp, vmas[..|vmas| - 1]) + |PresentIn(mem0, tp, vmas[|vmas| - 1].start, vmas[|vmas| - 1].end)|
  }

  /** VMAs that share no page and leave page 0 alone. */
  ghost predicate Tidy(vmas: seq<Vma>) {
    forall i :: 0 <= i < |vmas| ==> vmas[i].start > 0 && PageStarts(vmas[i].start, vmas[i].end) !! PagesOf(vmas[..i])
  }

  /** The loop of `mm_copy` over the parent's VMAs. */
  method CopyPages(m: Machine, pgd: Frame, childPgd: Frame, vmas: seq<Vma>,
                   ghost mem0: Memory, ghost free0: set<nat>, ghost free1: set<nat>, ghost tp: Tables, ghost tc: Tables)
    returns (ghost tc': Tables, ghost starved: bool)
    requires Parent(mem0, free0, tp) && Copying(m, mem0, free0, free1, tp, tc, {}, 0, false) && Pml4 in tc
    requires Pml4 in tp && pgd == tp[Pml4] && childPgd == tc[Pml4]
    requires forall a :: a in vmas ==> GoodVma(a)
    modifies m`mem, m.bitmap
    ensures Copying(m, mem0, free0, free1, tp, tc', PagesOf(vmas), Visits(mem0, tp, vmas), starved) && tc'[Pml4] == childPgd
    ensures KernelHalf(old(m.mem), m.mem, childPgd)
    ensures starved && Tidy(vmas) ==> Lost(mem0, tp, m.mem, tc', PagesOf(vmas))
  {
    hide Copied, Parent, Outside, Tree, PageStarts, FreeSet, Paid, PathsOf, PresentIn, Leaf, Lost, KernelHalf, Copying;
    tc', starved := tc, false;
    KernelSame(m.mem, childPgd);
    ghost var seen: set<nat>, visits := {}, 0;
    var i := 0;
    while i < |vmas|
      invariant 0 <= i <= |vmas| && seen == PagesOf(vmas[..i]) && visits == Visits(mem0, tp, vmas[..i])
      invariant Copying(m, mem0, free0, free1, tp, tc', seen, visits, starved) && Pml4 in tc' && tc'[Pml4] == childPgd
      invariant KernelHalf(old(m.mem), m.mem, childPgd)
      invariant starved && Tidy(vmas) ==> Lost(mem0, tp, m.mem, tc', seen)
    {
      ghost var mem1, seen1, st1 := m.mem, seen, starved;
      assert vmas[..i + 1][..i] == vmas[..i];
      tc', seen, visits, starved :=
        CopyVma(m, pgd, childPgd, vmas[i], mem0, free0, free1, tp, tc', seen, visits, starved);
      KernelJoin(old(m.mem), mem1, m.mem, childPgd);
      if st1 { LostWider(mem0, tp, m.mem, tc', seen1, seen); }
      i := i + 1;
    }
    assert vmas[..i] == vmas;
  }

  lemma LostWider(mem0: Memory, tp: Tables, mem: Memory, tc: Tables, seen: set<nat>, seen': set<nat>)
    requires seen <= seen'
    ensures Lost(mem0, tp, mem, tc, seen) ==> Lost(mem0, tp, mem, tc, seen')
  {
  }

  lemma {:induction false} PagesOfMeans(vmas: seq<Vma>)
    ensures forall v: nat :: v in PagesOf(vmas) <==> IsPageStart(v) && InVmas(vmas, v)
  {
    if vmas != [] {
      var n := |vmas| - 1;
      PagesOfMeans(vmas[..n]);
      InVmasNext(vmas, n);
      assert vmas[..n + 1] == vmas;
    }
  }

  lemma InVmasNext(vmas: seq<Vma>, i: nat)
    requires i < |vmas|
    ensures forall v: nat :: InVmas(vmas[..i + 1], v) <==> InVmas(vmas[..i], v) || vmas[i].start <= v < vmas[i].end
  {
    assert vmas[..i + 1] == vmas[..i] + [vmas[i]];
    forall v: nat ensures InVmas(vmas[..i + 1], v) <==> InVmas(vmas[..i], v) || vmas[i].start <= v < vmas[i].end {
      if vmas[i].start <= v < vmas[i].end { assert vmas[i] in vmas[..i + 1]; }
      if InVmas(vmas[..i], v) {
        var a :| a in vmas[..i] && a.start <= v < a.end;
        assert a in vmas[..i + 1];
      }
    }
  }

  // ---- what the walkers see after the copy

  ghost predicate SameTranslations(mem: Memory, mem': Memory, pgd: Frame) {
    forall v :: 0 <= v < USER_END ==> PteForVirtIn(mem', pgd, v) == PteForVirtIn(mem, pgd, v)
  }

  /** Every page present under `child` is present under `pgd`, inside a VMA, with equal low-12 and NX flags
      and equal contents, on one of the `taken` frames. */
  ghost predicate PrivateCopy(mem: Memory, pgd: Frame, child: Frame, vmas: seq<Vma>, taken: set<nat>) {
    forall v :: 0 <= v < USER_END && v % 4096 == 0 && Present(PteForVirtIn(mem, child, v)) ==>
      var c, p := PteForVirtIn(mem, child, v), PteForVirtIn(mem, pgd, v);
      Present(p) && v != 0 && InVmas(vmas, v) && c.low == p.low && c.high == And12(p.high, NX) &&
      c.frame in taken && Load(mem, c.frame) == Load(mem, p.frame)
  }

  /** Every page of a VMA present under `pgd`, page 0 aside, is present under `child`. */
  ghost predicate FullCopy(mem: Memory, pgd: Frame, child: Frame, vmas: seq<Vma>) {
    forall v :: 0 < v < USER_END && v % 4096 == 0 && InVmas(vmas, v) && Present(PteForVirtIn(mem, pgd, v)) ==>
      Present(PteForVirtIn(mem, child, v))
  }

  lemma ParentAsWalked(mem0: Memory, free0: set<nat>, tp: Tables, mem: Memory)
    requires Parent(mem0, free0, tp) && Outside(mem0, free0, mem)
    ensures SameTranslations(mem0, mem, tp[Pml4])
  {
    ParentUnchanged(mem0, free0, tp, mem);
    forall v | 0 <= v < USER_END ensures PteForVirtIn(mem, tp[Pml4], v) == PteForVirtIn(mem0, tp[Pml4], v) {
      WalkersReadLeaf(mem0, tp, v);
      WalkersReadLeaf(mem, tp, v);
      assert UserQuad(Indices(v));
    }
  }

  lemma ChildAsWalked(mem0: Memory, free0: set<nat>, tp: Tables, mem: Memory, free: set<nat>, tc: Tables,
                      seen: set<nat>, vmas: seq<Vma>, starved: bool)
    requires Parent(mem0, free0, tp) && Outside(mem0, free0, mem)
    requires Tree(mem, tc) && Copied(mem0, free0, tp, mem, free, tc, seen, starved)
    requires forall v: nat :: v in seen <==> IsPageStart(v) && InVmas(vmas, v)
    ensures PrivateCopy(mem, tp[Pml4], tc[Pml4], vmas, free0)
    ensures !starved ==> FullCopy(mem, tp[Pml4], tc[Pml4], vmas)
    ensures Lost(mem0, tp, mem, tc, seen) ==> !FullCopy(mem, tp[Pml4], tc[Pml4], vmas)
  {
    ParentUnchanged(mem0, free0, tp, mem);
    forall v | 0 <= v < USER_END
      ensures PteForVirtIn(mem, tp[Pml4], v) == Leaf(mem0, tp, Indices(v))
      ensures PteForVirtIn(mem, tc[Pml4], v) == Leaf(mem, tc, Indices(v))
      ensures PageCopied(mem0, free0, tp, mem, free, tc, Indices(v))
    {
      WalkersReadLeaf(mem, tp, v);
      WalkersReadLeaf(mem, tc, v);
      assert UserQuad(Indices(v));
    }
  }

  /** The frames a whole copy takes: the root, one for every visit of a page the parent has, and one for every table on
      the way to such a page. */
  ghost function FramesNeeded(mem: Memory, tp: Tables, vmas: seq<Vma>): nat {
    1 + Visits(mem, tp, vmas) + |PathsOf(PresentOf(mem, tp, PagesOf(vmas)))|
  }

  /** `mm_copy`. `structOk` and `vmasOk` say whether the `kmalloc` of the `mm_struct` and those of the VMAs succeeded.
      The contract is stated through the walker the kernel itself uses. */
  method MmCopy(m: Machine, parent: Mm, kernelRoot: Frame, structOk: bool, vmasOk: bool, ghost tp: Tables)
    returns (ok: bool, child: Mm, ghost tc: Tables)
    requires m.Valid() && kernelRoot !in m.Free() && Parent(m.mem, m.Free(), tp) && Pml4 in tp && tp[Pml4] == parent.pgd
    requires forall a :: a in parent.vmas ==> GoodVma(a)
    modifies m`mem, m.bitmap
    ensures m.Valid() && (ok <==> structOk && vmasOk && old(m.Free()) != {})
    // the parent is untouched, tables and pages alike
    ensures SameTranslations(old(m.mem), m.mem, parent.pgd) && Outside(old(m.mem), old(m.Free()), m.mem)
    ensures !ok ==> m.Free() == old(m.Free())
    ensures ok ==> Owned(m, tc) && tc[Pml4] == child.pgd && child == parent.(pgd := child.pgd)
    ensures ok ==> forall i :: 256 <= i < 512 ==> Load(m.mem, child.pgd)[i] == Load(old(m.mem), kernelRoot)[i]
    // every child page is a private copy of the parent's page
    ensures ok ==> PrivateCopy(m.mem, parent.pgd, child.pgd, parent.vmas, old(m.Free()))
    ensures ok ==> NoSharedFrame(m.mem, tc) && Reachable(m.mem, child.pgd)
    // none is missing if there are frames enough, and for VMAs that share no page only then
    ensures ok && FramesNeeded(old(m.mem), tp, parent.vmas) <= |old(m.Free())| ==>
              FullCopy(m.mem, parent.pgd, child.pgd, parent.vmas)
    ensures ok && Tidy(parent.vmas) && FullCopy(m.mem, parent.pgd, child.pgd, parent.vmas) ==>
              FramesNeeded(old(m.mem), tp, parent.vmas) <= |old(m.Free())|
  {
    hide Tree, FreeSet, Paid, PathsOf, PresentOf, Visits, PagesOf, Leaf, PteForVirtIn, PrivateCopy, FullCopy, Tidy, Lost, Parent, Copied,
         SameTranslations, Outside, Open, Reachable;
    ghost var mem0, free0 := m.mem, m.Free();
    var pgd;
    ok, pgd, tc := MmAlloc(m, kernelRoot, structOk);
    child := parent.(pgd := pgd);
    RootOutside(mem0, free0, m.mem, pgd);
    if ok && vmasOk {
      ghost var free1, mem1, starved := m.Free(), m.mem, false;
      CopyStart(mem0, free0, tp, m.mem, m.Free(), tc);
      tc, starved := CopyPages(m, parent.pgd, pgd, parent.vmas, mem0, free0, free1, tp, tc);
      PagesOfMeans(parent.vmas);
      OpenReaches(m.mem, tc);
      ChildAsWalked(mem0, free0, tp, m.mem, m.Free(), tc, PagesOf(parent.vmas), parent.vmas, starved);
      CopySettled(mem0, free0, free1, pgd, tp, m.Free(), tc.Keys, parent.vmas, starved);
      CopiedUnshared(mem0, free0, tp, m.mem, m.Free(), tc, PagesOf(parent.vmas), starved);
    } else if ok {
      m.FreePage(pgd);
      ok := false;
    }
    ParentAsWalked(mem0, free0, tp, m.mem);
  }

  lemma RootOutside(mem0: Memory, free0: set<nat>, mem: Memory, pgd: Frame)
    requires forall f: Frame :: f != pgd ==> Load(mem, f) == Load(mem0, f)
    ensures pgd in free0 ==> Outside(mem0, free0, mem)
    ensures mem == mem0 ==> Outside(mem0, free0, mem)
  {
  }

  lemma CopiedUnshared(mem0: Memory, free0: set<nat>, tp: Tables, mem: Memory, free: set<nat>, tc: Tables, seen: set<nat>, starved: bool)
    requires Copied(mem0, free0, tp, mem, free, tc, seen, starved)
    ensures NoSharedFrame(mem, tc)
  {
  }

  /** The account of the finished copy, in terms of the frames free before the root was taken. */
  lemma CopySettled(mem0: Memory, free0: set<nat>, free1: set<nat>, pgd: Frame, tp: Tables, free: set<nat>, keys: set<Node>,
                    vmas: seq<Vma>, starved: bool)
    requires pgd in free0 && free1 == free0 - {pgd}
    requires Paid(free1, {Pml4}, free, keys, PathsOf(PresentOf(mem0, tp, PagesOf(vmas))), Visits(mem0, tp, vmas), starved)
    ensures starved <==> |free0| < FramesNeeded(mem0, tp, vmas)
  {
    hide Visits, PresentOf, PagesOf;
    var paths := PathsOf(PresentOf(mem0, tp, PagesOf(vmas)));
    assert paths - {Pml4} == paths;
    assert |free1| == |free0| - 1;
  }

  /** A child with no page is a copy of nothing. */
  lemma CopyStart(mem0: Memory, free0: set<nat>, tp: Tables, mem: Memory, free: set<nat>, tc: Tables)
    requires forall q :: UserQuad(q) ==> Leaf(mem, tc, q) == ZERO
    ensures Copied(mem0, free0, tp, mem, free, tc, {}, false)
    ensures tc.Keys == {Pml4} ==> Paid(free, {Pml4}, free, tc.Keys, PathsOf(PresentOf(mem0, tp, {})), 0, false)
  {
    PaidStart(free, {Pml4});
    assert PathsOf(PresentOf(mem0, tp, {})) == {};
    assert !Present(ZERO);
    forall v | 0 <= v < USER_END ensures !Present(Leaf(mem, tc, Indices(v))) {
      assert UserQuad(Indices(v));
    }
  }
}
