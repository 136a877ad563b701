/** Loading the segments of a program: `vmm_alloc_pages` and `elf_load_segment`, on the machine's memory. Data frames and
    page tables live side by side in it, and what is loaded is stated as the page-table walk finds it. */
module ElfSegments {
  import Words
  import opened ByteStore
  import opened PhysicalMemory
  import opened PageTables
  import opened FrameBudget
  import opened FrameBytes
  import AddressSpace

  const ENOMEM: int := 12
  const EFAULT: int := 14
  const EIO: int := 5
  const USER_PAGES: nat := 0x8_0000_0000

  /** A PT_LOAD segment, load bias already added. */
  datatype Segment = Segment(vaddr: nat, filesz: nat, memsz: nat, offset: nat, pflags: nat)

  /** First page and one past the last page of a segment. */
  function Lo(s: Segment): nat { s.vaddr / 4096 }
  function Hi(s: Segment): nat { (s.vaddr + s.memsz + 4095) / 4096 }

  function PageNo(x: nat): nat { x / 4096 }

  /** The file bytes stay on the segment's own pages; true whenever filesz <= memsz. */
  predicate Fits(s: Segment) { s.vaddr + s.filesz <= 4096 * Hi(s) }

  predicate InUserHalf(s: Segment) { s.vaddr + s.memsz <= USER_END && s.vaddr + s.filesz <= USER_END }

  /** The byte that belongs at address `x` once the file bytes below address `upto` have been copied. */
  function ImageByte(file: seq<Byte>, s: Segment, upto: nat, x: nat): Byte {
    if s.vaddr <= x < upto && s.offset + (x - s.vaddr) < |file| then file[s.offset + (x - s.vaddr)] else 0
  }

  // ---- protection

  /** `elf_load_segment`: PF_X, PF_W and PF_R are bits 0 to 2; VMM_PROT_READ, WRITE, EXEC and USER bits 0 to 3. */
  function ProtOf(pflags: nat): nat {
    8 + (if Words.Bit(pflags, 2) then 1 else 0) + (if Words.Bit(pflags, 1) then 2 else 0) + (if Words.Bit(pflags, 0) then 4 else 0)
  }

  /** `vmm_alloc_pages`: the page flags for a protection. */
  function FlagsOf(prot: nat): Word {
    Word(if Words.Bit(prot, 2) then 0 else NX, 0,
         Or12(Or12(PRESENT, if Words.Bit(prot, 3) then USER else 0), if Words.Bit(prot, 1) then WRITE else 0))
  }

  /** What a leaf word allows. */
  ghost predicate Rights(w: Word, user: bool, write: bool, exec: bool) {
    Words.Bit(w.low, 0) && (Words.Bit(w.low, 2) <==> user) && (Words.Bit(w.low, 1) <==> write) && (Words.Bit(w.high, 11) <==> !exec)
  }

  lemma FlagsAllow(f: Frame, prot: nat)
    ensures Rights(LeafWord(Word(0, f, 0), FlagsOf(prot)), Words.Bit(prot, 3), Words.Bit(prot, 1), Words.Bit(prot, 2))
  {
    hide Words.Bit, Words.Or, Words.And, LeafWord;
    var fl := FlagsOf(prot);
    Masks();
    forall k: nat ensures !Words.Bit(0, k) { Words.BitOfZero(k); }
    forall k: nat ensures
        Words.Bit(fl.low, k) == (k == 0 || (k == 2 && Words.Bit(prot, 3)) || (k == 1 && Words.Bit(prot, 1)))
    {
      var u, w := if Words.Bit(prot, 3) then USER else 0, if Words.Bit(prot, 1) then WRITE else 0;
      Words.BitOfOr(Words.Or(PRESENT, u), w, k);
      Words.BitOfOr(PRESENT, u, k);
      Words.BitOfPow2(0, k);
      Words.BitOfPow2(1, k);
      Words.BitOfPow2(2, k);
    }
    Words.BitOfPow2(11, 11);
    LeafBits(Word(0, f, 0), fl, 0);
    LeafBits(Word(0, f, 0), fl, 1);
    LeafBits(Word(0, f, 0), fl, 2);
    LeafBits(Word(0, f, 0), fl, 11);
  }

  lemma ProtBits(pflags: nat)
    ensures Words.Bit(ProtOf(pflags), 3) && (Words.Bit(ProtOf(pflags), 1) <==> Words.Bit(pflags, 1))
    ensures Words.Bit(ProtOf(pflags), 2) <==> Words.Bit(pflags, 0)
  {
    SmallBits(if Words.Bit(pflags, 2) then 1 else 0, if Words.Bit(pflags, 1) then 1 else 0, if Words.Bit(pflags, 0) then 1 else 0);
  }

  lemma SmallBits(r: nat, w: nat, x: nat)
    requires r < 2 && w < 2 && x < 2
    ensures var p := 8 + r + 2 * w + 4 * x; Words.Bit(p, 3) && (Words.Bit(p, 1) <==> w == 1) && (Words.Bit(p, 2) <==> x == 1)
  {
    var p := 8 + r + 2 * w + 4 * x;
    assert p / 2 == 4 + w + 2 * x && p / 2 / 2 == 2 + x && p / 2 / 2 / 2 == 1;
    assert Words.Bit(p, 1) == Words.Bit(p / 2, 0) && Words.Bit(p, 2) == Words.Bit(p / 2, 1) == Words.Bit(p / 2 / 2, 0);
    assert Words.Bit(p, 3) == Words.Bit(p / 2, 2) == Words.Bit(p / 2 / 2, 1) == Words.Bit(p / 2 / 2 / 2, 0);
  }

  // ---- what a program sees

  /** The byte at user address `x` as the walk of the page tables finds it, or -1 where nothing is mapped. */
  ghost function UserByte(mem: Memory, pgd: Frame, x: nat): int {
    var p := VirtToPhysIn(mem, pgd, x);
    if p == 0 || p / 4096 >= 0x100_0000_0000 then -1 else BytesOf(Load(mem, p / 4096))[p % 4096]
  }

  /** File bytes at [vaddr, vaddr + filesz), zero everywhere else in the mapped pages of the segment. */
  ghost predicate ImageSeen(mem: Memory, pgd: Frame, file: seq<Byte>, s: Segment) {
    forall x :: 4096 * Lo(s) <= x < 4096 * Hi(s) ==>
      UserByte(mem, pgd, x) == -1 || UserByte(mem, pgd, x) == ImageByte(file, s, s.vaddr + s.filesz, x)
  }

  /** Outside the pages from `lo` to `hi` the same translations and the same bytes are found. */
  ghost predicate SameOutside(mem: Memory, mem': Memory, pgd: Frame, lo: nat, hi: nat) {
    forall x :: 0 <= x < USER_END && !(lo <= PageNo(x) < hi) ==> SameSeen(mem, mem', pgd, x)
  }

  ghost predicate SameSeen(mem: Memory, mem': Memory, pgd: Frame, x: nat) {
    var w, w' := PteForVirtIn(mem, pgd, x), PteForVirtIn(mem', pgd, x);
    UserByte(mem', pgd, x) == UserByte(mem, pgd, x) && (Present(w') <==> Present(w)) && (Present(w) ==> w' == w)
  }

  // ---- the map that the page tables stand for

  type Trans = map<nat, Word>

  /** `trans` says of page `g` what a walk of the tables under `pgd` finds. */
  ghost predicate RefinedAt(mem: Memory, pgd: Frame, trans: Trans, g: nat) {
    var w := PteForVirtIn(mem, pgd, 4096 * g);
    (g in trans <==> Present(w)) && (g in trans ==> trans[g] == w)
  }

  ghost predicate Refined(mem: Memory, pgd: Frame, trans: Trans) {
    (forall g :: g in trans ==> g < USER_PAGES) && forall g :: 0 <= g < USER_PAGES ==> RefinedAt(mem, pgd, trans, g)
  }

  /** Mapped frames are neither free nor page tables, and frame 0 is never mapped. */
  ghost predicate Sound(trans: Trans, t: Tables, free: set<nat>) {
    forall g :: g in trans ==> trans[g].frame !in free && trans[g].frame !in t.Values && trans[g].frame != 0
  }

  /** What the walk finds at an address, in terms of the map. */
  lemma WalkIs(mem: Memory, t: Tables, trans: Trans, x: nat)
    requires Tree(mem, t) && Pml4 in t && Refined(mem, t[Pml4], trans) && x < USER_END
    ensures VirtToPhysIn(mem, t[Pml4], x) == if PageNo(x) in trans then trans[PageNo(x)].frame * 4096 + x % 4096 else 0
    ensures var w := PteForVirtIn(mem, t[Pml4], x); (PageNo(x) in trans <==> Present(w)) && (Present(w) ==> w == trans[PageNo(x)])
  {
    hide Tree, PteForVirtIn, VirtToPhysIn;
    WalkersReadLeaf(mem, t, x);
    WalkersReadLeaf(mem, t, 4096 * PageNo(x));
    IndicesOfPage(x, 4096 * PageNo(x));
    assert RefinedAt(mem, t[Pml4], trans, PageNo(x));
  }

  lemma ByteIs(mem: Memory, t: Tables, trans: Trans, x: nat)
    requires Tree(mem, t) && Pml4 in t && Refined(mem, t[Pml4], trans) && x < USER_END
    requires PageNo(x) in trans ==> trans[PageNo(x)].frame != 0
    ensures UserByte(mem, t[Pml4], x) == if PageNo(x) in trans then BytesOf(Load(mem, trans[PageNo(x)].frame))[x % 4096] else -1
  {
    hide Tree, PteForVirtIn, VirtToPhysIn, Refined, BytesOf;
    WalkIs(mem, t, trans, x);
    if PageNo(x) in trans { Quotients(trans[PageNo(x)].frame, x % 4096); }
  }

  lemma Quotients(f: nat, o: nat)
    requires o < 4096
    ensures (f * 4096 + o) / 4096 == f && (f * 4096 + o) % 4096 == o
  {
  }

  /** Storing into a data frame leaves tables and translations alone. */
  lemma StoreApart(mem: Memory, t: Tables, trans: Trans, f: Frame, page: Page)
    requires Tree(mem, t) && Pml4 in t && Refined(mem, t[Pml4], trans) && f !in t.Values
    ensures Tree(mem[f := page], t) && Refined(mem[f := page], t[Pml4], trans)
  {
    hide Tree, PteForVirtIn, VirtToPhysIn, Leaf, SameLeaves;
    var mem' := mem[f := page];
    TreeApart(mem, t, f, page);
    forall g | 0 <= g < USER_PAGES ensures RefinedAt(mem', t[Pml4], trans, g) {
      assert RefinedAt(mem, t[Pml4], trans, g);
      WalkersReadLeaf(mem, t, 4096 * g);
      WalkersReadLeaf(mem', t, 4096 * g);
      SameLeafAt(mem, t, mem', t, 4096 * g);
    }
  }

  lemma SameLeafAt(mem: Memory, t: Tables, mem': Memory, t': Tables, v: nat)
    requires SameLeaves(mem, t, mem', t') && v < USER_END
    ensures Leaf(mem', t', Indices(v)) == Leaf(mem, t, Indices(v))
  {
    assert UserQuad(Indices(v));
  }

  /** How many tables on the way to page `g` are missing: 0 to 3. */
  ghost function Wants(t: Tables, g: nat): nat {
    |Path(Indices(4096 * g)) - t.Keys|
  }

  /** The pages from `lo` to `hi` that are mapped, page 0 aside, carry the flags. */
  ghost predicate Carry(trans: Trans, lo: nat, hi: nat, flags: Word) {
    forall g :: lo <= g < hi && g != 0 && g in trans ==> trans[g] == LeafWord(Word(0, trans[g].frame, 0), flags)
  }

  /** `vmm_map_page` on a user page: the map is updated at one page, exactly when the missing tables can be had; page 0 is
      refused; no frame is written but tables. */
  method MapInTables(m: Machine, pgd: Frame, g: nat, f: Frame, flags: Word, ghost t: Tables, ghost trans: Trans)
    returns (ghost t': Tables, ghost trans': Trans)
    requires Owned(m, t) && Pml4 in t && pgd == t[Pml4] && g < USER_PAGES && Refined(m.mem, pgd, trans)
    modifies m`mem, m.bitmap
    ensures Owned(m, t') && Pml4 in t' && t'[Pml4] == pgd && Refined(m.mem, pgd, trans')
    ensures Grown(old(m.mem), old(m.Free()), t, m.mem, m.Free(), t') && (Open(old(m.mem), t) ==> Open(m.mem, t'))
    ensures trans' == if g != 0 && Wants(t, g) <= |old(m.Free())| then trans[g := LeafWord(Word(0, f, 0), flags)] else trans
    ensures g != 0 && Wants(t, g) > |old(m.Free())| ==> g !in trans
    ensures g == 0 ==> t' == t && m.Free() == old(m.Free())
    ensures g != 0 ==> Counted(t, old(m.Free()), t', m.Free(), Path(Indices(4096 * g)), Wants(t, g) <= |old(m.Free())|)
  {
    hide Tree, PteForVirtIn, VirtToPhysIn, FreeSet, Mapped, SameLeaves, LeafWord, Counted, Path, Grown, Present, Open, Flagged, Passes;
    LeafIsPresent(Word(0, f, 0), flags);
    ghost var mapped, mem0 := false, m.mem;
    mapped, t' := MapPageInPgd(m, pgd, 4096 * g, Word(0, f, 0), flags, t);
    trans' := if mapped then trans[g := LeafWord(Word(0, f, 0), flags)] else trans;
    forall h | 0 <= h < USER_PAGES ensures RefinedAt(m.mem, pgd, trans', h) {
      assert RefinedAt(mem0, pgd, trans, h);
      assert 4096 * h / 4096 == h && 4096 * g / 4096 == g;
    }
    assert RefinedAt(mem0, pgd, trans, g);
  }

  // ---- how many frames a range of pages takes

  ghost function Addrs(lo: nat, hi: nat): set<nat> {
    set g | lo <= g < hi :: 4096 * g
  }

  /** The tables that pages `lo` to `hi` still want. */
  ghost function TablesMissing(t: Tables, lo: nat, hi: nat): nat {
    Extra(PathsOf(Addrs(lo, hi)), t.Keys)
  }

  lemma AddrsMore(lo: nat, hi: nat)
    requires lo <= hi
    ensures PathsOf(Addrs(lo, hi + 1)) == PathsOf(Addrs(lo, hi)) + PathTo(4096 * hi)
  {
    assert Addrs(lo, hi + 1) == Addrs(lo, hi) + {4096 * hi};
    PathsOfMore(Addrs(lo, hi), 4096 * hi);
  }

  lemma PathToIs(v: nat)
    ensures PathTo(v) == if v == 0 then {} else Path(Indices(v))
  {
  }

  lemma NoAddrs(lo: nat)
    ensures PathsOf(Addrs(lo, lo)) == {}
  {
    assert Addrs(lo, lo) == {};
  }

  lemma {:induction false} MissingGrows(t: Tables, lo: nat, a: nat, b: nat)
    requires lo <= a <= b
    ensures TablesMissing(t, lo, a) <= TablesMissing(t, lo, b)
    decreases b - a
  {
    hide Addrs, PathsOf, PathTo, Extra;
    if a < b {
      AddrsMore(lo, a);
      Grows(PathsOf(Addrs(lo, a)), PathTo(4096 * a), t.Keys);
      MissingGrows(t, lo, a + 1, b);
    }
  }

  /** The state of the allocation loop before page `g`: all pages so far are mapped and paid for, or the last one is not
      and nothing is left. */
  ghost predicate Progress(free0: set<nat>, t0: Tables, free: set<nat>, t: Tables, dom: set<nat>, lo: nat, g: nat, starved: bool) {
    lo <= g && Paid(free0, t0.Keys, free, t.Keys, PathsOf(Addrs(lo, g)), g - lo, starved) &&
    (lo < g ==> g - lo + TablesMissing(t0, lo, g - 1) <= |free0|) &&
    (starved ==> lo < g && g - 1 !in dom) &&
    forall h :: lo <= h < (if starved then g - 1 else g) && h != 0 ==> h in dom
  }

  lemma ProgressStart(free: set<nat>, t: Tables, dom: set<nat>, lo: nat)
    ensures Progress(free, t, free, t, dom, lo, lo, false)
  {
    NoAddrs(lo);
    PaidStart(free, t.Keys);
  }

  /** A page that got its frame. */
  lemma ProgressStep(free0: set<nat>, t0: Tables, free: set<nat>, t: Tables, dom: set<nat>, lo: nat, g: nat, starved: bool,
                     f: Frame, free2: set<nat>, t2: Tables, dom2: set<nat>, mapped: bool)
    requires Progress(free0, t0, free, t, dom, lo, g, starved) && lo <= g && f in free
    requires if g == 0 then t2 == t && free2 == free - {f} && dom2 == dom && mapped
             else Counted(t, free - {f}, t2, free2, Path(Indices(4096 * g)), mapped)
    requires g != 0 && mapped ==> dom2 == dom + {g}
    requires !mapped ==> dom2 == dom && g !in dom
    ensures Progress(free0, t0, free2, t2, dom2, lo, g + 1, !mapped)
  {
    hide Path, Counted, PathsOf, Paid, Addrs, Extra, PathTo, Indices;
    var paths := PathsOf(Addrs(lo, g));
    PaidLive(free0, t0.Keys, free, t.Keys, paths, g - lo, starved, f);
    PaidNext(free0, t0.Keys, free, t, paths, lo, g, f, free2, t2, mapped);
    assert TablesMissing(t0, lo, g) == Extra(paths, t0.Keys);
  }

  lemma PaidNext(free0: set<nat>, base: set<Node>, free: set<nat>, t: Tables, paths: set<Node>, lo: nat, g: nat,
                 f: Frame, free2: set<nat>, t2: Tables, mapped: bool)
    requires lo <= g && Paid(free0, base, free, t.Keys, paths, g - lo, false) && f in free && paths == PathsOf(Addrs(lo, g))
    requires if g == 0 then t2 == t && free2 == free - {f} && mapped
             else Counted(t, free - {f}, t2, free2, Path(Indices(4096 * g)), mapped)
    ensures Paid(free0, base, free2, t2.Keys, PathsOf(Addrs(lo, g + 1)), g + 1 - lo, !mapped)
  {
    hide Path, Counted, PathsOf, Paid, Addrs, Extra, PathTo, Indices;
    AddrsMore(lo, g);
    PathToIs(4096 * g);
    if g == 0 {
      PaidLeak(free0, base, free, t.Keys, paths, g - lo, f);
      assert paths + {} == paths;
    } else {
      PaidPage(free0, base, free, t, paths, g - lo, f, free2, t2, PathTo(4096 * g), mapped);
    }
  }

  /** While a frame is left nothing was refused, and the account leaves room for it. */
  lemma PaidLive(free0: set<nat>, base: set<Node>, free: set<nat>, keys: set<Node>, paths: set<Node>, visits: nat, starved: bool, f: nat)
    requires Paid(free0, base, free, keys, paths, visits, starved) && f in free
    ensures !starved && visits + 1 + Extra(paths, base) <= |free0|
  {
    hide Extra;
    assert |free| >= 1 by { assert free == (free - {f}) + {f}; }
  }

  /** A page that gets none ends the loop, exactly when there were too few frames for the pages and all tables but those of
      the last page. */
  lemma ProgressFail(free0: set<nat>, t0: Tables, t: Tables, dom: set<nat>, lo: nat, g: nat, hi: nat, starved: bool)
    requires Progress(free0, t0, {}, t, dom, lo, g, starved) && lo <= g < hi
    ensures hi - lo + TablesMissing(t0, lo, hi - 1) > |free0|
  {
    hide PathsOf, Addrs, Extra;
    MissingGrows(t0, lo, g, hi - 1);
  }

  lemma ProgressEnd(free0: set<nat>, t0: Tables, free: set<nat>, t: Tables, dom: set<nat>, lo: nat, hi: nat, starved: bool)
    requires Progress(free0, t0, free, t, dom, lo, hi, starved) && 0 < lo <= hi
    ensures lo == hi || hi - lo + TablesMissing(t0, lo, hi - 1) <= |free0|
    ensures (forall g :: lo <= g < hi ==> g in dom) <==> hi - lo + TablesMissing(t0, lo, hi) <= |free0|
    ensures forall g :: lo <= g < hi - 1 ==> g in dom
  {
    hide PathsOf, Addrs, Extra;
    PaidMeans(free0, t0.Keys, free, t.Keys, PathsOf(Addrs(lo, hi)), hi - lo, starved);
  }

  // ---- frames under a range of pages

  /** The pages from `lo` to `hi` use frames of `fr` only, each its own; the other pages use none of them. */
  ghost predicate Apart(trans: Trans, lo: nat, hi: nat, fr: set<nat>) {
    (forall g :: g in trans ==> (lo <= g < hi <==> trans[g].frame in fr)) &&
    (forall g, h :: g in trans && h in trans && lo <= g < hi && lo <= h < hi && g != h ==> trans[g].frame != trans[h].frame)
  }

  /** Outside `lo..hi` nothing has changed, translations and bytes alike. */
  ghost predicate Elsewhere(trans: Trans, mem: Memory, trans': Trans, mem': Memory, lo: nat, hi: nat) {
    forall g :: !(lo <= g < hi) ==>
      (g in trans <==> g in trans') && (g in trans ==> trans'[g] == trans[g] && Load(mem', trans[g].frame) == Load(mem, trans[g].frame))
  }

  /** Frames outside `fr` hold what they held. */
  ghost predicate FramesKept(mem: Memory, mem': Memory, fr: set<nat>) {
    forall f: Frame :: f !in fr ==> Load(mem', f) == Load(mem, f)
  }

  /** Every mapped page from `lo` to `hi` shows the image. */
  ghost predicate Shows(trans: Trans, mem: Memory, lo: nat, hi: nat, file: seq<Byte>, s: Segment, upto: nat) {
    forall g :: lo <= g < hi && g in trans ==> ShowsPage(BytesOf(Load(mem, trans[g].frame)), g, file, s, upto)
  }

  ghost predicate ShowsPage(page: seq<Byte>, g: nat, file: seq<Byte>, s: Segment, upto: nat) {
    |page| == 4096 && forall o :: 0 <= o < 4096 ==> page[o] == ImageByte(file, s, upto, 4096 * g + o)
  }

  /** `vfs_read` of at most `chunk` bytes at `pos`: any short read, end of file or error. */
  method VfsRead(file: seq<Byte>, pos: nat, chunk: nat) returns (n: int)
    ensures n <= chunk && (n > 0 ==> pos + n <= |file|)
  {
    assert 0 <= chunk;
    n :| n <= chunk && (n > 0 ==> pos + n <= |file|);
  }

  /** The address space being filled: the machine and the root in CR3. */
  class Space {
    const m: Machine
    const pgd: Frame
    ghost var t: Tables
    ghost var trans: Trans

    ghost predicate Valid()
      reads this, m, m.bitmap
    {
      Owned(m, t) && Pml4 in t && t[Pml4] == pgd && Open(m.mem, t) && Refined(m.mem, pgd, trans) && Sound(trans, t, m.Free())
    }

    constructor (m: Machine, pgd: Frame, ghost t: Tables, ghost trans: Trans)
      requires Owned(m, t) && Pml4 in t && t[Pml4] == pgd && Open(m.mem, t) && Refined(m.mem, pgd, trans) && Sound(trans, t, m.Free())
      ensures Valid() && this.m == m && this.pgd == pgd && this.t == t && this.trans == trans
    {
      this.m, this.pgd, this.t, this.trans := m, pgd, t, trans;
    }

    /** `vmm_map_page`: the page is mapped exactly when the tables missing on its way can be had, and page 0 is refused;
        nothing is reported either way. */
    method MapPage(g: nat, f: Frame, flags: Word)
      requires Valid() && g < USER_PAGES && f != 0 && f !in m.Free() && f !in t.Values
      modifies this`t, this`trans, m`mem, m.bitmap
      ensures Valid() && m.Free() <= old(m.Free()) && f !in m.Free()
      ensures trans == if g != 0 && Wants(old(t), g) <= |old(m.Free())| then old(trans)[g := LeafWord(Word(0, f, 0), flags)] else old(trans)
      ensures g != 0 && Wants(old(t), g) > |old(m.Free())| ==> g !in old(trans)
      ensures g == 0 ==> t == old(t) && m.Free() == old(m.Free())
      ensures g != 0 ==> Counted(old(t), old(m.Free()), t, m.Free(), Path(Indices(4096 * g)), Wants(old(t), g) <= |old(m.Free())|)
      ensures Elsewhere(old(trans), old(m.mem), trans, m.mem, g, g + 1)
    {
      hide Tree, Open, PteForVirtIn, VirtToPhysIn, FreeSet, Refined, Grown, Path, Counted, Wants, LeafWord, Present, Elsewhere, Sound, Indices;
      LeafFrame(f, flags);
      ghost var mem0, free0, t0, trans0 := m.mem, m.Free(), t, trans;
      t, trans := MapInTables(m, pgd, g, f, flags, t, trans);
      MappedOne(mem0, free0, t0, trans0, m.mem, m.Free(), t, trans, f, g, LeafWord(Word(0, f, 0), flags),
                g != 0 && Wants(t0, g) <= |free0|);
    }

    /** One page of `vmm_alloc_pages`. */
    method AllocOne(g: nat, flags: Word, ghost free0: set<nat>, ghost t0: Tables, ghost lo: nat, ghost starved: bool)
      returns (ok: bool, ghost starved': bool)
      requires Valid() && lo <= g < USER_PAGES && Progress(free0, t0, m.Free(), t, trans.Keys, lo, g, starved)
      modifies this`t, this`trans, m`mem, m.bitmap
      ensures Valid() && m.Free() <= old(m.Free())
      ensures ok <==> old(m.Free()) != {}
      ensures !ok ==> m.Free() == {} && t == old(t) && trans == old(trans) && m.mem == old(m.mem)
      ensures ok ==> Progress(free0, t0, m.Free(), t, trans.Keys, lo, g + 1, starved')
      ensures Elsewhere(old(trans), old(m.mem), trans, m.mem, g, g + 1)
      ensures ok && g != 0 && g in trans ==> trans[g].frame in old(m.Free()) && trans[g].frame !in m.Free()
      ensures ok ==> Carry(trans, g, g + 1, flags)
    {
      hide Tree, Open, PteForVirtIn, VirtToPhysIn, FreeSet, Progress, Refined, Path, Counted, Wants, LeafWord, Present, Elsewhere, Indices;
      starved' := starved;
      ElsewhereSame(trans, m.mem, g, g + 1);
      var f := m.AllocPage();
      ok := f != 0;
      if !ok { return; }
      LeafFrame(f, flags);
      ghost var free1, t1, trans1 := m.Free(), t, trans;
      MapPage(g, f, flags);
      starved' := g != 0 && Wants(t1, g) > |free1|;
      ProgressStep(free0, t0, old(m.Free()), t1, trans1.Keys, lo, g, starved, f, m.Free(), t, trans.Keys, !starved');
    }

    /** `vmm_alloc_pages` on whole pages: the address, or 0. It reports success exactly when there are frames for all pages
        and all tables but those of the last page; the last page is mapped exactly when there are frames for these too. */
    method AllocPages(lo: nat, hi: nat, prot: nat) returns (r: nat)
      requires Valid() && lo <= hi <= USER_PAGES
      modifies this`t, this`trans, m`mem, m.bitmap
      ensures Valid() && m.Free() <= old(m.Free())
      ensures r == 0 || r == 4096 * lo
      ensures Elsewhere(old(trans), old(m.mem), trans, m.mem, lo, hi)
      ensures lo > 0 ==> (r != 0 <==> lo == hi || hi - lo + TablesMissing(old(t), lo, hi - 1) <= |old(m.Free())|)
      ensures r != 0 ==> ((forall g :: lo <= g < hi ==> g in trans) <==> hi - lo + TablesMissing(old(t), lo, hi) <= |old(m.Free())|)
      ensures r != 0 ==> forall g :: lo <= g < hi - 1 ==> g in trans
      ensures r != 0 ==> Apart(trans, lo, hi, old(m.Free()) - m.Free())
      ensures r != 0 ==> Carry(trans, lo, hi, FlagsOf(prot))
    {
      hide Tree, Open, PteForVirtIn, VirtToPhysIn, FreeSet, Progress, Refined, Elsewhere, Fresh, Apart, TablesMissing, Sound, Carry, FlagsOf;
      ElsewhereSame(trans, m.mem, lo, hi);
      CarryNone(trans, lo, FlagsOf(prot));
      var flags := FlagsOf(prot);
      ghost var free0, t0, starved := m.Free(), t, false;
      ProgressStart(free0, t0, trans.Keys, lo);
      var g := lo;
      while g < hi
        invariant lo <= g <= hi && Valid() && m.Free() <= free0
        invariant Progress(free0, t0, m.Free(), t, trans.Keys, lo, g, starved)
        invariant Elsewhere(old(trans), old(m.mem), trans, m.mem, lo, hi) && Fresh(trans, lo, g, free0, m.Free())
        invariant Carry(trans, lo, g, flags)
      {
        ghost var trans1, mem1, free1, st1 := trans, m.mem, m.Free(), starved;
        var ok;
        ok, starved := AllocOne(g, flags, free0, t0, lo, starved);
        ElsewhereJoin(old(trans), old(m.mem), trans1, mem1, trans, m.mem, lo, hi, g);
        if !ok {
          ProgressFail(free0, t0, t, trans.Keys, lo, g, hi, st1);
          return 0;
        }
        FreshStep(trans1, mem1, trans, m.mem, lo, g, free0, free1, m.Free());
        CarryMore(trans1, mem1, trans, m.mem, lo, g, flags);
        g := g + 1;
      }
      if lo > 0 {
        ProgressEnd(free0, t0, m.Free(), t, trans.Keys, lo, hi, starved);
        FreshApart(old(trans), old(m.mem), t0, trans, m.mem, lo, hi, free0, m.Free());
      }
      r := 4096 * lo;
    }

    /** A store into a data frame, through the kernel's alias of physical memory. */
    method WriteFrame(f: Frame, page: Page)
      requires Valid() && f !in t.Values
      modifies m`mem
      ensures Valid() && m.mem == old(m.mem)[f := page] && m.Free() == old(m.Free())
    {
      hide Tree, Open, PteForVirtIn, VirtToPhysIn, FreeSet, Refined, Sound;
      StoreApart(m.mem, t, trans, f, page);
      OpenApart(m.mem, t, f, page);
      m.mem := m.mem[f := page];
    }

    /** `vmm_user_virt_to_phys` of a page: 0, or the page's frame. */
    method PhysOf(g: nat) returns (phys: nat)
      requires Valid() && g < USER_PAGES
      ensures phys == VirtToPhysIn(m.mem, pgd, 4096 * g)
      ensures phys == if g in trans then 4096 * trans[g].frame else 0
      ensures phys != 0 <==> g in trans
    {
      hide Tree, Open, PteForVirtIn, VirtToPhysIn, FreeSet, Refined;
      WalkIs(m.mem, t, trans, 4096 * g);
      assert 4096 * g / 4096 == g && 4096 * g % 4096 == 0;
      phys := VirtToPhysIn(m.mem, pgd, 4096 * g);
    }

    /** The zeroing loop of `elf_load_segment`, through the frames. */
    method ZeroPages(lo: nat, hi: nat, ghost fr: set<nat>)
      requires Valid() && lo <= hi <= USER_PAGES && Apart(trans, lo, hi, fr)
      modifies m`mem
      ensures Valid() && FramesKept(old(m.mem), m.mem, fr) && m.Free() == old(m.Free())
      ensures forall g :: lo <= g < hi && g in trans ==> Load(m.mem, trans[g].frame) == ZeroWords()
    {
      hide Tree, Open, PteForVirtIn, VirtToPhysIn, FreeSet, Refined, ZeroWords;
      var g := lo;
      while g < hi
        modifies m`mem
        invariant lo <= g <= hi && Valid() && FramesKept(old(m.mem), m.mem, fr) && m.Free() == old(m.Free())
        invariant forall h :: lo <= h < g && h in trans ==> Load(m.mem, trans[h].frame) == ZeroWords()
      {
        var phys := PhysOf(g);
        if phys != 0 { WriteFrame(phys / 4096, ZeroWords()); }
        g := g + 1;
      }
    }

    /** The copy loop of `elf_load_segment`: page by page, however short the reads. 0 is success. */
    method CopyFile(file: seq<Byte>, s: Segment, ghost fr: set<nat>) returns (err: int)
      requires Valid() && InUserHalf(s) && Apart(trans, Lo(s), Hi(s), fr)
      requires Shows(trans, m.mem, Lo(s), Hi(s), file, s, s.vaddr)
      modifies m`mem
      ensures Valid() && err <= 0 && m.Free() == old(m.Free())
      ensures err == 0 ==> s.filesz == 0 || s.offset + s.filesz <= |file|
      ensures err == 0 ==> forall x :: s.vaddr <= x < s.vaddr + s.filesz ==> PageNo(x) in trans
      // provided the file bytes stay on the segment's pages
      ensures Fits(s) ==> FramesKept(old(m.mem), m.mem, fr)
      ensures Fits(s) && err == 0 ==> Shows(trans, m.mem, Lo(s), Hi(s), file, s, s.vaddr + s.filesz)
      // in any case the last file byte is where it was sent
      ensures err == 0 && s.filesz > 0 ==> WrittenAt(trans, m.mem, s.vaddr + s.filesz - 1, file, s.offset + s.filesz - 1)
    {
      hide Tree, Open, PteForVirtIn, VirtToPhysIn, FreeSet, Refined, ShowsPage, Shows, FramesKept, BytesOf, PageOf, Apart, WrittenAt;
      KeptSame(m.mem, fr);
      var cv, remaining, pos := s.vaddr, s.filesz, s.offset;
      while remaining > 0
        modifies m`mem
        invariant s.vaddr <= cv && remaining >= 0 && cv + remaining == s.vaddr + s.filesz && pos == s.offset + (cv - s.vaddr)
        invariant cv > s.vaddr ==> pos <= |file|
        invariant Valid() && m.Free() == old(m.Free())
        invariant Fits(s) ==> FramesKept(old(m.mem), m.mem, fr) && Shows(trans, m.mem, Lo(s), Hi(s), file, s, cv)
        invariant forall x :: s.vaddr <= x < cv ==> PageNo(x) in trans
        invariant cv > s.vaddr ==> WrittenAt(trans, m.mem, cv - 1, file, pos - 1)
      {
        var g, off := cv / 4096, cv % 4096;
        var chunk := if remaining < 4096 - off then remaining else 4096 - off;
        var phys := PhysOf(g);
        if phys == 0 { return -EFAULT; }
        var n := VfsRead(file, pos, chunk);
        if n <= 0 { return if n < 0 then n else -EIO; }
        var f: Frame := phys / 4096;
        ghost var mem1 := m.mem;
        var page := PageOf(Put(BytesOf(Load(m.mem, f)), off, file[pos..pos + n]));
        if Fits(s) { ShowsMore(trans, mem1, old(m.mem), file, s, fr, cv, n); }
        LastWritten(trans, mem1, cv, n, file, pos);
        WriteFrame(f, page);
        SamePage(cv, n);
        cv, remaining, pos := cv + n, remaining - n, pos + n;
      }
      err := 0;
    }

    /** `elf_load_segment`: 0 is success. Everything is stated as a walk of the page tables finds it. */
    method LoadSegment(file: seq<Byte>, s: Segment) returns (err: int)
      requires Valid() && InUserHalf(s)
      modifies this`t, this`trans, m`mem, m.bitmap
      ensures Valid() && err <= 0 && m.Free() <= old(m.Free())
      // nothing outside the segment's pages is touched, whatever the outcome
      ensures Fits(s) ==> SameOutside(old(m.mem), m.mem, pgd, Lo(s), Hi(s))
      // success: the image is seen, its file bytes are mapped, and so is every page while there are frames for its tables
      ensures err == 0 && s.memsz > 0 && Fits(s) ==> ImageSeen(m.mem, pgd, file, s)
      ensures err == 0 && s.memsz > 0 ==> s.filesz == 0 || s.offset + s.filesz <= |file|
      ensures err == 0 && s.memsz > 0 ==> forall x :: s.vaddr <= x < s.vaddr + s.filesz ==> UserByte(m.mem, pgd, x) != -1
      ensures err == 0 && s.memsz > 0 ==>
                ((forall x :: 4096 * Lo(s) <= x < 4096 * Hi(s) ==> UserByte(m.mem, pgd, x) != -1) <==>
                 Hi(s) - Lo(s) + TablesMissing(old(t), Lo(s), Hi(s)) <= |old(m.Free())|)
      ensures err == 0 && Hi(s) - Lo(s) + TablesMissing(old(t), Lo(s), Hi(s)) <= |old(m.Free())| ==>
                forall x :: s.vaddr <= x < s.vaddr + s.memsz ==> UserByte(m.mem, pgd, x) != -1
      // its pages are open to user mode, writable exactly with PF_W and executable exactly with PF_X
      ensures err == 0 && s.memsz > 0 ==> RightsSeen(m.mem, pgd, s)
      ensures AddressSpace.Reachable(m.mem, pgd)
      ensures s.memsz > 0 && (Lo(s) == 0 || Hi(s) - Lo(s) + TablesMissing(old(t), Lo(s), Hi(s) - 1) > |old(m.Free())|) ==> err == -ENOMEM
      // file bytes beyond the segment's pages go onto whatever page is mapped there
      ensures err == 0 && s.memsz > 0 && !Fits(s) ==> Overrun(old(m.mem), m.mem, pgd, file, s)
    {
      hide Tree, Open, PteForVirtIn, VirtToPhysIn, FreeSet, Refined, ShowsPage, Shows, FramesKept, Apart, Elsewhere, SameOutside, ImageSeen,
           UserByte, TablesMissing, Sound, WrittenAt, Overrun, Carry, FlagsOf, RightsSeen, AddressSpace.Reachable;
      ghost var mem0, t0, trans0, free0 := m.mem, t, trans, m.Free();
      ElsewhereSame(trans, m.mem, Lo(s), Hi(s));
      if s.memsz == 0 {
        SeenOutside(mem0, t0, trans0, m.mem, t, trans, free0, m.Free(), Lo(s), Hi(s));
        AddressSpace.OpenReaches(m.mem, t);
        return 0;
      }
      PagesOfSegment(s);
      var r := AllocPages(Lo(s), Hi(s), ProtOf(s.pflags));
      if r == 0 {
        SeenOutside(mem0, t0, trans0, m.mem, t, trans, free0, m.Free(), Lo(s), Hi(s));
        AddressSpace.OpenReaches(m.mem, t);
        return -ENOMEM;
      }
      ghost var mem1, fr := m.mem, free0 - m.Free();
      ZeroPages(Lo(s), Hi(s), fr);
      ZeroShows(trans, m.mem, Lo(s), Hi(s), file, s);
      ghost var mem2 := m.mem;
      err := CopyFile(file, s, fr);
      if Fits(s) {
        KeptElsewhere(trans0, mem0, trans, mem1, mem2, m.mem, Lo(s), Hi(s), fr);
        SeenOutside(mem0, t0, trans0, m.mem, t, trans, free0, m.Free(), Lo(s), Hi(s));
        if err == 0 { SeenInside(m.mem, t, trans, m.Free(), file, s); }
      }
      MappedSeen(m.mem, t, trans, m.Free(), s);
      SeenRights(m.mem, t, trans, s);
      AddressSpace.OpenReaches(m.mem, t);
      if err == 0 && !Fits(s) {
        SeenOverrun(mem0, t0, trans0, free0, mem1, m.mem, t, trans, m.Free(), file, s);
      }
    }

    /** The loop of execve over the PT_LOAD segments: segments on disjoint pages load as the union of their images. */
    method LoadAll(file: seq<Byte>, segs: seq<Segment>) returns (err: int)
      requires Valid()
      requires forall i :: 0 <= i < |segs| ==> InUserHalf(segs[i])
      requires DisjointPages(segs)
      modifies this`t, this`trans, m`mem, m.bitmap
      ensures Valid() && err <= 0
      ensures AddressSpace.Reachable(m.mem, pgd)
      ensures AllFit(segs) && err == 0 ==> forall i :: 0 <= i < |segs| ==> Loaded(m.mem, pgd, file, segs[i])
      ensures AllFit(segs) ==> forall x :: 0 <= x < USER_END && OnNoPage(segs, x) ==> SameSeen(old(m.mem), m.mem, pgd, x)
    {
      hide Tree, Open, PteForVirtIn, VirtToPhysIn, FreeSet, Refined, Sound, UserByte, ImageSeen, TablesMissing, Loaded, SameSeen, OnNoPage, RightsSeen, AddressSpace.Reachable;
      SameSeenSelf(m.mem, pgd);
      AddressSpace.OpenReaches(m.mem, t);
      var i := 0;
      while i < |segs|
        invariant 0 <= i <= |segs| && Valid() && AddressSpace.Reachable(m.mem, pgd)
        invariant AllFit(segs) ==> forall j :: 0 <= j < i ==> Loaded(m.mem, pgd, file, segs[j])
        invariant AllFit(segs) ==> forall x :: 0 <= x < USER_END && OnNoPage(segs, x) ==> SameSeen(old(m.mem), m.mem, pgd, x)
      {
        ghost var mem1 := m.mem;
        err := LoadSegment(file, segs[i]);
        if AllFit(segs) {
          forall x | 0 <= x < USER_END && OnNoPage(segs, x) ensures SameSeen(old(m.mem), m.mem, pgd, x) {
            NotOn(segs, i, x);
            SameSeenJoin(old(m.mem), mem1, m.mem, pgd, x);
          }
        }
        if err < 0 { return; }
        if AllFit(segs) {
          forall j | 0 <= j < i ensures Loaded(m.mem, pgd, file, segs[j]) {
            LoadedKept(mem1, m.mem, pgd, file, segs[j], segs[i]);
          }
          LoadedNow(m.mem, pgd, file, segs[i]);
        }
        i := i + 1;
      }
      err := 0;
    }
  }

  /** Every page of the segment that is mapped allows what its header asks for. */
  ghost predicate RightsSeen(mem: Memory, pgd: Frame, s: Segment) {
    forall x :: 4096 * Lo(s) <= x < 4096 * Hi(s) && Present(PteForVirtIn(mem, pgd, x)) ==>
      Rights(PteForVirtIn(mem, pgd, x), true, Words.Bit(s.pflags, 1), Words.Bit(s.pflags, 0))
  }

  lemma SeenRights(mem: Memory, t: Tables, trans: Trans, s: Segment)
    requires Tree(mem, t) && Pml4 in t && Refined(mem, t[Pml4], trans) && Lo(s) > 0 && InUserHalf(s) && s.memsz > 0
    requires Carry(trans, Lo(s), Hi(s), FlagsOf(ProtOf(s.pflags)))
    ensures RightsSeen(mem, t[Pml4], s)
  {
    hide Tree, Open, PteForVirtIn, VirtToPhysIn, Refined, Rights, FlagsOf, ProtOf, LeafWord, Passes, Words.Bit;
    PagesOfSegment(s);
    ProtBits(s.pflags);
    forall x | 4096 * Lo(s) <= x < 4096 * Hi(s) && Present(PteForVirtIn(mem, t[Pml4], x))
      ensures Rights(PteForVirtIn(mem, t[Pml4], x), true, Words.Bit(s.pflags, 1), Words.Bit(s.pflags, 0))
    {
      WalkIs(mem, t, trans, x);
      FlagsAllow(trans[PageNo(x)].frame, ProtOf(s.pflags));
    }
  }

  /** The byte of user address `x` is `file[k]`. */
  ghost predicate WrittenAt(trans: Trans, mem: Memory, x: nat, file: seq<Byte>, k: nat) {
    PageNo(x) in trans && k < |file| && BytesOf(Load(mem, trans[PageNo(x)].frame))[x % 4096] == file[k]
  }

  lemma LastWritten(trans: Trans, mem: Memory, cv: nat, n: nat, file: seq<Byte>, pos: nat)
    requires cv / 4096 in trans && 0 < n && cv % 4096 + n <= 4096 && pos + n <= |file|
    ensures var f := trans[cv / 4096].frame;
            WrittenAt(trans, mem[f := PageOf(Put(BytesOf(Load(mem, f)), cv % 4096, file[pos..pos + n]))], cv + n - 1, file, pos + n - 1)
  {
    hide BytesOf, PageOf;
    var bytes := Put(BytesOf(Load(mem, trans[cv / 4096].frame)), cv % 4096, file[pos..pos + n]);
    BytesOfPageOf(bytes);
    assert PageNo(cv + n - 1) == cv / 4096 && (cv + n - 1) % 4096 == cv % 4096 + n - 1;
  }

  /** A byte of the file stands on a page past the segment's, which was mapped for something else. */
  ghost predicate Overrun(mem: Memory, mem': Memory, pgd: Frame, file: seq<Byte>, s: Segment) {
    var x := s.vaddr + s.filesz - 1;
    0 <= x && PageNo(x) >= Hi(s) && UserByte(mem, pgd, x) != -1 && 0 < s.offset + s.filesz <= |file| &&
    UserByte(mem', pgd, x) == file[s.offset + s.filesz - 1]
  }

  lemma SeenOverrun(mem: Memory, t: Tables, trans: Trans, free: set<nat>, mem1: Memory, mem': Memory, t': Tables, trans': Trans, free': set<nat>,
                    file: seq<Byte>, s: Segment)
    requires Tree(mem, t) && Pml4 in t && Refined(mem, t[Pml4], trans) && Sound(trans, t, free)
    requires Tree(mem', t') && Pml4 in t' && t'[Pml4] == t[Pml4] && Refined(mem', t'[Pml4], trans') && Sound(trans', t', free')
    requires Elsewhere(trans, mem, trans', mem1, Lo(s), Hi(s)) && InUserHalf(s) && !Fits(s)
    requires s.filesz > 0 ==> WrittenAt(trans', mem', s.vaddr + s.filesz - 1, file, s.offset + s.filesz - 1)
    ensures Overrun(mem, mem', t[Pml4], file, s)
  {
    hide Tree, Open, PteForVirtIn, VirtToPhysIn, Refined, UserByte, BytesOf;
    assert s.filesz > 0;
    var x := s.vaddr + s.filesz - 1;
    assert PageNo(x) >= Hi(s);
    ByteIs(mem, t, trans, x);
    ByteIs(mem', t', trans', x);
  }

  predicate AllFit(segs: seq<Segment>) { forall i :: 0 <= i < |segs| ==> Fits(segs[i]) }

  predicate DisjointPages(segs: seq<Segment>) {
    forall i, j :: 0 <= i < j < |segs| ==> Hi(segs[i]) <= Lo(segs[j]) || Hi(segs[j]) <= Lo(segs[i])
  }

  /** Address `x` lies on no page of any segment. */
  ghost predicate OnNoPage(segs: seq<Segment>, x: nat) {
    forall i :: 0 <= i < |segs| ==> !(Lo(segs[i]) <= PageNo(x) < Hi(segs[i]))
  }

  lemma NotOn(segs: seq<Segment>, i: nat, x: nat)
    requires i < |segs| && OnNoPage(segs, x)
    ensures !(Lo(segs[i]) <= PageNo(x) < Hi(segs[i]))
  {
  }

  /** A segment with something to load shows its whole image, and its file bytes are mapped. */
  ghost predicate Loaded(mem: Memory, pgd: Frame, file: seq<Byte>, s: Segment) {
    s.memsz > 0 ==>
      ImageSeen(mem, pgd, file, s) && RightsSeen(mem, pgd, s) && (s.filesz == 0 || s.offset + s.filesz <= |file|) &&
      forall x :: s.vaddr <= x < s.vaddr + s.filesz ==> UserByte(mem, pgd, x) != -1
  }

  lemma LoadedNow(mem: Memory, pgd: Frame, file: seq<Byte>, s: Segment)
    requires s.memsz > 0 ==> ImageSeen(mem, pgd, file, s) && RightsSeen(mem, pgd, s) && (s.filesz == 0 || s.offset + s.filesz <= |file|)
    requires s.memsz > 0 ==> forall x :: s.vaddr <= x < s.vaddr + s.filesz ==> UserByte(mem, pgd, x) != -1
    ensures Loaded(mem, pgd, file, s)
  {
  }

  lemma LoadedKept(mem: Memory, mem': Memory, pgd: Frame, file: seq<Byte>, s: Segment, r: Segment)
    requires Loaded(mem, pgd, file, s) && SameOutside(mem, mem', pgd, Lo(r), Hi(r))
    requires (Hi(s) <= Lo(r) || Hi(r) <= Lo(s)) && Fits(s) && InUserHalf(s)
    ensures Loaded(mem', pgd, file, s)
  {
    hide UserByte, PteForVirtIn, ImageByte, Rights, Present;
    if s.memsz > 0 {
      PagesOfSegment(s);
      forall x | 4096 * Lo(s) <= x < 4096 * Hi(s)
        ensures UserByte(mem', pgd, x) == UserByte(mem, pgd, x)
        ensures Present(PteForVirtIn(mem', pgd, x)) ==> PteForVirtIn(mem', pgd, x) == PteForVirtIn(mem, pgd, x)
      {
        assert Lo(s) <= PageNo(x) < Hi(s);
        assert SameSeen(mem, mem', pgd, x);
      }
    }
  }

  lemma PagesOfSegment(s: Segment)
    requires InUserHalf(s) && s.memsz > 0
    ensures Lo(s) < Hi(s) <= USER_PAGES && 4096 * Lo(s) <= s.vaddr < 4096 * Lo(s) + 4096 && 4096 * Hi(s) <= USER_END
    ensures s.vaddr + s.memsz <= 4096 * Hi(s) < s.vaddr + s.memsz + 4096
    ensures s.filesz <= s.memsz ==> Fits(s)
  {
  }

  lemma SameSeenSelf(mem: Memory, pgd: Frame)
    ensures forall x :: SameSeen(mem, mem, pgd, x)
  {
    hide UserByte, PteForVirtIn;
  }

  lemma SameSeenJoin(mem: Memory, mem1: Memory, mem2: Memory, pgd: Frame, x: nat)
    requires SameSeen(mem, mem1, pgd, x) && SameSeen(mem1, mem2, pgd, x)
    ensures SameSeen(mem, mem2, pgd, x)
  {
    hide UserByte, PteForVirtIn;
  }

  // ---- from frames to what the walk finds

  lemma SeenOutside(mem: Memory, t: Tables, trans: Trans, mem': Memory, t': Tables, trans': Trans, free: set<nat>, free': set<nat>,
                    lo: nat, hi: nat)
    requires Tree(mem, t) && Pml4 in t && Refined(mem, t[Pml4], trans) && Sound(trans, t, free)
    requires Tree(mem', t') && Pml4 in t' && t'[Pml4] == t[Pml4] && Refined(mem', t'[Pml4], trans') && Sound(trans', t', free')
    requires Elsewhere(trans, mem, trans', mem', lo, hi)
    ensures SameOutside(mem, mem', t[Pml4], lo, hi)
  {
    hide Tree, Open, PteForVirtIn, VirtToPhysIn, Refined, UserByte, BytesOf;
    forall x | 0 <= x < USER_END && !(lo <= PageNo(x) < hi) ensures SameSeen(mem, mem', t[Pml4], x) {
      ByteIs(mem, t, trans, x);
      ByteIs(mem', t', trans', x);
      WalkIs(mem, t, trans, x);
      WalkIs(mem', t', trans', x);
    }
  }

  lemma SeenInside(mem: Memory, t: Tables, trans: Trans, free: set<nat>, file: seq<Byte>, s: Segment)
    requires Tree(mem, t) && Pml4 in t && Refined(mem, t[Pml4], trans) && Sound(trans, t, free)
    requires Shows(trans, mem, Lo(s), Hi(s), file, s, s.vaddr + s.filesz) && 4096 * Hi(s) <= USER_END
    ensures ImageSeen(mem, t[Pml4], file, s)
  {
    hide Tree, Open, PteForVirtIn, VirtToPhysIn, Refined, UserByte, BytesOf, ImageByte;
    forall x | 4096 * Lo(s) <= x < 4096 * Hi(s)
      ensures UserByte(mem, t[Pml4], x) == -1 || UserByte(mem, t[Pml4], x) == ImageByte(file, s, s.vaddr + s.filesz, x)
    {
      ByteIs(mem, t, trans, x);
      assert 4096 * PageNo(x) + x % 4096 == x;
      if PageNo(x) in trans {
        assert ShowsPage(BytesOf(Load(mem, trans[PageNo(x)].frame)), PageNo(x), file, s, s.vaddr + s.filesz);
      }
    }
  }

  lemma MappedSeen(mem: Memory, t: Tables, trans: Trans, free: set<nat>, s: Segment)
    requires Tree(mem, t) && Pml4 in t && Refined(mem, t[Pml4], trans) && Sound(trans, t, free)
    requires InUserHalf(s) && s.memsz > 0
    ensures forall x :: 0 <= x < USER_END && PageNo(x) in trans ==> UserByte(mem, t[Pml4], x) != -1
    ensures (forall x :: 4096 * Lo(s) <= x < 4096 * Hi(s) ==> UserByte(mem, t[Pml4], x) != -1) <==>
            (forall g :: Lo(s) <= g < Hi(s) ==> g in trans)
  {
    hide Tree, Open, PteForVirtIn, VirtToPhysIn, Refined, UserByte, BytesOf;
    PagesOfSegment(s);
    forall x | 0 <= x < USER_END ensures UserByte(mem, t[Pml4], x) != -1 <==> PageNo(x) in trans { ByteIs(mem, t, trans, x); }
    if forall x :: 4096 * Lo(s) <= x < 4096 * Hi(s) ==> UserByte(mem, t[Pml4], x) != -1 {
      forall g | Lo(s) <= g < Hi(s) ensures g in trans {
        assert PageNo(4096 * g) == g;
        assert UserByte(mem, t[Pml4], 4096 * g) != -1;
      }
    }
  }

  lemma KeptSame(mem: Memory, fr: set<nat>)
    ensures FramesKept(mem, mem, fr)
  {
  }

  lemma KeptElsewhere(trans: Trans, mem: Memory, trans': Trans, mem1: Memory, mem2: Memory, mem3: Memory, lo: nat, hi: nat, fr: set<nat>)
    requires Elsewhere(trans, mem, trans', mem1, lo, hi) && Apart(trans', lo, hi, fr)
    requires FramesKept(mem1, mem2, fr) && FramesKept(mem2, mem3, fr)
    ensures Elsewhere(trans, mem, trans', mem3, lo, hi)
  {
  }

  lemma ZeroShows(trans: Trans, mem: Memory, lo: nat, hi: nat, file: seq<Byte>, s: Segment)
    requires forall g :: lo <= g < hi && g in trans ==> Load(mem, trans[g].frame) == ZeroWords()
    ensures Shows(trans, mem, lo, hi, file, s, s.vaddr)
  {
    hide BytesOf, ZeroWords;
    forall o | 0 <= o < 4096 ensures BytesOf(ZeroWords())[o] == 0 { ZeroBytes(o); }
  }

  /** The addresses of one chunk lie on one page. */
  lemma SamePage(cv: nat, n: nat)
    requires cv % 4096 + n <= 4096
    ensures forall x :: cv <= x < cv + n ==> PageNo(x) == cv / 4096
  {
  }

  lemma PageGrows(page: seq<Byte>, g: nat, file: seq<Byte>, s: Segment, cv: nat, n: nat)
    requires ShowsPage(page, g, file, s, cv) && g == cv / 4096 && cv % 4096 + n <= 4096 && s.vaddr <= cv
    requires s.offset + (cv - s.vaddr) + n <= |file|
    ensures var pos := s.offset + (cv - s.vaddr);
            ShowsPage(Put(page, cv % 4096, file[pos..pos + n]), g, file, s, cv + n)
  {
    var pos := s.offset + (cv - s.vaddr);
    var page' := Put(page, cv % 4096, file[pos..pos + n]);
    forall o | 0 <= o < 4096 ensures page'[o] == ImageByte(file, s, cv + n, 4096 * g + o) {
      assert page[o] == ImageByte(file, s, cv, 4096 * g + o);
    }
  }

  lemma PageStays(page: seq<Byte>, h: nat, file: seq<Byte>, s: Segment, cv: nat, n: nat)
    requires ShowsPage(page, h, file, s, cv) && h != cv / 4096 && cv % 4096 + n <= 4096 && s.vaddr <= cv
    ensures ShowsPage(page, h, file, s, cv + n)
  {
    forall o | 0 <= o < 4096 ensures page[o] == ImageByte(file, s, cv + n, 4096 * h + o) {
      assert page[o] == ImageByte(file, s, cv, 4096 * h + o);
      assert !(cv <= 4096 * h + o < cv + n);
    }
  }

  /** A chunk written on its page, on a frame no other page uses, extends the image. */
  lemma ShowsMore(trans: Trans, mem: Memory, mem0: Memory, file: seq<Byte>, s: Segment, fr: set<nat>, cv: nat, n: nat)
    requires Shows(trans, mem, Lo(s), Hi(s), file, s, cv) && Apart(trans, Lo(s), Hi(s), fr) && FramesKept(mem0, mem, fr)
    requires Lo(s) <= cv / 4096 < Hi(s) && cv / 4096 in trans && cv % 4096 + n <= 4096 && s.vaddr <= cv
    requires s.offset + (cv - s.vaddr) + n <= |file|
    ensures var pos, f := s.offset + (cv - s.vaddr), trans[cv / 4096].frame;
            var page := PageOf(Put(BytesOf(Load(mem, f)), cv % 4096, file[pos..pos + n]));
            Shows(trans, mem[f := page], Lo(s), Hi(s), file, s, cv + n) && FramesKept(mem0, mem[f := page], fr)
  {
    hide ShowsPage, BytesOf, PageOf, Put;
    var pos, g := s.offset + (cv - s.vaddr), cv / 4096;
    var f := trans[g].frame;
    var bytes := Put(BytesOf(Load(mem, f)), cv % 4096, file[pos..pos + n]);
    var mem' := mem[f := PageOf(bytes)];
    BytesOfPageOf(bytes);
    forall h | Lo(s) <= h < Hi(s) && h in trans ensures ShowsPage(BytesOf(Load(mem', trans[h].frame)), h, file, s, cv + n) {
      if h == g {
        PageGrows(BytesOf(Load(mem, f)), g, file, s, cv, n);
      } else {
        PageStays(BytesOf(Load(mem, trans[h].frame)), h, file, s, cv, n);
      }
    }
  }

  /** The pages from `lo` to `g`, page 0 aside, sit on frames taken since, each on its own. */
  ghost predicate Fresh(trans: Trans, lo: nat, g: nat, free0: set<nat>, free: set<nat>) {
    (forall h :: lo <= h < g && h != 0 && h in trans ==> trans[h].frame in free0 && trans[h].frame !in free) &&
    (forall h, k :: lo <= h < g && lo <= k < g && h != 0 && k != 0 && h in trans && k in trans && h != k ==> trans[h].frame != trans[k].frame)
  }

  lemma CarryNone(trans: Trans, lo: nat, flags: Word)
    ensures Carry(trans, lo, lo, flags)
  {
  }

  lemma CarryMore(trans: Trans, mem: Memory, trans2: Trans, mem2: Memory, lo: nat, g: nat, flags: Word)
    requires Carry(trans, lo, g, flags) && Elsewhere(trans, mem, trans2, mem2, g, g + 1) && Carry(trans2, g, g + 1, flags)
    ensures Carry(trans2, lo, g + 1, flags)
  {
    hide LeafWord;
  }

  lemma FreshStep(trans: Trans, mem: Memory, trans2: Trans, mem2: Memory, lo: nat, g: nat, free0: set<nat>, free: set<nat>, free2: set<nat>)
    requires Fresh(trans, lo, g, free0, free) && free2 <= free <= free0 && Elsewhere(trans, mem, trans2, mem2, g, g + 1)
    requires g != 0 && g in trans2 ==> trans2[g].frame in free && trans2[g].frame !in free2
    ensures Fresh(trans2, lo, g + 1, free0, free2)
  {
  }

  lemma FreshApart(trans0: Trans, mem0: Memory, t0: Tables, trans: Trans, mem: Memory, lo: nat, hi: nat, free0: set<nat>, free: set<nat>)
    requires Sound(trans0, t0, free0) && Elsewhere(trans0, mem0, trans, mem, lo, hi) && Fresh(trans, lo, hi, free0, free) && lo > 0
    ensures Apart(trans, lo, hi, free0 - free)
  {
  }

  /** What mapping frame `f` at page `g`, or failing to, keeps. */
  lemma MappedOne(mem: Memory, free: set<nat>, t: Tables, trans: Trans, mem': Memory, free': set<nat>, t': Tables, trans': Trans,
                  f: Frame, g: nat, w: Word, mapped: bool)
    requires Grown(mem, free, t, mem', free', t') && t'.Values !! free' && f !in free && f !in t.Values && f != 0 && w.frame == f
    requires Sound(trans, t, free) && trans' == if mapped then trans[g := w] else trans
    ensures Sound(trans', t', free') && free' <= free && Elsewhere(trans, mem, trans', mem', g, g + 1)
    ensures mapped ==> trans'[g].frame == f && f !in free'
  {
    forall x: Frame | x in t'.Values && x !in t.Values ensures x in free {
      var n :| n in t' && t'[n] == x;
      assert n !in t;
    }
  }

  lemma LeafFrame(f: Frame, flags: Word)
    ensures LeafWord(Word(0, f, 0), flags).frame == f
  {
  }

  lemma ElsewhereSame(trans: Trans, mem: Memory, lo: nat, hi: nat)
    ensures Elsewhere(trans, mem, trans, mem, lo, hi) && forall free0, free :: Fresh(trans, lo, lo, free0, free)
  {
  }

  lemma ElsewhereJoin(trans: Trans, mem: Memory, trans1: Trans, mem1: Memory, trans2: Trans, mem2: Memory, lo: nat, hi: nat, g: nat)
    requires Elsewhere(trans, mem, trans1, mem1, lo, hi) && Elsewhere(trans1, mem1, trans2, mem2, g, g + 1) && lo <= g < hi
    ensures Elsewhere(trans, mem, trans2, mem2, lo, hi)
  {
  }

  // ---- success with a page unmapped

  lemma {:induction false} RangeCount(a: nat, n: nat, s: set<nat>)
    requires forall f: nat :: f in s <==> a <= f < a + n
    ensures |s| == n
    decreases n
  {
    if n == 0 {
      assert s == {};
    } else {
      RangeCount(a, n - 1, s - {a + n - 1});
    }
  }

  /** A machine of which all but `keep` frames are taken. */
  method NearlyFull(base: Frame, keep: nat) returns (m: Machine)
    requires base > 0 && base + FRAMES <= 0x100_0000_0000 && keep <= FRAMES
    ensures fresh(m) && fresh(m.bitmap) && m.Valid() && |m.Free()| == keep && 0 !in m.Free()
  {
    m := new Machine(base);
    RangeCount(base, FRAMES, m.Free());
    hide FreeSet;
    var i := 0;
    while i < FRAMES - keep
      invariant 0 <= i <= FRAMES - keep && m.Valid() && |m.Free()| == FRAMES - i && 0 !in m.Free()
      invariant fresh(m) && fresh(m.bitmap)
    {
      var f := m.AllocPage();
      i := i + 1;
    }
  }

  lemma FirstPage(t: Tables, g: nat)
    requires t.Keys == {Pml4} && g > 0
    ensures TablesMissing(t, g, g) == 0 && TablesMissing(t, g, g + 1) > 0
  {
    NoAddrs(g);
    assert Extra({}, t.Keys) == 0 by { assert {} - t.Keys == {}; }
    var n := Pdpt(Indices(4096 * g).i4);
    assert n in PathsOf(Addrs(g, g + 1)) by {
      assert 4096 * g in Addrs(g, g + 1);
      assert n in Path(Indices(4096 * g));
    }
    assert n in PathsOf(Addrs(g, g + 1)) - t.Keys;
  }

  lemma SoundNone(t: Tables, free: set<nat>)
    ensures Sound(map[], t, free)
  {
  }

  lemma NothingYet(mem: Memory, t: Tables)
    requires Tree(mem, t) && Pml4 in t && forall q :: UserQuad(q) ==> Leaf(mem, t, q) == ZERO
    ensures Refined(mem, t[Pml4], map[])
  {
    hide Tree, Open, PteForVirtIn, VirtToPhysIn, Leaf;
    forall g | 0 <= g < USER_PAGES ensures RefinedAt(mem, t[Pml4], map[], g) {
      WalkersReadLeaf(mem, t, 4096 * g);
      assert UserQuad(Indices(4096 * g));
    }
  }

  /** With two free frames, an address space takes the first and any one page the second; `vmm_alloc_pages` reports success
      and the page is not there. */
  method SilentlyUnmapped(base: Frame, g: nat, prot: nat) returns (sp: Space, r: nat)
    requires base > 0 && base + FRAMES <= 0x100_0000_0000 && 0 < g < USER_PAGES
    ensures sp.Valid() && r == 4096 * g && VirtToPhysIn(sp.m.mem, sp.pgd, 4096 * g) == 0
  {
    hide FreeSet, Tree, PteForVirtIn, VirtToPhysIn, TablesMissing, Leaf, Refined, Open, Carry, FlagsOf, Apart, Elsewhere, Sound, Present;
    var m := NearlyFull(base, 2);
    var ok, pgd, t := AddressSpace.MmAlloc(m, 0, true);
    assert ok;
    NothingYet(m.mem, t);
    FirstPage(t, g);
    assert Sound(map[], t, m.Free()) by { SoundNone(t, m.Free()); }
    sp := new Space(m, pgd, t, map[]);
    r := sp.AllocPages(g, g + 1, prot);
    assert g !in sp.trans;
    var phys := sp.PhysOf(g);
  }
}
