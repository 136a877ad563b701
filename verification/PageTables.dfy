/** The 4-level page tables: `vmm_get_or_create_table`, `vmm_map_page_in_pgd` and the
    walkers `vmm_pte_for_virt_in` and `vmm_user_virt_to_phys_in`, refined to a plain
    map from user page to leaf word. */
module PageTables {
  import opened Words
  import opened PhysicalMemory

  const PRESENT: Bits12 := 0x001
  const WRITE: Bits12 := 0x002
  const USER: Bits12 := 0x004
  const HUGE: Bits12 := 0x080
  const NX: Bits12 := 0x800
  /** Flags of an entry that points to a table: present, writable, user. */
  const TABLE: Bits12 := 0x007
  /** User addresses are those whose PML4 index is below 256. */
  const USER_END: nat := 0x8000_0000_0000

  /** `w & PTE_PRESENT` and `w & PTE_HUGE`. */
  predicate Present(w: Word) { Bit(w.low, 0) }
  predicate IsHuge(w: Word) { Bit(w.low, 7) }

  /** The masks are those bits. */
  lemma Masks()
    ensures PRESENT == Pow2(0) && WRITE == Pow2(1) && USER == Pow2(2) && HUGE == Pow2(7) && NX == Pow2(11)
    ensures TABLE == Or(Or(PRESENT, WRITE), USER)
  {
    assert Pow2(4) == 16;
    Pow2Add(4, 3);
    Pow2Add(4, 7);
  }

  // ---- the walkers, as the kernel codes them

  /** The four table indices of a virtual address. */
  datatype Quad = Quad(i4: nat, i3: nat, i2: nat, i1: nat)

  function Indices(virt: nat): (q: Quad)
    ensures q.i4 < 512 && q.i3 < 512 && q.i2 < 512 && q.i1 < 512
    ensures virt < USER_END ==> q.i4 < 256
  {
    Quad(virt / 0x80_0000_0000 % 512, virt / 0x4000_0000 % 512, virt / 0x20_0000 % 512, virt / 0x1000 % 512)
  }

  /** The table an entry points to: `entry & ~0xFFF`, which is memory only if bits 52-63 are clear. */
  function Next(mem: Memory, w: Word): Page {
    if w.high == 0 then Load(mem, w.frame) else ZeroWords()
  }

  /** `vmm_pte_for_virt_in`: the raw leaf word, or 0. */
  function PteForVirtIn(mem: Memory, pgd: Frame, virt: nat): Word {
    var q := Indices(virt);
    var e4 := Load(mem, pgd)[q.i4];
    if !Present(e4) then ZERO else
    var e3 := Next(mem, e4)[q.i3];
    if !Present(e3) then ZERO else
    if IsHuge(e3) then e3 else
    var e2 := Next(mem, e3)[q.i2];
    if !Present(e2) then ZERO else
    if IsHuge(e2) then e2 else
    Next(mem, e2)[q.i1]
  }

  /** `(w & ~(4096 * span - 1)) | (virt & (4096 * span - 1))` for a naturally aligned page of `span` frames. */
  function Compose(w: Word, span: nat, virt: nat): nat
    requires span > 0
  {
    w.high * 0x10_0000_0000_0000 + (w.frame - w.frame % span) * 4096 + virt % (4096 * span)
  }

  /** `vmm_user_virt_to_phys_in`: the physical address, or 0. */
  function VirtToPhysIn(mem: Memory, pgd: Frame, virt: nat): nat {
    var q := Indices(virt);
    var e4 := Load(mem, pgd)[q.i4];
    if !Present(e4) then 0 else
    var e3 := Next(mem, e4)[q.i3];
    if !Present(e3) then 0 else
    if IsHuge(e3) then Compose(e3, 0x4_0000, virt) else
    var e2 := Next(mem, e3)[q.i2];
    if !Present(e2) then 0 else
    if IsHuge(e2) then Compose(e2, 0x200, virt) else
    var e1 := Next(mem, e2)[q.i1];
    if !Present(e1) then 0 else e1.frame * 4096 + virt % 4096
  }

  // ---- the shape of a tree: which table sits where

  /** A table's position in the radix tree. */
  datatype Node = Pml4 | Pdpt(a: nat) | Pd(a: nat, b: nat) | Pt(a: nat, b: nat, c: nat)

  function Child(n: Node, i: nat): Node
    requires !n.Pt?
  {
    match n
    case Pml4 => Pdpt(i)
    case Pdpt(a) => Pd(a, i)
    case Pd(a, b) => Pt(a, b, i)
  }

  type Tables = map<Node, Frame>

  /** The slots of a node that belong to the user half. */
  predicate UserSlot(n: Node, i: nat) {
    i < 512 && (n.Pml4? ==> i < 256)
  }

  /** A slot is present exactly when the child table exists, and then points to it. */
  ghost predicate SlotOk(mem: Memory, t: Tables, n: Node, i: nat)
    requires n in t && !n.Pt? && i < 512
  {
    var w := Load(mem, t[n])[i];
    (Present(w) <==> Child(n, i) in t) &&
    (Present(w) ==> w.high == 0 && !IsHuge(w) && w.frame == t[Child(n, i)])
  }

  ghost predicate Closed(t: Tables) {
    Pml4 in t &&
    (forall a, b :: Pd(a, b) in t ==> Pdpt(a) in t) &&
    (forall a, b, c :: Pt(a, b, c) in t ==> Pd(a, b) in t)
  }

  /** No frame is used as a table in two places. */
  ghost predicate Unshared(t: Tables) {
    forall m, n :: m in t && n in t && m != n ==> t[m] != t[n]
  }

  /** `t` lists exactly the tables of the user half of the tree in `mem`, none of them shared. */
  ghost predicate Tree(mem: Memory, t: Tables) {
    Closed(t) && Unshared(t) &&
    forall n, i :: n in t && !n.Pt? && UserSlot(n, i) ==> SlotOk(mem, t, n, i)
  }

  /** The abstract map: the leaf word of every page. */
  ghost function Leaf(mem: Memory, t: Tables, q: Quad): Word
    requires q.i1 < 512
  {
    if Pt(q.i4, q.i3, q.i2) in t then Load(mem, t[Pt(q.i4, q.i3, q.i2)])[q.i1] else ZERO
  }

  ghost predicate UserQuad(q: Quad) {
    q.i4 < 256 && q.i3 < 512 && q.i2 < 512 && q.i1 < 512
  }

  /** Both walkers read the abstract map. */
  lemma WalkersReadLeaf(mem: Memory, t: Tables, virt: nat)
    requires Tree(mem, t) && virt < USER_END
    ensures PteForVirtIn(mem, t[Pml4], virt) == Leaf(mem, t, Indices(virt))
    ensures var w := Leaf(mem, t, Indices(virt));
            VirtToPhysIn(mem, t[Pml4], virt) == if Present(w) then w.frame * 4096 + virt % 4096 else 0
  {
    var q := Indices(virt);
    assert SlotOk(mem, t, Pml4, q.i4);
    if Pdpt(q.i4) in t {
      assert SlotOk(mem, t, Pdpt(q.i4), q.i3);
      if Pd(q.i4, q.i3) in t {
        assert SlotOk(mem, t, Pd(q.i4, q.i3), q.i2);
      }
    }
  }

  /** A 2 MB entry maps its naturally aligned range in one piece: neighbouring addresses on it are neighbours in physical
      memory, the range starts at the entry's frame, and the raw walk returns the entry itself. */
  lemma Huge2M(mem: Memory, pgd: Frame, v: nat)
    requires var q := Indices(v);
             var e4 := Load(mem, pgd)[q.i4];
             var e3 := Next(mem, e4)[q.i3];
             Present(e4) && Present(e3) && !IsHuge(e3) && Present(Next(mem, e3)[q.i2]) && IsHuge(Next(mem, e3)[q.i2])
    ensures var base := v - v % 0x20_0000;
            VirtToPhysIn(mem, pgd, v) == VirtToPhysIn(mem, pgd, base) + (v - base) &&
            PteForVirtIn(mem, pgd, v) == PteForVirtIn(mem, pgd, base) && IsHuge(PteForVirtIn(mem, pgd, v)) &&
            (PteForVirtIn(mem, pgd, v).high == 0 && PteForVirtIn(mem, pgd, v).frame % 0x200 == 0 ==>
               VirtToPhysIn(mem, pgd, base) == PteForVirtIn(mem, pgd, v).frame * 4096)
  {
    hide Bit;
    var b := v / 0x20_0000;
    var base := v - v % 0x20_0000;
    assert base == 0x20_0000 * b;
    SameAbove(v, base, b);
  }

  /** The same for 1 GB. */
  lemma Huge1G(mem: Memory, pgd: Frame, v: nat)
    requires var q := Indices(v);
             var e4 := Load(mem, pgd)[q.i4];
             Present(e4) && Present(Next(mem, e4)[q.i3]) && IsHuge(Next(mem, e4)[q.i3])
    ensures var base := v - v % 0x4000_0000;
            VirtToPhysIn(mem, pgd, v) == VirtToPhysIn(mem, pgd, base) + (v - base) &&
            PteForVirtIn(mem, pgd, v) == PteForVirtIn(mem, pgd, base) && IsHuge(PteForVirtIn(mem, pgd, v)) &&
            (PteForVirtIn(mem, pgd, v).high == 0 && PteForVirtIn(mem, pgd, v).frame % 0x4_0000 == 0 ==>
               VirtToPhysIn(mem, pgd, base) == PteForVirtIn(mem, pgd, v).frame * 4096)
  {
    hide Bit;
    var b := v / 0x4000_0000;
    var base := v - v % 0x4000_0000;
    assert base == 0x4000_0000 * b;
    SameTop(v, base, b);
  }

  lemma SameAbove(v: nat, base: nat, b: nat)
    requires b == v / 0x20_0000 && base == 0x20_0000 * b
    ensures var q, q' := Indices(v), Indices(base); q'.i4 == q.i4 && q'.i3 == q.i3 && q'.i2 == q.i2
    ensures base % 0x20_0000 == 0
  {
    assert v / 0x4000_0000 == b / 512 && v / 0x80_0000_0000 == b / 0x4_0000;
    assert base / 0x20_0000 == b && base / 0x4000_0000 == b / 512 && base / 0x80_0000_0000 == b / 0x4_0000;
  }

  lemma SameTop(v: nat, base: nat, b: nat)
    requires b == v / 0x4000_0000 && base == 0x4000_0000 * b
    ensures var q, q' := Indices(v), Indices(base); q'.i4 == q.i4 && q'.i3 == q.i3
    ensures base % 0x4000_0000 == 0
  {
    assert v / 0x80_0000_0000 == b / 512;
    assert base / 0x4000_0000 == b && base / 0x80_0000_0000 == b / 512;
  }

  /** `vmm_get_phys`, which keeps bits 52-63 of the leaf in the address. */
  function GetPhys(mem: Memory, pgd: Frame, virt: nat): nat {
    var q := Indices(virt);
    var e4 := Load(mem, pgd)[q.i4];
    if !Present(e4) then 0 else
    var e3 := Next(mem, e4)[q.i3];
    if !Present(e3) then 0 else
    if IsHuge(e3) then Compose(e3, 0x4_0000, virt) else
    var e2 := Next(mem, e3)[q.i2];
    if !Present(e2) then 0 else
    if IsHuge(e2) then Compose(e2, 0x200, virt) else
    var e1 := Next(mem, e2)[q.i1];
    if !Present(e1) then 0 else Compose(e1, 1, virt)
  }

  /** It agrees with the other walkers exactly on absent leaves and on leaves with bits 52-63 clear, so never on a
      no-execute page. */
  lemma GetPhysAgrees(mem: Memory, t: Tables, virt: nat)
    requires Tree(mem, t) && virt < USER_END
    ensures var w := Leaf(mem, t, Indices(virt));
            GetPhys(mem, t[Pml4], virt) == VirtToPhysIn(mem, t[Pml4], virt) <==> !Present(w) || w.high == 0
  {
    var q := Indices(virt);
    assert SlotOk(mem, t, Pml4, q.i4);
    if Pdpt(q.i4) in t {
      assert SlotOk(mem, t, Pdpt(q.i4), q.i3);
      if Pd(q.i4, q.i3) in t {
        assert SlotOk(mem, t, Pd(q.i4, q.i3), q.i2);
        HighBits(Leaf(mem, t, q));
      }
    }
  }

  lemma HighBits(w: Word)
    ensures w.frame % 1 == 0
  {
  }

  // ---- the three updates a mapping performs

  function StoreWord(mem: Memory, f: Frame, i: nat, w: Word): Memory
    requires i < 512
  {
    mem[f := Load(mem, f)[i := w]]
  }

  ghost predicate SameLeaves(mem: Memory, t: Tables, mem': Memory, t': Tables) {
    forall q :: UserQuad(q) ==> Leaf(mem', t', q) == Leaf(mem, t, q)
  }

  /** The entries of a root that map the kernel, 256 to 511. */
  ghost predicate KernelHalf(mem: Memory, mem': Memory, root: Frame) {
    forall i :: 256 <= i < 512 ==> Load(mem', root)[i] == Load(mem, root)[i]
  }

  /** What growing a tree keeps: every old table in place, the kernel half of its root, and every byte outside the tree's
      own tables and the formerly free frames; and every frame taken is now one of its tables. */
  ghost predicate Grown(mem: Memory, free: set<nat>, t: Tables, mem': Memory, free': set<nat>, t': Tables) {
    (forall n :: n in t ==> n in t' && t'[n] == t[n]) &&
    free' <= free &&
    (Pml4 in t ==> KernelHalf(mem, mem', t[Pml4])) &&
    (forall n :: n in t' && n !in t ==> t'[n] in free) &&
    (forall f: Frame :: f in free && f !in free' ==> f in t'.Values) &&
    (forall f: Frame :: f !in t.Values && f !in free ==> Load(mem', f) == Load(mem, f))
  }

  // ---- the flags of the entries that point to tables

  /** The flags `w'` are those of `w`, except that the user bit may have been added. */
  ghost predicate KeepsBits(w: Bits12, w': Bits12) {
    (forall k: nat :: k != 2 ==> Bit(w', k) == Bit(w, k)) && (Bit(w, 2) ==> Bit(w', 2))
  }

  /** Present, writable and open to user mode. */
  predicate Through(w: Bits12) { Bit(w, 0) && Bit(w, 1) && Bit(w, 2) }

  /** Every entry to a table: as it was but for the user bit, or new and let through. */
  ghost predicate Flagged(mem: Memory, t: Tables, mem': Memory, t': Tables) {
    forall n, i: nat :: n in t' && !n.Pt? && UserSlot(n, i) && Child(n, i) in t' ==> EntryFlagged(mem, t, mem', t', n, i)
  }

  ghost predicate EntryFlagged(mem: Memory, t: Tables, mem': Memory, t': Tables, n: Node, i: nat)
    requires n in t' && !n.Pt? && i < 512
  {
    if n in t && Child(n, i) in t then KeepsBits(Load(mem, t[n])[i].low, Load(mem', t'[n])[i].low)
    else Through(Load(mem', t'[n])[i].low)
  }

  /** All entries to tables let writes and user mode through, so that the leaf alone decides. */
  ghost predicate Open(mem: Memory, t: Tables) {
    forall n, i: nat :: n in t && !n.Pt? && UserSlot(n, i) && Child(n, i) in t ==> Through(Load(mem, t[n])[i].low)
  }

  lemma FlaggedOpen(mem: Memory, t: Tables, mem': Memory, t': Tables)
    requires Flagged(mem, t, mem', t') && Open(mem, t)
    ensures Open(mem', t')
  {
    hide Bit;
    forall n, i: nat | n in t' && !n.Pt? && UserSlot(n, i) && Child(n, i) in t' ensures Through(Load(mem', t'[n])[i].low) {
      assert EntryFlagged(mem, t, mem', t', n, i);
    }
  }

  lemma FlaggedSame(mem: Memory, t: Tables, mem': Memory)
    requires forall n, i: nat :: n in t && !n.Pt? && UserSlot(n, i) && Child(n, i) in t ==> Load(mem', t[n])[i] == Load(mem, t[n])[i]
    ensures Flagged(mem, t, mem', t)
  {
    hide Bit;
  }

  lemma FlaggedJoin(mem: Memory, t: Tables, mem1: Memory, t1: Tables, mem2: Memory, t2: Tables)
    requires Flagged(mem, t, mem1, t1) && Flagged(mem1, t1, mem2, t2)
    requires forall n :: n in t ==> n in t1
    ensures Flagged(mem, t, mem2, t2)
  {
    hide Bit;
    forall n, i: nat | n in t2 && !n.Pt? && UserSlot(n, i) && Child(n, i) in t2 ensures EntryFlagged(mem, t, mem2, t2, n, i) {
      assert EntryFlagged(mem1, t1, mem2, t2, n, i);
      if n in t1 && Child(n, i) in t1 { assert EntryFlagged(mem, t, mem1, t1, n, i); }
    }
  }

  /** A table made by `vmm_get_or_create_table`: its entry is present, writable and open to user mode. */
  lemma FlaggedNew(mem: Memory, t: Tables, n: Node, i: nat, f: Frame)
    requires Closed(t) && Unshared(t) && n in t && !n.Pt? && UserSlot(n, i) && Child(n, i) !in t && f !in t.Values
    ensures var mem' := StoreWord(mem[f := ZeroWords()], t[n], i, Word(0, f, TABLE));
            Flagged(mem, t, mem', t[Child(n, i) := f])
    ensures Through(TABLE)
  {
    hide Bit, Or;
    var mem' := StoreWord(mem[f := ZeroWords()], t[n], i, Word(0, f, TABLE));
    var t' := t[Child(n, i) := f];
    TableThrough();
    forall m, j: nat | m in t' && !m.Pt? && UserSlot(m, j) && Child(m, j) in t' ensures EntryFlagged(mem, t, mem', t', m, j) {
      if m == n && j == i {
        assert Load(mem', t'[m])[j].low == TABLE;
      } else {
        ChildOnce(m, j, n, i);
        ClosedChild(t, m, j);
        NewUnderOld(mem, t, mem', n, i, f, m, j);
      }
    }
  }

  lemma ChildOnce(m: Node, j: nat, n: Node, i: nat)
    requires !m.Pt? && !n.Pt?
    ensures Child(m, j) == Child(n, i) <==> m == n && j == i
  {
  }

  lemma ClosedChild(t: Tables, m: Node, j: nat)
    requires Closed(t) && !m.Pt? && Child(m, j) in t
    ensures m in t
  {
  }

  lemma NewUnderOld(mem: Memory, t: Tables, mem': Memory, n: Node, i: nat, f: Frame, m: Node, j: nat)
    requires Unshared(t) && n in t && !n.Pt? && i < 512 && f !in t.Values && !m.Pt? && j < 512 && !(m == n && j == i)
    requires mem' == StoreWord(mem[f := ZeroWords()], t[n], i, Word(0, f, TABLE))
    ensures m in t ==> Load(mem', t[m])[j] == Load(mem, t[m])[j]
  {
    if m in t { assert t[m] in t.Values; }
    assert t[n] in t.Values;
  }

  lemma TableThrough()
    ensures Through(TABLE)
  {
    hide Bit, Or;
    Masks();
    BitOfPow2(0, 0);
    BitOfPow2(1, 1);
    BitOfPow2(2, 2);
    forall k: nat ensures Bit(TABLE, k) == (Bit(PRESENT, k) || Bit(WRITE, k) || Bit(USER, k)) {
      BitOfOr(Or(PRESENT, WRITE), USER, k);
      BitOfOr(PRESENT, WRITE, k);
    }
  }

  /** A table that existed: its entry gains the user bit and keeps every other. */
  lemma FlaggedUser(mem: Memory, t: Tables, n: Node, i: nat)
    requires Unshared(t) && n in t && !n.Pt? && UserSlot(n, i)
    ensures var w := Load(mem, t[n])[i];
            Flagged(mem, t, StoreWord(mem, t[n], i, w.(low := Or12(w.low, USER))), t) &&
            KeepsBits(w.low, Or12(w.low, USER)) && Bit(Or12(w.low, USER), 2)
  {
    hide Bit, Or;
    var w := Load(mem, t[n])[i];
    var mem' := StoreWord(mem, t[n], i, w.(low := Or12(w.low, USER)));
    Masks();
    forall k: nat ensures Bit(Or12(w.low, USER), k) == (Bit(w.low, k) || k == 2) {
      BitOfOr(w.low, USER, k);
      BitOfPow2(2, k);
    }
    forall m, j: nat | m in t && !m.Pt? && UserSlot(m, j) && Child(m, j) in t ensures EntryFlagged(mem, t, mem', t, m, j) {
      assert m != n ==> t[m] != t[n];
    }
  }

  /** Setting the user bit changes neither the present nor the huge bit. */
  lemma UserBit(low: Bits12)
    ensures Bit(Or12(low, USER), 0) == Bit(low, 0) && Bit(Or12(low, USER), 7) == Bit(low, 7)
  {
    hide Bit, Or;
    Masks();
    BitOfOr(low, USER, 0);
    BitOfOr(low, USER, 7);
    BitOfPow2(2, 0);
    BitOfPow2(2, 7);
  }

  lemma TableBits()
    ensures Bit(TABLE, 0) && !Bit(TABLE, 7) && !Bit(0, 0)
  {
    BitOfZero(4);
  }

  /** An existing entry may be replaced by one that still is present, not huge and points to the same table. */
  lemma ReplaceEntry(mem: Memory, free: set<nat>, t: Tables, n: Node, i: nat, w: Word)
    requires Tree(mem, t) && n in t && !n.Pt? && UserSlot(n, i) && Child(n, i) in t
    requires Present(w) && !IsHuge(w) && w.high == 0 && w.frame == t[Child(n, i)]
    ensures var mem' := StoreWord(mem, t[n], i, w);
            Tree(mem', t) && SameLeaves(mem, t, mem', t) && Grown(mem, free, t, mem', free, t)
  {
    var mem' := StoreWord(mem, t[n], i, w);
    forall m, j | m in t && !m.Pt? && UserSlot(m, j) ensures SlotOk(mem', t, m, j) {
      assert SlotOk(mem, t, m, j);
    }
  }

  /** A fresh zeroed table hung under an empty slot. */
  lemma AddTable(mem: Memory, free: set<nat>, t: Tables, n: Node, i: nat, f: Frame)
    requires Tree(mem, t) && n in t && !n.Pt? && UserSlot(n, i) && Child(n, i) !in t
    requires f in free && t.Values !! free
    ensures var mem' := StoreWord(mem[f := ZeroWords()], t[n], i, Word(0, f, TABLE));
            var t' := t[Child(n, i) := f];
            Tree(mem', t') && SameLeaves(mem, t, mem', t') &&
            Grown(mem, free, t, mem', free - {f}, t') && t'.Values !! free - {f}
  {
    assert f !in t.Values;
    var w := Word(0, f, TABLE);
    var mem' := StoreWord(mem[f := ZeroWords()], t[n], i, w);
    var t' := t[Child(n, i) := f];
    assert t[n] != f;
    assert Present(w) && !IsHuge(w) && !Present(ZERO) by { TableBits(); }
    assert t'[Child(n, i)] == f;
    forall x | x in t'.Values ensures x == f || x in t.Values {
      var k :| k in t' && t'[k] == x;
    }
    forall m, j | m in t' && !m.Pt? && UserSlot(m, j) ensures SlotOk(mem', t', m, j) {
      if m in t {
        assert SlotOk(mem, t, m, j);
      } else {
        assert Child(m, j) !in t;
      }
    }
  }

  /** Writing one word of a leaf table changes that page only. */
  lemma SetLeaf(mem: Memory, t: Tables, q: Quad, w: Word)
    requires Tree(mem, t) && UserQuad(q) && Pt(q.i4, q.i3, q.i2) in t
    ensures var mem' := StoreWord(mem, t[Pt(q.i4, q.i3, q.i2)], q.i1, w);
            Tree(mem', t) && Leaf(mem', t, q) == w &&
            forall r :: UserQuad(r) && r != q ==> Leaf(mem', t, r) == Leaf(mem, t, r)
  {
    var mem' := StoreWord(mem, t[Pt(q.i4, q.i3, q.i2)], q.i1, w);
    forall m, j | m in t && !m.Pt? && UserSlot(m, j) ensures SlotOk(mem', t, m, j) {
      assert SlotOk(mem, t, m, j);
    }
  }

  /** Writing a frame that is none of its tables leaves a tree alone. */
  lemma TreeApart(mem: Memory, t: Tables, f: Frame, page: Page)
    requires Tree(mem, t) && f !in t.Values
    ensures Tree(mem[f := page], t) && SameLeaves(mem, t, mem[f := page], t)
  {
    forall n, i | n in t && !n.Pt? && UserSlot(n, i) ensures SlotOk(mem[f := page], t, n, i) {
      assert SlotOk(mem, t, n, i);
    }
  }

  // ---- counting frames

  /** The tables on the way to a page, the root aside. */
  function Path(q: Quad): set<Node> {
    {Pdpt(q.i4), Pd(q.i4, q.i3), Pt(q.i4, q.i3, q.i2)}
  }

  /** Making the tables of `path`: every frame taken became a table of the path, and it succeeded exactly when all of them
      are there; it fails only with no frame left. */
  ghost predicate Counted(t: Tables, free: set<nat>, t': Tables, free': set<nat>, path: set<Node>, ok: bool) {
    |free'| + |t'.Keys| == |free| + |t.Keys| &&
    t.Keys <= t'.Keys <= t.Keys + path &&
    (ok <==> path <= t'.Keys) && (!ok ==> free' == {})
  }

  lemma CountedJoin(t: Tables, free: set<nat>, t1: Tables, free1: set<nat>, t2: Tables, free2: set<nat>,
                    p1: set<Node>, p2: set<Node>, ok: bool)
    requires Counted(t, free, t1, free1, p1, true) && Counted(t1, free1, t2, free2, p2, ok)
    ensures Counted(t, free, t2, free2, p1 + p2, ok)
  {
  }

  lemma CountedFail(t: Tables, free: set<nat>, t1: Tables, free1: set<nat>, p1: set<Node>, p2: set<Node>)
    requires Counted(t, free, t1, free1, p1, false)
    ensures Counted(t, free, t1, free1, p1 + p2, false)
  {
  }

  /** The exact condition, before the fact: as many free frames as tables missing. */
  lemma CountedMeans(t: Tables, free: set<nat>, t': Tables, free': set<nat>, path: set<Node>, ok: bool)
    requires Counted(t, free, t', free', path, ok)
    ensures ok <==> |path - t.Keys| <= |free|
    ensures ok ==> t'.Keys == t.Keys + path && |free'| == |free| - |path - t.Keys|
  {
    var all := t.Keys + path;
    assert all == t.Keys + (path - t.Keys) && t.Keys !! path - t.Keys;
    if ok {
      assert t'.Keys == all;
    } else {
      Smaller(t'.Keys, all);
    }
  }

  lemma Smaller(a: set<Node>, b: set<Node>)
    requires a <= b && a != b
    ensures |a| < |b|
  {
    var x :| x in b && x !in a;
    assert b == a + (b - a) && a !! b - a && x in b - a;
  }

  // ---- the mapping code

  /** The address space `t` is a tree in the machine's memory and none of its tables is a free frame. */
  ghost predicate Owned(m: Machine, t: Tables)
    reads m, m.bitmap
  {
    m.Valid() && Tree(m.mem, t) && t.Values !! m.Free()
  }

  method ZeroFrame(m: Machine, f: Frame)
    modifies m`mem
    ensures m.mem == old(m.mem)[f := ZeroWords()]
  {
    m.mem := m.mem[f := Load(m.mem, f)];
    var i := 0;
    while i < 512
      invariant 0 <= i <= 512
      invariant f in m.mem && m.mem == old(m.mem)[f := m.mem[f]]
      invariant forall j :: 0 <= j < i ==> m.mem[f][j] == ZERO
    {
      m.mem := m.mem[f := m.mem[f][i := ZERO]];
      i := i + 1;
    }
    assert m.mem[f] == ZeroWords();
  }

  /** `vmm_get_or_create_table`; `!ok` is its NULL return. */
  method GetOrCreateTable(m: Machine, table: Frame, index: nat, ghost t: Tables, ghost n: Node)
    returns (ok: bool, r: Frame, ghost t': Tables)
    requires Owned(m, t) && n in t && !n.Pt? && UserSlot(n, index) && table == t[n]
    modifies m`mem, m.bitmap
    ensures Owned(m, t')
    ensures Grown(old(m.mem), old(m.Free()), t, m.mem, m.Free(), t') && SameLeaves(old(m.mem), t, m.mem, t')
    ensures Counted(t, old(m.Free()), t', m.Free(), {Child(n, index)}, ok)
    ensures ok ==> Child(n, index) in t' && r == t'[Child(n, index)]
    ensures ok && Child(n, index) !in t ==> r in old(m.Free()) && m.Free() == old(m.Free()) - {r} && t' == t[Child(n, index) := r]
    ensures Child(n, index) in t ==> ok && t' == t && m.Free() == old(m.Free())
    // the entry itself: a new one is present, writable and open to user mode; an old one gains the user bit, no more
    ensures ok && Child(n, index) !in t ==> Through(Load(m.mem, table)[index].low)
    ensures Child(n, index) in t ==>
              KeepsBits(Load(old(m.mem), table)[index].low, Load(m.mem, table)[index].low) && Bit(Load(m.mem, table)[index].low, 2)
    ensures Flagged(old(m.mem), t, m.mem, t')
    ensures !ok ==> m.Free() == {} && t' == t && m.mem == old(m.mem) && Child(n, index) !in t
  {
    hide FreeSet, Bit, Or, Grown, SameLeaves, IsBitmap, Flagged, KeepsBits;
    t' := t;
    var w := Load(m.mem, table)[index];
    assert SlotOk(m.mem, t, n, index);
    if !Present(w) {
      var f := m.AllocPage();
      if f == 0 {
        GrownNothing(m.mem, m.Free(), t);
        FlaggedSame(m.mem, t, m.mem);
        return false, 0, t;
      }
      AddTable(m.mem, old(m.Free()), t, n, index, f);
      FlaggedNew(m.mem, t, n, index, f);
      ZeroFrame(m, f);
      m.mem := StoreWord(m.mem, table, index, Word(0, f, TABLE));
      t' := t[Child(n, index) := f];
      assert t'.Keys == t.Keys + {Child(n, index)};
    } else {
      UserBit(w.low);
      FlaggedUser(m.mem, t, n, index);
      ReplaceEntry(m.mem, m.Free(), t, n, index, w.(low := Or12(w.low, USER)));
      m.mem := StoreWord(m.mem, table, index, w.(low := Or12(w.low, USER)));
    }
    return true, Load(m.mem, table)[index].frame, t';
  }

  lemma GrownNothing(mem: Memory, free: set<nat>, t: Tables)
    ensures Grown(mem, free, t, mem, free, t) && SameLeaves(mem, t, mem, t)
  {
  }

  lemma GrownTransitive(mem: Memory, free: set<nat>, t: Tables, mem1: Memory, free1: set<nat>, t1: Tables,
                        mem2: Memory, free2: set<nat>, t2: Tables)
    requires Grown(mem, free, t, mem1, free1, t1) && Grown(mem1, free1, t1, mem2, free2, t2)
    requires SameLeaves(mem, t, mem1, t1) && SameLeaves(mem1, t1, mem2, t2)
    ensures Grown(mem, free, t, mem2, free2, t2) && SameLeaves(mem, t, mem2, t2)
  {
    forall f: Frame | f in free && f !in free2 ensures f in t2.Values {
      if f !in free1 {
        var n :| n in t1 && t1[n] == f;
        assert t2[n] == f;
      }
    }
    forall f: Frame | f !in t.Values && f !in free ensures Load(mem2, f) == Load(mem, f) {
      assert Load(mem1, f) == Load(mem, f);
    }
  }

  /** The page number determines the indices and, for user addresses, the indices the page number. */
  lemma IndicesOfPage(v: nat, w: nat)
    requires v < USER_END && w < USER_END
    ensures Indices(v) == Indices(w) <==> v / 4096 == w / 4096
  {
    PageNumber(v);
    PageNumber(w);
  }

  lemma PageNumber(v: nat)
    requires v < USER_END
    ensures var q := Indices(v); v / 4096 == ((q.i4 * 512 + q.i3) * 512 + q.i2) * 512 + q.i1
    ensures var p := v / 4096; Indices(v) == Quad(p / 0x800_0000 % 512, p / 0x4_0000 % 512, p / 0x200 % 512, p % 512)
  {
    var p := v / 4096;
    assert v / 0x80_0000_0000 == p / 0x800_0000;
    assert v / 0x4000_0000 == p / 0x4_0000;
    assert v / 0x20_0000 == p / 0x200;
    Radix(p);
  }

  lemma Radix(p: nat)
    requires p < 0x8_0000_0000
    ensures p == ((p / 0x800_0000 % 512 * 512 + p / 0x4_0000 % 512) * 512 + p / 0x200 % 512) * 512 + p % 512
  {
    assert p / 0x4_0000 == p / 0x200 / 512;
    assert p / 0x800_0000 == p / 0x4_0000 / 512;
  }

  /** The leaf word `(phys & ~0xFFF) | (flags & 0xFFF) | (flags & PTE_NX) | PTE_PRESENT`. */
  function LeafWord(phys: Word, flags: Word): Word {
    Word(Or12(phys.high, And12(flags.high, NX)), phys.frame, Or12(flags.low, PRESENT))
  }

  lemma LeafIsPresent(phys: Word, flags: Word)
    ensures Present(LeafWord(phys, flags)) && LeafWord(phys, flags).frame == phys.frame && !Present(ZERO)
  {
    hide Bit, Or;
    Masks();
    BitOfOr(flags.low, PRESENT, 0);
    BitOfPow2(0, 0);
    BitOfZero(0);
  }

  /** The leaf bit by bit: the low flags are those asked for plus present, of the high ones only NX is taken over. */
  lemma LeafBits(phys: Word, flags: Word, k: nat)
    ensures var w := LeafWord(phys, flags);
            Bit(w.low, k) == (Bit(flags.low, k) || k == 0) && Bit(w.high, k) == (Bit(phys.high, k) || (k == 11 && Bit(flags.high, k)))
  {
    hide Bit, Or, And;
    Masks();
    BitOfOr(flags.low, PRESENT, k);
    BitOfPow2(0, k);
    BitOfOr(phys.high, And(flags.high, NX), k);
    BitOfAnd(flags.high, NX, k);
    BitOfPow2(11, k);
  }

  /** What `vmm_map_page_in_pgd` leaves behind, on the abstract map. */
  ghost predicate Mapped(mem: Memory, t: Tables, mem': Memory, t': Tables, virt: nat, w: Word) {
    Leaf(mem', t', Indices(virt)) == w &&
    forall q :: UserQuad(q) && q != Indices(virt) ==> Leaf(mem', t', q) == Leaf(mem, t, q)
  }

  /** Walks down from the root, creating the missing tables on the way. */
  method WalkDown(m: Machine, pgd: Frame, virt: nat, ghost t: Tables)
    returns (ok: bool, pt: Frame, ghost t': Tables)
    requires Owned(m, t) && pgd == t[Pml4] && virt < USER_END
    modifies m`mem, m.bitmap
    ensures Owned(m, t')
    ensures Grown(old(m.mem), old(m.Free()), t, m.mem, m.Free(), t') && SameLeaves(old(m.mem), t, m.mem, t')
    ensures Counted(t, old(m.Free()), t', m.Free(), Path(Indices(virt)), ok)
    ensures Flagged(old(m.mem), t, m.mem, t') && (ok ==> UserPath(m.mem, t', Indices(virt)))
    ensures var q := Indices(virt);
            if ok then Pt(q.i4, q.i3, q.i2) in t' && pt == t'[Pt(q.i4, q.i3, q.i2)]
            else m.Free() == {} && Pt(q.i4, q.i3, q.i2) !in t
  {
    hide Tree, Grown, SameLeaves, Counted, FreeSet, Flagged, UserPath, UserEntry, Bit, KeepsBits;
    var q := Indices(virt);
    ghost var mem0, free0 := m.mem, m.Free();
    ghost var p1, p2, p3 := {Pdpt(q.i4)}, {Pd(q.i4, q.i3)}, {Pt(q.i4, q.i3, q.i2)};
    assert Path(q) == p1 + (p2 + p3) == p1 + p2 + p3;
    ClosedPath(m.mem, t, q);
    var ok1, pdpt, t1 := GetOrCreateTable(m, pgd, q.i4, t, Pml4);
    if !ok1 {
      CountedFail(t, free0, t1, m.Free(), p1, p2 + p3);
      return false, 0, t1;
    }
    ghost var mem1, free1 := m.mem, m.Free();
    ClosedPath(m.mem, t1, q);
    GrownKeeps(mem0, free0, t, mem1, free1, t1);
    EntryIs(m.mem, t1, Pml4, q.i4);
    var ok2, pd, t2 := GetOrCreateTable(m, pdpt, q.i3, t1, Pdpt(q.i4));
    GrownTransitive(mem0, free0, t, mem1, free1, t1, m.mem, m.Free(), t2);
    CountedJoin(t, free0, t1, free1, t2, m.Free(), p1, p2, ok2);
    FlaggedJoin(mem0, t, mem1, t1, m.mem, t2);
    if !ok2 {
      CountedFail(t, free0, t2, m.Free(), p1 + p2, p3);
      return false, 0, t2;
    }
    ghost var mem2, free2 := m.mem, m.Free();
    GrownKeeps(mem0, free0, t, mem2, free2, t2);
    GrownKeeps(mem1, free1, t1, mem2, free2, t2);
    UserStays(mem1, t1, mem2, t2, Pml4, q.i4);
    EntryIs(m.mem, t2, Pdpt(q.i4), q.i3);
    ok, pt, t' := GetOrCreateTable(m, pd, q.i2, t2, Pd(q.i4, q.i3));
    GrownTransitive(mem0, free0, t, mem2, free2, t2, m.mem, m.Free(), t');
    CountedJoin(t, free0, t2, free2, t', m.Free(), p1 + p2, p3, ok);
    FlaggedJoin(mem0, t, mem2, t2, m.mem, t');
    GrownKeeps(mem2, free2, t2, m.mem, m.Free(), t');
    UserStays(mem2, t2, m.mem, t', Pml4, q.i4);
    UserStays(mem2, t2, m.mem, t', Pdpt(q.i4), q.i3);
    EntryIs(m.mem, t', Pd(q.i4, q.i3), q.i2);
    if ok { UserPathIs(m.mem, t', q); }
  }

  /** The entry of a table slot is open to user mode. */
  ghost predicate UserEntry(mem: Memory, t: Tables, n: Node, i: nat) {
    n in t && i < 512 && Bit(Load(mem, t[n])[i].low, 2)
  }

  /** All three entries on the way to a page are. */
  ghost predicate UserPath(mem: Memory, t: Tables, q: Quad) {
    UserEntry(mem, t, Pml4, q.i4) && UserEntry(mem, t, Pdpt(q.i4), q.i3) && UserEntry(mem, t, Pd(q.i4, q.i3), q.i2)
  }

  lemma UserPathIs(mem: Memory, t: Tables, q: Quad)
    requires UserEntry(mem, t, Pml4, q.i4) && UserEntry(mem, t, Pdpt(q.i4), q.i3) && UserEntry(mem, t, Pd(q.i4, q.i3), q.i2)
    ensures UserPath(mem, t, q)
  {
  }

  lemma EntryIs(mem: Memory, t: Tables, n: Node, i: nat)
    ensures n in t && i < 512 && Bit(Load(mem, t[n])[i].low, 2) ==> UserEntry(mem, t, n, i)
    ensures n in t && i < 512 && Through(Load(mem, t[n])[i].low) ==> UserEntry(mem, t, n, i)
  {
  }

  lemma UserStays(mem: Memory, t: Tables, mem': Memory, t': Tables, n: Node, i: nat)
    requires Flagged(mem, t, mem', t') && !n.Pt? && UserSlot(n, i) && n in t && Child(n, i) in t
    requires (forall m :: m in t ==> m in t' && t'[m] == t[m]) && UserEntry(mem, t, n, i)
    ensures UserEntry(mem', t', n, i)
  {
    hide Bit;
    assert EntryFlagged(mem, t, mem', t', n, i);
  }

  lemma ClosedPath(mem: Memory, t: Tables, q: Quad)
    requires Tree(mem, t)
    ensures Pml4 in t && (Pt(q.i4, q.i3, q.i2) in t ==> Pd(q.i4, q.i3) in t) && (Pd(q.i4, q.i3) in t ==> Pdpt(q.i4) in t)
  {
  }

  lemma GrownKeeps(mem: Memory, free: set<nat>, t: Tables, mem': Memory, free': set<nat>, t': Tables)
    requires Grown(mem, free, t, mem', free', t')
    ensures forall n :: n in t ==> n in t' && t'[n] == t[n]
  {
  }

  lemma GrownStore(mem: Memory, free: set<nat>, t: Tables, mem1: Memory, free1: set<nat>, t1: Tables, q: Quad, w: Word)
    requires Grown(mem, free, t, mem1, free1, t1) && SameLeaves(mem, t, mem1, t1)
    requires Tree(mem1, t1) && UserQuad(q) && Pt(q.i4, q.i3, q.i2) in t1
    ensures var mem2 := StoreWord(mem1, t1[Pt(q.i4, q.i3, q.i2)], q.i1, w);
            Tree(mem2, t1) && Grown(mem, free, t, mem2, free1, t1) && Leaf(mem2, t1, q) == w &&
            forall r :: UserQuad(r) && r != q ==> Leaf(mem2, t1, r) == Leaf(mem, t, r)
  {
    SetLeaf(mem1, t1, q, w);
  }

  /** Storing a leaf touches no entry to a table. */
  lemma FlaggedLeaf(mem: Memory, t: Tables, mem1: Memory, t1: Tables, q: Quad, w: Word)
    requires Flagged(mem, t, mem1, t1) && Unshared(t1) && UserQuad(q) && Pt(q.i4, q.i3, q.i2) in t1
    requires forall n :: n in t ==> n in t1
    ensures var mem2 := StoreWord(mem1, t1[Pt(q.i4, q.i3, q.i2)], q.i1, w);
            Flagged(mem, t, mem2, t1) && (UserPath(mem1, t1, q) ==> UserPath(mem2, t1, q))
  {
    hide Bit;
    var mem2 := StoreWord(mem1, t1[Pt(q.i4, q.i3, q.i2)], q.i1, w);
    forall n, i: nat | n in t1 && !n.Pt? && UserSlot(n, i) && Child(n, i) in t1 ensures EntryFlagged(mem, t, mem2, t1, n, i) {
      assert EntryFlagged(mem, t, mem1, t1, n, i);
      assert t1[n] != t1[Pt(q.i4, q.i3, q.i2)];
    }
  }

  method StoreLeaf(m: Machine, pgd: Frame, virt: nat, w: Word, ghost t: Tables)
    returns (ghost mapped: bool, ghost t': Tables)
    requires Owned(m, t) && pgd == t[Pml4] && virt < USER_END
    modifies m`mem, m.bitmap
    ensures Owned(m, t') && Grown(old(m.mem), old(m.Free()), t, m.mem, m.Free(), t')
    ensures mapped ==> Mapped(old(m.mem), t, m.mem, t', virt, w)
    ensures !mapped ==> m.Free() == {} && SameLeaves(old(m.mem), t, m.mem, t')
    ensures !mapped ==> Leaf(old(m.mem), t, Indices(virt)) == ZERO
    ensures Counted(t, old(m.Free()), t', m.Free(), Path(Indices(virt)), mapped)
    ensures Flagged(old(m.mem), t, m.mem, t') && (mapped ==> UserPath(m.mem, t', Indices(virt)))
  {
    hide Counted, FreeSet, Flagged, UserPath, Bit;
    var ok, pt, t1 := WalkDown(m, pgd, virt, t);
    mapped, t' := ok, t1;
    if ok {
      GrownStore(old(m.mem), old(m.Free()), t, m.mem, m.Free(), t1, Indices(virt), w);
      FlaggedLeaf(old(m.mem), t, m.mem, t1, Indices(virt), w);
      m.mem := StoreWord(m.mem, pt, Indices(virt).i1, w);
    }
  }

  /** `vmm_map_page_in_pgd`. The kernel reports nothing; `mapped` says whether the page was mapped. */
  method MapPageInPgd(m: Machine, pgd: Frame, virt: nat, phys: Word, flags: Word, ghost t: Tables)
    returns (ghost mapped: bool, ghost t': Tables)
    requires Owned(m, t) && pgd == t[Pml4] && virt < USER_END
    modifies m`mem, m.bitmap
    ensures Owned(m, t') && Grown(old(m.mem), old(m.Free()), t, m.mem, m.Free(), t')
    ensures Pml4 in t' && t'[Pml4] == pgd
    // it succeeds exactly when there is a free frame for every missing table, and takes no more than that
    ensures mapped <==> virt != 0 && |Path(Indices(virt)) - t.Keys| <= |old(m.Free())|
    ensures virt == 0 ==> t' == t && m.Free() == old(m.Free()) && m.mem == old(m.mem)
    ensures virt != 0 ==> Counted(t, old(m.Free()), t', m.Free(), Path(Indices(virt)), mapped)
    // the entries on the way: open to user mode afterwards, otherwise as they were; new ones writable too
    ensures Flagged(old(m.mem), t, m.mem, t') && (mapped ==> Passes(m.mem, pgd, virt, 2))
    ensures Open(old(m.mem), t) ==> Open(m.mem, t') && (mapped ==> Passes(m.mem, pgd, virt, 0) && Passes(m.mem, pgd, virt, 1))
    ensures mapped ==> virt != 0 && Mapped(old(m.mem), t, m.mem, t', virt, LeafWord(phys, flags))
    ensures !mapped ==> (virt == 0 || m.Free() == {}) && SameLeaves(old(m.mem), t, m.mem, t')
    ensures !mapped && virt != 0 ==> PteForVirtIn(old(m.mem), pgd, virt) == ZERO
    // the same facts as the two walkers see them
    ensures mapped ==> PteForVirtIn(m.mem, pgd, virt) == LeafWord(phys, flags)
    ensures mapped ==> VirtToPhysIn(m.mem, pgd, virt) == phys.frame * 4096 + virt % 4096
    ensures forall v :: 0 <= v < USER_END && (!mapped || v / 4096 != virt / 4096) ==>
              PteForVirtIn(m.mem, pgd, v) == PteForVirtIn(old(m.mem), pgd, v) &&
              VirtToPhysIn(m.mem, pgd, v) == VirtToPhysIn(old(m.mem), pgd, v)
  {
    hide Flagged, Open, Passes, Bit, Or, And, UserPath, Counted, Mapped, SameLeaves, Grown, FreeSet;
    mapped, t' := false, t;
    FlaggedSame(m.mem, t, m.mem);
    SameMapped(m.mem, t, m.Free());
    if virt != 0 {
      mapped, t' := StoreLeaf(m, pgd, virt, LeafWord(phys, flags), t);
      CountedMeans(t, old(m.Free()), t', m.Free(), Path(Indices(virt)), mapped);
    }
    LeafIsPresent(phys, flags);
    RootStays(old(m.mem), old(m.Free()), t, m.mem, m.Free(), t');
    SeenByWalkers(old(m.mem), t, m.mem, t', virt, mapped, LeafWord(phys, flags));
    if mapped { PathPasses(m.mem, t', virt, LeafWord(phys, flags), old(m.mem), t); }
    if Open(old(m.mem), t) {
      FlaggedOpen(old(m.mem), t, m.mem, t');
      if mapped { OpenPasses(m.mem, t', virt); }
    }
    WalkersReadLeaf(old(m.mem), t, virt);
  }

  lemma SameMapped(mem: Memory, t: Tables, free: set<nat>)
    ensures SameLeaves(mem, t, mem, t) && Grown(mem, free, t, mem, free, t)
  {
  }

  lemma RootStays(mem: Memory, free: set<nat>, t: Tables, mem': Memory, free': set<nat>, t': Tables)
    requires Grown(mem, free, t, mem', free', t')
    ensures Pml4 in t ==> Pml4 in t' && t'[Pml4] == t[Pml4]
  {
  }

  /** Bit `k` is set in every entry that the walk for `virt` passes before it reaches the leaf. */
  predicate Passes(mem: Memory, pgd: Frame, virt: nat, k: nat) {
    var q := Indices(virt);
    var e4 := Load(mem, pgd)[q.i4];
    Bit(e4.low, k) &&
    var e3 := Next(mem, e4)[q.i3];
    Bit(e3.low, k) && (IsHuge(e3) || Bit(Next(mem, e3)[q.i2].low, k))
  }

  lemma OpenApart(mem: Memory, t: Tables, f: Frame, page: Page)
    requires Open(mem, t) && f !in t.Values
    ensures Open(mem[f := page], t)
  {
    hide Bit;
    forall n, i: nat | n in t && !n.Pt? && UserSlot(n, i) && Child(n, i) in t ensures Through(Load(mem[f := page], t[n])[i].low) {
      assert t[n] in t.Values;
    }
  }

  /** As the walkers see it: the way to every present page of an open tree lets user accesses and writes through. */
  lemma OpenSeen(mem: Memory, t: Tables, virt: nat)
    requires Tree(mem, t) && Open(mem, t) && virt < USER_END && Present(PteForVirtIn(mem, t[Pml4], virt))
    ensures Passes(mem, t[Pml4], virt, 0) && Passes(mem, t[Pml4], virt, 1) && Passes(mem, t[Pml4], virt, 2)
  {
    hide Bit, Open, Passes, Tree, PteForVirtIn, VirtToPhysIn;
    WalkersReadLeaf(mem, t, virt);
    LeafIsPresent(ZERO, ZERO);
    OpenPasses(mem, t, virt);
  }

  /** In an open tree every mapped page is behind entries that are present, writable and open to user mode. */
  lemma OpenPasses(mem: Memory, t: Tables, virt: nat)
    requires Tree(mem, t) && Open(mem, t) && virt < USER_END
    requires var q := Indices(virt); Pt(q.i4, q.i3, q.i2) in t
    ensures Passes(mem, t[Pml4], virt, 0) && Passes(mem, t[Pml4], virt, 1) && Passes(mem, t[Pml4], virt, 2)
  {
    hide Bit;
    var q := Indices(virt);
    assert SlotOk(mem, t, Pml4, q.i4);
    assert SlotOk(mem, t, Pdpt(q.i4), q.i3);
    assert SlotOk(mem, t, Pd(q.i4, q.i3), q.i2);
  }

  lemma PathPasses(mem: Memory, t: Tables, virt: nat, w: Word, mem0: Memory, t0: Tables)
    requires Tree(mem, t) && UserPath(mem, t, Indices(virt)) && virt < USER_END
    requires Mapped(mem0, t0, mem, t, virt, w) && Present(w)
    ensures Passes(mem, t[Pml4], virt, 2) && var q := Indices(virt); Pt(q.i4, q.i3, q.i2) in t
  {
    hide Bit;
    var q := Indices(virt);
    LeafIsPresent(w, w);
    assert SlotOk(mem, t, Pml4, q.i4);
    assert SlotOk(mem, t, Pdpt(q.i4), q.i3);
    assert SlotOk(mem, t, Pd(q.i4, q.i3), q.i2);
  }

  lemma SeenByWalkers(mem: Memory, t: Tables, mem': Memory, t': Tables, virt: nat, mapped: bool, w: Word)
    requires Tree(mem, t) && Tree(mem', t') && t[Pml4] == t'[Pml4] && virt < USER_END
    requires if mapped then Mapped(mem, t, mem', t', virt, w) else SameLeaves(mem, t, mem', t')
    requires Present(w)
    ensures mapped ==> PteForVirtIn(mem', t[Pml4], virt) == w
    ensures mapped ==> VirtToPhysIn(mem', t[Pml4], virt) == w.frame * 4096 + virt % 4096
    ensures forall v :: 0 <= v < USER_END && (!mapped || v / 4096 != virt / 4096) ==>
              PteForVirtIn(mem', t[Pml4], v) == PteForVirtIn(mem, t[Pml4], v) &&
              VirtToPhysIn(mem', t[Pml4], v) == VirtToPhysIn(mem, t[Pml4], v)
  {
    WalkersReadLeaf(mem', t', virt);
    forall v | 0 <= v < USER_END && (!mapped || v / 4096 != virt / 4096)
      ensures PteForVirtIn(mem', t[Pml4], v) == PteForVirtIn(mem, t[Pml4], v)
      ensures VirtToPhysIn(mem', t[Pml4], v) == VirtToPhysIn(mem, t[Pml4], v)
    {
      IndicesOfPage(v, virt);
      WalkersReadLeaf(mem, t, v);
      WalkersReadLeaf(mem', t', v);
      assert UserQuad(Indices(v));
    }
  }
}
