/** The buddy allocator of one zone: `__alloc_pages_zone`, `__free_pages` and the seeding of `mm_zone_init`. */
module Buddy {
  import opened Words

  const MAX_ORDER: nat := 11

  /** `2^order` pages starting at page frame `pfn`. */
  datatype Blk = Blk(pfn: nat, order: nat)

  /** One free list per order. */
  type Lists = f: seq<seq<nat>> | |f| == MAX_ORDER witness [[], [], [], [], [], [], [], [], [], [], []]

  /** `pfn ^ (1 << order)` */
  function BuddyOf(pfn: nat, k: nat): nat { Xor(pfn, Pow2(k)) }

  predicate Aligned(pfn: nat, k: nat) { pfn % Pow2(k) == 0 }

  // ---- alignment

  lemma ModTimes(q: nat, m: nat)
    requires m > 0
    ensures (q * m) % m == 0 && (q * m) / m == q
  {
    ModUnique(q * m, m, q, 0);
  }

  lemma AlignedQuotient(p: nat, k: nat) returns (q: nat)
    requires Aligned(p, k)
    ensures p == q * Pow2(k)
  {
    q := p / Pow2(k);
    assert p == q * Pow2(k) + p % Pow2(k);
  }

  /** The buddy of the `q`-th block of its order is the next one for even `q`, the one before for odd `q`. */
  lemma BuddyOfMultiple(q: nat, k: nat)
    ensures Aligned(q * Pow2(k), k)
    ensures BuddyOf(q * Pow2(k), k) == if q % 2 == 0 then q * Pow2(k) + Pow2(k) else q * Pow2(k) - Pow2(k)
  {
    hide Xor, Pow2;
    ModTimes(q, Pow2(k));
    XorPow2(q * Pow2(k), k);
  }

  lemma Double(q: nat, m: nat)
    ensures q * (2 * m) == (2 * q) * m && (2 * q + 1) * m == (2 * q) * m + m
  {
  }

  /** The two halves of an aligned block are aligned and each other's buddies. */
  lemma Halves(p: nat, k: nat)
    requires Aligned(p, k + 1)
    ensures Aligned(p, k) && Aligned(p + Pow2(k), k)
    ensures BuddyOf(p, k) == p + Pow2(k) && BuddyOf(p + Pow2(k), k) == p
  {
    var q := AlignedQuotient(p, k + 1);
    Double(q, Pow2(k));
    hide Aligned, BuddyOf;
    BuddyOfMultiple(2 * q, k);
    BuddyOfMultiple(2 * q + 1, k);
  }

  /** A block and its buddy are the two halves of a block one order up. */
  lemma Pair(p: nat, k: nat)
    requires Aligned(p, k)
    ensures var b := BuddyOf(p, k);
            var lo := if b < p then b else p;
            Aligned(lo, k + 1) && (lo == p ==> b == p + Pow2(k)) && (lo == b ==> p == b + Pow2(k)) && b != p
  {
    var q := AlignedQuotient(p, k);
    hide Aligned, BuddyOf;
    BuddyOfMultiple(q, k);
    BuddyOfMultiple(q / 2, k + 1);
    Double(q / 2, Pow2(k));
    assert q == 2 * (q / 2) || q == 2 * (q / 2) + 1;
  }

  // ---- packings

  ghost predicate Covers(b: Blk, x: nat) { b.pfn <= x < b.pfn + Pow2(b.order) }

  ghost predicate Disjoint(b: Blk, c: Blk) {
    b.pfn + Pow2(b.order) <= c.pfn || c.pfn + Pow2(c.order) <= b.pfn
  }

  /** Aligned, pairwise disjoint blocks that cover exactly the pages of `seed`. */
  ghost predicate Packed(s: set<Blk>, seed: set<nat>) {
    (forall b :: b in s ==> b.order < MAX_ORDER && Aligned(b.pfn, b.order)) &&
    (forall b, c :: b in s && c in s && b != c ==> Disjoint(b, c)) &&
    (forall b, x :: b in s && Covers(b, x) ==> x in seed) &&
    (forall x :: x in seed ==> exists b :: b in s && Covers(b, x))
  }

  /** Cutting a block in two keeps the packing. */
  lemma SplitPacked(s: set<Blk>, seed: set<nat>, p: nat, k: nat)
    requires Packed(s, seed) && Blk(p, k + 1) in s
    ensures Packed(s - {Blk(p, k + 1)} + {Blk(p, k), Blk(p + Pow2(k), k)}, seed)
  {
    var w, lo, hi := Blk(p, k + 1), Blk(p, k), Blk(p + Pow2(k), k);
    var s' := s - {w} + {lo, hi};
    Halves(p, k);
    hide Aligned;
    forall x ensures Covers(w, x) <==> Covers(lo, x) || Covers(hi, x) {}
    forall b | b in s && b != w ensures Disjoint(b, lo) && Disjoint(b, hi) { assert Disjoint(b, w); }
    forall x | x in seed ensures exists b :: b in s' && Covers(b, x) {
      var b :| b in s && Covers(b, x);
      if b == w {
        assert Covers(lo, x) || Covers(hi, x);
      } else {
        assert b in s';
      }
    }
  }

  /** Joining a block and its buddy keeps the packing. */
  lemma MergePacked(s: set<Blk>, seed: set<nat>, p: nat, k: nat)
    requires Packed(s, seed) && Blk(p, k) in s && Blk(p + Pow2(k), k) in s && k + 1 < MAX_ORDER && Aligned(p, k + 1)
    ensures Packed(s - {Blk(p, k), Blk(p + Pow2(k), k)} + {Blk(p, k + 1)}, seed)
  {
    hide Aligned;
    var w, lo, hi := Blk(p, k + 1), Blk(p, k), Blk(p + Pow2(k), k);
    var s' := s - {lo, hi} + {w};
    forall x ensures Covers(w, x) <==> Covers(lo, x) || Covers(hi, x) {}
    forall b | b in s && b != lo && b != hi ensures Disjoint(b, w) {
      assert Disjoint(b, lo) && Disjoint(b, hi);
    }
    forall x | x in seed ensures exists b :: b in s' && Covers(b, x) {
      var b :| b in s && Covers(b, x);
      if b == lo || b == hi {
        assert Covers(w, x);
      } else {
        assert b in s';
      }
    }
  }

  // ---- free lists

  ghost function FreeBlocks(f: Lists): set<Blk> {
    set k, p | 0 <= k < MAX_ORDER && p in f[k] :: Blk(p, k)
  }

  ghost predicate NoDup(s: seq<nat>) { forall i, j :: 0 <= i < j < |s| ==> s[i] != s[j] }

  /** `list_add`: at the head. */
  function Push(f: Lists, k: nat, p: nat): Lists
    requires k < MAX_ORDER
  {
    f[k := [p] + f[k]]
  }

  /** `list_del` of an element known to be there. */
  function Without(s: seq<nat>, p: nat): seq<nat> {
    if s == [] then [] else if s[0] == p then s[1..] else [s[0]] + Without(s[1..], p)
  }

  function Drop(f: Lists, k: nat, p: nat): Lists
    requires k < MAX_ORDER
  {
    f[k := Without(f[k], p)]
  }

  lemma {:induction false} WithoutFacts(s: seq<nat>, p: nat)
    requires NoDup(s) && p in s
    ensures NoDup(Without(s, p)) && |Without(s, p)| == |s| - 1
    ensures forall x :: x in Without(s, p) <==> x in s && x != p
  {
    assert s == [s[0]] + s[1..];
    assert s[0] !in s[1..];
    if s[0] != p {
      WithoutFacts(s[1..], p);
    }
  }

  lemma PushFacts(f: Lists, k: nat, p: nat)
    requires k < MAX_ORDER
    ensures FreeBlocks(Push(f, k, p)) == FreeBlocks(f) + {Blk(p, k)}
    ensures forall j, x :: 0 <= j < MAX_ORDER ==> (x in Push(f, k, p)[j] <==> x in f[j] || (j == k && x == p))
  {
    var f' := Push(f, k, p);
    forall j, x | 0 <= j < MAX_ORDER ensures x in f'[j] <==> x in f[j] || (j == k && x == p) {}
    forall b | b in FreeBlocks(f) + {Blk(p, k)} ensures b in FreeBlocks(f') {
      assert b.pfn in f'[b.order];
    }
  }

  lemma DropFacts(f: Lists, k: nat, p: nat)
    requires k < MAX_ORDER && NoDup(f[k]) && p in f[k]
    ensures FreeBlocks(Drop(f, k, p)) == FreeBlocks(f) - {Blk(p, k)}
    ensures forall j, x :: 0 <= j < MAX_ORDER ==> (x in Drop(f, k, p)[j] <==> x in f[j] && !(j == k && x == p))
  {
    WithoutFacts(f[k], p);
    var f' := Drop(f, k, p);
    forall j, x | 0 <= j < MAX_ORDER ensures x in f'[j] <==> x in f[j] && !(j == k && x == p) {}
    forall b | b in FreeBlocks(f) && b != Blk(p, k) ensures b in FreeBlocks(f') {
      assert b.pfn in f'[b.order];
    }
  }

  /** The zone's invariant: free and allocated blocks together pack the seeded pages. */
  ghost predicate Inv(f: Lists, live: set<Blk>, seed: set<nat>) {
    (forall k :: 0 <= k < MAX_ORDER ==> NoDup(f[k])) &&
    FreeBlocks(f) !! live && Packed(FreeBlocks(f) + live, seed)
  }

  // ---- what the two loops do to the lists

  /** Splitting: the upper half goes on its list, down to the wanted order. */
  function SplitDown(f: Lists, p: nat, k: nat, order: nat): Lists
    requires order <= k < MAX_ORDER
    decreases k
  {
    if k == order then f else SplitDown(Push(f, k - 1, p + Pow2(k - 1)), p, k - 1, order)
  }

  datatype Merged = Merged(lists: Lists, pfn: nat, order: nat)

  /** Coalescing: as long as the buddy is on its list, take it off and continue one order up. */
  function MergeUp(f: Lists, p: nat, k: nat): (r: Merged)
    requires k < MAX_ORDER
    ensures k <= r.order < MAX_ORDER
    decreases MAX_ORDER - k
  {
    var b := BuddyOf(p, k);
    if k < MAX_ORDER - 1 && b in f[k] then MergeUp(Drop(f, k, b), if b < p then b else p, k + 1)
    else Merged(Push(f, k, p), p, k)
  }

  /** One split, with the block in hand counted as live. */
  lemma SplitStep(f: Lists, live: set<Blk>, seed: set<nat>, p: nat, k: nat)
    requires k + 1 < MAX_ORDER && Blk(p, k + 1) !in live && Inv(f, live + {Blk(p, k + 1)}, seed)
    ensures Blk(p, k) !in live && Inv(Push(f, k, p + Pow2(k)), live + {Blk(p, k)}, seed)
    ensures p !in f[k] && p + Pow2(k) !in f[k]
  {
    var w, lo, hi := Blk(p, k + 1), Blk(p, k), Blk(p + Pow2(k), k);
    var s := FreeBlocks(f) + (live + {w});
    var f' := Push(f, k, p + Pow2(k));
    assert w in s;
    assert !Disjoint(lo, w) && !Disjoint(hi, w);
    assert lo !in s && hi !in s;
    SplitPacked(s, seed, p, k);
    PushFacts(f, k, p + Pow2(k));
    hide Packed;
    assert FreeBlocks(f') + (live + {lo}) == s - {w} + {lo, hi};
  }

  lemma {:induction false} SplitKeeps(f: Lists, live: set<Blk>, seed: set<nat>, p: nat, k: nat, order: nat)
    requires order <= k < MAX_ORDER && Blk(p, k) !in live && Inv(f, live + {Blk(p, k)}, seed)
    ensures Blk(p, order) !in live && Inv(SplitDown(f, p, k, order), live + {Blk(p, order)}, seed)
    decreases k
  {
    if k > order {
      SplitStep(f, live, seed, p, k - 1);
      SplitKeeps(Push(f, k - 1, p + Pow2(k - 1)), live, seed, p, k - 1, order);
    }
  }

  /** Taking a block off its list. */
  lemma TakeStep(f: Lists, live: set<Blk>, seed: set<nat>, p: nat, k: nat)
    requires k < MAX_ORDER && Inv(f, live, seed) && p in f[k]
    ensures Blk(p, k) !in live && Inv(Drop(f, k, p), live + {Blk(p, k)}, seed)
  {
    hide Packed;
    assert Blk(p, k) in FreeBlocks(f);
    DropFacts(f, k, p);
    WithoutFacts(f[k], p);
    assert FreeBlocks(Drop(f, k, p)) + (live + {Blk(p, k)}) == FreeBlocks(f) + live;
  }

  lemma MergeStep(f: Lists, live: set<Blk>, seed: set<nat>, p: nat, k: nat)
    requires k < MAX_ORDER - 1 && Blk(p, k) !in live && Inv(f, live + {Blk(p, k)}, seed) && BuddyOf(p, k) in f[k]
    ensures var b := BuddyOf(p, k);
            var lo := if b < p then b else p;
            Blk(lo, k + 1) !in live && Inv(Drop(f, k, b), live + {Blk(lo, k + 1)}, seed)
  {
    var b := BuddyOf(p, k);
    var lo := if b < p then b else p;
    var s := FreeBlocks(f) + (live + {Blk(p, k)});
    assert Blk(p, k) in s && Blk(b, k) in FreeBlocks(f);
    Pair(p, k);
    hide Aligned, BuddyOf;
    assert !Disjoint(Blk(lo, k), Blk(lo, k + 1));
    assert Blk(lo, k + 1) !in s;
    MergePacked(s, seed, lo, k);
    DropFacts(f, k, b);
    WithoutFacts(f[k], b);
    hide Packed;
    assert FreeBlocks(Drop(f, k, b)) + (live + {Blk(lo, k + 1)}) == s - {Blk(lo, k), Blk(lo + Pow2(k), k)} + {Blk(lo, k + 1)};
  }

  lemma PutStep(f: Lists, live: set<Blk>, seed: set<nat>, p: nat, k: nat)
    requires k < MAX_ORDER && Blk(p, k) !in live && Inv(f, live + {Blk(p, k)}, seed)
    ensures Inv(Push(f, k, p), live, seed)
  {
    hide Packed;
    PushFacts(f, k, p);
    assert Blk(p, k) !in FreeBlocks(f);
    assert p !in f[k];
    assert FreeBlocks(Push(f, k, p)) + live == FreeBlocks(f) + (live + {Blk(p, k)});
  }

  lemma {:induction false} MergeKeeps(f: Lists, live: set<Blk>, seed: set<nat>, p: nat, k: nat)
    requires k < MAX_ORDER && Blk(p, k) !in live && Inv(f, live + {Blk(p, k)}, seed)
    ensures Inv(MergeUp(f, p, k).lists, live, seed)
    decreases MAX_ORDER - k
  {
    var b := BuddyOf(p, k);
    if k < MAX_ORDER - 1 && b in f[k] {
      MergeStep(f, live, seed, p, k);
      MergeKeeps(Drop(f, k, b), live, seed, if b < p then b else p, k + 1);
    } else {
      PutStep(f, live, seed, p, k);
    }
  }

  // ---- merging undoes splitting

  /** No block below the top order has its buddy on the same list. */
  ghost predicate NoPair(f: Lists) {
    forall k, p :: 0 <= k < MAX_ORDER - 1 && p in f[k] ==> BuddyOf(p, k) !in f[k]
  }

  /** The last split done is the first one undone. */
  lemma {:induction false} SplitLast(f: Lists, p: nat, k: nat, order: nat)
    requires order < k < MAX_ORDER
    ensures SplitDown(f, p, k, order) == Push(SplitDown(f, p, k, order + 1), order, p + Pow2(order))
    decreases k
  {
    if k > order + 1 {
      SplitLast(Push(f, k - 1, p + Pow2(k - 1)), p, k - 1, order);
    }
  }

  lemma PushDrop(f: Lists, k: nat, p: nat)
    requires k < MAX_ORDER
    ensures Drop(Push(f, k, p), k, p) == f
  {
    assert ([p] + f[k])[1..] == f[k];
    assert Push(f, k, p)[k := f[k]] == f;
  }

  lemma {:induction false} AlignedDown(p: nat, k: nat, j: nat)
    requires Aligned(p, k) && j <= k
    ensures Aligned(p, j)
    decreases k
  {
    if j < k {
      Halves(p, k - 1);
      AlignedDown(p, k - 1, j);
    }
  }

  /** Freeing a block that was split off retraces the splits exactly, list by list. */
  lemma {:induction false} MergeUndoesSplit(f: Lists, p: nat, k: nat, order: nat)
    requires order <= k < MAX_ORDER && Aligned(p, k)
    ensures MergeUp(SplitDown(f, p, k, order), p, order) == MergeUp(f, p, k)
    decreases k - order
  {
    if order < k {
      hide SplitDown, Aligned, BuddyOf, Without;
      SplitLast(f, p, k, order);
      AlignedDown(p, k, order + 1);
      Halves(p, order);
      var g := SplitDown(f, p, k, order + 1);
      PushDrop(g, order, p + Pow2(order));
      assert p + Pow2(order) in Push(g, order, p + Pow2(order))[order];
      MergeUndoesSplit(f, p, k, order + 1);
    }
  }

  /** In a zone without free pairs, allocating and freeing at once restores every list. */
  lemma AllocFreeRoundTrip(f: Lists, live: set<Blk>, seed: set<nat>, k: nat, order: nat)
    requires order <= k < MAX_ORDER && f[k] != [] && Inv(f, live, seed) && NoPair(f)
    ensures var p := f[k][0];
            MergeUp(SplitDown(Drop(f, k, p), p, k, order), p, order) == Merged(f, p, k)
  {
    var p := f[k][0];
    var f1 := Drop(f, k, p);
    assert Blk(p, k) in FreeBlocks(f) + live;
    MergeUndoesSplit(f1, p, k, order);
    assert k < MAX_ORDER - 1 ==> BuddyOf(p, k) !in f1[k];
    assert [p] + f1[k] == f[k];
    assert Push(f1, k, p) == f;
  }

  lemma BuddyInvolution(p: nat, k: nat)
    requires Aligned(p, k)
    ensures BuddyOf(BuddyOf(p, k), k) == p
  {
    Pair(p, k);
    var lo := if BuddyOf(p, k) < p then BuddyOf(p, k) else p;
    Halves(lo, k);
  }

  lemma DropKeepsNoPair(f: Lists, k: nat, p: nat)
    requires NoPair(f) && k < MAX_ORDER && NoDup(f[k]) && p in f[k]
    ensures NoPair(Drop(f, k, p))
  {
    DropFacts(f, k, p);
  }

  lemma {:induction false} SplitKeepsNoPair(f: Lists, live: set<Blk>, seed: set<nat>, p: nat, k: nat, order: nat)
    requires order <= k < MAX_ORDER && Blk(p, k) !in live && Inv(f, live + {Blk(p, k)}, seed) && NoPair(f)
    ensures NoPair(SplitDown(f, p, k, order))
    decreases k
  {
    if k > order {
      var f' := Push(f, k - 1, p + Pow2(k - 1));
      SplitStep(f, live, seed, p, k - 1);
      assert Aligned(p, k) by { assert Blk(p, k) in FreeBlocks(f) + (live + {Blk(p, k)}); }
      Halves(p, k - 1);
      NewPair(f, live + {Blk(p, k)}, seed, p + Pow2(k - 1), k - 1);
      SplitKeepsNoPair(f', live, seed, p, k - 1, order);
    }
  }

  /** A block whose buddy is not free may join its list. */
  lemma NewPair(f: Lists, live: set<Blk>, seed: set<nat>, p: nat, k: nat)
    requires k < MAX_ORDER && Inv(f, live, seed) && NoPair(f) && Aligned(p, k)
    requires k < MAX_ORDER - 1 ==> BuddyOf(p, k) !in f[k]
    ensures NoPair(Push(f, k, p))
  {
    PushFacts(f, k, p);
    Pair(p, k);
    forall q | q in f[k] && k < MAX_ORDER - 1 ensures BuddyOf(q, k) != p {
      assert Blk(q, k) in FreeBlocks(f) + live;
      BuddyInvolution(q, k);
    }
  }

  lemma {:induction false} MergeKeepsNoPair(f: Lists, live: set<Blk>, seed: set<nat>, p: nat, k: nat)
    requires k < MAX_ORDER && Blk(p, k) !in live && Inv(f, live + {Blk(p, k)}, seed) && NoPair(f)
    ensures NoPair(MergeUp(f, p, k).lists)
    decreases MAX_ORDER - k
  {
    var b := BuddyOf(p, k);
    assert Aligned(p, k) by { assert Blk(p, k) in FreeBlocks(f) + (live + {Blk(p, k)}); }
    if k < MAX_ORDER - 1 && b in f[k] {
      MergeStep(f, live, seed, p, k);
      DropKeepsNoPair(f, k, b);
      MergeKeepsNoPair(Drop(f, k, b), live, seed, if b < p then b else p, k + 1);
    } else {
      NewPair(f, live + {Blk(p, k)}, seed, p, k);
    }
  }

  // ---- counting pages

  /** Pages on the lists of order `k` and up. */
  function Pages(f: Lists, k: nat): nat
    requires k <= MAX_ORDER
    decreases MAX_ORDER - k
  {
    if k == MAX_ORDER then 0 else |f[k]| * Pow2(k) + Pages(f, k + 1)
  }

  lemma {:induction false} PagesUpdate(f: Lists, k: nat, l: seq<nat>, j: nat)
    requires k < MAX_ORDER && j <= MAX_ORDER
    ensures Pages(f[k := l], j) == Pages(f, j) + if j <= k then |l| * Pow2(k) - |f[k]| * Pow2(k) else 0
    decreases MAX_ORDER - j
  {
    if j < MAX_ORDER { PagesUpdate(f, k, l, j + 1); }
  }

  lemma OneMore(n: int, m: int)
    ensures (n + 1) * m == n * m + m
  {
  }

  lemma PagesPush(f: Lists, k: nat, p: nat)
    requires k < MAX_ORDER
    ensures Pages(Push(f, k, p), 0) == Pages(f, 0) + Pow2(k)
  {
    hide Pages, Pow2;
    PagesUpdate(f, k, [p] + f[k], 0);
    OneMore(|f[k]|, Pow2(k));
  }

  lemma PagesDrop(f: Lists, k: nat, p: nat)
    requires k < MAX_ORDER && NoDup(f[k]) && p in f[k]
    ensures Pages(Drop(f, k, p), 0) == Pages(f, 0) - Pow2(k)
  {
    hide Pages, Pow2, Without;
    WithoutFacts(f[k], p);
    PagesUpdate(f, k, Without(f[k], p), 0);
    OneMore(|f[k]| - 1, Pow2(k));
  }

  lemma {:induction false} PagesSplit(f: Lists, p: nat, k: nat, order: nat)
    requires order <= k < MAX_ORDER
    ensures Pages(SplitDown(f, p, k, order), 0) == Pages(f, 0) + Pow2(k) - Pow2(order)
    decreases k
  {
    if k > order {
      PagesPush(f, k - 1, p + Pow2(k - 1));
      PagesSplit(Push(f, k - 1, p + Pow2(k - 1)), p, k - 1, order);
    }
  }

  lemma {:induction false} PagesMerge(f: Lists, p: nat, k: nat)
    requires k < MAX_ORDER && forall j :: 0 <= j < MAX_ORDER ==> NoDup(f[j])
    ensures Pages(MergeUp(f, p, k).lists, 0) == Pages(f, 0) + Pow2(k)
    decreases MAX_ORDER - k
  {
    hide Pages, Without, BuddyOf;
    var b := BuddyOf(p, k);
    if k < MAX_ORDER - 1 && b in f[k] {
      PagesDrop(f, k, b);
      WithoutFacts(f[k], b);
      PagesMerge(Drop(f, k, b), if b < p then b else p, k + 1);
    } else {
      PagesPush(f, k, p);
    }
  }

  // ---- the zone

  class Zone {
    var free: Lists
    var nrFree: seq<nat>
    var pagesFree: nat
    ghost var live: set<Blk>      // blocks handed out and not yet freed
    ghost const seed: set<nat>    // the pages the zone was given
    ghost var gap: int            // how far pages_free runs ahead of the pages on the lists

    ghost predicate Valid()
      reads this
    {
      Inv(free, live, seed) &&
      |nrFree| == MAX_ORDER && (forall k :: 0 <= k < MAX_ORDER ==> nrFree[k] == |free[k]|) &&
      pagesFree == (Pages(free, 0) + gap) % U64
    }

    method PushBlock(k: nat, p: nat)
      requires k < MAX_ORDER && |nrFree| == MAX_ORDER
      requires forall j :: 0 <= j < MAX_ORDER ==> nrFree[j] == |free[j]|
      modifies this`free, this`nrFree
      ensures free == Push(old(free), k, p) && |nrFree| == MAX_ORDER
      ensures forall j :: 0 <= j < MAX_ORDER ==> nrFree[j] == |free[j]|
    {
      free := Push(free, k, p);
      nrFree := nrFree[k := nrFree[k] + 1];
    }

    method DropBlock(k: nat, p: nat)
      requires k < MAX_ORDER && |nrFree| == MAX_ORDER && NoDup(free[k]) && p in free[k]
      requires forall j :: 0 <= j < MAX_ORDER ==> nrFree[j] == |free[j]|
      modifies this`free, this`nrFree
      ensures free == Drop(old(free), k, p) && |nrFree| == MAX_ORDER
      ensures forall j :: 0 <= j < MAX_ORDER ==> nrFree[j] == |free[j]|
    {
      WithoutFacts(free[k], p);
      free := Drop(free, k, p);
      nrFree := nrFree[k := nrFree[k] - 1];
    }

    /** The seeding loop of `mm_zone_init`: every page from `start` to `end`, one at a time, on order 0. */
    method SeedPages(start: nat, end: nat)
      requires start <= end && free == Empty() && nrFree == seq(MAX_ORDER, _ => 0)
      modifies this`free, this`nrFree
      ensures |nrFree| == MAX_ORDER && forall k :: 0 <= k < MAX_ORDER ==> nrFree[k] == |free[k]|
      ensures NoDup(free[0]) && (forall k :: 1 <= k < MAX_ORDER ==> free[k] == [])
      ensures forall p :: p in free[0] <==> p in Range(start, end)
      ensures Pages(free, 0) == end - start
    {
      hide Pages;
      EmptyPages();
      var pfn := start;
      while pfn < end
        invariant start <= pfn <= end
        invariant |nrFree| == MAX_ORDER && forall k :: 0 <= k < MAX_ORDER ==> nrFree[k] == |free[k]|
        invariant NoDup(free[0]) && forall k :: 1 <= k < MAX_ORDER ==> free[k] == []
        invariant forall p :: p in free[0] <==> p in Range(start, pfn)
        invariant Pages(free, 0) == pfn - start
      {
        PagesPush(free, 0, pfn);
        InRange(start, pfn);
        ghost var before := free[0];
        PushBlock(0, pfn);
        assert free[0] == [pfn] + before;
        assert Range(start, pfn + 1) == Range(start, pfn) + {pfn};
        pfn := pfn + 1;
      }
    }

    /** The part of `mm_zone_init` that sets up one zone with the pages from `start` to `end`. */
    constructor (start: nat, end: nat)
      requires start <= end < U64
      ensures Valid() && live == {} && gap == 0 && seed == Range(start, end)
      ensures FreeBlocks(free) == set p | p in seed :: Blk(p, 0)
    {
      hide Inv, FreeBlocks, Pages;
      free := Empty();
      nrFree := seq(MAX_ORDER, _ => 0);
      pagesFree := end - start;
      live, gap := {}, 0;
      seed := Range(start, end);
      new;
      SeedPages(start, end);
      SeededInv(free, seed);
    }

    /** Order of the smallest non-empty list from `order` up, or MAX_ORDER. */
    ghost function Fit(order: nat): (k: nat)
      reads this
      ensures k >= order || k == MAX_ORDER
      ensures k < MAX_ORDER ==> free[k] != []
      ensures forall j :: order <= j < MAX_ORDER && j < k ==> free[j] == []
      ensures order < MAX_ORDER ==> k <= MAX_ORDER
      decreases MAX_ORDER - order
    {
      if order >= MAX_ORDER then MAX_ORDER else if free[order] != [] then order else Fit(order + 1)
    }

    /** `__alloc_pages_zone`: -1 is NULL. An order of MAX_ORDER or more finds no list. */
    method AllocPages(order: nat) returns (r: int)
      requires Valid()
      modifies this`free, this`nrFree, this`pagesFree, this`live
      ensures Valid()
      ensures r == -1 <==> forall k :: order <= k < MAX_ORDER ==> old(free)[k] == []
      ensures r == -1 ==> free == old(free) && live == old(live) && pagesFree == old(pagesFree)
      ensures r != -1 ==> var k := old(Fit(order));
              k < MAX_ORDER && r == old(free)[k][0] && free == SplitDown(Drop(old(free), k, r), r, k, order)
      ensures r != -1 ==> Blk(r, order) !in old(live) && live == old(live) + {Blk(r, order)}
    {
      hide Inv, Pages, SplitDown, Without;
      var k := order;
      while k < MAX_ORDER
        invariant order <= k && (k <= MAX_ORDER || k == order)
        invariant forall j :: order <= j < k && j < MAX_ORDER ==> free[j] == []
        invariant Fit(order) == Fit(k)
      {
        if free[k] != [] {
          r := free[k][0];
          SplitFrom(r, k, order);
          return;
        }
        k := k + 1;
      }
      r := -1;
    }

    method SplitFrom(p: nat, k: nat, order: nat)
      requires Valid() && order <= k < MAX_ORDER && free[k] != [] && p == free[k][0]
      modifies this`free, this`nrFree, this`pagesFree, this`live
      ensures Valid() && free == SplitDown(Drop(old(free), k, p), p, k, order)
      ensures Blk(p, order) !in old(live) && live == old(live) + {Blk(p, order)}
    {
      hide Pages, Packed, FreeBlocks, Without;
      ghost var f0 := free;
      TakeStep(free, live, seed, p, k);
      PagesDrop(free, k, p);
      PagesSplit(Drop(f0, k, p), p, k, order);
      SplitKeeps(Drop(f0, k, p), live, seed, p, k, order);
      DropBlock(k, p);
      var j := k;
      while j > order
        modifies this`free, this`nrFree
        invariant order <= j <= k
        invariant SplitDown(free, p, j, order) == SplitDown(Drop(f0, k, p), p, k, order)
        invariant |nrFree| == MAX_ORDER && forall i :: 0 <= i < MAX_ORDER ==> nrFree[i] == |free[i]|
      {
        j := j - 1;
        PushBlock(j, p + Pow2(j));
      }
      live := live + {Blk(p, order)};
      var size: int := Pow2(order);
      ModAdd(Pages(f0, 0) + gap, -size);
      pagesFree := (pagesFree - size) % U64;
    }

    /** `__free_pages` of a block that was handed out. `pages_free` grows by the size of the merged block. */
    method FreePages(pfn: nat, order: nat)
      requires Valid() && Blk(pfn, order) in live && order < MAX_ORDER
      modifies this`free, this`nrFree, this`pagesFree, this`live, this`gap
      ensures Valid() && live == old(live) - {Blk(pfn, order)}
      ensures free == MergeUp(old(free), pfn, order).lists
      ensures gap == old(gap) + Pow2(MergeUp(old(free), pfn, order).order) - Pow2(order)
    {
      hide Pages, Packed, FreeBlocks, Without, BuddyOf;
      ghost var f0, r, rest := free, MergeUp(free, pfn, order), live - {Blk(pfn, order)};
      assert rest + {Blk(pfn, order)} == live;
      MergeKeeps(f0, rest, seed, pfn, order);
      PagesMerge(f0, pfn, order);
      var p, k := pfn, order;
      var coalescing := true;
      while k < MAX_ORDER - 1 && coalescing
        modifies this`free, this`nrFree
        invariant order <= k < MAX_ORDER
        invariant MergeUp(free, p, k) == r && Inv(free, rest + {Blk(p, k)}, seed) && Blk(p, k) !in rest
        invariant |nrFree| == MAX_ORDER && forall i :: 0 <= i < MAX_ORDER ==> nrFree[i] == |free[i]|
        invariant !coalescing ==> BuddyOf(p, k) !in free[k]
        decreases coalescing, MAX_ORDER - k
      {
        var buddy := BuddyOf(p, k);
        if buddy !in free[k] {
          coalescing := false;
        } else {
          MergeStep(free, rest, seed, p, k);
          DropBlock(k, buddy);
          if buddy < p { p := buddy; }
          k := k + 1;
        }
      }
      PushBlock(k, p);
      live := rest;
      var size: int := Pow2(k);
      ModAdd(Pages(f0, 0) + gap, size);
      pagesFree := (pagesFree + size) % U64;
      gap := gap + Pow2(k) - Pow2(order);
    }
  }

  function Empty(): Lists { [[], [], [], [], [], [], [], [], [], [], []] }

  lemma {:induction false} EmptyPagesFrom(k: nat)
    requires k <= MAX_ORDER
    ensures Pages(Empty(), k) == 0
    decreases MAX_ORDER - k
  {
    if k < MAX_ORDER {
      EmptyPagesFrom(k + 1);
      assert |Empty()[k]| == 0;
    }
  }

  lemma EmptyPages()
    ensures Pages(Empty(), 0) == 0
  {
    EmptyPagesFrom(0);
  }

  ghost function Range(a: nat, b: nat): set<nat> {
    if b <= a then {} else Range(a, b - 1) + {b - 1}
  }

  lemma {:induction false} InRange(a: nat, b: nat)
    ensures forall p :: p in Range(a, b) <==> a <= p < b
  {
    if a < b { InRange(a, b - 1); }
  }

  lemma SeededInv(f: Lists, seed: set<nat>)
    requires NoDup(f[0]) && (forall k :: 1 <= k < MAX_ORDER ==> f[k] == []) && forall p :: p in f[0] <==> p in seed
    ensures FreeBlocks(f) == (set p | p in seed :: Blk(p, 0)) && Inv(f, {}, seed)
  {
    var s := FreeBlocks(f);
    forall b | b in s ensures b.order == 0 && b.pfn in seed && Aligned(b.pfn, 0) {
      ModUnique(b.pfn, 1, b.pfn, 0);
    }
    forall p | p in seed ensures Blk(p, 0) in s && Covers(Blk(p, 0), p) {}
    assert s + {} == s;
  }

  /** "No free buddy pair" is kept by every operation but seldom established: `mm_zone_init` seeds single pages without
      merging, and only the smallest zones hold no pair of buddies. */
  lemma SeededNoPair(f: Lists, start: nat, end: nat)
    requires start <= end && (forall k :: 1 <= k < MAX_ORDER ==> f[k] == []) && forall p: nat :: p in f[0] <==> start <= p < end
    ensures NoPair(f) <==> end - start <= 1 || (end - start == 2 && start % 2 == 1)
  {
    forall p: nat ensures BuddyOf(p, 0) == if p % 2 == 0 then p + 1 else p - 1 { XorPow2(p, 0); }
    if end - start >= 2 {
      var p := if start % 2 == 0 then start else start + 1;
      assert p + 1 < end ==> p in f[0] && BuddyOf(p, 0) in f[0];
    }
  }
}
