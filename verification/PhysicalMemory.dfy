/** Physical memory and the bitmap page allocator (`pmm_alloc_page`, `pmm_free_page`).
    A frame is named by its number, the physical address divided by 4096. */
module PhysicalMemory {
  import opened Words

  /** A 64-bit page-table word cut at the only places the kernel's masks cut it:
      bits 0-11 (flags), bits 12-51 (frame number) and bits 52-63 (NX is bit 63). */
  datatype Word = Word(high: Bits12, frame: Frame, low: Bits12)
  type Bits12 = x: nat | x < 4096
  type Frame = f: nat | f < 0x100_0000_0000

  const ZERO: Word := Word(0, 0, 0)

  /** `a | b` and `a & b` on 12 bits. */
  function Or12(a: Bits12, b: Bits12): (r: Bits12)
    ensures r == Or(a, b)
  {
    Bits12Bound(a, b); Or(a, b)
  }

  function And12(a: Bits12, b: Bits12): (r: Bits12)
    ensures r == And(a, b)
  {
    AndBound(a, b); And(a, b)
  }

  lemma Bits12Bound(a: Bits12, b: Bits12)
    ensures Or(a, b) < 4096
  {
    assert Pow2(6) == 64;
    Pow2Add(6, 6);
    OrBound(a, b, 12);
  }

  /** One 4096-byte frame, as 512 words. */
  type Page = p: seq<Word> | |p| == 512 witness ZeroWords()
  type Memory = map<Frame, Page>

  function ZeroWords(): (p: seq<Word>)
    ensures |p| == 512 && forall i :: 0 <= i < 512 ==> p[i] == ZERO
  {
    seq(512, i => ZERO)
  }

  /** The frame `f`, read through the kernel's alias of physical memory. */
  function Load(mem: Memory, f: Frame): (p: Page)
    ensures f !in mem ==> forall i :: 0 <= i < 512 ==> p[i] == ZERO
  {
    if f in mem then mem[f] else ZeroWords()
  }

  /** `BITMAP_SIZE` words of 64 bits each. */
  const BITMAP_WORDS: nat := 1024
  const FRAMES: nat := 65536

  predicate IsFree(ws: seq<nat>, base: nat, f: nat)
    requires |ws| == BITMAP_WORDS
  {
    base <= f < base + FRAMES && BitAt(ws, f - base)
  }

  /** The frames whose bit is set; bit 0 stands for frame `base`. */
  ghost function FreeSet(ws: seq<nat>, base: nat): set<nat>
    requires |ws| == BITMAP_WORDS
  {
    set f | base <= f < base + FRAMES && IsFree(ws, base, f)
  }

  /** Clearing the lowest set bit takes the lowest frame out of the free set. */
  lemma TakeLowest(ws: seq<nat>, base: nat, p: nat)
    requires |ws| == BITMAP_WORDS && IsBitmap(ws) && p < FRAMES
    requires BitAt(ws, p) && forall q :: 0 <= q < p ==> !BitAt(ws, q)
    ensures IsBitmap(ClearAt(ws, p))
    ensures base + p in FreeSet(ws, base)
    ensures FreeSet(ClearAt(ws, p), base) == FreeSet(ws, base) - {base + p}
    ensures forall f :: f in FreeSet(ws, base) ==> base + p <= f
  {
    ClearAtBits(ws, p);
    assert IsFree(ws, base, base + p);
    forall f | base <= f < base + FRAMES
      ensures IsFree(ClearAt(ws, p), base, f) == (f != base + p && IsFree(ws, base, f))
    {
      assert BitAt(ClearAt(ws, p), f - base) == (f - base != p && BitAt(ws, f - base));
    }
  }

  lemma PutBack(ws: seq<nat>, base: nat, p: nat)
    requires |ws| == BITMAP_WORDS && IsBitmap(ws) && p < FRAMES
    ensures IsBitmap(SetAt(ws, p))
    ensures FreeSet(SetAt(ws, p), base) == FreeSet(ws, base) + {base + p}
  {
    SetAtBits(ws, p);
    forall f | base <= f < base + FRAMES
      ensures IsFree(SetAt(ws, p), base, f) == (f == base + p || IsFree(ws, base, f))
    {
      assert BitAt(SetAt(ws, p), f - base) == (f - base == p || BitAt(ws, f - base));
    }
  }

  class Machine {
    /** `page_bitmap`: a set bit is a free frame. */
    const bitmap: array<nat>
    /** `bitmap_base` as a frame number; never 0, so that 0 can mean "out of memory". */
    const base: Frame
    var mem: Memory

    /** `pmm_init` followed by the region that fixes `bitmap_base`. */
    constructor (base: Frame)
      requires base > 0 && base + FRAMES <= 0x100_0000_0000
      ensures Valid() && fresh(bitmap) && this.base == base && mem == map[]
      ensures forall f :: f in Free() <==> base <= f < base + FRAMES
    {
      this.bitmap := new nat[BITMAP_WORDS](_ => U64 - 1);
      this.base := base;
      mem := map[];
      new;
      Pow2Is64();
      forall f | base <= f < base + FRAMES ensures IsFree(bitmap[..], base, f) {
        AllOnes(64, (f - base) % 64);
      }
    }

    ghost predicate Valid()
      reads this, bitmap
    {
      bitmap.Length == BITMAP_WORDS && IsBitmap(bitmap[..]) &&
      0 < base <= base + FRAMES <= 0x100_0000_0000
    }

    ghost function Free(): set<nat>
      requires Valid()
      reads this, bitmap
    {
      FreeSet(bitmap[..], base)
    }

    /** `pmm_alloc_page`: takes the lowest free frame; 0 means out of memory. */
    method AllocPage() returns (r: Frame)
      requires Valid()
      modifies bitmap
      ensures Valid()
      ensures r == 0 <==> old(Free()) == {}
      ensures r == 0 ==> bitmap[..] == old(bitmap[..])
      ensures r != 0 ==> r in old(Free()) && Free() == old(Free()) - {r} && base <= r < base + FRAMES
      ensures r != 0 ==> forall f :: f in old(Free()) ==> r <= f
    {
      var i := 0;
      while i < BITMAP_WORDS
        invariant 0 <= i <= BITMAP_WORDS
        invariant bitmap[..] == old(bitmap[..])
        invariant forall j :: 0 <= j < i ==> bitmap[j] == 0
      {
        if bitmap[i] != 0 {
          ghost var before := bitmap[..];
          var bit := LowestBit(bitmap[i]);
          FirstSetBit(before, i);
          bitmap[i] := AndNot(bitmap[i], Pow2(bit));
          assert bitmap[..] == ClearAt(before, 64 * i + bit);
          TakeLowest(before, base, 64 * i + bit);
          return base + (i * 64 + bit);
        }
        i := i + 1;
      }
      AllWordsZero(bitmap[..]);
      r := 0;
    }

    /** `pmm_free_page`: a frame outside the managed range is ignored. */
    method FreePage(f: nat)
      requires Valid()
      modifies bitmap
      ensures Valid()
      ensures base <= f < base + FRAMES ==> Free() == old(Free()) + {f}
      ensures !(base <= f < base + FRAMES) ==> bitmap[..] == old(bitmap[..])
    {
      if f < base { return; }
      var page := f - base;
      if page / 64 < BITMAP_WORDS {
        ghost var before := bitmap[..];
        bitmap[page / 64] := Or(bitmap[page / 64], Pow2(page % 64));
        assert bitmap[..] == SetAt(before, page);
        PutBack(before, base, page);
      }
    }
  }
}
