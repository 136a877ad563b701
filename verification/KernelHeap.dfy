/** The kernel heap: `slab_bump`, `kmalloc` and `kfree` over one byte array with in-band headers. */
module KernelHeap {
  import opened Words
  import opened ByteStore

  const HEAP_SIZE: nat := 64 * 1024 * 1024
  const ALLOC_MAGIC: nat := 0xA110CA7E
  const FREE_MAGIC: nat := 0xFEE1DEAD

  /** One block: an 8-byte header at `off`, then `size` bytes of payload. */
  datatype Block = Block(off: nat, size: nat, free: bool)

  function End(b: Block): nat { b.off + 8 + b.size }

  predicate GoodBlock(b: Block) { b.size % 8 == 0 && b.size >= 16 }

  function Magic(b: Block): nat { if b.free then FREE_MAGIC else ALLOC_MAGIC }

  /** The eight header bytes in memory describe `b`. */
  ghost predicate Header(mem: seq<Byte>, b: Block)
    requires b.off + 8 <= |mem|
  {
    Get(mem, b.off, 4) == b.size && Get(mem, b.off + 4, 4) == Magic(b)
  }

  /** Hops of 8 + size from `from` visit exactly the headers of `bs` and land on `to`. */
  ghost predicate Tiles(mem: seq<Byte>, bs: seq<Block>, from: nat, to: nat) {
    if bs == [] then from == to
    else
      bs[0].off == from && GoodBlock(bs[0]) && End(bs[0]) <= to <= |mem| &&
      Header(mem, bs[0]) && Tiles(mem, bs[1..], End(bs[0]), to)
  }

  /** Where the blocks starting at `from` end. */
  function EndOf(bs: seq<Block>, from: nat): nat {
    if bs == [] then from else End(bs[|bs| - 1])
  }

  lemma {:induction false} TilesJoin(mem: seq<Byte>, xs: seq<Block>, ys: seq<Block>, a: nat, b: nat, c: nat)
    requires Tiles(mem, xs, a, b) && Tiles(mem, ys, b, c) && b <= c <= |mem|
    ensures Tiles(mem, xs + ys, a, c)
  {
    if xs == [] {
      assert xs + ys == ys;
    } else {
      TilesJoin(mem, xs[1..], ys, End(xs[0]), b, c);
      assert (xs + ys)[1..] == xs[1..] + ys;
    }
  }

  lemma {:induction false} TilesCut(mem: seq<Byte>, bs: seq<Block>, i: nat, a: nat, c: nat)
    requires Tiles(mem, bs, a, c) && i <= |bs| && c <= |mem|
    ensures var b := EndOf(bs[..i], a);
            a <= b <= c && Tiles(mem, bs[..i], a, b) && Tiles(mem, bs[i..], b, c)
  {
    if i == 0 {
      assert bs[..0] == [] && bs[0..] == bs;
      if bs != [] { TilesCut(mem, bs[1..], 0, End(bs[0]), c); }
    } else {
      TilesCut(mem, bs[1..], i - 1, End(bs[0]), c);
      assert bs[1..][..i - 1] == bs[..i][1..] && bs[1..][i - 1..] == bs[i..];
    }
  }

  /** Tiling depends on the bytes it covers only. */
  lemma {:induction false} TilesFrame(mem: seq<Byte>, mem': seq<Byte>, bs: seq<Block>, a: nat, b: nat)
    requires Tiles(mem, bs, a, b) && a <= b <= |mem| == |mem'| && mem'[a..b] == mem[a..b]
    ensures Tiles(mem', bs, a, b)
  {
    if bs != [] {
      SubSlice(mem, mem', a, b, a, a + 4);
      SubSlice(mem, mem', a, b, a + 4, a + 8);
      SubSlice(mem, mem', a, b, End(bs[0]), b);
      TilesFrame(mem, mem', bs[1..], End(bs[0]), b);
    }
  }

  /** Replacing the blocks `i..k` by others that tile the same bytes, with nothing else written. */
  lemma Replace(mem: seq<Byte>, mem': seq<Byte>, bs: seq<Block>, i: nat, k: nat, mid: seq<Block>, to: nat)
    requires Tiles(mem, bs, 0, to) && i <= k <= |bs| && to <= |mem| == |mem'|
    requires var a, b := EndOf(bs[..i], 0), EndOf(bs[..k], 0);
             a <= b <= to && mem'[..a] == mem[..a] && mem'[b..to] == mem[b..to] && Tiles(mem', mid, a, b)
    ensures Tiles(mem', bs[..i] + mid + bs[k..], 0, to)
  {
    hide Tiles;
    var a, b := EndOf(bs[..i], 0), EndOf(bs[..k], 0);
    TilesCut(mem, bs, i, 0, to);
    TilesCut(mem, bs, k, 0, to);
    assert mem'[0..a] == mem[0..a] by { assert mem'[0..a] == mem'[..a] && mem[0..a] == mem[..a]; }
    TilesFrame(mem, mem', bs[..i], 0, a);
    TilesFrame(mem, mem', bs[k..], b, to);
    TilesJoin(mem', bs[..i], mid, 0, a, b);
    TilesJoin(mem', bs[..i] + mid, bs[k..], 0, b, to);
  }

  /** Block `i` as the search meets it. */
  lemma BlockAt(mem: seq<Byte>, bs: seq<Block>, i: nat, to: nat)
    requires Tiles(mem, bs, 0, to) && i < |bs| && to <= |mem|
    ensures bs[i].off == EndOf(bs[..i], 0) && End(bs[i]) == EndOf(bs[..i + 1], 0) <= to
    ensures GoodBlock(bs[i]) && Header(mem, bs[i])
  {
    TilesCut(mem, bs, i, 0, to);
    assert bs[i..][0] == bs[i];
    assert bs[..i + 1][i] == bs[i];
  }

  lemma TilesEnd(mem: seq<Byte>, bs: seq<Block>, i: nat, to: nat)
    requires Tiles(mem, bs, 0, to) && to <= |mem| && i <= |bs|
    ensures i == |bs| <==> EndOf(bs[..i], 0) == to
  {
    TilesCut(mem, bs, i, 0, to);
  }

  // ---- headers in memory

  function PutHeader(mem: seq<Byte>, b: Block): (r: seq<Byte>)
    requires b.off + 8 <= |mem|
    ensures |r| == |mem|
  {
    Put(Put(mem, b.off, Encode(b.size, 4)), b.off + 4, Encode(Magic(b), 4))
  }

  lemma PutHeaderReads(mem: seq<Byte>, b: Block)
    requires b.off + 8 <= |mem| && b.size < U32
    ensures var mem' := PutHeader(mem, b);
            Header(mem', b) && mem'[..b.off] == mem[..b.off] && mem'[b.off + 8..] == mem[b.off + 8..]
  {
    assert Pow256(4) == U32;
    var m1 := Put(mem, b.off, Encode(b.size, 4));
    var m2 := PutHeader(mem, b);
    GetPut(mem, b.off, b.size, 4);
    GetPut(m1, b.off + 4, Magic(b), 4);
    hide Encode, Decode;
    PutApart(m1, b.off + 4, Encode(Magic(b), 4), b.off, b.off + 4);
  }

  // ---- what the allocator does to the list of blocks

  /** Index of the first free block of at least `n` bytes, or the length. */
  function FirstFit(bs: seq<Block>, n: nat): (i: nat)
    ensures i <= |bs|
    ensures i < |bs| ==> bs[i].free && bs[i].size >= n
    ensures forall j :: 0 <= j < i ==> !(bs[j].free && bs[j].size >= n)
  {
    if bs == [] then 0
    else if bs[0].free && bs[0].size >= n then 0
    else 1 + FirstFit(bs[1..], n)
  }

  /** What a free block becomes when `n` bytes are taken from it: split if 24 spare bytes remain. */
  function Taken(b: Block, n: nat): seq<Block> {
    if b.size >= n + 24 then [Block(b.off, n, false), Block(b.off + 8 + n, b.size - n - 8, true)]
    else [b.(free := false)]
  }

  /** The blocks after `kmalloc` of `n` (aligned) bytes found block `i`, or bumped if `i` is the length. */
  function Allocated(bs: seq<Block>, bump: nat, i: nat, n: nat): seq<Block>
    requires i <= |bs|
  {
    if i < |bs| then bs[..i] + Taken(bs[i], n) + bs[i + 1..] else bs + [Block(bump, n, false)]
  }

  /** The blocks after `kfree` of block `i`: marked free, and merged with the next one if that is free. */
  function Freed(bs: seq<Block>, i: nat): seq<Block>
    requires i < |bs|
  {
    if i + 1 < |bs| && bs[i + 1].free then
      bs[..i] + [Block(bs[i].off, bs[i].size + 8 + bs[i + 1].size, true)] + bs[i + 2..]
    else bs[..i] + [bs[i].(free := true)] + bs[i + 1..]
  }

  /** Total payload of the free or of the allocated blocks. */
  function Sum(bs: seq<Block>, free: bool): nat {
    if bs == [] then 0 else (if bs[0].free == free then bs[0].size else 0) + Sum(bs[1..], free)
  }

  lemma {:induction false} SumJoin(xs: seq<Block>, ys: seq<Block>, free: bool)
    ensures Sum(xs + ys, free) == Sum(xs, free) + Sum(ys, free)
  {
    if xs == [] {
      assert xs + ys == ys;
    } else {
      SumJoin(xs[1..], ys, free);
      assert (xs + ys)[1..] == xs[1..] + ys;
    }
  }

  lemma SumReplace(bs: seq<Block>, i: nat, k: nat, mid: seq<Block>, free: bool)
    requires i <= k <= |bs|
    ensures Sum(bs[..i] + mid + bs[k..], free) == Sum(bs, free) - Sum(bs[i..k], free) + Sum(mid, free)
  {
    hide Sum;
    SumJoin(bs[..i] + mid, bs[k..], free);
    SumJoin(bs[..i], mid, free);
    SumJoin(bs[..i] + bs[i..k], bs[k..], free);
    SumJoin(bs[..i], bs[i..k], free);
    assert bs == bs[..i] + bs[i..k] + bs[k..];
  }

  // ---- disjointness and liveness

  /** Blocks follow one another without overlap. */
  lemma Ordered(mem: seq<Byte>, bs: seq<Block>, j: nat, k: nat, to: nat)
    requires Tiles(mem, bs, 0, to) && to <= |mem| && j < k < |bs|
    ensures End(bs[j]) <= bs[k].off
  {
    TilesCut(mem, bs, k, 0, to);
    BlockAt(mem, bs, k, to);
    BlockAt(mem, bs[..k], j, bs[k].off);
  }

  ghost function Live(bs: seq<Block>): set<Block> {
    set b | b in bs && !b.free
  }

  /** Live payloads are inside the heap, 8-byte aligned, and pairwise disjoint. */
  lemma LivePayloadsDisjoint(mem: seq<Byte>, bs: seq<Block>, to: nat, x: Block, y: Block)
    requires Tiles(mem, bs, 0, to) && to <= |mem| && x in Live(bs) && y in Live(bs) && x != y
    ensures x.off + 8 < End(x) <= to && (End(x) <= y.off || End(y) <= x.off)
  {
    var j :| 0 <= j < |bs| && bs[j] == x;
    var k :| 0 <= k < |bs| && bs[k] == y;
    BlockAt(mem, bs, j, to);
    if j < k { Ordered(mem, bs, j, k, to); } else { Ordered(mem, bs, k, j, to); }
  }

  /** A write confined to block `i` leaves the payload of every other block alone. */
  lemma OtherPayload(mem: seq<Byte>, mem': seq<Byte>, bs: seq<Block>, i: nat, to: nat, x: Block)
    requires Tiles(mem, bs, 0, to) && to <= |mem| == |mem'| && i < |bs| && x in bs && x != bs[i]
    requires End(bs[i]) <= |mem| && mem'[..bs[i].off] == mem[..bs[i].off] && mem'[End(bs[i])..] == mem[End(bs[i])..]
    ensures End(x) <= to && mem'[x.off + 8..End(x)] == mem[x.off + 8..End(x)]
  {
    var j :| 0 <= j < |bs| && bs[j] == x;
    BlockAt(mem, bs, j, to);
    if j < i {
      Ordered(mem, bs, j, i, to);
      SubSlice(mem, mem', 0, bs[i].off, x.off + 8, End(x));
    } else {
      Ordered(mem, bs, i, j, to);
      SubSlice(mem, mem', End(bs[i]), |mem|, x.off + 8, End(x));
    }
  }

  ghost predicate PayloadsKept(mem: seq<Byte>, mem': seq<Byte>, bs: seq<Block>) {
    forall x :: x in Live(bs) ==> End(x) <= |mem| == |mem'| && mem'[x.off + 8..End(x)] == mem[x.off + 8..End(x)]
  }

  /** Writes confined to block `i` if that is free, or to the region past the last block, keep all live payloads. */
  lemma KeptAfter(mem: seq<Byte>, mem': seq<Byte>, bs: seq<Block>, to: nat, i: nat)
    requires Tiles(mem, bs, 0, to) && to <= |mem| == |mem'| && i <= |bs| && (i < |bs| ==> bs[i].free)
    requires i < |bs| ==> End(bs[i]) <= |mem| && mem'[..bs[i].off] == mem[..bs[i].off] && mem'[End(bs[i])..] == mem[End(bs[i])..]
    requires i == |bs| ==> mem'[..to] == mem[..to]
    ensures PayloadsKept(mem, mem', bs)
  {
    forall x | x in Live(bs) ensures End(x) <= |mem| && mem'[x.off + 8..End(x)] == mem[x.off + 8..End(x)] {
      if i < |bs| {
        OtherPayload(mem, mem', bs, i, to, x);
      } else {
        var j :| 0 <= j < |bs| && bs[j] == x;
        BlockAt(mem, bs, j, to);
        SubSlice(mem, mem', 0, to, x.off + 8, End(x));
      }
    }
  }

  lemma AllocatedAt(bs: seq<Block>, bump: nat, i: nat, n: nat)
    requires i < |bs|
    ensures var bs' := Allocated(bs, bump, i, n); i < |bs'| && bs'[i] == Taken(bs[i], n)[0]
  {
  }

  /** Writing the header of block `i` alone touches no payload. */
  lemma HeaderWriteKeeps(mem: seq<Byte>, mem': seq<Byte>, bs: seq<Block>, i: nat, to: nat)
    requires Tiles(mem, bs, 0, to) && to <= |mem| == |mem'| && i < |bs| && bs[i].off + 8 <= |mem|
    requires mem'[..bs[i].off] == mem[..bs[i].off] && mem'[bs[i].off + 8..] == mem[bs[i].off + 8..]
    ensures PayloadsKept(mem, mem', bs)
  {
    BlockAt(mem, bs, i, to);
    SubSlice(mem, mem', bs[i].off + 8, |mem|, End(bs[i]), |mem|);
    forall x | x in Live(bs) ensures End(x) <= |mem| && mem'[x.off + 8..End(x)] == mem[x.off + 8..End(x)] {
      if x == bs[i] {
        SubSlice(mem, mem', bs[i].off + 8, |mem|, x.off + 8, End(x));
      } else {
        OtherPayload(mem, mem', bs, i, to, x);
      }
    }
  }

  /** The block made by an allocation, its place and the live set it joins. */
  lemma NewBlock(bs: seq<Block>, bump: nat, i: nat, n: nat)
    requires i <= |bs| && (i < |bs| ==> bs[i].free && bs[i].size >= n)
    ensures var bs' := Allocated(bs, bump, i, n);
            i < |bs'| && !bs'[i].free && n <= bs'[i].size && bs'[i] in Live(bs') && Live(bs') == Live(bs) + {bs'[i]} &&
            bs'[i].off == (if i < |bs| then bs[i].off else bump) && (i < |bs| ==> End(bs'[i]) <= End(bs[i]))
  {
    LiveAllocated(bs, bump, i, n);
    if i < |bs| { AllocatedAt(bs, bump, i, n); }
  }

  /** A second write inside the same range keeps what lies outside it. */
  lemma Inside(m0: seq<Byte>, m1: seq<Byte>, m2: seq<Byte>, x: nat, y: nat, a: nat, b: nat)
    requires |m0| == |m1| == |m2| && a <= x <= y <= b <= |m0|
    requires m2[..x] == m1[..x] && m2[y..] == m1[y..] && m1[..a] == m0[..a]
    ensures m2[..a] == m0[..a] && (m1[b..] == m0[b..] ==> m2[b..] == m0[b..])
  {
    SubSlice(m1, m2, 0, x, 0, a);
    SubSlice(m1, m2, y, |m1|, b, |m1|);
  }

  lemma LiveAllocated(bs: seq<Block>, bump: nat, i: nat, n: nat)
    requires i <= |bs| && (i < |bs| ==> bs[i].free)
    ensures var b := if i == |bs| then Block(bump, n, false) else Taken(bs[i], n)[0];
            Live(Allocated(bs, bump, i, n)) == Live(bs) + {b}
  {
    var b := if i == |bs| then Block(bump, n, false) else Taken(bs[i], n)[0];
    var bs' := Allocated(bs, bump, i, n);
    if i < |bs| {
      var t := Taken(bs[i], n);
      assert bs == bs[..i] + [bs[i]] + bs[i + 1..];
      assert bs' == bs[..i] + t + bs[i + 1..];
      assert forall x :: x in t ==> x == b || x.free;
      assert b in t;
      assert b in bs';
    }
  }

  lemma LiveFreed(mem: seq<Byte>, bs: seq<Block>, i: nat, to: nat)
    requires Tiles(mem, bs, 0, to) && to <= |mem| && i < |bs|
    ensures Live(Freed(bs, i)) == Live(bs) - {bs[i]}
  {
    forall k | 0 <= k < |bs| && k != i ensures bs[k] != bs[i] {
      if k < i { Ordered(mem, bs, k, i, to); } else { Ordered(mem, bs, i, k, to); }
    }
    forall x | x in Live(bs) && x != bs[i] ensures x in Freed(bs, i) {
      var k :| 0 <= k < |bs| && bs[k] == x;
      assert k != i;
      if k < i { assert bs[..i][k] == x; }
      else if k > i + 1 { assert bs[i + 2..][k - i - 2] == x && bs[i + 1..][k - i - 1] == x; }
      else { assert bs[i + 1..][0] == x; }
    }
    forall x | x in Live(Freed(bs, i)) ensures x in Live(bs) && x != bs[i] {}
  }

  // ---- the updates keep the tiling

  function PutMagic(mem: seq<Byte>, b: Block): (r: seq<Byte>)
    requires b.off + 8 <= |mem|
    ensures |r| == |mem|
  {
    Put(mem, b.off + 4, Encode(Magic(b), 4))
  }

  lemma PutMagicReads(mem: seq<Byte>, b: Block, b': Block)
    requires b.off + 8 <= |mem| && Header(mem, b) && b' == b.(free := b'.free)
    ensures var mem' := PutMagic(mem, b');
            Header(mem', b') && mem'[..b.off] == mem[..b.off] && mem'[b.off + 8..] == mem[b.off + 8..]
  {
    assert Pow256(4) == U32;
    GetPut(mem, b.off + 4, Magic(b'), 4);
    hide Encode, Decode;
    PutApart(mem, b.off + 4, Encode(Magic(b'), 4), b.off, b.off + 4);
  }

  lemma OneTile(mem: seq<Byte>, b: Block)
    requires GoodBlock(b) && End(b) <= |mem| && Header(mem, b)
    ensures Tiles(mem, [b], b.off, End(b))
  {
    assert [b][1..] == [];
  }

  /** Memory after taking `n` bytes of the free block `b`. */
  function TakenMem(mem: seq<Byte>, b: Block, n: nat): (r: seq<Byte>)
    requires End(b) <= |mem|
    ensures |r| == |mem|
  {
    if b.size >= n + 24 then PutHeader(PutHeader(mem, Taken(b, n)[1]), Taken(b, n)[0])
    else PutMagic(mem, Taken(b, n)[0])
  }

  lemma TakenTiles(mem: seq<Byte>, b: Block, n: nat)
    requires GoodBlock(b) && End(b) <= |mem| <= HEAP_SIZE && Header(mem, b) && b.size >= n && n % 8 == 0
    requires n >= 16 || b.size < 24
    ensures var mem' := TakenMem(mem, b, n);
            Tiles(mem', Taken(b, n), b.off, End(b)) && mem'[..b.off] == mem[..b.off] && mem'[End(b)..] == mem[End(b)..]
  {
    hide Header, PutHeader, PutMagic;
    var mem' := TakenMem(mem, b, n);
    var t := Taken(b, n);
    if b.size >= n + 24 {
      var m1 := PutHeader(mem, t[1]);
      PutHeaderReads(mem, t[1]);
      PutHeaderReads(m1, t[0]);
      HeaderKept(m1, mem', t[1], t[1].off, End(b));
      OneTile(mem', t[0]);
      OneTile(mem', t[1]);
      TilesJoin(mem', [t[0]], [t[1]], b.off, t[1].off, End(b));
      assert t == [t[0]] + [t[1]];
      OuterSlices(mem, m1, mem', t[1].off, b.off, End(b));
    } else {
      PutMagicReads(mem, b, t[0]);
      OneTile(mem', t[0]);
      OuterSlices(mem, mem, mem', b.off, b.off, End(b));
    }
  }

  lemma HeaderKept(mem: seq<Byte>, mem': seq<Byte>, b: Block, a: nat, c: nat)
    requires |mem| == |mem'| && a <= b.off && b.off + 8 <= c <= |mem| && mem'[a..] == mem[a..] && Header(mem, b)
    ensures Header(mem', b)
  {
    SubSlice(mem, mem', a, |mem|, b.off, b.off + 4);
    SubSlice(mem, mem', a, |mem|, b.off + 4, b.off + 8);
  }

  /** Two header stores between `a` and `c` leave both sides alone. */
  lemma OuterSlices(mem: seq<Byte>, m1: seq<Byte>, m2: seq<Byte>, x: nat, a: nat, c: nat)
    requires |mem| == |m1| == |m2| && a <= x && x + 8 <= c <= |mem| && a + 8 <= c
    requires m1[..x] == mem[..x] && m1[x + 8..] == mem[x + 8..]
    requires m2[..a] == m1[..a] && m2[a + 8..] == m1[a + 8..]
    ensures m2[..a] == mem[..a] && m2[c..] == mem[c..]
  {
    SubSlice(mem, m1, 0, x, 0, a);
    SubSlice(mem, m1, x + 8, |mem|, c, |mem|);
    SubSlice(m1, m2, a + 8, |mem|, c, |mem|);
  }

  /** Memory after freeing block `i`. */
  function FreedMem(mem: seq<Byte>, bs: seq<Block>, i: nat): (r: seq<Byte>)
    requires i < |bs| && bs[i].off + 8 <= |mem|
    ensures |r| == |mem|
  {
    var m1 := PutMagic(mem, bs[i].(free := true));
    if i + 1 < |bs| && bs[i + 1].free then Put(m1, bs[i].off, Encode(bs[i].size + 8 + bs[i + 1].size, 4)) else m1
  }

  lemma MarkedTiles(mem: seq<Byte>, bs: seq<Block>, i: nat, to: nat)
    requires Tiles(mem, bs, 0, to) && to <= |mem| && i < |bs| && bs[i].off + 8 <= |mem|
    ensures var b := bs[i].(free := true);
            var m1 := PutMagic(mem, b);
            Tiles(m1, bs[..i] + [b] + bs[i + 1..], 0, to) && Header(m1, b) &&
            m1[..b.off] == mem[..b.off] && m1[b.off + 8..] == mem[b.off + 8..]
  {
    hide Tiles, Header, PutMagic;
    BlockAt(mem, bs, i, to);
    var b := bs[i].(free := true);
    var m1 := PutMagic(mem, b);
    PutMagicReads(mem, bs[i], b);
    OneTile(m1, b);
    SubSlice(mem, m1, b.off + 8, |mem|, End(b), to);
    Replace(mem, m1, bs, i, i + 1, [b], to);
  }

  lemma MergedTiles(mem: seq<Byte>, bs: seq<Block>, i: nat, to: nat)
    requires Tiles(mem, bs, 0, to) && to <= |mem| <= HEAP_SIZE && i + 1 < |bs| && bs[i].free && bs[i + 1].free
    requires bs[i].off + 8 <= |mem|
    ensures var c := Block(bs[i].off, bs[i].size + 8 + bs[i + 1].size, true);
            var m2 := Put(mem, c.off, Encode(c.size, 4));
            Tiles(m2, bs[..i] + [c] + bs[i + 2..], 0, to) &&
            m2[..c.off] == mem[..c.off] && m2[c.off + 8..] == mem[c.off + 8..]
  {
    hide Tiles, Header, Encode;
    BlockAt(mem, bs, i, to);
    BlockAt(mem, bs, i + 1, to);
    var c := Block(bs[i].off, bs[i].size + 8 + bs[i + 1].size, true);
    var m2 := Put(mem, c.off, Encode(c.size, 4));
    GrowHeader(mem, bs[i], c);
    OneTile(m2, c);
    SubSlice(mem, m2, c.off + 8, |mem|, End(c), to);
    Replace(mem, m2, bs, i, i + 2, [c], to);
  }

  lemma FreedTiles(mem: seq<Byte>, bs: seq<Block>, i: nat, to: nat)
    requires Tiles(mem, bs, 0, to) && to <= |mem| <= HEAP_SIZE && i < |bs| && bs[i].off + 8 <= |mem|
    ensures var mem' := FreedMem(mem, bs, i);
            Tiles(mem', Freed(bs, i), 0, to) &&
            mem'[..bs[i].off] == mem[..bs[i].off] && mem'[bs[i].off + 8..] == mem[bs[i].off + 8..]
  {
    hide Tiles, Header, Encode, PutMagic, Put, Freed;
    var b := bs[i].(free := true);
    var bs1 := bs[..i] + [b] + bs[i + 1..];
    MarkedTiles(mem, bs, i, to);
    FreedIs(bs, i);
    if i + 1 < |bs| && bs[i + 1].free {
      MergedTiles(PutMagic(mem, b), bs1, i, to);
    }
  }

  lemma FreedIs(bs: seq<Block>, i: nat)
    requires i < |bs|
    ensures var bs1 := bs[..i] + [bs[i].(free := true)] + bs[i + 1..];
            |bs1| == |bs| && bs1[i] == bs[i].(free := true) &&
            if i + 1 < |bs| && bs[i + 1].free then
              bs1[i + 1] == bs[i + 1] &&
              Freed(bs, i) == bs1[..i] + [Block(bs[i].off, bs[i].size + 8 + bs[i + 1].size, true)] + bs1[i + 2..]
            else Freed(bs, i) == bs1
  {
    var bs1 := bs[..i] + [bs[i].(free := true)] + bs[i + 1..];
    assert bs1[..i] == bs[..i];
    if i + 1 < |bs| { assert bs1[i + 2..] == bs[i + 2..]; }
  }

  /** `hdr->size += ...` */
  lemma GrowHeader(mem: seq<Byte>, b: Block, c: Block)
    requires b.off + 8 <= |mem| && Header(mem, b) && c == b.(size := c.size) && c.size < U32
    ensures var mem' := Put(mem, b.off, Encode(c.size, 4));
            Header(mem', c) && mem'[..b.off] == mem[..b.off] && mem'[b.off + 8..] == mem[b.off + 8..]
  {
    assert Pow256(4) == U32;
    GetPut(mem, b.off, c.size, 4);
    hide Encode, Decode;
    PutApart(mem, b.off, Encode(c.size, 4), b.off + 4, b.off + 8);
    PutApart(mem, b.off, Encode(c.size, 4), b.off + 8, |mem|);
  }

  lemma AllocatedTiles(mem: seq<Byte>, bs: seq<Block>, i: nat, n: nat, to: nat)
    requires Tiles(mem, bs, 0, to) && to <= |mem| <= HEAP_SIZE && i < |bs| && bs[i].size >= n && n % 8 == 0
    requires (n >= 16 || bs[i].size < 24) && End(bs[i]) <= |mem|
    ensures var mem' := TakenMem(mem, bs[i], n);
            Tiles(mem', Allocated(bs, to, i, n), 0, to) &&
            mem'[..bs[i].off] == mem[..bs[i].off] && mem'[End(bs[i])..] == mem[End(bs[i])..]
  {
    hide Header, Tiles, TakenMem, Taken, Allocated, EndOf;
    BlockAt(mem, bs, i, to);
    TakenTiles(mem, bs[i], n);
    var mem' := TakenMem(mem, bs[i], n);
    SubSlice(mem, mem', End(bs[i]), |mem|, End(bs[i]), to);
    Replace(mem, mem', bs, i, i + 1, Taken(bs[i], n), to);
    AllocatedIs(bs, to, i, n);
  }

  lemma AllocatedIs(bs: seq<Block>, bump: nat, i: nat, n: nat)
    requires i < |bs|
    ensures Allocated(bs, bump, i, n) == bs[..i] + Taken(bs[i], n) + bs[i + 1..]
  {
  }

  lemma BumpedTiles(mem: seq<Byte>, bs: seq<Block>, n: nat, to: nat)
    requires Tiles(mem, bs, 0, to) && to + 8 + n <= |mem| <= HEAP_SIZE && n % 8 == 0 && n >= 16
    ensures var mem' := PutHeader(mem, Block(to, n, false));
            Tiles(mem', bs + [Block(to, n, false)], 0, to + 8 + n) && mem'[..to] == mem[..to] && mem'[to + 8..] == mem[to + 8..]
  {
    hide Header, Tiles, PutHeader;
    var b := Block(to, n, false);
    var mem' := PutHeader(mem, b);
    PutHeaderReads(mem, b);
    OneTile(mem', b);
    assert mem'[0..to] == mem[0..to] by { assert mem'[0..to] == mem'[..to] && mem[0..to] == mem[..to]; }
    TilesFrame(mem, mem', bs, 0, to);
    TilesJoin(mem', bs, [b], 0, to, to + 8 + n);
  }

  lemma HeaderBelow(mem: seq<Byte>, mem': seq<Byte>, b: Block)
    requires b.off + 8 <= |mem| == |mem'| && Header(mem, b) && mem'[..b.off + 8] == mem[..b.off + 8]
    ensures Header(mem', b)
  {
    SubSlice(mem, mem', 0, b.off + 8, b.off, b.off + 4);
    SubSlice(mem, mem', 0, b.off + 8, b.off + 4, b.off + 8);
  }

  /** Writes confined to the payload of block `i` keep the tiling, whatever they write. */
  lemma PayloadTiles(mem: seq<Byte>, mem': seq<Byte>, bs: seq<Block>, i: nat, to: nat)
    requires Tiles(mem, bs, 0, to) && to <= |mem| == |mem'| && i < |bs| && End(bs[i]) <= |mem|
    requires mem'[..bs[i].off + 8] == mem[..bs[i].off + 8] && mem'[End(bs[i])..] == mem[End(bs[i])..]
    ensures Tiles(mem', bs, 0, to)
  {
    hide Tiles, Header;
    var b := bs[i];
    BlockAt(mem, bs, i, to);
    HeaderBelow(mem, mem', b);
    SubSlice(mem, mem', 0, b.off + 8, 0, b.off);
    SubSlice(mem, mem', End(b), |mem|, End(b), to);
    OneTile(mem', b);
    Replace(mem, mem', bs, i, i + 1, [b], to);
    assert bs[..i] + [b] + bs[i + 1..] == bs;
  }

  // ---- the ledger

  lemma SumSmall(b: Block, c: Block, free: bool)
    ensures Sum([b], free) == if b.free == free then b.size else 0
    ensures Sum([b, c], free) == (if b.free == free then b.size else 0) + (if c.free == free then c.size else 0)
  {
    assert [b][1..] == [] && [b, c][1..] == [c] && [c][1..] == [];
  }

  lemma SumAllocated(bs: seq<Block>, bump: nat, i: nat, n: nat)
    requires i <= |bs| && (i < |bs| ==> bs[i].free && bs[i].size >= n)
    ensures var bs' := Allocated(bs, bump, i, n);
            if i == |bs| then Sum(bs', false) == Sum(bs, false) + n && Sum(bs', true) == Sum(bs, true)
            else if bs[i].size >= n + 24 then
              Sum(bs', false) == Sum(bs, false) + n && Sum(bs', true) == Sum(bs, true) - (n + 8)
            else Sum(bs', false) == Sum(bs, false) + bs[i].size && Sum(bs', true) == Sum(bs, true) - bs[i].size
  {
    hide Sum;
    if i == |bs| {
      var b := Block(bump, n, false);
      forall f: bool ensures Sum(bs + [b], f) == Sum(bs, f) + Sum([b], f) { SumJoin(bs, [b], f); }
      SumSmall(b, b, false);
      SumSmall(b, b, true);
    } else {
      var t := Taken(bs[i], n);
      assert bs[i..i + 1] == [bs[i]];
      SumReplace(bs, i, i + 1, t, false);
      SumReplace(bs, i, i + 1, t, true);
      SumSmall(bs[i], bs[i], false);
      SumSmall(bs[i], bs[i], true);
      SumSmall(t[0], t[|t| - 1], false);
      SumSmall(t[0], t[|t| - 1], true);
      assert |t| == 2 ==> t == [t[0], t[1]];
      assert |t| == 1 ==> t == [t[0]];
    }
  }

  lemma SumFreed(bs: seq<Block>, i: nat)
    requires i < |bs| && !bs[i].free
    ensures var bs' := Freed(bs, i);
            Sum(bs', false) == Sum(bs, false) - bs[i].size &&
            Sum(bs', true) == Sum(bs, true) + bs[i].size + (if i + 1 < |bs| && bs[i + 1].free then 8 else 0)
  {
    hide Sum;
    if i + 1 < |bs| && bs[i + 1].free {
      SumMerged(bs, i, false);
      SumMerged(bs, i, true);
    } else {
      SumMarked(bs, i, false);
      SumMarked(bs, i, true);
    }
  }

  lemma SumMerged(bs: seq<Block>, i: nat, free: bool)
    requires i + 1 < |bs| && !bs[i].free && bs[i + 1].free
    ensures Sum(Freed(bs, i), free) == Sum(bs, free) + if free then bs[i].size + 8 else -(bs[i].size as int)
  {
    hide Sum;
    var c := Block(bs[i].off, bs[i].size + 8 + bs[i + 1].size, true);
    assert bs[i..i + 2] == [bs[i], bs[i + 1]];
    SumReplace(bs, i, i + 2, [c], free);
    SumSmall(bs[i], bs[i + 1], free);
    SumSmall(c, c, free);
  }

  lemma SumMarked(bs: seq<Block>, i: nat, free: bool)
    requires i < |bs| && !bs[i].free && !(i + 1 < |bs| && bs[i + 1].free)
    ensures Sum(Freed(bs, i), free) == Sum(bs, free) + if free then bs[i].size else -(bs[i].size as int)
  {
    hide Sum;
    var c := bs[i].(free := true);
    assert bs[i..i + 1] == [bs[i]];
    SumReplace(bs, i, i + 1, [c], free);
    SumSmall(bs[i], bs[i], free);
    SumSmall(c, c, free);
  }

  lemma FirstFitIs(bs: seq<Block>, n: nat, i: nat)
    requires i <= |bs| && (i < |bs| ==> bs[i].free && bs[i].size >= n)
    requires forall j :: 0 <= j < i ==> !(bs[j].free && bs[j].size >= n)
    ensures FirstFit(bs, n) == i
  {
  }

  /** Allocated and free payload together never exceed what the tiles cover. */
  lemma {:induction false} SumBound(mem: seq<Byte>, bs: seq<Block>, a: nat, b: nat, free: bool)
    requires Tiles(mem, bs, a, b)
    ensures Sum(bs, free) <= b - a
  {
    if bs != [] { SumBound(mem, bs[1..], End(bs[0]), b, free); }
  }

  /** 64-bit wrap-around. */
  function W64(x: int): nat { x % U64 }

  lemma W64Add(x: int, d: int)
    ensures W64(W64(x) + d) == W64(x + d)
  {
    ModAdd(x, d);
  }

  // ---- requests

  /** `ALIGN(size, 16)` in 64-bit arithmetic. */
  function Align16(size: nat): nat {
    AndNot((size + 15) % U64, 15)
  }

  lemma RoundDown(x: nat)
    ensures var n := x - x % 16; n % 16 == 0 && x - 15 <= n <= x && (x >= 16 ==> n >= 16)
  {
  }

  lemma Align16Value(size: nat)
    requires size + 15 < U64
    ensures var n := Align16(size); size <= n < size + 16 && n % 16 == 0 && (size > 0 ==> n >= 16)
  {
    hide AndNot;
    assert Pow2(4) == 16;
    ClearLow(size + 15, 4);
    assert (size + 15) % U64 == size + 15;
    RoundDown(size + 15);
  }

  /** The room test of `slab_bump`, with its 64-bit sums. */
  predicate BumpAccepts(bump: nat, n: nat) {
    (bump + (8 + n) % U64) % U64 <= HEAP_SIZE
  }

  /** A request whose arithmetic stays below 2^64. */
  predicate NoWrap(size: nat, bump: nat) {
    size + 15 < U64 && bump + 8 + Align16(size) < U64
  }

  /** The room test means what it says exactly when the sum does not wrap; a sum that wraps is always accepted. */
  lemma BumpTestExact(bump: nat, n: nat)
    requires bump <= HEAP_SIZE && n < U64 && n % 16 == 0
    ensures (BumpAccepts(bump, n) <==> bump + 8 + n <= HEAP_SIZE) <==> bump + 8 + n < U64
    ensures bump + 8 + n >= U64 ==> BumpAccepts(bump, n)
  {
    assert (8 + n) % U64 == 8 + n;
  }

  /** Above 2^64 - 16 the alignment itself wraps and asks for a block of 0 bytes. */
  lemma AlignWraps(size: nat)
    requires U64 - 15 <= size < U64
    ensures Align16(size) == 0
  {
    assert (size + 15) % U64 == size + 15 - U64;
    assert Pow2(4) == 16;
    ClearLow(size + 15 - U64, 4);
  }

  // ---- what a wrapped request does

  /** Some list of blocks explains the bytes, the bump and `heap_used`. */
  ghost predicate Explained(mem: seq<Byte>, bump: nat, used: nat) {
    exists bs :: Tiles(mem, bs, 0, bump) && used == Sum(bs, false)
  }

  /** The bytes determine the tiling: of two tilings from the same offset, the shorter is a prefix of the longer. */
  lemma {:induction false} TilesPrefix(mem: seq<Byte>, xs: seq<Block>, ys: seq<Block>, a: nat, b: nat, c: nat)
    requires Tiles(mem, xs, a, b) && Tiles(mem, ys, a, c) && b <= c <= |mem|
    ensures |xs| <= |ys| && ys[..|xs|] == xs && Tiles(mem, ys[|xs|..], b, c)
  {
    if xs == [] {
      assert ys[0..] == ys;
    } else {
      TilesGrow(mem, xs, a, b);
      assert ys[0] == xs[0];
      TilesPrefix(mem, xs[1..], ys[1..], End(xs[0]), b, c);
      assert ys == [ys[0]] + ys[1..] && xs == [xs[0]] + xs[1..];
      assert ys[1..][|xs| - 1..] == ys[|xs|..];
    }
  }

  lemma TilesGrow(mem: seq<Byte>, xs: seq<Block>, a: nat, b: nat)
    requires Tiles(mem, xs, a, b) && xs != []
    ensures a + 24 <= b
  {
  }

  /** Taking 0 bytes of a block with 24 or more leaves a header of size 0 on the way. */
  lemma ZeroSplitBreaks(mem: seq<Byte>, bs: seq<Block>, i: nat, to: nat, bs': seq<Block>)
    requires Tiles(mem, bs, 0, to) && to <= |mem| <= HEAP_SIZE && i < |bs| && bs[i].size >= 24 && End(bs[i]) <= |mem|
    ensures !Tiles(TakenMem(mem, bs[i], 0), bs', 0, to)
  {
    hide Tiles, PutHeader, Decode;
    var b, mem' := bs[i], TakenMem(mem, bs[i], 0);
    BlockAt(mem, bs, i, to);
    TilesCut(mem, bs, i, 0, to);
    TakenOuter(mem, b, 0);
    var m1 := PutHeader(mem, Taken(b, 0)[1]);
    PutHeaderReads(m1, Block(b.off, 0, false));
    assert mem'[0..b.off] == mem[0..b.off] by { assert mem'[0..b.off] == mem'[..b.off] && mem[0..b.off] == mem[..b.off]; }
    TilesFrame(mem, mem', bs[..i], 0, b.off);
    if Tiles(mem', bs', 0, to) {
      TilesPrefix(mem', bs[..i], bs', 0, b.off, to);
      FirstIsGood(mem', bs'[i..], b.off, to);
      assert false;
    }
  }

  lemma FirstIsGood(mem: seq<Byte>, bs: seq<Block>, a: nat, b: nat)
    requires Tiles(mem, bs, a, b) && a < b
    ensures a + 8 <= |mem| && Get(mem, a, 4) >= 16 && a + 24 <= b
  {
  }

  /** Eight bytes hold no block. */
  lemma ZeroBumpBreaks(mem: seq<Byte>, mem': seq<Byte>, bs: seq<Block>, to: nat, bs': seq<Block>)
    requires Tiles(mem, bs, 0, to) && to + 8 <= |mem| == |mem'| && mem'[..to] == mem[..to]
    ensures !Tiles(mem', bs', 0, to + 8)
  {
    hide Tiles;
    assert mem'[0..to] == mem[0..to] by { assert mem'[0..to] == mem'[..to] && mem[0..to] == mem[..to]; }
    TilesFrame(mem, mem', bs, 0, to);
    if Tiles(mem', bs', 0, to + 8) {
      TilesPrefix(mem', bs, bs', 0, to, to + 8);
      FirstIsGood(mem', bs'[|bs|..], to, to + 8);
      assert false;
    }
  }

  /** A bump that wraps moves backwards by `k - 8` and takes `k` off `heap_used`, more than all blocks in between. */
  lemma WrapBreaks(mem: seq<Byte>, mem': seq<Byte>, bs: seq<Block>, to: nat, k: nat, bs': seq<Block>)
    requires Tiles(mem, bs, 0, to) && to <= |mem| == |mem'| <= HEAP_SIZE && mem'[..to] == mem[..to] && 16 <= k <= to + 8
    ensures !(Tiles(mem', bs', 0, to + 8 - k) && (Sum(bs, false) + U64 - k) % U64 == Sum(bs', false))
  {
    hide Tiles, Sum;
    var to' := to + 8 - k;
    SumBound(mem, bs, 0, to, false);
    if Tiles(mem', bs', 0, to') {
      SubSlice(mem', mem, 0, to, 0, to');
      TilesFrame(mem', mem, bs', 0, to');
      TilesPrefix(mem, bs', bs, 0, to', to);
      SumBound(mem, bs[|bs'|..], to', to, false);
      SumJoin(bs', bs[|bs'|..], false);
      assert bs == bs' + bs[|bs'|..];
      WrapSums(Sum(bs, false), Sum(bs', false), k);
    }
  }

  lemma WrapSums(s: nat, s': nat, k: nat)
    requires s <= HEAP_SIZE && s' <= s && s - s' <= k - 8 && k <= HEAP_SIZE + 8
    ensures (s + U64 - k) % U64 != s'
  {
    if s >= k { assert (s + U64 - k) % U64 == s - k; } else { assert (s + U64 - k) % U64 == s + U64 - k; }
  }

  /** Taking from a block writes inside it only. */
  lemma TakenOuter(mem: seq<Byte>, b: Block, n: nat)
    requires End(b) <= |mem| && b.size >= n && b.size >= 16
    ensures var mem' := TakenMem(mem, b, n); mem'[..b.off] == mem[..b.off] && mem'[End(b)..] == mem[End(b)..]
  {
    hide PutHeader, PutMagic;
    var mem' := TakenMem(mem, b, n);
    var t := Taken(b, n);
    if b.size >= n + 24 {
      var m1 := PutHeader(mem, t[1]);
      PutHeaderOuter(mem, t[1]);
      PutHeaderOuter(m1, t[0]);
      OuterSlices(mem, m1, mem', t[1].off, b.off, End(b));
    } else {
      PutMagicOuter(mem, t[0]);
      OuterSlices(mem, mem, mem', b.off, b.off, End(b));
    }
  }

  lemma PutHeaderOuter(mem: seq<Byte>, b: Block)
    requires b.off + 8 <= |mem|
    ensures var mem' := PutHeader(mem, b); mem'[..b.off] == mem[..b.off] && mem'[b.off + 8..] == mem[b.off + 8..]
  {
    hide Encode;
  }

  lemma PutMagicOuter(mem: seq<Byte>, b: Block)
    requires b.off + 8 <= |mem|
    ensures var mem' := PutMagic(mem, b); mem'[..b.off] == mem[..b.off] && mem'[b.off + 8..] == mem[b.off + 8..]
  {
    hide Encode;
  }

  // ---- the heap itself

  datatype Counters = Counters(blocks: seq<Block>, bump: nat, used: nat, freed: nat, merges: nat, splitBytes: nat)

  /** An allocation of `n` bytes from block `i` splits it. */
  predicate Splits(bs: seq<Block>, i: nat, n: nat) { i < |bs| && bs[i].size >= n + 24 }

  /** How an allocation that found block `i`, or bumped, changes `heap_freed` and the history it is explained by. */
  ghost predicate LedgerStep(c: Counters, c': Counters, i: nat, n: nat) {
    c'.merges == c.merges &&
    c'.splitBytes == c.splitBytes + (if Splits(c.blocks, i, n) then n + 8 else 0) &&
    c'.freed == if i < |c.blocks| && !Splits(c.blocks, i, n) then W64(c.freed - c.blocks[i].size) else c.freed
  }

  /** The aligned request leaves a tiling behind. */
  predicate KeepsTiling(bs: seq<Block>, i: nat, bump: nat, n: nat) {
    if i < |bs| then n >= 16 || !Splits(bs, i, n) else n >= 16 && bump + 8 + n < U64
  }

  /** The requests whose memory accesses stay inside the array: a wrapped bump writes its header at the bump, and clears
      2^64 bytes if asked to. */
  predicate InArray(size: nat, zero: bool, bump: nat) {
    size < U64 && (size + 15 >= U64 || bump + 8 + Align16(size) < U64 || (bump + 8 <= HEAP_SIZE && !zero))
  }

  /** The block an aligned request will use: the first fit if anything is believed free, else past the last block. */
  ghost function ChoiceOf(c: Counters, n: nat): (i: nat)
    ensures i <= |c.blocks|
  {
    if c.freed > 0 then FirstFit(c.blocks, n) else |c.blocks|
  }

  /** What an aligned request of `n` bytes does: NULL exactly when no block is chosen and the room test fails, and then
      nothing changes; otherwise where the payload is, and what becomes of the bump, the ledger and the blocks. */
  ghost predicate Served(c: Counters, c': Counters, n: nat, r: int) {
    var i := ChoiceOf(c, n);
    (r == -1 <==> i == |c.blocks| && !BumpAccepts(c.bump, n)) &&
    (r == -1 ==> c' == c) &&
    (r != -1 ==>
       r == 8 + (if i < |c.blocks| then c.blocks[i].off else c.bump) && LedgerStep(c, c', i, n) &&
       c'.bump == (if i < |c.blocks| then c.bump else W64(c.bump + 8 + n)) &&
       (KeepsTiling(c.blocks, i, c.bump, n) ==> c'.blocks == Allocated(c.blocks, c.bump, i, n)))
  }

  /** Only the chosen free block, or the region past the last block, is written. */
  ghost predicate Confined(mem: seq<Byte>, mem': seq<Byte>, bs: seq<Block>, i: nat, bump: nat) {
    |mem| == |mem'| && bump <= |mem| &&
    if i < |bs| then
      var b := bs[i];
      b.free && End(b) <= |mem| && mem'[..b.off] == mem[..b.off] && mem'[End(b)..] == mem[End(b)..]
    else mem'[..bump] == mem[..bump]
  }

  /** No free block is large enough, or none is believed free, and the virgin region is too small. */
  ghost predicate NothingFits(c: Counters, n: nat) {
    (c.freed == 0 || forall b :: b in c.blocks ==> !(b.free && b.size >= n)) && c.bump + 8 + n > HEAP_SIZE
  }

  lemma ChoiceMeans(c: Counters, n: nat)
    ensures ChoiceOf(c, n) == |c.blocks| <==> c.freed == 0 || forall b :: b in c.blocks ==> !(b.free && b.size >= n)
  {
    var i := FirstFit(c.blocks, n);
    if i < |c.blocks| { assert c.blocks[i] in c.blocks; }
  }

  /** One new payload of at least `size` bytes at `r`. */
  ghost predicate NewLive(bs: seq<Block>, bs': seq<Block>, r: int, size: nat) {
    exists b :: b in Live(bs') && r == b.off + 8 && size <= b.size && Live(bs') == Live(bs) + {b}
  }

  /** The heap is in order after a request with result `r`. */
  ghost predicate Survives(c: Counters, size: nat, r: int) {
    var i := ChoiceOf(c, Align16(size));
    r == -1 || NoWrap(size, c.bump) || (i < |c.blocks| && c.blocks[i].size < 24)
  }

  /** What the result of a request says about its size. */
  lemma ServedMeans(mem: seq<Byte>, c: Counters, c': Counters, size: nat, r: int)
    requires Tiles(mem, c.blocks, 0, c.bump) && c.bump <= |mem| == HEAP_SIZE && 0 < size < U64
    requires Served(c, c', Align16(size), r)
    ensures r == -1 ==> c' == c
    ensures NoWrap(size, c.bump) ==>
            (r == -1 <==> NothingFits(c, Align16(size)))
    ensures r != -1 && !NoWrap(size, c.bump) ==> r + size > HEAP_SIZE
    ensures r != -1 ==> (KeepsTiling(c.blocks, ChoiceOf(c, Align16(size)), c.bump, Align16(size)) <==> Survives(c, size, r))
  {
    hide Tiles, Align16, BumpAccepts, W64, FirstFit, Allocated;
    AlignCases(size, c.bump);
    var n := Align16(size);
    BumpTestExact(c.bump, n);
    ChoiceMeans(c, n);
    var i := ChoiceOf(c, n);
    if i < |c.blocks| { HugeFits(mem, c.blocks, i, c.bump); }
  }

  lemma NewPayload(mem: seq<Byte>, c: Counters, c': Counters, size: nat, r: int)
    requires Served(c, c', Align16(size), r) && r != -1 && 0 < size < U64 && NoWrap(size, c.bump) && c.bump <= HEAP_SIZE
    requires Tiles(mem, c'.blocks, 0, c'.bump) && c'.bump <= |mem| == HEAP_SIZE
    ensures NewLive(c.blocks, c'.blocks, r, size) && r + size <= HEAP_SIZE
    ensures var i := ChoiceOf(c, Align16(size));
            i < |c'.blocks| && c'.blocks[i].off + 8 == r && Align16(size) <= c'.blocks[i].size && End(c'.blocks[i]) <= HEAP_SIZE
    ensures var i := ChoiceOf(c, Align16(size));
            if i < |c.blocks| then c.blocks[i].off <= r && r + Align16(size) <= End(c.blocks[i]) else c.bump <= r
  {
    hide Tiles, Align16, BumpAccepts, W64, Allocated, Live;
    AlignCases(size, c.bump);
    var n := Align16(size);
    var i := ChoiceOf(c, n);
    NewBlock(c.blocks, c.bump, i, n);
    BlockAt(mem, c'.blocks, i, c'.bump);
  }

  lemma KeptOnce(m0: seq<Byte>, m1: seq<Byte>, bs: seq<Block>, bump: nat, i: nat)
    requires Tiles(m0, bs, 0, bump) && bump <= |m0| == HEAP_SIZE && i <= |bs| && Confined(m0, m1, bs, i, bump)
    ensures PayloadsKept(m0, m1, bs)
  {
    hide Tiles, PayloadsKept;
    KeptAfter(m0, m1, bs, bump, i);
  }

  /** The header stores and the clearing of `n` bytes at `r` keep all live payloads. */
  lemma KeptTwice(m0: seq<Byte>, m1: seq<Byte>, m2: seq<Byte>, bs: seq<Block>, bump: nat, i: nat, r: nat, n: nat)
    requires Tiles(m0, bs, 0, bump) && bump <= |m0| == HEAP_SIZE && i <= |bs| && Confined(m0, m1, bs, i, bump)
    requires |m2| == |m0| && r + n <= |m0| && m2[..r] == m1[..r] && m2[r + n..] == m1[r + n..]
    requires if i < |bs| then bs[i].off <= r && r + n <= End(bs[i]) else bump <= r
    ensures PayloadsKept(m0, m2, bs)
  {
    hide Tiles, PayloadsKept;
    Inside(m0, m1, m2, r, r + n, if i < |bs| then bs[i].off else bump, if i < |bs| then End(bs[i]) else HEAP_SIZE);
    KeptAfter(m0, m2, bs, bump, i);
  }

  /** How the alignment comes out. */
  lemma AlignCases(size: nat, bump: nat)
    requires size < U64 && bump <= HEAP_SIZE
    ensures var n := Align16(size);
            n < U64 && n % 16 == 0 && (n == 0 <==> size == 0 || size + 15 >= U64) && (n > 0 ==> n >= 16 && size <= n < size + 16)
    ensures !NoWrap(size, bump) ==> size > 2 * HEAP_SIZE
  {
    hide AndNot;
    if size + 15 < U64 { Align16Value(size); } else { AlignWraps(size); }
    if size == 0 { AlignZero(); }
  }

  lemma AlignZero()
    ensures Align16(0) == 0
  {
    hide AndNot;
    assert Pow2(4) == 16;
    ClearLow(15, 4);
  }

  /** No block is larger than the heap. */
  lemma HugeFits(mem: seq<Byte>, bs: seq<Block>, i: nat, to: nat)
    requires Tiles(mem, bs, 0, to) && i < |bs| && to <= |mem| <= HEAP_SIZE
    ensures bs[i].size < HEAP_SIZE
  {
    BlockAt(mem, bs, i, to);
  }

  lemma BadSplit(mem: seq<Byte>, bs: seq<Block>, i: nat, to: nat)
    requires Tiles(mem, bs, 0, to) && to <= |mem| <= HEAP_SIZE && i < |bs| && bs[i].size >= 24 && End(bs[i]) <= |mem|
    ensures forall used :: !Explained(TakenMem(mem, bs[i], 0), to, used)
  {
    hide Tiles, Sum, TakenMem;
    forall bs' ensures !Tiles(TakenMem(mem, bs[i], 0), bs', 0, to) {
      ZeroSplitBreaks(mem, bs, i, to, bs');
    }
  }

  lemma BumpValues(bump: nat, n: nat, used: nat)
    requires BumpAccepts(bump, n) && bump <= HEAP_SIZE && used <= HEAP_SIZE && n % 16 == 0 && n < U64
    ensures bump + 8 + n < U64 ==>
            bump + 8 + n <= HEAP_SIZE && W64(bump + 8 + n) == bump + 8 + n && W64(used + n) == used + n
  {
    BumpTestExact(bump, n);
  }

  /** What `slab_bump` leaves behind once its room test has passed and nothing wrapped. */
  lemma GoodBump(mem: seq<Byte>, bs: seq<Block>, to: nat, n: nat)
    requires Tiles(mem, bs, 0, to) && to <= |mem| == HEAP_SIZE && n % 16 == 0 && 16 <= n && to + 8 + n < U64 && BumpAccepts(to, n)
    requires to + 8 <= HEAP_SIZE
    ensures var bs' := bs + [Block(to, n, false)];
            Tiles(PutHeader(mem, Block(to, n, false)), bs', 0, W64(to + 8 + n)) && W64(to + 8 + n) <= HEAP_SIZE &&
            Sum(bs', false) == W64(Sum(bs, false) + n) && Sum(bs', true) == Sum(bs, true)
  {
    hide Tiles, Sum, PutHeader, BumpAccepts, W64;
    SumBound(mem, bs, 0, to, false);
    BumpValues(to, n, Sum(bs, false));
    BumpedTiles(mem, bs, n, to);
    SumAllocated(bs, to, |bs|, n);
  }

  lemma BumpRoom(bump: nat, n: nat)
    requires BumpAccepts(bump, n) && bump <= HEAP_SIZE && n % 16 == 0 && n < U64
    requires bump + 8 + n < U64 || bump + 8 <= HEAP_SIZE
    ensures bump + 8 <= HEAP_SIZE
  {
    BumpTestExact(bump, n);
  }

  lemma BadBump(mem: seq<Byte>, mem': seq<Byte>, bs: seq<Block>, to: nat, n: nat)
    requires Tiles(mem, bs, 0, to) && to + 8 <= |mem| == |mem'| <= HEAP_SIZE && mem'[..to] == mem[..to]
    requires n < U64 && n % 16 == 0 && (n == 0 || to + 8 + n >= U64)
    ensures !Explained(mem', W64(to + 8 + n), W64(Sum(bs, false) + n))
  {
    hide Tiles, Sum;
    forall bs' ensures !(Tiles(mem', bs', 0, W64(to + 8 + n)) && W64(Sum(bs, false) + n) == Sum(bs', false)) {
      if n == 0 {
        ZeroBumpBreaks(mem, mem', bs, to, bs');
      } else {
        assert W64(to + 8 + n) == to + 8 - (U64 - n);
        WrapBreaks(mem, mem', bs, to, U64 - n, bs');
      }
    }
  }

  class Heap {
    const mem: array<Byte>
    var bump: nat
    var used: nat
    var freed: nat
    ghost var blocks: seq<Block>
    ghost var merges: nat
    ghost var splitBytes: nat   // sum of size + 8 over all splits

    /** What `heap_freed` counts: the free payload bytes, less 16 for every merge, plus size + 8 for every split. */
    ghost function Ledger(): int
      reads this
    {
      Sum(blocks, true) - 16 * merges + splitBytes
    }

    ghost predicate Valid()
      reads this, mem
    {
      mem.Length == HEAP_SIZE && bump <= HEAP_SIZE && Tiles(mem[..], blocks, 0, bump) &&
      used == Sum(blocks, false) && freed == W64(Ledger())
    }

    /** `slab_init` */
    constructor ()
      ensures Valid() && fresh(mem) && blocks == [] && bump == 0
      ensures used == 0 && freed == 0 && merges == 0 && splitBytes == 0
    {
      mem := new Byte[HEAP_SIZE];
      bump, used, freed := 0, 0, 0;
      blocks, merges, splitBytes := [], 0, 0;
    }

    method WriteHeader(b: Block)
      requires b.off + 8 <= mem.Length
      modifies mem
      ensures mem[..] == PutHeader(old(mem[..]), b)
    {
      hide Encode, Put;
      Store(mem, b.off, b.size, 4);
      Store(mem, b.off + 4, Magic(b), 4);
    }

    /** `slab_bump`, for every 64-bit size: -1 is NULL, otherwise the payload's offset in the heap. The block is a block
        of the tiling exactly when it is not empty and the sum does not wrap; a wrapped bump moves backwards. */
    method SlabBump(n: nat) returns (r: int)
      requires Valid() && n % 16 == 0 && n < U64 && (bump + 8 + n < U64 || bump + 8 <= HEAP_SIZE)
      modifies this, mem
      ensures r == -1 <==> !BumpAccepts(old(bump), n)
      ensures r == -1 ==> bump == old(bump) && used == old(used) && mem[..] == old(mem[..])
      ensures r != -1 ==> r == old(bump) + 8 <= HEAP_SIZE && bump == W64(old(bump) + 8 + n) && used == W64(old(used) + n)
      ensures r != -1 ==> mem[..] == PutHeader(old(mem[..]), Block(old(bump), n, false))
      ensures mem[..old(bump)] == old(mem[..bump])
      ensures freed == old(freed) && merges == old(merges) && splitBytes == old(splitBytes)
      ensures r != -1 && 16 <= n && old(bump) + 8 + n < U64 ==>
              Valid() && blocks == Allocated(old(blocks), old(bump), |old(blocks)|, n)
      ensures r == -1 ==> Valid() && blocks == old(blocks)
      ensures r != -1 && (n == 0 || old(bump) + 8 + n >= U64) ==> !Explained(mem[..], bump, used)
    {
      hide Tiles, Sum, PutHeader, BumpAccepts, Explained, W64;
      if !BumpAccepts(bump, n) { return -1; }
      BumpRoom(bump, n);
      PutHeaderOuter(mem[..], Block(bump, n, false));
      if 16 <= n && bump + 8 + n < U64 {
        GoodBump(mem[..], blocks, bump, n);
        blocks := blocks + [Block(bump, n, false)];
      } else {
        BadBump(mem[..], PutHeader(mem[..], Block(bump, n, false)), blocks, bump, n);
      }
      WriteHeader(Block(bump, n, false));
      assert mem[..bump] == mem[..][..bump];
      r := bump + 8;
      bump := W64(bump + 8 + n);
      used := W64(used + n);
    }

    /** The body of the search hit in `kmalloc`: take `n` bytes of the free block at `off`. */
    method TakeBlock(off: nat, n: nat, ghost i: nat) returns (r: nat)
      requires Valid() && n % 16 == 0 && i < |blocks|
      requires blocks[i].off == off && blocks[i].free && blocks[i].size >= n
      modifies this, mem
      ensures r == off + 8 && bump == old(bump) && End(old(blocks)[i]) <= HEAP_SIZE
      ensures blocks == Allocated(old(blocks), old(bump), i, n)
      ensures mem[..off] == old(mem[..off]) && mem[End(old(blocks)[i])..] == old(mem[..])[End(old(blocks)[i])..]
      // the ledger: a split leaves heap_freed alone, a whole block is taken off it
      ensures merges == old(merges)
      ensures splitBytes == old(splitBytes) + if Splits(old(blocks), i, n) then n + 8 else 0
      ensures freed == if Splits(old(blocks), i, n) then old(freed) else W64(old(freed) - old(blocks)[i].size)
      ensures n >= 16 || !Splits(old(blocks), i, n) ==> Valid()
      ensures n == 0 && Splits(old(blocks), i, n) ==> !Explained(mem[..], bump, used)
    {
      hide Tiles, Sum, Decode, TakenMem, Header, Explained, W64;
      ghost var m0, b := mem[..], blocks[i];
      BlockAt(m0, blocks, i, bump);
      if n >= 16 || b.size < n + 24 { AllocatedTiles(m0, blocks, i, n, bump); } else { BadSplit(m0, blocks, i, bump); }
      TakenOuter(m0, b, n);
      SumAllocated(blocks, bump, i, n);
      assert Header(m0, b);
      var size := Get(mem[..], off, 4);
      CarveHeaders(b, off, size, n);
      if size >= n + 8 + 16 {
        splitBytes := splitBytes + n + 8;
        used := used + n;
      } else {
        W64Add(Ledger(), -size);
        freed := W64(freed - size);
        used := used + size;
      }
      blocks := Allocated(blocks, bump, i, n);
      r := off + 8;
      assert mem[..off] == mem[..][..off] && m0[..off] == old(mem[..off]);
    }

    method CarveHeaders(ghost b: Block, off: nat, size: nat, n: nat)
      requires b.off == off && b.size == size && End(b) <= mem.Length && n <= size
      modifies mem
      ensures mem[..] == TakenMem(old(mem[..]), b, n)
    {
      hide Encode, Put;
      if size >= n + 8 + 16 {
        Store(mem, off + 8 + n, size - n - 8, 4);
        Store(mem, off + 8 + n + 4, FREE_MAGIC, 4);
        Store(mem, off, n, 4);
      }
      Store(mem, off + 4, ALLOC_MAGIC, 4);
    }

    /** The first-fit walk of `kmalloc` over the headers in memory: the offset of the hit, or -1. */
    method Search(n: nat) returns (hit: int, ghost i: nat)
      requires Valid()
      ensures i == FirstFit(blocks, n)
      ensures hit == if FirstFit(blocks, n) < |blocks| then blocks[FirstFit(blocks, n)].off else -1
    {
      hide Tiles, Sum, Decode, FirstFit;
      var off := 0;
      i := 0;
      while off + 8 <= bump
        invariant i <= |blocks| && off == EndOf(blocks[..i], 0) <= bump
        invariant forall j :: 0 <= j < i ==> !(blocks[j].free && blocks[j].size >= n)
        decreases bump - off
      {
        TilesEnd(mem[..], blocks, i, bump);
        BlockAt(mem[..], blocks, i, bump);
        var size, magic := Get(mem[..], off, 4), Get(mem[..], off + 4, 4);
        if magic == FREE_MAGIC && size >= n {
          FirstFitIs(blocks, n, i);
          return off, i;
        }
        off := off + 8 + size;
        i := i + 1;
      }
      TilesEnd(mem[..], blocks, i, bump);
      if i < |blocks| { BlockAt(mem[..], blocks, i, bump); }
      FirstFitIs(blocks, n, i);
      hit := -1;
    }

    method ZeroFill(at: nat, n: nat)
      requires at + n <= mem.Length
      modifies mem
      ensures forall j :: at <= j < at + n ==> mem[j] == 0
      ensures mem[..at] == old(mem[..at]) && mem[at + n..] == old(mem[at + n..])
    {
      var i := 0;
      while i < n
        invariant 0 <= i <= n
        invariant forall j :: at <= j < at + i ==> mem[j] == 0
        invariant forall j :: 0 <= j < at || at + i <= j < mem.Length ==> mem[j] == old(mem[j])
      {
        mem[at + i] := 0;
        i := i + 1;
      }
    }

    /** `memset(ptr, 0, n)` on the payload of block `k`. */
    method ClearPayload(at: nat, n: nat, ghost k: nat)
      requires Valid() && k < |blocks| && blocks[k].off + 8 == at && n <= blocks[k].size
      requires End(blocks[k]) <= HEAP_SIZE
      modifies mem
      ensures Valid()
      ensures forall j :: at <= j < at + n ==> mem[j] == 0
      ensures mem[..at] == old(mem[..at]) && mem[at + n..] == old(mem[at + n..])
    {
      hide Tiles, Sum;
      ghost var m0 := mem[..];
      ZeroFill(at, n);
      assert mem[..][..at] == m0[..at];
      assert mem[..][at + n..] == m0[at + n..];
      SubSlice(m0, mem[..], at + n, |m0|, End(blocks[k]), |m0|);
      PayloadTiles(m0, mem[..], blocks, k, bump);
    }

    /** The counters, for two-state predicates. */
    ghost function St(): Counters
      reads this
    {
      Counters(blocks, bump, used, freed, merges, splitBytes)
    }

    lemma ValidExplained()
      requires Valid()
      ensures Explained(mem[..], bump, used)
    {
    }

    /** The block `kmalloc` will use for `n` bytes: the first fit, or past the last block if it bumps. */
    ghost function Choice(n: nat): (i: nat)
      reads this
      ensures i <= |blocks|
    {
      ChoiceOf(St(), n)
    }

    /** The locked part of `kmalloc`, for an aligned request. */
    method AllocBlock(n: nat) returns (r: int)
      requires Valid() && n % 16 == 0 && n < U64 && (bump + 8 + n < U64 || bump + 8 <= HEAP_SIZE)
      modifies this, mem
      ensures Served(old(St()), St(), n, r)
      ensures r == -1 ==> mem[..] == old(mem[..])
      ensures r == -1 || KeepsTiling(old(blocks), old(Choice(n)), old(bump), n) ==> Valid()
      ensures r != -1 && !KeepsTiling(old(blocks), old(Choice(n)), old(bump), n) ==> !Explained(mem[..], bump, used)
      ensures Confined(old(mem[..]), mem[..], old(blocks), old(Choice(n)), old(bump))
    {
      hide Tiles, Sum, Allocated, Explained, BumpAccepts, PutHeader, W64;
      var hit := -1;
      ghost var i := |blocks|;
      if freed > 0 {
        hit, i := Search(n);
      }
      if hit != -1 {
        HugeFits(mem[..], blocks, i, bump);
        r := TakeBlock(hit, n, i);
      } else {
        r := SlabBump(n);
      }
    }

    /** `kmalloc` of any 64-bit size: -1 is NULL, otherwise the payload's offset in the heap. */
    method Kmalloc(size: nat, zero: bool) returns (r: int)
      requires Valid() && InArray(size, zero, bump)
      modifies this, mem
      ensures size == 0 ==> r == -1 && St() == old(St())
      ensures size > 0 ==> Served(old(St()), St(), Align16(size), r)
      ensures r == -1 ==> mem[..] == old(mem[..])
      // for a request that does not wrap, NULL means that nothing free fits, or is believed free, and the virgin region is too small
      ensures NoWrap(size, old(bump)) ==> (r == -1 <==> size == 0 || NothingFits(old(St()), Align16(size)))
      // what is returned fits into the heap exactly when nothing wrapped
      ensures r != -1 ==> (r + size <= HEAP_SIZE <==> NoWrap(size, old(bump)))
      // the heap survives exactly then, or when a wrapped request happens to take a whole free block
      ensures Survives(old(St()), size, r) ==> Valid()
      ensures !Survives(old(St()), size, r) ==> !Explained(mem[..], bump, used)
      // the new payload is live, holds the request, and is zeroed on demand
      ensures r != -1 && NoWrap(size, old(bump)) ==> NewLive(old(blocks), blocks, r, size)
      ensures r != -1 && zero && NoWrap(size, old(bump)) ==> forall j :: r <= j < r + size ==> 0 <= j < mem.Length && mem[j] == 0
      // no byte of any payload that was live is written
      ensures PayloadsKept(old(mem[..]), mem[..], old(blocks))
    {
      hide Tiles, Sum, FirstFit, AndNot, Align16, NewLive, Explained, BumpAccepts, W64, Served, PayloadsKept, Confined;
      AlignCases(size, bump);
      var n := Align16(size);
      ghost var c, m0, i := St(), mem[..], Choice(n);
      if size == 0 {
        KeptAfter(m0, m0, blocks, bump, |blocks|);
        return -1;
      }
      r := AllocBlock(n);
      ServedMeans(m0, c, St(), size, r);
      if r == -1 {
        KeptAfter(m0, m0, blocks, bump, |blocks|);
        return;
      }
      ghost var m1 := mem[..];
      if NoWrap(size, c.bump) { NewPayload(m1, c, St(), size, r); }
      if zero && n > 0 {
        ClearPayload(r, n, i);
        assert mem[..][..r] == m1[..r] && mem[..][r + n..] == m1[r + n..];
        KeptTwice(m0, m1, mem[..], c.blocks, c.bump, i, r, n);
      } else {
        KeptOnce(m0, m1, c.blocks, c.bump, i);
      }
    }

    /** Header stores of `kfree` on block `i`. */
    method MarkFree(off: nat, size: nat, merge: bool, next: nat, ghost i: nat)
      requires i < |blocks| && blocks[i].off == off && blocks[i].size == size && off + 8 <= mem.Length
      requires merge <==> i + 1 < |blocks| && blocks[i + 1].free
      requires merge ==> next == blocks[i + 1].size
      modifies mem
      ensures mem[..] == FreedMem(old(mem[..]), blocks, i)
    {
      hide Encode, Put;
      Store(mem, off + 4, FREE_MAGIC, 4);
      if merge {
        Store(mem, off, size + 8 + next, 4);
      }
    }

    /** Is the block after block `i` free, and how large is it? Read from its header. */
    method NextIsFree(nextOff: nat, ghost i: nat) returns (merge: bool, next: nat)
      requires mem.Length == HEAP_SIZE && bump <= HEAP_SIZE && Tiles(mem[..], blocks, 0, bump)
      requires i < |blocks| && nextOff == End(blocks[i])
      ensures merge <==> i + 1 < |blocks| && blocks[i + 1].free
      ensures merge ==> next == blocks[i + 1].size
    {
      hide Tiles, Decode;
      merge, next := false, 0;
      ghost var bs := blocks;
      BlockAt(mem[..], bs, i, bump);
      TilesEnd(mem[..], bs, i + 1, bump);
      if i + 1 < |bs| { BlockAt(mem[..], bs, i + 1, bump); }
      if nextOff + 8 <= bump {
        next := Get(mem[..], nextOff, 4);
        merge := Get(mem[..], nextOff + 4, 4) == FREE_MAGIC;
      }
    }

    /** `kfree` of a payload pointer (an offset, -1 for NULL); `i` names the block it belongs to. */
    method Kfree(ptr: int, ghost i: nat)
      requires Valid() && (ptr == -1 || (i < |blocks| && ptr == blocks[i].off + 8))
      modifies this, mem
      ensures Valid() && bump == old(bump)
      ensures ptr == -1 || old(blocks)[i].free ==>   // NULL, and a double free, change nothing
              St() == old(St()) && mem[..] == old(mem[..])
      // the ledger: the payload is added, and a merge takes 8 off
      ensures ptr != -1 && !old(blocks)[i].free ==>
              var merged := i + 1 < |old(blocks)| && old(blocks)[i + 1].free;
              splitBytes == old(splitBytes) && merges == old(merges) + (if merged then 1 else 0) &&
              freed == W64(old(freed) + old(blocks)[i].size - (if merged then 8 else 0))
      ensures ptr != -1 && !old(blocks)[i].free ==>
              blocks == Freed(old(blocks), i) && Live(blocks) == Live(old(blocks)) - {old(blocks)[i]} &&
              PayloadsKept(old(mem[..]), mem[..], old(blocks))
    {
      hide Tiles, Sum, Decode, Live, FreedMem, Freed, W64;
      if ptr == -1 { return; }
      ghost var m0, bs := mem[..], blocks;
      BlockAt(m0, bs, i, bump);
      var off := ptr - 8;
      var size, magic := Get(mem[..], off, 4), Get(mem[..], off + 4, 4);
      if magic != ALLOC_MAGIC { return; }
      SumFreed(bs, i);
      used := used - size;
      W64Add(Ledger(), size);
      freed := W64(freed + size);
      var merge, next := NextIsFree(off + 8 + size, i);
      FreedTiles(m0, bs, i, bump);
      LiveFreed(m0, bs, i, bump);
      MarkFree(off, size, merge, next, i);
      if merge {
        W64Add(Ledger() + size, -8);
        W64Add(old(freed) + size, -8);
        freed := W64(freed - 8);
        merges := merges + 1;
      }
      blocks := Freed(blocks, i);
      HeaderWriteKeeps(m0, mem[..], bs, i, bump);
    }

    /** A client stores a byte inside a live payload, whatever the byte. */
    method ClientWrite(at: nat, v: Byte, ghost i: nat)
      requires Valid() && i < |blocks| && !blocks[i].free && blocks[i].off + 8 <= at < End(blocks[i]) <= HEAP_SIZE
      modifies mem
      ensures Valid() && mem[..] == old(mem[..])[at := v]
    {
      hide Tiles, Sum;
      ghost var m0 := mem[..];
      mem[at] := v;
      PayloadTiles(m0, mem[..], blocks, i, bump);
    }

    /** `heap_freed` is the number of free bytes exactly when the merges and the splits so far cancel out. */
    lemma LedgerExact()
      requires Valid()
      ensures freed == Sum(blocks, true) <==> W64(splitBytes - 16 * merges) == 0
    {
      hide Tiles, Sum;
      SumBound(mem[..], blocks, 0, bump, true);
      DriftIsZero(Sum(blocks, true), splitBytes - 16 * merges);
    }
  }

  lemma DriftIsZero(s: nat, d: int)
    requires s <= HEAP_SIZE
    ensures W64(s + d) == s <==> W64(d) == 0
  {
    W64Add(d, s);
    assert W64(d) + s < 2 * U64;
  }

  lemma SmallAligns()
    ensures Align16(16) == 16 && Align16(32) == 32
  {
    hide AndNot;
    Align16Value(16);
    Align16Value(32);
  }

  lemma SmallValues()
    ensures W64(16) == 16 && W64(24) == 24 && W64(-16) == U64 - 16 && W64(U64) == 0 && W64(48) == 48 && W64(72) == 72
  {
  }

  method Bump16(h: Heap) returns (r: int)
    requires h.Valid() && h.freed == 0 && h.bump + 24 <= HEAP_SIZE
    modifies h, h.mem
    ensures h.Valid() && r == old(h.bump) + 8 && h.bump == old(h.bump) + 24
    ensures h.blocks == old(h.blocks) + [Block(old(h.bump), 16, false)]
    ensures h.freed == 0 && h.merges == old(h.merges) && h.splitBytes == old(h.splitBytes)
  {
    hide Align16, Explained, Tiles, Sum, Live;
    SmallAligns();
    r := h.Kmalloc(16, false);
  }

  method TakeWhole(h: Heap, n: nat) returns (r: int)
    requires h.Valid() && h.freed > 0 && n == 32 && |h.blocks| > 0
    requires h.blocks[0] == Block(0, 40, true)
    modifies h, h.mem
    ensures h.Valid() && r == 8 && h.bump == old(h.bump)
    ensures h.blocks == [Block(0, 40, false)] + old(h.blocks[1..])
    ensures h.freed == W64(old(h.freed) - 40)
  {
    hide Align16, Explained, Tiles, Sum, Live, W64;
    SmallAligns();
    assert FirstFit(h.blocks, 32) == 0;
    r := h.Kmalloc(32, false);
  }

  /** Where the drift hides memory: seven calls after which `heap_freed` is 0 although a 16-byte block is free, so that the
      next request for 16 bytes is not even looked up. */
  method FreeBlockForgotten() returns (h: Heap, r: int)
    ensures h.Valid() && h.freed == 0 && h.blocks == [Block(0, 40, false), Block(48, 16, true), Block(72, 16, false)]
    ensures r == 80
  {
    hide Explained, Tiles, Sum, Live, W64;
    SmallValues();
    h := new Heap();
    var a := Bump16(h);
    var b := Bump16(h);
    var g := Bump16(h);
    h.Kfree(b, 1);
    assert h.blocks == [Block(0, 16, false), Block(24, 16, true), Block(48, 16, false)];
    h.Kfree(a, 0);
    assert h.blocks == [Block(0, 40, true), Block(48, 16, false)];
    var c := TakeWhole(h, 32);
    h.Kfree(g, 1);
    assert h.blocks == [Block(0, 40, false), Block(48, 16, true)];
    r := Bump16(h);
  }
}
