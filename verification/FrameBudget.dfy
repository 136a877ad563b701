/** How many frames a series of mappings takes. Each page wants a frame of its own, and every table on its way that is
    not there yet wants one too; `pmm_alloc_page` fails exactly when the sum exceeds the frames that were free. */
module FrameBudget {
  import opened PhysicalMemory
  import opened PageTables

  /** The tables on the way to the pages at these addresses; page 0 is never mapped. */
  ghost function PathsOf(pages: set<nat>): set<Node> {
    set v, n | v in pages && v != 0 && n in Path(Indices(v)) :: n
  }

  ghost function PathTo(v: nat): set<Node> {
    if v == 0 then {} else Path(Indices(v))
  }

  lemma PathsOfMore(pages: set<nat>, v: nat)
    ensures PathsOf(pages + {v}) == PathsOf(pages) + PathTo(v)
  {
  }

  /** How many of `paths` were not there from the start. */
  ghost function Extra(paths: set<Node>, base: set<Node>): nat {
    |paths - base|
  }

  /** The account of a series that began with `free0` free frames and the tables `base`: `visits` frames were asked for
      pages and the tables of `paths` were needed. `starved` says that a frame was refused; from then on none is left. */
  ghost predicate Paid(free0: set<nat>, base: set<Node>, free: set<nat>, keys: set<Node>, paths: set<Node>, visits: nat, starved: bool) {
    base <= keys <= base + paths &&
    if starved then free == {} && |free0| < visits + Extra(paths, base)
    else keys == base + paths && |free| + visits + Extra(paths, base) == |free0|
  }

  lemma PaidStart(free: set<nat>, base: set<Node>)
    ensures Paid(free, base, free, base, {}, 0, false)
  {
    assert {} - base == {};
  }

  /** The account settles the question beforehand. */
  lemma PaidMeans(free0: set<nat>, base: set<Node>, free: set<nat>, keys: set<Node>, paths: set<Node>, visits: nat, starved: bool)
    requires Paid(free0, base, free, keys, paths, visits, starved)
    ensures starved <==> |free0| < visits + Extra(paths, base)
  {
    hide Extra;
  }

  lemma Grows(a: set<Node>, b: set<Node>, base: set<Node>)
    ensures Extra(a, base) <= Extra(a + b, base)
  {
    assert (a + b) - base == (a - base) + ((b - a) - base);
  }

  /** A page is asked for when nothing is left, or when something was refused before. */
  lemma PaidNothing(free0: set<nat>, base: set<Node>, keys: set<Node>, paths: set<Node>, visits: nat, starved: bool, path: set<Node>)
    requires Paid(free0, base, {}, keys, paths, visits, starved)
    ensures Paid(free0, base, {}, keys, paths + path, visits + 1, true)
  {
    hide Extra;
    Grows(paths, path, base);
  }

  /** A frame for page 0 is taken and lost. */
  lemma PaidLeak(free0: set<nat>, base: set<Node>, free: set<nat>, keys: set<Node>, paths: set<Node>, visits: nat, f: nat)
    requires Paid(free0, base, free, keys, paths, visits, false) && f in free
    ensures Paid(free0, base, free - {f}, keys, paths, visits + 1, false)
  {
    assert |free - {f}| == |free| - 1;
  }

  /** A frame for the page is taken, then the tables on its way are made as far as frames go. */
  lemma PaidPage(free0: set<nat>, base: set<Node>, free: set<nat>, t: Tables, paths: set<Node>, visits: nat, f: nat,
                 free2: set<nat>, t2: Tables, path: set<Node>, mapped: bool)
    requires Paid(free0, base, free, t.Keys, paths, visits, false) && f in free
    requires Counted(t, free - {f}, t2, free2, path, mapped)
    ensures Paid(free0, base, free2, t2.Keys, paths + path, visits + 1, !mapped)
  {
    hide Extra;
    assert |free - {f}| == |free| - 1;
    KeysCount(base, paths);
    KeysCount(base, paths + path);
    var all := base + (paths + path);
    assert t2.Keys <= all;
    if mapped {
      assert t2.Keys == all;
    } else {
      assert t2.Keys != all;
      Smaller(t2.Keys, all);
    }
  }

  lemma KeysCount(base: set<Node>, paths: set<Node>)
    ensures |base + paths| == |base| + Extra(paths, base)
  {
    assert base + paths == base + (paths - base) && base !! paths - base;
  }
}
