/** The initial user stack that `build_user_stack` prints, and the ABI reader that a program's start-up code is:
    section 3.4.1 of the System V ABI AMD64 supplement. The reader gets back exactly what was printed. */
module UserStack {
  import opened Words
  import opened ByteStore

  const STACK_TOP: nat := 0x7FFF_FFFF_E000
  const STACK_SIZE: nat := 0x20_0000
  const STACK_BASE: nat := STACK_TOP - STACK_SIZE

  // ---- reading: the ABI

  /** The 8-byte words from `off` up to the first zero word. */
  function WordList(mem: seq<Byte>, off: nat): seq<nat>
    decreases |mem| - off
  {
    if off + 8 > |mem| || Get(mem, off, 8) == 0 then []
    else [Get(mem, off, 8)] + WordList(mem, off + 8)
  }

  /** The (type, value) pairs from `off` up to the AT_NULL entry. */
  function PairList(mem: seq<Byte>, off: nat): seq<(nat, nat)>
    decreases |mem| - off
  {
    if off + 16 > |mem| || Get(mem, off, 8) == 0 then []
    else [(Get(mem, off, 8), Get(mem, off + 8, 8))] + PairList(mem, off + 16)
  }

  function Strings(mem: seq<Byte>, ptrs: seq<nat>): seq<seq<Byte>> {
    if ptrs == [] then []
    else [if STACK_BASE <= ptrs[0] <= STACK_BASE + |mem| then CString(mem, ptrs[0] - STACK_BASE) else []] + Strings(mem, ptrs[1..])
  }

  datatype Image = Image(argc: nat, argv: seq<seq<Byte>>, envp: seq<seq<Byte>>, auxv: seq<(nat, nat)>)

  /** What a program finds reading upward from its initial stack pointer. */
  function ReadImage(mem: seq<Byte>, rsp: nat): Image
    requires STACK_BASE <= rsp && rsp - STACK_BASE + 8 <= |mem|
  {
    var at := rsp - STACK_BASE;
    var argvPtrs := WordList(mem, at + 8);
    var envpAt := at + 8 + 8 * |argvPtrs| + 8;
    var envpPtrs := WordList(mem, envpAt);
    var auxAt := envpAt + 8 * |envpPtrs| + 8;
    Image(Get(mem, at, 8), Strings(mem, argvPtrs), Strings(mem, envpPtrs), PairList(mem, auxAt))
  }

  // ---- facts about what is stored where

  ghost predicate WordsAt(mem: seq<Byte>, off: nat, ws: seq<nat>) {
    off + 8 * |ws| <= |mem| && forall i :: 0 <= i < |ws| ==> Get(mem, off + 8 * i, 8) == ws[i]
  }

  /** The strings, each with its NUL, stored back to back. */
  function Packed(strs: seq<seq<Byte>>): seq<Byte> {
    if strs == [] then [] else strs[0] + [0] + Packed(strs[1..])
  }

  /** Where each of the packed strings starts. */
  function Starts(strs: seq<seq<Byte>>, at: nat): (ps: seq<nat>)
    ensures |ps| == |strs|
  {
    if strs == [] then [] else [at] + Starts(strs[1..], at + |strs[0]| + 1)
  }

  ghost predicate NoNul(s: seq<Byte>) { 0 !in s }

  ghost predicate CStrings(strs: seq<seq<Byte>>) { forall i :: 0 <= i < |strs| ==> NoNul(strs[i]) }

  ghost predicate Same(mem: seq<Byte>, mem': seq<Byte>, from: nat) {
    |mem| == |mem'| && from <= |mem| && mem'[from..] == mem[from..]
  }

  lemma ReadString(mem: seq<Byte>, off: nat, s: seq<Byte>)
    requires NoNul(s) && off + |s| + 1 <= |mem| && mem[off..off + |s| + 1] == s + [0]
    ensures CString(mem, off) == s
  {
    var r := mem[off..off + |s| + 1];
    assert r[|s|] == 0 && mem[off..off + |s|] == r[..|s|];
    ReadCString(mem, off, s);
  }

  lemma {:induction false} ReadStrings(mem: seq<Byte>, off: nat, strs: seq<seq<Byte>>)
    requires CStrings(strs) && off + |Packed(strs)| <= |mem| && mem[off..off + |Packed(strs)|] == Packed(strs)
    ensures Strings(mem, Starts(strs, STACK_BASE + off)) == strs
    decreases |strs|
  {
    hide CString, Packed, Starts, Strings, CStrings;
    if strs != [] {
      CStringsTail(strs);
      PackedParts(mem, off, strs);
      var s, rest := strs[0], strs[1..];
      ReadString(mem, off, s);
      ReadStrings(mem, off + |s| + 1, rest);
      StartsCons(strs, STACK_BASE + off);
      StringsCons(mem, STACK_BASE + off, Starts(rest, STACK_BASE + off + |s| + 1));
      assert strs == [s] + rest;
    } else {
      StringsNil(mem, STACK_BASE + off);
    }
  }

  lemma CStringsTail(strs: seq<seq<Byte>>)
    requires strs != [] && CStrings(strs)
    ensures NoNul(strs[0]) && CStrings(strs[1..])
  {
  }

  lemma StringsNil(mem: seq<Byte>, at: nat)
    ensures Strings(mem, Starts([], at)) == []
  {
  }

  lemma StartsCons(strs: seq<seq<Byte>>, at: nat)
    requires strs != []
    ensures Starts(strs, at) == [at] + Starts(strs[1..], at + |strs[0]| + 1)
  {
  }

  lemma StringsCons(mem: seq<Byte>, p: nat, ps: seq<nat>)
    requires STACK_BASE <= p <= STACK_BASE + |mem|
    ensures Strings(mem, [p] + ps) == [CString(mem, p - STACK_BASE)] + Strings(mem, ps)
  {
    assert ([p] + ps)[1..] == ps;
  }

  lemma PackedParts(mem: seq<Byte>, off: nat, strs: seq<seq<Byte>>)
    requires strs != [] && off + |Packed(strs)| <= |mem| && mem[off..off + |Packed(strs)|] == Packed(strs)
    ensures var n, rest := |strs[0]| + 1, Packed(strs[1..]);
            |Packed(strs)| == n + |rest| && mem[off..off + n] == strs[0] + [0] && mem[off + n..off + n + |rest|] == rest
  {
    var r, n, rest := mem[off..off + |Packed(strs)|], |strs[0]| + 1, Packed(strs[1..]);
    assert r == (strs[0] + [0]) + rest;
    hide Packed;
    assert mem[off..off + n] == r[..n];
    assert mem[off + n..off + n + |rest|] == r[n..];
  }

  /** A zero-terminated list of non-zero words reads back. */
  lemma {:induction false} ReadWords(mem: seq<Byte>, off: nat, ws: seq<nat>)
    requires WordsAt(mem, off, ws + [0]) && forall i :: 0 <= i < |ws| ==> ws[i] != 0
    ensures WordList(mem, off) == ws
    decreases |ws|
  {
    assert Get(mem, off + 8 * 0, 8) == (ws + [0])[0];
    if ws != [] {
      forall i | 0 <= i < |ws[1..] + [0]| ensures Get(mem, off + 8 + 8 * i, 8) == (ws[1..] + [0])[i] {
        assert Get(mem, off + 8 * (i + 1), 8) == (ws + [0])[i + 1];
      }
      ReadWords(mem, off + 8, ws[1..]);
    }
  }

  function Flat(aux: seq<(nat, nat)>): (ws: seq<nat>)
    ensures |ws| == 2 * |aux|
  {
    if aux == [] then [] else [aux[0].0, aux[0].1] + Flat(aux[1..])
  }

  lemma {:induction false} ReadPairs(mem: seq<Byte>, off: nat, aux: seq<(nat, nat)>)
    requires WordsAt(mem, off, Flat(aux) + [0, 0]) && forall i :: 0 <= i < |aux| ==> aux[i].0 != 0
    ensures PairList(mem, off) == aux
    decreases |aux|
  {
    var ws := Flat(aux) + [0, 0];
    assert Get(mem, off + 8 * 0, 8) == ws[0];
    if aux != [] {
      assert Get(mem, off + 8 * 1, 8) == ws[1];
      var rest := Flat(aux[1..]) + [0, 0];
      assert ws[2..] == rest;
      forall i | 0 <= i < |rest| ensures Get(mem, off + 16 + 8 * i, 8) == rest[i] {
        assert Get(mem, off + 8 * (i + 2), 8) == ws[i + 2];
      }
      ReadPairs(mem, off + 16, aux[1..]);
    }
  }

  // ---- printing

  lemma PutBelow(mem: seq<Byte>, at: nat, bs: seq<Byte>, from: nat)
    requires at + |bs| <= from <= |mem|
    ensures Same(mem, Put(mem, at, bs), from)
  {
    PutApart(mem, at, bs, from, |mem|);
    assert mem[from..|mem|] == mem[from..];
    assert Put(mem, at, bs)[from..|mem|] == Put(mem, at, bs)[from..];
  }

  lemma SameTrans(m0: seq<Byte>, m1: seq<Byte>, m2: seq<Byte>, from: nat, below: nat)
    requires Same(m0, m1, from) && Same(m1, m2, below) && below <= from
    ensures Same(m0, m2, from)
  {
    SubSlice(m1, m2, below, |m1|, from, |m1|);
    assert m1[from..|m1|] == m1[from..] && m2[from..|m1|] == m2[from..];
  }

  /** The `PUSH_STR` loop: last string first, so that the strings end up in order, back to back, below `sp`.
      `sp` is kept relative to STACK_BASE. */
  method PushStrings(mem: array<Byte>, strs: seq<seq<Byte>>, sp: nat) returns (ptrs: seq<nat>, sp': nat)
    requires |Packed(strs)| <= sp <= mem.Length
    modifies mem
    ensures sp' == sp - |Packed(strs)| && ptrs == Starts(strs, STACK_BASE + sp')
    ensures mem[sp'..sp] == Packed(strs) && Same(old(mem[..]), mem[..], sp)
  {
    hide Packed, Starts;
    ghost var m0 := mem[..];
    sp', ptrs := sp, [];
    var i := |strs|;
    PackedTail(strs, i);
    assert strs[i..] == [];
    StringsBase();
    while i > 0
      invariant 0 <= i <= |strs| && |Packed(strs[i..])| <= |Packed(strs)|
      invariant sp' == sp - |Packed(strs[i..])| && ptrs == Starts(strs[i..], STACK_BASE + sp')
      invariant mem[sp'..sp] == Packed(strs[i..]) && Same(m0, mem[..], sp)
    {
      i := i - 1;
      PackedTail(strs, i);
      ghost var m1, mid := mem[..], sp';
      sp' := sp' - (|strs[i]| + 1);
      StartsTail(strs, i, STACK_BASE + sp');
      CopyIn(mem, sp', strs[i] + [0]);
      PushString(m1, strs, i, sp', mid, sp);
      SameTrans(m0, m1, mem[..], sp, mid);
      ptrs := [STACK_BASE + sp'] + ptrs;
      assert mem[sp'..sp] == mem[..][sp'..sp];
    }
    assert strs[0..] == strs;
  }

  lemma StringsBase()
    ensures Packed([]) == [] && forall at: nat :: Starts([], at) == []
  {
  }

  lemma PackedTail(strs: seq<seq<Byte>>, i: nat)
    requires i <= |strs|
    ensures |Packed(strs[i..])| <= |Packed(strs)|
    ensures i < |strs| ==> Packed(strs[i..]) == strs[i] + [0] + Packed(strs[i + 1..])
  {
    PackedLength(strs, i);
    if i < |strs| {
      var t := strs[i..];
      assert t[1..] == strs[i + 1..] && t[0] == strs[i];
      assert Packed(t) == t[0] + [0] + Packed(t[1..]);
    }
  }

  lemma StartsTail(strs: seq<seq<Byte>>, i: nat, at: nat)
    requires i < |strs|
    ensures Starts(strs[i..], at) == [at] + Starts(strs[i + 1..], at + |strs[i]| + 1)
  {
    var t := strs[i..];
    assert t[1..] == strs[i + 1..] && t[0] == strs[i];
  }

  lemma {:induction false} PackedLength(strs: seq<seq<Byte>>, i: nat)
    requires i <= |strs|
    ensures |Packed(strs[i..])| <= |Packed(strs)|
    decreases i
  {
    if i == 0 {
      assert strs[0..] == strs;
    } else {
      PackedLength(strs[1..], i - 1);
      assert strs[1..][i - 1..] == strs[i..];
    }
  }

  lemma PushString(m1: seq<Byte>, strs: seq<seq<Byte>>, i: nat, sp': nat, mid: nat, sp: nat)
    requires i < |strs| && sp' + |strs[i]| + 1 == mid <= sp <= |m1| && m1[mid..sp] == Packed(strs[i + 1..])
    requires Packed(strs[i..]) == strs[i] + [0] + Packed(strs[i + 1..])
    ensures var m2 := Put(m1, sp', strs[i] + [0]); m2[sp'..sp] == Packed(strs[i..]) && Same(m1, m2, mid)
  {
    hide Packed;
    var m2 := Put(m1, sp', strs[i] + [0]);
    PutSelf(m1, sp', strs[i] + [0]);
    PutApart(m1, sp', strs[i] + [0], mid, sp);
    PutBelow(m1, sp', strs[i] + [0], mid);
    assert m2[sp'..sp] == m2[sp'..mid] + m2[mid..sp];
  }

  lemma Pow256Is64()
    ensures Pow256(8) == U64
  {
    assert Pow256(4) == U32;
    assert Pow256(6) == 65536 * U32;
  }

  lemma PushWord(mem: seq<Byte>, sp: nat, v: nat, ws: seq<nat>)
    requires WordsAt(mem, sp, ws) && 8 <= sp <= |mem| && v < U64
    ensures var mem' := Put(mem, sp - 8, Encode(v, 8)); WordsAt(mem', sp - 8, [v] + ws) && Same(mem, mem', sp)
  {
    hide Pow256, Decode, Encode, Put;
    Pow256Is64();
    var mem' := Put(mem, sp - 8, Encode(v, 8));
    GetPut(mem, sp - 8, v, 8);
    PutBelow(mem, sp - 8, Encode(v, 8), sp);
    assert mem'[sp..|mem|] == mem[sp..|mem|];
    forall i | 0 <= i < |[v] + ws| ensures Get(mem', sp - 8 + 8 * i, 8) == ([v] + ws)[i] {
      if i > 0 {
        assert Get(mem, sp + 8 * (i - 1), 8) == ws[i - 1];
        SubSlice(mem, mem', sp, |mem|, sp + 8 * (i - 1), sp + 8 * i);
        assert sp - 8 + 8 * i == sp + 8 * (i - 1);
      }
    }
  }

  /** The words `ws` lie at `sp`, and everything from `top` up is as it was in `m0`. */
  ghost predicate Pushed(mem: seq<Byte>, sp: nat, ws: seq<nat>, m0: seq<Byte>, top: nat) {
    sp <= top && WordsAt(mem, sp, ws) && Same(m0, mem, top)
  }

  lemma PushedMore(mem: seq<Byte>, sp: nat, v: nat, ws: seq<nat>, m0: seq<Byte>, top: nat)
    requires Pushed(mem, sp, ws, m0, top) && 8 <= sp && v < U64
    ensures Pushed(Put(mem, sp - 8, Encode(v, 8)), sp - 8, [v] + ws, m0, top)
  {
    hide WordsAt, Put, Encode;
    assert sp <= top <= |mem|;
    PushWord(mem, sp, v, ws);
    SameTrans(m0, mem, Put(mem, sp - 8, Encode(v, 8)), top, sp);
  }

  /** `PUSH64` */
  method Push64(mem: array<Byte>, sp: nat, v: nat, ghost ws: seq<nat>, ghost m0: seq<Byte>, ghost top: nat) returns (sp': nat)
    requires 8 <= sp <= mem.Length && Pushed(mem[..], sp, ws, m0, top) && v < U64
    modifies mem
    ensures sp' == sp - 8 && Pushed(mem[..], sp', [v] + ws, m0, top)
  {
    hide Pushed, Encode, Put;
    PushedMore(mem[..], sp, v, ws, m0, top);
    sp' := sp - 8;
    Store(mem, sp', v, 8);
  }

  /** The loops that push an array of pointers, last first, so that they read in order. */
  method PushAll(mem: array<Byte>, sp: nat, vs: seq<nat>, ghost ws: seq<nat>, ghost m0: seq<Byte>, ghost top: nat) returns (sp': nat)
    requires 8 * |vs| <= sp <= mem.Length && Pushed(mem[..], sp, ws, m0, top) && forall i :: 0 <= i < |vs| ==> vs[i] < U64
    modifies mem
    ensures sp' == sp - 8 * |vs| && Pushed(mem[..], sp', vs + ws, m0, top)
  {
    hide Pushed;
    sp' := sp;
    var i := |vs|;
    assert vs[i..] + ws == ws;
    while i > 0
      invariant 0 <= i <= |vs| && sp' == sp - 8 * (|vs| - i)
      invariant Pushed(mem[..], sp', vs[i..] + ws, m0, top)
    {
      i := i - 1;
      assert [vs[i]] + (vs[i + 1..] + ws) == vs[i..] + ws;
      sp' := Push64(mem, sp', vs[i], vs[i + 1..] + ws, m0, top);
    }
    assert vs[0..] == vs;
  }

  // ---- the auxiliary vector

  datatype Phdr = Phdr(ptype: nat, vaddr: nat, offset: nat)
  datatype Program = Program(entry: nat, phoff: nat, phdrs: seq<Phdr>, loadBias: nat, interpBase: nat)

  const PT_LOAD: nat := 1

  /** AT_PHDR: from the first PT_LOAD segment if there is one, in 64-bit arithmetic. */
  function PhdrAddress(p: Program, i: nat): nat
    requires i <= |p.phdrs|
    decreases |p.phdrs| - i
  {
    if i == |p.phdrs| then (p.loadBias + p.phoff) % U64
    else if p.phdrs[i].ptype == PT_LOAD then (p.phdrs[i].vaddr - p.phdrs[i].offset + p.phoff + p.loadBias) % U64
    else PhdrAddress(p, i + 1)
  }

  /** Header `i` is the first to be loaded. */
  ghost predicate FirstLoad(p: Program, i: int) {
    0 <= i < |p.phdrs| && p.phdrs[i].ptype == PT_LOAD && forall j :: 0 <= j < i ==> p.phdrs[j].ptype != PT_LOAD
  }

  method FindPhdrs(p: Program) returns (at: nat)
    ensures at == PhdrAddress(p, 0) && at < U64
    ensures (forall j :: 0 <= j < |p.phdrs| ==> p.phdrs[j].ptype != PT_LOAD) ==> at == (p.loadBias + p.phoff) % U64
    ensures forall i :: FirstLoad(p, i) ==> at == (p.phdrs[i].vaddr - p.phdrs[i].offset + p.phoff + p.loadBias) % U64
  {
    at := (p.loadBias + p.phoff) % U64;
    var i := 0;
    while i < |p.phdrs|
      invariant 0 <= i <= |p.phdrs| && at == (p.loadBias + p.phoff) % U64
      invariant forall j :: 0 <= j < i ==> p.phdrs[j].ptype != PT_LOAD
      invariant PhdrAddress(p, 0) == PhdrAddress(p, i)
    {
      if p.phdrs[i].ptype == PT_LOAD {
        return (p.phdrs[i].vaddr - p.phdrs[i].offset + p.phoff + p.loadBias) % U64;
      }
      i := i + 1;
    }
  }

  /** The vector a program must find: AT_EXECFN, AT_PHDR, AT_PHENT, AT_PHNUM, AT_PAGESZ, AT_ENTRY, AT_BASE, AT_FLAGS,
      AT_CLKTCK, AT_HWCAP, AT_HWCAP2, AT_RANDOM, AT_PLATFORM, AT_SECURE. */
  function Auxv(p: Program, execfn: nat, platform: nat, random: nat): (aux: seq<(nat, nat)>)
    ensures |aux| == 14
  {
    [(31, execfn), (3, PhdrAddress(p, 0)), (4, 56), (5, |p.phdrs|), (6, 4096), (9, (p.entry + p.loadBias) % U64),
     (7, p.interpBase), (8, 0), (17, 100), (16, 0x1f8bfbff), (26, 0), (25, random), (15, platform), (23, 0)]
  }

  /** `PUSH64(value); PUSH64(type);` */
  method PushPair(mem: array<Byte>, sp: nat, ty: nat, value: nat, ghost aux: seq<(nat, nat)>, ghost m0: seq<Byte>, ghost top: nat)
    returns (sp': nat, ghost aux': seq<(nat, nat)>)
    requires 16 <= sp <= mem.Length && Pushed(mem[..], sp, Flat(aux) + [0, 0], m0, top) && ty < U64 && value < U64
    modifies mem
    ensures sp' == sp - 16 && aux' == [(ty, value)] + aux && Pushed(mem[..], sp', Flat(aux') + [0, 0], m0, top)
  {
    hide Pushed;
    var sp1 := Push64(mem, sp, value, Flat(aux) + [0, 0], m0, top);
    sp' := Push64(mem, sp1, ty, [value] + (Flat(aux) + [0, 0]), m0, top);
    aux' := [(ty, value)] + aux;
    assert aux'[1..] == aux;
    assert [ty] + ([value] + (Flat(aux) + [0, 0])) == Flat(aux') + [0, 0];
  }

  ghost predicate GoodProgram(p: Program) {
    p.interpBase < U64 && |p.phdrs| < 65536
  }

  /** The straight-line pushes of the auxiliary vector, AT_NULL first: the entries that describe the machine ... */
  method PushMachineAux(mem: array<Byte>, sp: nat, platform: nat, random: nat, ghost m0: seq<Byte>, ghost top: nat)
    returns (sp': nat, ghost aux: seq<(nat, nat)>)
    requires 128 <= sp <= mem.Length && Pushed(mem[..], sp, [], m0, top) && platform < U64 && random < U64
    modifies mem
    ensures sp' == sp - 128 && Pushed(mem[..], sp', Flat(aux) + [0, 0], m0, top)
    ensures aux == [(8, 0), (17, 100), (16, 0x1f8bfbff), (26, 0), (25, random), (15, platform), (23, 0)]
  {
    hide Pushed, Flat;
    sp' := Push64(mem, sp, 0, [], m0, top);
    sp' := Push64(mem, sp', 0, [0] + [], m0, top);
    FlatNil();
    assert [0] + ([0] + []) == Flat([]) + [0, 0];
    aux := [];
    sp', aux := PushPair(mem, sp', 23, 0, aux, m0, top);
    sp', aux := PushPair(mem, sp', 15, platform, aux, m0, top);
    sp', aux := PushPair(mem, sp', 25, random, aux, m0, top);
    sp', aux := PushPair(mem, sp', 26, 0, aux, m0, top);
    sp', aux := PushPair(mem, sp', 16, 0x1f8bfbff, aux, m0, top);
    sp', aux := PushPair(mem, sp', 17, 100, aux, m0, top);
    sp', aux := PushPair(mem, sp', 8, 0, aux, m0, top);
  }

  /** ... and then those that describe the program. */
  method PushAuxv(mem: array<Byte>, sp: nat, p: Program, execfn: nat, platform: nat, random: nat, ghost m0: seq<Byte>, ghost top: nat)
    returns (sp': nat)
    requires 240 <= sp <= mem.Length && Pushed(mem[..], sp, [], m0, top)
    requires GoodProgram(p) && execfn < U64 && platform < U64 && random < U64
    modifies mem
    ensures sp' == sp - 240 && Pushed(mem[..], sp', Flat(Auxv(p, execfn, platform, random)) + [0, 0], m0, top)
  {
    hide Pushed, Flat, PhdrAddress;
    var phdrs := FindPhdrs(p);
    var entry := (p.entry + p.loadBias) % U64;
    ghost var aux;
    sp', aux := PushMachineAux(mem, sp, platform, random, m0, top);
    sp', aux := PushPair(mem, sp', 7, p.interpBase, aux, m0, top);
    sp', aux := PushPair(mem, sp', 9, entry, aux, m0, top);
    sp', aux := PushPair(mem, sp', 6, 4096, aux, m0, top);
    sp', aux := PushPair(mem, sp', 5, |p.phdrs|, aux, m0, top);
    sp', aux := PushPair(mem, sp', 4, 56, aux, m0, top);
    sp', aux := PushPair(mem, sp', 3, phdrs, aux, m0, top);
    sp', aux := PushPair(mem, sp', 31, execfn, aux, m0, top);
    assert aux == Auxv(p, execfn, platform, random);
  }

  lemma FlatNil()
    ensures Flat([]) == []
  {
  }

  // ---- the whole image

  const PLATFORM: seq<Byte> := [0x78, 0x38, 0x36, 0x5f, 0x36, 0x34]   // "x86_64"
  const PLATFORM_AT: nat := STACK_SIZE - 16
  const RANDOM_AT: nat := STACK_SIZE - 32

  /** The stack holds the platform string, the 16 random bytes, and below them the packed strings, ending at `sp`. */
  ghost predicate StringsPlaced(mem: seq<Byte>, argv: seq<seq<Byte>>, envp: seq<seq<Byte>>, random: (nat, nat), sp: nat) {
    |mem| == STACK_SIZE && sp + |Packed(argv)| + |Packed(envp)| == RANDOM_AT &&
    mem[sp..sp + |Packed(argv)|] == Packed(argv) && mem[sp + |Packed(argv)|..RANDOM_AT] == Packed(envp) &&
    Get(mem, RANDOM_AT, 8) == random.0 && Get(mem, RANDOM_AT + 8, 8) == random.1 &&
    mem[PLATFORM_AT..PLATFORM_AT + 7] == PLATFORM + [0]
  }

  lemma StringsKept(mem: seq<Byte>, mem': seq<Byte>, argv: seq<seq<Byte>>, envp: seq<seq<Byte>>, random: (nat, nat), sp: nat)
    requires StringsPlaced(mem, argv, envp, random, sp) && Same(mem, mem', sp)
    ensures StringsPlaced(mem', argv, envp, random, sp)
  {
    hide Packed, Decode;
    var n := |mem|;
    assert mem'[sp..n] == mem[sp..n];
    SubSlice(mem, mem', sp, n, sp, sp + |Packed(argv)|);
    SubSlice(mem, mem', sp, n, sp + |Packed(argv)|, RANDOM_AT);
    SubSlice(mem, mem', sp, n, RANDOM_AT, RANDOM_AT + 8);
    SubSlice(mem, mem', sp, n, RANDOM_AT + 8, RANDOM_AT + 16);
    SubSlice(mem, mem', sp, n, PLATFORM_AT, PLATFORM_AT + 7);
  }

  /** `sp & ~0xF` */
  lemma AlignDown16(sp: nat)
    ensures AndNot(sp, 15) == sp - sp % 16
  {
    assert Pow2(4) == 16;
    ClearLow(sp, 4);
  }

  lemma FixedPlaced(m0: seq<Byte>, m1: seq<Byte>, m2: seq<Byte>, m3: seq<Byte>, random: (nat, nat))
    requires |m0| == STACK_SIZE && random.0 < U64 && random.1 < U64
    requires m1 == Put(m0, PLATFORM_AT, PLATFORM + [0])
    requires m2 == Put(m1, RANDOM_AT, Encode(random.0, 8)) && m3 == Put(m2, RANDOM_AT + 8, Encode(random.1, 8))
    ensures StringsPlaced(m3, [], [], random, RANDOM_AT)
  {
    StringsBase();
    hide Decode, Encode, Put, Packed;
    Pow256Is64();
    PutSelf(m0, PLATFORM_AT, PLATFORM + [0]);
    GetPut(m1, RANDOM_AT, random.0, 8);
    GetPut(m2, RANDOM_AT + 8, random.1, 8);
    PutApart(m2, RANDOM_AT + 8, Encode(random.1, 8), RANDOM_AT, RANDOM_AT + 8);
    PutApart(m1, RANDOM_AT, Encode(random.0, 8), PLATFORM_AT, PLATFORM_AT + 7);
    PutApart(m2, RANDOM_AT + 8, Encode(random.1, 8), PLATFORM_AT, PLATFORM_AT + 7);
  }

  /** The platform string and the random bytes. */
  method PlaceFixed(mem: array<Byte>, random: (nat, nat)) returns (sp: nat)
    requires mem.Length == STACK_SIZE && random.0 < U64 && random.1 < U64
    modifies mem
    ensures sp == RANDOM_AT && StringsPlaced(mem[..], [], [], random, sp)
  {
    hide AndNot, Decode, Encode, Put, StringsPlaced;
    ghost var m0 := mem[..];
    AlignDown16(STACK_SIZE - 16);
    sp := AndNot(STACK_SIZE - 16, 15);
    CopyIn(mem, sp, PLATFORM + [0]);
    ghost var m1 := mem[..];
    AlignDown16(sp - 16);
    sp := AndNot(sp - 16, 15);
    Store(mem, sp, random.0, 8);
    ghost var m2 := mem[..];
    Store(mem, sp + 8, random.1, 8);
    FixedPlaced(m0, m1, m2, mem[..], random);
  }

  method PlaceStrings(mem: array<Byte>, argv: seq<seq<Byte>>, envp: seq<seq<Byte>>, random: (nat, nat))
    returns (argvPtrs: seq<nat>, envpPtrs: seq<nat>, sp: nat)
    requires mem.Length == STACK_SIZE && random.0 < U64 && random.1 < U64
    requires |Packed(argv)| + |Packed(envp)| <= RANDOM_AT
    modifies mem
    ensures StringsPlaced(mem[..], argv, envp, random, sp) && sp == RANDOM_AT - |Packed(envp)| - |Packed(argv)|
    ensures argvPtrs == Starts(argv, STACK_BASE + sp) && envpPtrs == Starts(envp, STACK_BASE + sp + |Packed(argv)|)
  {
    hide Packed, Starts, Decode;
    sp := PlaceFixed(mem, random);
    ghost var m1, sp1 := mem[..], sp;
    StringsBase();
    envpPtrs, sp := PushStrings(mem, envp, sp);
    ghost var m2, sp2 := mem[..], sp;
    argvPtrs, sp := PushStrings(mem, argv, sp);
    StringsKept(m1, m2, [], [], random, sp1);
    SameTrans(m1, m2, mem[..], sp1, sp2);
    StringsKept(m1, mem[..], [], [], random, sp1);
    assert mem[..][sp2..|m2|] == m2[sp2..|m2|];
    SubSlice(m2, mem[..], sp2, |m2|, sp2, sp1);
    assert mem[sp..sp2] == mem[..][sp..sp2];
    assert m2[sp2..sp1] == Packed(envp);
  }

  /** Number of words from rsp up to and including the AT_NULL pair. */
  function WordCount(argc: nat, envc: nat): nat { 1 + (argc + 1) + (envc + 1) + 30 }

  /** The stack pointer, relative to STACK_BASE, that the strings and words lead to. */
  function FinalSp(argv: seq<seq<Byte>>, envp: seq<seq<Byte>>): int {
    var s := RANDOM_AT - |Packed(envp)| - |Packed(argv)|;
    s - s % 16 - (if WordCount(|argv|, |envp|) % 2 != 0 then 8 else 0) - 8 * WordCount(|argv|, |envp|)
  }

  /** Everything that is pushed lies inside the stack. */
  ghost predicate Fits(argv: seq<seq<Byte>>, envp: seq<seq<Byte>>) {
    |Packed(argv)| + |Packed(envp)| <= RANDOM_AT && FinalSp(argv, envp) >= 0
  }

  /** All words, reading upward from rsp. */
  function ImageWords(argvPtrs: seq<nat>, envpPtrs: seq<nat>, aux: seq<(nat, nat)>): seq<nat> {
    [|argvPtrs|] + (argvPtrs + ([0] + (envpPtrs + ([0] + (Flat(aux) + [0, 0])))))
  }

  method PlaceWords(mem: array<Byte>, sp: nat, argvPtrs: seq<nat>, envpPtrs: seq<nat>, p: Program, execfn: nat, platform: nat, random: nat)
    returns (sp': nat)
    requires 8 * WordCount(|argvPtrs|, |envpPtrs|) <= sp <= mem.Length == STACK_SIZE
    requires GoodProgram(p) && execfn < U64 && platform < U64 && random < U64
    requires forall i :: 0 <= i < |argvPtrs| ==> argvPtrs[i] < U64
    requires forall i :: 0 <= i < |envpPtrs| ==> envpPtrs[i] < U64
    modifies mem
    ensures sp' == sp - 8 * WordCount(|argvPtrs|, |envpPtrs|)
    ensures WordsAt(mem[..], sp', ImageWords(argvPtrs, envpPtrs, Auxv(p, execfn, platform, random)))
    ensures Same(old(mem[..]), mem[..], sp)
  {
    ghost var m0, top := mem[..], sp;
    assert Pushed(m0, sp, [], m0, top);
    hide Pushed, Flat, Auxv;
    sp' := PushAuxv(mem, sp, p, execfn, platform, random, m0, top);
    ghost var ws := Flat(Auxv(p, execfn, platform, random)) + [0, 0];
    sp' := Push64(mem, sp', 0, ws, m0, top);
    sp' := PushAll(mem, sp', envpPtrs, [0] + ws, m0, top);
    sp' := Push64(mem, sp', 0, envpPtrs + ([0] + ws), m0, top);
    sp' := PushAll(mem, sp', argvPtrs, [0] + (envpPtrs + ([0] + ws)), m0, top);
    sp' := Push64(mem, sp', |argvPtrs|, argvPtrs + ([0] + (envpPtrs + ([0] + ws))), m0, top);
    PushedMeans(mem[..], sp', ImageWords(argvPtrs, envpPtrs, Auxv(p, execfn, platform, random)), m0, top);
  }

  lemma PushedMeans(mem: seq<Byte>, sp: nat, ws: seq<nat>, m0: seq<Byte>, top: nat)
    requires Pushed(mem, sp, ws, m0, top)
    ensures WordsAt(mem, sp, ws) && Same(m0, mem, top)
  {
  }

  lemma WordsPart(mem: seq<Byte>, at: nat, xs: seq<nat>, ys: seq<nat>, zs: seq<nat>)
    requires WordsAt(mem, at, xs + (ys + zs))
    ensures WordsAt(mem, at + 8 * |xs|, ys) && WordsAt(mem, at, xs)
  {
    var ws := xs + (ys + zs);
    forall i | 0 <= i < |ys| ensures Get(mem, at + 8 * |xs| + 8 * i, 8) == ys[i] {
      assert Get(mem, at + 8 * (|xs| + i), 8) == ws[|xs| + i];
    }
    forall i | 0 <= i < |xs| ensures Get(mem, at + 8 * i, 8) == xs[i] {
      assert ws[i] == xs[i];
    }
  }

  lemma {:induction false} StartsBounds(strs: seq<seq<Byte>>, at: nat)
    ensures forall i :: 0 <= i < |strs| ==> at <= Starts(strs, at)[i] < at + |Packed(strs)|
  {
    if strs != [] {
      StartsBounds(strs[1..], at + |strs[0]| + 1);
      var ps := Starts(strs, at);
      forall i | 0 <= i < |strs| ensures at <= ps[i] < at + |Packed(strs)| {
        if i > 0 { assert ps[i] == Starts(strs[1..], at + |strs[0]| + 1)[i - 1]; }
      }
    }
  }

  lemma FirstWord(mem: seq<Byte>, at: nat, ws: seq<nat>)
    requires WordsAt(mem, at, ws) && ws != []
    ensures at + 8 <= |mem| && Get(mem, at, 8) == ws[0]
  {
    assert Get(mem, at + 8 * 0, 8) == ws[0];
  }

  /** Three lists stored one after another, each with its terminator, read back as three lists. */
  lemma ReadThreeLists(mem: seq<Byte>, at: nat, xs: seq<nat>, ys: seq<nat>, aux: seq<(nat, nat)>)
    requires WordsAt(mem, at, ImageWords(xs, ys, aux))
    requires forall i :: 0 <= i < |xs| ==> xs[i] != 0
    requires forall i :: 0 <= i < |ys| ==> ys[i] != 0
    requires forall i :: 0 <= i < |aux| ==> aux[i].0 != 0
    ensures at + 8 <= |mem| && Get(mem, at, 8) == |xs|
    ensures WordList(mem, at + 8) == xs
    ensures var envpAt := at + 8 + 8 * |xs| + 8;
            WordList(mem, envpAt) == ys && PairList(mem, envpAt + 8 * |ys| + 8) == aux
  {
    hide Flat, WordList, PairList, Decode, WordsAt, ImageWords;
    FirstOfImage(mem, at, xs, ys, aux);
    ArgvOfImage(mem, at, xs, ys, aux);
    EnvpOfImage(mem, at, xs, ys, aux);
    AuxOfImage(mem, at, xs, ys, aux);
  }

  lemma FirstOfImage(mem: seq<Byte>, at: nat, xs: seq<nat>, ys: seq<nat>, aux: seq<(nat, nat)>)
    requires WordsAt(mem, at, ImageWords(xs, ys, aux))
    ensures at + 8 <= |mem| && Get(mem, at, 8) == |xs|
  {
    hide Flat, Decode;
    FirstWord(mem, at, ImageWords(xs, ys, aux));
  }

  lemma ArgvOfImage(mem: seq<Byte>, at: nat, xs: seq<nat>, ys: seq<nat>, aux: seq<(nat, nat)>)
    requires WordsAt(mem, at, ImageWords(xs, ys, aux)) && forall i :: 0 <= i < |xs| ==> xs[i] != 0
    ensures WordList(mem, at + 8) == xs
  {
    hide Flat, WordList, WordsAt;
    var rest := ys + ([0] + (Flat(aux) + [0, 0]));
    Assoc(xs, [0], rest);
    ListAfter(mem, at, [|xs|], xs, rest);
  }

  lemma EnvpOfImage(mem: seq<Byte>, at: nat, xs: seq<nat>, ys: seq<nat>, aux: seq<(nat, nat)>)
    requires WordsAt(mem, at, ImageWords(xs, ys, aux)) && forall i :: 0 <= i < |ys| ==> ys[i] != 0
    ensures WordList(mem, at + 8 + 8 * |xs| + 8) == ys
  {
    hide Flat, WordList, WordsAt;
    var h, tail := [|xs|], Flat(aux) + [0, 0];
    Assoc(ys, [0], tail);
    Assoc(xs, [0], (ys + [0]) + tail);
    Assoc(h, xs + [0], (ys + [0]) + tail);
    ListAfter(mem, at, h + (xs + [0]), ys, tail);
  }

  lemma AuxOfImage(mem: seq<Byte>, at: nat, xs: seq<nat>, ys: seq<nat>, aux: seq<(nat, nat)>)
    requires WordsAt(mem, at, ImageWords(xs, ys, aux)) && forall i :: 0 <= i < |aux| ==> aux[i].0 != 0
    ensures PairList(mem, at + 8 + 8 * |xs| + 8 + 8 * |ys| + 8) == aux
  {
    hide Flat, PairList, WordsAt;
    var h, tail := [|xs|], Flat(aux) + [0, 0];
    Assoc(ys, [0], tail);
    Assoc(xs, [0], (ys + [0]) + tail);
    Assoc(h, xs + [0], (ys + [0]) + tail);
    Assoc(h + (xs + [0]), ys + [0], tail);
    assert tail + [] == tail;
    PairsAfter(mem, at, h + (xs + [0]) + (ys + [0]), aux);
  }

  lemma ListAfter(mem: seq<Byte>, at: nat, pre: seq<nat>, ys: seq<nat>, tail: seq<nat>)
    requires WordsAt(mem, at, pre + ((ys + [0]) + tail)) && forall i :: 0 <= i < |ys| ==> ys[i] != 0
    ensures WordList(mem, at + 8 * |pre|) == ys
  {
    hide WordList, WordsAt;
    WordsPart(mem, at, pre, ys + [0], tail);
    ReadWords(mem, at + 8 * |pre|, ys);
  }

  lemma PairsAfter(mem: seq<Byte>, at: nat, pre: seq<nat>, aux: seq<(nat, nat)>)
    requires WordsAt(mem, at, pre + ((Flat(aux) + [0, 0]) + [])) && forall i :: 0 <= i < |aux| ==> aux[i].0 != 0
    ensures PairList(mem, at + 8 * |pre|) == aux
  {
    hide PairList, WordsAt, Flat;
    WordsPart(mem, at, pre, Flat(aux) + [0, 0], []);
    ReadPairs(mem, at + 8 * |pre|, aux);
  }

  lemma Assoc(a: seq<nat>, b: seq<nat>, c: seq<nat>)
    ensures a + (b + c) == (a + b) + c
  {
  }

  lemma ReadBack(mem: seq<Byte>, argv: seq<seq<Byte>>, envp: seq<seq<Byte>>, random: (nat, nat), sp: nat, at: nat, aux: seq<(nat, nat)>)
    requires StringsPlaced(mem, argv, envp, random, sp)
    requires CStrings(argv) && CStrings(envp)
    requires forall i :: 0 <= i < |aux| ==> aux[i].0 != 0
    requires WordsAt(mem, at, ImageWords(Starts(argv, STACK_BASE + sp), Starts(envp, STACK_BASE + sp + |Packed(argv)|), aux))
    ensures at + 8 <= |mem| && ReadImage(mem, STACK_BASE + at) == Image(|argv|, argv, envp, aux)
    ensures PLATFORM_AT <= |mem| && CString(mem, PLATFORM_AT) == PLATFORM
    ensures argv != [] ==> sp <= |mem| && CString(mem, sp) == argv[0]
    ensures RANDOM_AT + 16 <= |mem| && Get(mem, RANDOM_AT, 8) == random.0 && Get(mem, RANDOM_AT + 8, 8) == random.1
  {
    hide WordList, PairList, WordsAt, CString, Packed, Decode, Strings, ImageWords, StringsPlaced, Starts, CStrings;
    var xs, ys := Starts(argv, STACK_BASE + sp), Starts(envp, STACK_BASE + sp + |Packed(argv)|);
    StartsBounds(argv, STACK_BASE + sp);
    StartsBounds(envp, STACK_BASE + sp + |Packed(argv)|);
    ReadThreeLists(mem, at, xs, ys, aux);
    PlacedStrings(mem, argv, envp, random, sp);
  }

  lemma PlacedStrings(mem: seq<Byte>, argv: seq<seq<Byte>>, envp: seq<seq<Byte>>, random: (nat, nat), sp: nat)
    requires StringsPlaced(mem, argv, envp, random, sp) && CStrings(argv) && CStrings(envp)
    ensures Strings(mem, Starts(argv, STACK_BASE + sp)) == argv
    ensures Strings(mem, Starts(envp, STACK_BASE + sp + |Packed(argv)|)) == envp
    ensures PLATFORM_AT <= |mem| && CString(mem, PLATFORM_AT) == PLATFORM
    ensures argv != [] ==> sp <= |mem| && CString(mem, sp) == argv[0]
    ensures RANDOM_AT + 16 <= |mem| && Get(mem, RANDOM_AT, 8) == random.0 && Get(mem, RANDOM_AT + 8, 8) == random.1
  {
    hide CString, Packed, Decode, Strings, Starts;
    ReadStrings(mem, sp, argv);
    ReadStrings(mem, sp + |Packed(argv)|, envp);
    ReadString(mem, PLATFORM_AT, PLATFORM);
    if argv != [] {
      PackedParts(mem, sp, argv);
      ReadString(mem, sp, argv[0]);
    }
  }

  /** `sp &= ~0xF`, and one padding word when the number of words is odd. */
  method AlignForWords(sp: nat, argc: nat, envc: nat) returns (at: int)
    ensures at == sp - sp % 16 - (if WordCount(argc, envc) % 2 != 0 then 8 else 0)
    ensures (at - 8 * WordCount(argc, envc)) % 16 == 0
  {
    hide AndNot;
    AlignDown16(sp);
    at := AndNot(sp, 15);
    var totalWords := 1 + (argc + 1) + (envc + 1) + (14 + 1) * 2;
    if totalWords % 2 != 0 { at := at - 8; }
    EvenWords(sp, totalWords);
  }

  /** `build_user_stack`, once its pages are mapped. `emptyString` is where the kernel's own "" lies, which AT_EXECFN gets
      when there is no argument; `random` are the two words of AT_RANDOM. */
  method BuildUserStack(mem: array<Byte>, argv: seq<seq<Byte>>, envp: seq<seq<Byte>>, p: Program, emptyString: nat, random: (nat, nat))
    returns (rsp: nat, ghost execfn: nat)
    requires mem.Length == STACK_SIZE && GoodProgram(p) && emptyString < U64 && random.0 < U64 && random.1 < U64
    requires CStrings(argv) && CStrings(envp)
    requires Fits(argv, envp)
    modifies mem
    ensures rsp == STACK_BASE + FinalSp(argv, envp) && rsp % 16 == 0 && rsp - STACK_BASE + 8 <= STACK_SIZE
    ensures ReadImage(mem[..], rsp) ==
              Image(|argv|, argv, envp, Auxv(p, execfn, STACK_BASE + PLATFORM_AT, STACK_BASE + RANDOM_AT))
    ensures if argv == [] then execfn == emptyString
            else STACK_BASE <= execfn < STACK_TOP && CString(mem[..], execfn - STACK_BASE) == argv[0]
    ensures CString(mem[..], PLATFORM_AT) == PLATFORM
    ensures Get(mem[..], RANDOM_AT, 8) == random.0 && Get(mem[..], RANDOM_AT + 8, 8) == random.1
  {
    hide Packed, CString, CStrings, Decode, WordsAt, ReadImage, Auxv, Starts, ImageWords, StringsPlaced, Same, Pow256;
    forall i | 0 <= i < mem.Length { mem[i] := 0; }
    var argvPtrs, envpPtrs, sp := PlaceStrings(mem, argv, envp, random);
    ghost var m1 := mem[..];
    StartsBounds(argv, STACK_BASE + sp);
    StartsBounds(envp, STACK_BASE + sp + |Packed(argv)|);
    StartsFirst(argv, STACK_BASE + sp);
    var top := AlignForWords(sp, |argv|, |envp|);
    var name := if argvPtrs != [] then argvPtrs[0] else emptyString;
    var at := PlaceWords(mem, top, argvPtrs, envpPtrs, p, name, STACK_BASE + PLATFORM_AT, STACK_BASE + RANDOM_AT);
    SameAbove(m1, mem[..], top, sp);
    StringsKept(m1, mem[..], argv, envp, random, sp);
    AuxTypes(p, name, STACK_BASE + PLATFORM_AT, STACK_BASE + RANDOM_AT);
    ReadBack(mem[..], argv, envp, random, sp, at, Auxv(p, name, STACK_BASE + PLATFORM_AT, STACK_BASE + RANDOM_AT));
    rsp, execfn := STACK_BASE + at, name;
  }

  lemma StartsFirst(strs: seq<seq<Byte>>, at: nat)
    ensures strs != [] ==> Starts(strs, at)[0] == at
  {
  }

  lemma SameAbove(mem: seq<Byte>, mem': seq<Byte>, from: nat, higher: nat)
    requires Same(mem, mem', from) && from <= higher <= |mem|
    ensures Same(mem, mem', higher)
  {
    SubSlice(mem, mem', from, |mem|, higher, |mem|);
  }

  lemma AuxTypes(p: Program, execfn: nat, platform: nat, random: nat)
    ensures var aux := Auxv(p, execfn, platform, random); forall i :: 0 <= i < |aux| ==> aux[i].0 != 0
  {
  }

  lemma EvenWords(s: nat, n: nat)
    ensures (s - s % 16 - (if n % 2 != 0 then 8 else 0) - 8 * n) % 16 == 0
  {
  }

  // ---- the image word by word

  lemma {:induction false} WordListAt(mem: seq<Byte>, off: nat)
    ensures var ws := WordList(mem, off);
            (forall i :: 0 <= i < |ws| ==> off + 8 * i + 8 <= |mem| && Get(mem, off + 8 * i, 8) == ws[i]) &&
            (off + 8 * |ws| + 8 <= |mem| ==> Get(mem, off + 8 * |ws|, 8) == 0)
    decreases |mem| - off
  {
    hide Decode;
    var ws := WordList(mem, off);
    if ws != [] {
      WordListAt(mem, off + 8);
      forall i | 0 <= i < |ws| ensures off + 8 * i + 8 <= |mem| && Get(mem, off + 8 * i, 8) == ws[i] {
        if i > 0 { assert ws[i] == WordList(mem, off + 8)[i - 1]; }
      }
    }
  }

  lemma {:induction false} PairListAt(mem: seq<Byte>, off: nat)
    ensures var aux := PairList(mem, off);
            (forall i :: 0 <= i < |aux| ==>
               off + 16 * i + 16 <= |mem| && Get(mem, off + 16 * i, 8) == aux[i].0 && Get(mem, off + 16 * i + 8, 8) == aux[i].1) &&
            (off + 16 * |aux| + 16 <= |mem| ==> Get(mem, off + 16 * |aux|, 8) == 0)
    decreases |mem| - off
  {
    hide Decode;
    var aux := PairList(mem, off);
    if aux != [] {
      PairListAt(mem, off + 16);
      forall i | 0 <= i < |aux|
        ensures off + 16 * i + 16 <= |mem| && Get(mem, off + 16 * i, 8) == aux[i].0 && Get(mem, off + 16 * i + 8, 8) == aux[i].1
      {
        if i > 0 { assert aux[i] == PairList(mem, off + 16)[i - 1]; }
      }
    }
  }

  /** Pointer `ptr` leads to the NUL-terminated string `s`; outside the stack the reader finds nothing. */
  ghost predicate PointsTo(mem: seq<Byte>, ptr: nat, s: seq<Byte>) {
    if STACK_BASE <= ptr <= STACK_BASE + |mem| then CString(mem, ptr - STACK_BASE) == s else s == []
  }

  lemma {:induction false} StringsAt(mem: seq<Byte>, ptrs: seq<nat>)
    ensures |Strings(mem, ptrs)| == |ptrs|
    ensures forall i :: 0 <= i < |ptrs| ==> PointsTo(mem, ptrs[i], Strings(mem, ptrs)[i])
  {
    hide CString;
    if ptrs != [] {
      StringsAt(mem, ptrs[1..]);
      forall i | 0 <= i < |ptrs| ensures PointsTo(mem, ptrs[i], Strings(mem, ptrs)[i]) {
        if i > 0 { assert ptrs[i] == ptrs[1..][i - 1]; }
      }
    }
  }

  /** What reading an image means for the words above rsp: argc, then argc pointers to the arguments in order, a null word,
      the pointers to the environment, a null word, and the (type, value) pairs up to a null type. */
  lemma ImageLayout(mem: seq<Byte>, rsp: nat)
    requires STACK_BASE <= rsp && rsp - STACK_BASE + 8 <= |mem|
    ensures var img, at := ReadImage(mem, rsp), rsp - STACK_BASE;
            var envAt := at + 16 + 8 * |img.argv|;
            var auxAt := envAt + 8 + 8 * |img.envp|;
            && Get(mem, at, 8) == img.argc
            && (forall i :: 0 <= i < |img.argv| ==> at + 16 + 8 * i <= |mem| && PointsTo(mem, Get(mem, at + 8 + 8 * i, 8), img.argv[i]))
            && (envAt <= |mem| ==> Get(mem, envAt - 8, 8) == 0)
            && (forall i :: 0 <= i < |img.envp| ==> envAt + 8 * i + 8 <= |mem| && PointsTo(mem, Get(mem, envAt + 8 * i, 8), img.envp[i]))
            && (auxAt <= |mem| ==> Get(mem, auxAt - 8, 8) == 0)
            && (forall i :: 0 <= i < |img.auxv| ==>
                  auxAt + 16 * i + 16 <= |mem| &&
                  Get(mem, auxAt + 16 * i, 8) == img.auxv[i].0 && Get(mem, auxAt + 16 * i + 8, 8) == img.auxv[i].1)
            && (auxAt + 16 * |img.auxv| + 16 <= |mem| ==> Get(mem, auxAt + 16 * |img.auxv|, 8) == 0)
  {
    hide Decode, Strings, WordList, PairList, PointsTo;
    var at := rsp - STACK_BASE;
    var argvPtrs := WordList(mem, at + 8);
    WordListAt(mem, at + 8);
    StringsAt(mem, argvPtrs);
    var envAt := at + 16 + 8 * |argvPtrs|;
    var envpPtrs := WordList(mem, envAt);
    WordListAt(mem, envAt);
    StringsAt(mem, envpPtrs);
    PairListAt(mem, envAt + 8 + 8 * |envpPtrs|);
  }

  // ---- what the auxiliary vector says

  const AT_PHDR: nat := 3
  const AT_PHENT: nat := 4
  const AT_PHNUM: nat := 5
  const AT_PAGESZ: nat := 6
  const AT_BASE: nat := 7
  const AT_FLAGS: nat := 8
  const AT_ENTRY: nat := 9
  const AT_PLATFORM: nat := 15
  const AT_HWCAP: nat := 16
  const AT_CLKTCK: nat := 17
  const AT_SECURE: nat := 23
  const AT_RANDOM: nat := 25
  const AT_HWCAP2: nat := 26
  const AT_EXECFN: nat := 31

  /** The value under a type, as a program looks it up, or -1. */
  function Lookup(aux: seq<(nat, nat)>, ty: nat): int {
    if aux == [] then -1 else if aux[0].0 == ty then aux[0].1 else Lookup(aux[1..], ty)
  }

  lemma {:induction false} LookupFinds(aux: seq<(nat, nat)>, i: nat)
    requires i < |aux| && forall j :: 0 <= j < i ==> aux[j].0 != aux[i].0
    ensures Lookup(aux, aux[i].0) == aux[i].1
  {
    if i > 0 { LookupFinds(aux[1..], i - 1); }
  }

  /** Every value a program or its loader looks up. */
  lemma AuxvSays(p: Program, execfn: nat, platform: nat, random: nat)
    ensures var aux := Auxv(p, execfn, platform, random);
      && Lookup(aux, AT_ENTRY) == (p.entry + p.loadBias) % U64 && Lookup(aux, AT_BASE) == p.interpBase
      && Lookup(aux, AT_PHNUM) == |p.phdrs| && Lookup(aux, AT_PHENT) == 56 && Lookup(aux, AT_PHDR) == PhdrAddress(p, 0)
      && Lookup(aux, AT_PAGESZ) == 4096 && Lookup(aux, AT_RANDOM) == random && Lookup(aux, AT_PLATFORM) == platform
      && Lookup(aux, AT_EXECFN) == execfn && Lookup(aux, AT_SECURE) == 0 && Lookup(aux, AT_FLAGS) == 0
      && Lookup(aux, AT_CLKTCK) == 100 && Lookup(aux, AT_HWCAP) == 0x1f8bfbff && Lookup(aux, AT_HWCAP2) == 0
  {
    hide Lookup, PhdrAddress;
    var aux := Auxv(p, execfn, platform, random);
    forall i | 0 <= i < |aux| ensures Lookup(aux, aux[i].0) == aux[i].1 { LookupFinds(aux, i); }
    assert aux[0].0 == AT_EXECFN && aux[1].0 == AT_PHDR && aux[2].0 == AT_PHENT && aux[3].0 == AT_PHNUM && aux[4].0 == AT_PAGESZ;
    assert aux[5].0 == AT_ENTRY && aux[6].0 == AT_BASE && aux[7].0 == AT_FLAGS && aux[8].0 == AT_CLKTCK && aux[9].0 == AT_HWCAP;
    assert aux[10].0 == AT_HWCAP2 && aux[11].0 == AT_RANDOM && aux[12].0 == AT_PLATFORM && aux[13].0 == AT_SECURE;
  }
}
