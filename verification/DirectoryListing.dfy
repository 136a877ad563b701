/** Resumable directory listing: `getdents_filldir`, `ramfs_readdir` and `sys_getdents64`. */
module DirectoryListing {
  import opened ByteStore

  const EINVAL: int := 22
  const DT_DIR: nat := 4

  /** A child dentry; a negative one has no inode. */
  datatype Child = Positive(name: seq<Byte>, ino: nat, mode: nat) | Negative(name: seq<Byte>)
  datatype Directory = Directory(ino: nat, parentIno: nat, children: seq<Child>)

  /** One record of the listing. */
  datatype Entry = Entry(ino: nat, dtype: nat, name: seq<Byte>)

  const DOT: seq<Byte> := [0x2e]
  const DOTDOT: seq<Byte> := [0x2e, 0x2e]

  /** The file type of a mode: the DT_ constant of its S_IFMT bits, or DT_UNKNOWN. */
  function DType(mode: nat): nat {
    var fmt := mode / 0x1000 % 16;
    if fmt == 8 then 8 else if fmt == 4 then 4 else if fmt == 10 then 10 else if fmt == 2 then 2
    else if fmt == 6 then 6 else if fmt == 1 then 1 else if fmt == 12 then 12 else 0
  }

  // ---- what a listing is

  /** Entries of the children from index `i` on: those with an inode, in list order. */
  function ChildEntries(d: Directory, i: nat): seq<Entry>
    decreases |d.children| - i
  {
    if i >= |d.children| then []
    else
      (match d.children[i]
       case Positive(name, ino, mode) => [Entry(ino, DType(mode), name)]
       case Negative(_) => []) + ChildEntries(d, i + 1)
  }

  /** What is still to be listed at file position `pos`: 0 is before ".", 1 before "..", 2 + i before child i. */
  function Remaining(d: Directory, pos: nat): seq<Entry> {
    (if pos == 0 then [Entry(d.ino, DT_DIR, DOT)] else []) +
    (if pos <= 1 then [Entry(d.parentIno, DT_DIR, DOTDOT)] else []) +
    ChildEntries(d, if pos <= 2 then 0 else pos - 2)
  }

  /** `ALIGN(offsetof(struct linux_dirent64, d_name) + namelen + 1, 8)` */
  function RecLen(name: seq<Byte>): nat { (19 + |name| + 1 + 7) / 8 * 8 }

  /** `rec` is the record of `e` that ends at offset `next` of the buffer; bytes after the NUL are not looked at. */
  ghost predicate IsRecord(rec: seq<Byte>, e: Entry, next: nat) {
    |rec| == RecLen(e.name) && Get(rec, 0, 8) == e.ino && Get(rec, 8, 8) == next && Get(rec, 16, 2) == |rec| &&
    Get(rec, 18, 1) == e.dtype && rec[19..19 + |e.name|] == e.name && rec[19 + |e.name|] == 0
  }

  /** `bytes` holds exactly the records of `es`, one after another, from offset `at` of the buffer. */
  ghost predicate Records(bytes: seq<Byte>, es: seq<Entry>, at: nat)
    decreases |es|
  {
    if es == [] then bytes == []
    else
      var n := RecLen(es[0].name);
      n <= |bytes| && IsRecord(bytes[..n], es[0], at + n) && Records(bytes[n..], es[1..], at + n)
  }

  lemma RecordsCons(rec: seq<Byte>, e: Entry, bytes: seq<Byte>, es: seq<Entry>, at: nat)
    requires IsRecord(rec, e, at + |rec|) && Records(bytes, es, at + |rec|)
    ensures Records(rec + bytes, [e] + es, at)
  {
    assert |rec| == RecLen(e.name);
    hide IsRecord;
    assert (rec + bytes)[..|rec|] == rec && (rec + bytes)[|rec|..] == bytes && ([e] + es)[1..] == es;
  }

  lemma {:induction false} RecordsAppend(bytes: seq<Byte>, es: seq<Entry>, at: nat, rec: seq<Byte>, e: Entry)
    requires Records(bytes, es, at) && IsRecord(rec, e, at + |bytes| + |rec|)
    ensures Records(bytes + rec, es + [e], at)
    decreases |es|
  {
    hide IsRecord;
    if es == [] {
      RecordsCons(rec, e, [], [], at);
      assert bytes + rec == rec + [] && es + [e] == [e] + [];
    } else {
      var n := RecLen(es[0].name);
      var head, tail := bytes[..n], bytes[n..];
      RecordsAppend(tail, es[1..], at + n, rec, e);
      RecordsCons(head, es[0], tail + rec, es[1..] + [e], at);
      assert bytes + rec == head + (tail + rec) && es + [e] == [es[0]] + (es[1..] + [e]);
    }
  }

  // ---- reading a listing back

  /** What a user program makes of the bytes: hop by d_reclen, read inode, type and name. */
  function ParseRecords(bytes: seq<Byte>): seq<Entry>
    decreases |bytes|
  {
    if |bytes| < 24 || Get(bytes, 16, 2) < 24 || Get(bytes, 16, 2) > |bytes| then []
    else
      [Entry(Get(bytes, 0, 8), Get(bytes, 18, 1), CString(bytes, 19))] + ParseRecords(bytes[Get(bytes, 16, 2)..])
  }

  lemma PrefixReads(bytes: seq<Byte>, n: nat, off: nat, k: nat)
    requires off + k <= n <= |bytes|
    ensures Get(bytes[..n], off, k) == Get(bytes, off, k)
  {
    assert bytes[..n][off..off + k] == bytes[off..off + k];
  }

  lemma RecordReads(bytes: seq<Byte>, n: nat, e: Entry, next: nat)
    requires n <= |bytes| && IsRecord(bytes[..n], e, next) && 0 !in e.name
    ensures n >= 24 && Get(bytes, 0, 8) == e.ino && Get(bytes, 16, 2) == n && Get(bytes, 18, 1) == e.dtype && CString(bytes, 19) == e.name
  {
    hide Decode;
    PrefixReads(bytes, n, 0, 8);
    PrefixReads(bytes, n, 16, 2);
    PrefixReads(bytes, n, 18, 1);
    assert bytes[..n][19..19 + |e.name|] == bytes[19..19 + |e.name|];
    ReadCString(bytes, 19, e.name);
  }

  /** The records read back as the entries. */
  lemma {:induction false} ParseBack(bytes: seq<Byte>, es: seq<Entry>, at: nat)
    requires Records(bytes, es, at) && forall i :: 0 <= i < |es| ==> 0 !in es[i].name
    ensures ParseRecords(bytes) == es
    decreases |es|
  {
    if es != [] {
      var n := RecLen(es[0].name);
      RecordReads(bytes, n, es[0], at + n);
      ParseBack(bytes[n..], es[1..], at + n);
    }
  }

  // ---- writing

  const U64: nat := 0x1_0000_0000_0000_0000

  /** What fits a record's fields. */
  ghost predicate GoodEntry(e: Entry) {
    e.ino < U64 && e.dtype < 256 && RecLen(e.name) < 65536 && 0 !in e.name
  }

  /** The fixed fields of a record. */
  function Fields(e: Entry, next: nat): (r: seq<Byte>)
    ensures |r| == 19
  {
    Encode(e.ino, 8) + Encode(next, 8) + Encode(RecLen(e.name), 2) + Encode(e.dtype, 1)
  }

  lemma PowersOf256()
    ensures Pow256(1) == 256 && Pow256(2) == 65536 && Pow256(8) == U64
  {
    assert Pow256(4) == 0x1_0000_0000;
    assert Pow256(6) == 0x1_0000_0000_0000;
  }

  lemma FieldsRead(rec: seq<Byte>, e: Entry, next: nat)
    requires GoodEntry(e) && next < U64 && |rec| == RecLen(e.name) && rec[..19 + |e.name| + 1] == Fields(e, next) + e.name + [0]
    ensures IsRecord(rec, e, next)
  {
    PowersOf256();
    DecodeEncode(e.ino, 8);
    DecodeEncode(next, 8);
    DecodeEncode(|rec|, 2);
    DecodeEncode(e.dtype, 1);
    hide Encode, Decode, Pow256;
    var f := Fields(e, next);
    FourParts(Encode(e.ino, 8), Encode(next, 8), Encode(|rec|, 2), Encode(e.dtype, 1));
    hide Fields;
    InFront(rec, f, e.name, 0, 8);
    InFront(rec, f, e.name, 8, 16);
    InFront(rec, f, e.name, 16, 18);
    InFront(rec, f, e.name, 18, 19);
    NameBehind(rec, f, e.name);
  }

  lemma FourParts(a: seq<Byte>, b: seq<Byte>, c: seq<Byte>, d: seq<Byte>)
    requires |a| == 8 && |b| == 8 && |c| == 2 && |d| == 1
    ensures var f := a + b + c + d; f[0..8] == a && f[8..16] == b && f[16..18] == c && f[18..19] == d
  {
  }

  lemma InFront(rec: seq<Byte>, f: seq<Byte>, name: seq<Byte>, i: nat, j: nat)
    requires i <= j <= 19 == |f| && 20 + |name| <= |rec| && rec[..19 + |name| + 1] == f + name + [0]
    ensures rec[i..j] == f[i..j]
  {
    assert forall k :: i <= k < j ==> rec[k] == rec[..19 + |name| + 1][k];
  }

  lemma NameBehind(rec: seq<Byte>, f: seq<Byte>, name: seq<Byte>)
    requires 19 == |f| && 20 + |name| <= |rec| && rec[..19 + |name| + 1] == f + name + [0]
    ensures rec[19..19 + |name|] == name && rec[19 + |name|] == 0
  {
    assert forall k :: 0 <= k < 20 + |name| ==> rec[k] == (f + name + [0])[k];
  }

  /** Contiguous stores add up. */
  lemma PutNext(m: seq<Byte>, at: nat, done: seq<Byte>, bs: seq<Byte>)
    requires at + |done| + |bs| <= |m| && m[at..at + |done|] == done
    ensures var m' := Put(m, at + |done|, bs);
            m'[at..at + |done + bs|] == done + bs && m'[..at] == m[..at] && m'[at + |done + bs|..] == m[at + |done + bs|..]
  {
    var m' := Put(m, at + |done|, bs);
    PutSelf(m, at + |done|, bs);
    PutApart(m, at + |done|, bs, at, at + |done|);
    assert m'[at..at + |done + bs|] == m'[at..at + |done|] + m'[at + |done|..at + |done| + |bs|];
  }

  ghost predicate Wrote(m: seq<Byte>, m0: seq<Byte>, at: nat, bs: seq<Byte>) {
    |m| == |m0| && at + |bs| <= |m| && m[at..at + |bs|] == bs && m[..at] == m0[..at] && m[at + |bs|..] == m0[at + |bs|..]
  }

  lemma WroteMore(m: seq<Byte>, m0: seq<Byte>, at: nat, done: seq<Byte>, bs: seq<Byte>)
    requires Wrote(m, m0, at, done) && at + |done| + |bs| <= |m|
    ensures Wrote(Put(m, at + |done|, bs), m0, at, done + bs)
  {
    PutNext(m, at, done, bs);
    var b := at + |done + bs|;
    assert m[b..] == m[at + |done|..][|bs|..] && m0[b..] == m0[at + |done|..][|bs|..];
  }

  /** The stores of `getdents_filldir`. */
  method WriteRecord(buf: array<Byte>, pos: nat, e: Entry, next: nat)
    requires pos + 19 + |e.name| + 1 <= buf.Length
    modifies buf
    ensures Wrote(buf[..], old(buf[..]), pos, Fields(e, next) + e.name + [0])
  {
    hide Encode, Put, Wrote;
    ghost var m0 := buf[..];
    NothingWrote(m0, pos);
    ghost var done: seq<Byte> := [];
    WroteMore(buf[..], m0, pos, done, Encode(e.ino, 8));
    Store(buf, pos, e.ino, 8);
    done := done + Encode(e.ino, 8);
    WroteMore(buf[..], m0, pos, done, Encode(next, 8));
    Store(buf, pos + 8, next, 8);
    done := done + Encode(next, 8);
    WroteMore(buf[..], m0, pos, done, Encode(RecLen(e.name), 2));
    Store(buf, pos + 16, RecLen(e.name), 2);
    done := done + Encode(RecLen(e.name), 2);
    WroteMore(buf[..], m0, pos, done, Encode(e.dtype, 1));
    Store(buf, pos + 18, e.dtype, 1);
    done := done + Encode(e.dtype, 1);
    assert done == Fields(e, next);
    WroteMore(buf[..], m0, pos, done, e.name);
    CopyIn(buf, pos + 19, e.name);
    done := done + e.name;
    WroteMore(buf[..], m0, pos, done, [0]);
    CopyIn(buf, pos + 19 + |e.name|, [0]);
  }

  lemma NothingWrote(m: seq<Byte>, at: nat)
    requires at <= |m|
    ensures Wrote(m, m, at, [])
  {
  }

  /** `getdents_filldir`: false when the record does not fit. */
  method FillDir(buf: array<Byte>, size: nat, pos: nat, e: Entry) returns (ok: bool, pos': nat)
    requires pos <= size <= buf.Length < 0x8000_0000_0000_0000 && GoodEntry(e)
    modifies buf
    ensures ok <==> pos + RecLen(e.name) <= size
    ensures pos' == (if ok then pos + RecLen(e.name) else pos) && buf[..pos] == old(buf[..pos])
    ensures ok ==> IsRecord(buf[pos..pos'], e, pos')
    ensures !ok ==> buf[..] == old(buf[..])
  {
    ok, pos' := false, pos;
    var reclen := RecLen(e.name);
    if pos + reclen > size { return; }
    hide Fields, IsRecord;
    ghost var m0 := buf[..];
    WriteRecord(buf, pos, e, pos + reclen);
    ok, pos' := true, pos + reclen;
    ghost var rec := buf[pos..pos'];
    assert rec[..19 + |e.name| + 1] == buf[..][pos..pos + (19 + |e.name| + 1)];
    FieldsRead(rec, e, pos');
    assert buf[..pos] == buf[..][..pos];
  }

  // ---- one call

  /** How many of the entries fit in `room` bytes. */
  function FitCount(es: seq<Entry>, room: nat): (k: nat)
    ensures k <= |es|
    decreases |es|
  {
    if es == [] || RecLen(es[0].name) > room then 0 else 1 + FitCount(es[1..], room - RecLen(es[0].name))
  }

  ghost predicate GoodDirectory(d: Directory) {
    GoodEntry(Entry(d.ino, DT_DIR, DOT)) && GoodEntry(Entry(d.parentIno, DT_DIR, DOTDOT)) &&
    forall i :: 0 <= i < |d.children| && d.children[i].Positive? ==>
      GoodEntry(Entry(d.children[i].ino, DType(d.children[i].mode), d.children[i].name))
  }

  /** The call so far: `es` are in the buffer up to `pos`, and what remains at `fpos` is the rest of `all`. */
  ghost predicate SoFar(buf: seq<Byte>, size: nat, pos: nat, es: seq<Entry>, all: seq<Entry>, rest: seq<Entry>) {
    pos <= size <= |buf| && Records(buf[..pos], es, 0) && all == es + rest &&
    FitCount(all, size) == |es| + FitCount(rest, size - pos)
  }

  /** Calls the filler for the next entry of the listing. */
  method Emit(buf: array<Byte>, size: nat, pos: nat, e: Entry, ghost es: seq<Entry>, ghost all: seq<Entry>, ghost rest: seq<Entry>)
    returns (ok: bool, pos': nat)
    requires buf.Length < 0x8000_0000_0000_0000 && GoodEntry(e) && SoFar(buf[..], size, pos, es, all, [e] + rest)
    modifies buf
    ensures ok ==> SoFar(buf[..], size, pos', es + [e], all, rest)
    ensures !ok ==> SoFar(buf[..], size, pos', es, all, [e] + rest) && FitCount([e] + rest, size - pos') == 0
  {
    hide Records, IsRecord, FitCount;
    ghost var before := buf[..pos];
    assert buf[..][..pos] == before;
    FitStep(e, rest, size - pos);
    ok, pos' := FillDir(buf, size, pos, e);
    assert buf[..pos] == before && buf[..][..pos'] == buf[..pos'];
    if ok {
      assert buf[..pos'] == before + buf[pos..pos'];
      RecordsAppend(before, es, 0, buf[pos..pos'], e);
      assert es + ([e] + rest) == (es + [e]) + rest;
    }
  }

  lemma FitStep(e: Entry, rest: seq<Entry>, room: nat)
    ensures FitCount([e] + rest, room) == if RecLen(e.name) > room then 0 else 1 + FitCount(rest, room - RecLen(e.name))
  {
    assert ([e] + rest)[1..] == rest;
  }

  /** The loop of `ramfs_readdir` over the children, from file position `fpos` >= 2. */
  method ReadChildren(d: Directory, fpos: nat, buf: array<Byte>, size: nat, pos: nat, ghost es: seq<Entry>, ghost all: seq<Entry>)
    returns (fpos': nat, pos': nat, full: bool, ghost es': seq<Entry>)
    requires buf.Length < 0x8000_0000_0000_0000 && GoodDirectory(d) && fpos >= 2
    requires SoFar(buf[..], size, pos, es, all, ChildEntries(d, fpos - 2))
    modifies buf
    ensures fpos' >= fpos && SoFar(buf[..], size, pos', es', all, ChildEntries(d, fpos' - 2))
    ensures full <==> ChildEntries(d, fpos' - 2) != []
    ensures FitCount(ChildEntries(d, fpos' - 2), size - pos') == 0
  {
    hide SoFar, GoodEntry, FitCount;
    fpos', pos', full, es' := fpos, pos, false, es;
    var idx := 0;
    while idx < |d.children| && !full
      invariant 0 <= idx <= |d.children| && fpos <= fpos' && idx + 2 <= fpos'
      invariant SoFar(buf[..], size, pos', es', all, ChildEntries(d, fpos' - 2))
      invariant idx == |d.children| && !full ==> fpos' - 2 >= |d.children|
      invariant full ==> ChildEntries(d, fpos' - 2) != [] && pos' <= size && FitCount(ChildEntries(d, fpos' - 2), size - pos') == 0
      decreases |d.children| - idx, !full
    {
      if idx + 2 < fpos' {
        idx := idx + 1;
      } else if d.children[idx].Negative? {
        assert ChildEntries(d, idx) == ChildEntries(d, idx + 1);
        idx, fpos' := idx + 1, fpos' + 1;
      } else {
        var c := d.children[idx];
        var e := Entry(c.ino, DType(c.mode), c.name);
        ghost var rest := ChildEntries(d, idx + 1);
        assert ChildEntries(d, idx) == [e] + rest;
        var ok;
        ok, pos' := Emit(buf, size, pos', e, es', all, rest);
        if ok {
          es' := es' + [e];
          idx, fpos' := idx + 1, fpos' + 1;
        } else {
          SoFarRoom(buf[..], size, pos', es', all, [e] + rest);
          full := true;
        }
      }
    }
    SoFarRoom(buf[..], size, pos', es', all, ChildEntries(d, fpos' - 2));
    NothingFits(size - pos');
  }

  lemma SoFarRoom(buf: seq<Byte>, size: nat, pos: nat, es: seq<Entry>, all: seq<Entry>, rest: seq<Entry>)
    requires SoFar(buf, size, pos, es, all, rest)
    ensures pos <= size <= |buf|
  {
  }

  lemma NothingFits(room: nat)
    ensures FitCount([], room) == 0
  {
  }

  /** `ramfs_readdir` from file position `fpos`; `full` is the filler's refusal. */
  method ReadDir(d: Directory, fpos: nat, buf: array<Byte>, size: nat)
    returns (fpos': nat, pos: nat, full: bool, ghost es: seq<Entry>)
    requires buf.Length < 0x8000_0000_0000_0000 && size <= buf.Length && GoodDirectory(d)
    modifies buf
    ensures fpos' >= fpos && SoFar(buf[..], size, pos, es, Remaining(d, fpos), Remaining(d, fpos'))
    ensures full <==> Remaining(d, fpos') != []
    ensures FitCount(Remaining(d, fpos'), size - pos) == 0
  {
    hide SoFar, GoodEntry, FitCount, ChildEntries;
    fpos', pos, full, es := fpos, 0, false, [];
    ghost var all := Remaining(d, fpos);
    NothingSoFar(buf[..], size, all);
    var ok := true;
    if fpos' == 0 {
      assert Remaining(d, 0) == [Entry(d.ino, DT_DIR, DOT)] + Remaining(d, 1);
      ok, pos := Emit(buf, size, pos, Entry(d.ino, DT_DIR, DOT), es, all, Remaining(d, 1));
      if !ok { SoFarRoom(buf[..], size, pos, es, all, all); return 0, pos, true, es; }
      es, fpos' := es + [Entry(d.ino, DT_DIR, DOT)], 1;
    }
    if fpos' == 1 {
      assert Remaining(d, 1) == [Entry(d.parentIno, DT_DIR, DOTDOT)] + Remaining(d, 2);
      ok, pos := Emit(buf, size, pos, Entry(d.parentIno, DT_DIR, DOTDOT), es, all, Remaining(d, 2));
      if !ok { SoFarRoom(buf[..], size, pos, es, all, Remaining(d, 1)); return 1, pos, true, es; }
      es, fpos' := es + [Entry(d.parentIno, DT_DIR, DOTDOT)], 2;
    }
    assert Remaining(d, fpos') == ChildEntries(d, fpos' - 2);
    fpos', pos, full, es := ReadChildren(d, fpos', buf, size, pos, es, all);
    assert Remaining(d, fpos') == ChildEntries(d, fpos' - 2);
    SoFarRoom(buf[..], size, pos, es, all, Remaining(d, fpos'));
  }

  lemma NothingSoFar(buf: seq<Byte>, size: nat, all: seq<Entry>)
    requires size <= |buf|
    ensures SoFar(buf, size, 0, [], all, all)
  {
    assert buf[..0] == [] && [] + all == all;
  }

  /** `sys_getdents64` on an open directory: the bytes returned are the records of as many of the remaining entries as
      fit, reading back as those entries; the new position is right behind them. */
  method SysGetdents64(d: Directory, fpos: nat, buf: array<Byte>, count: nat) returns (ret: int, fpos': nat, ghost es: seq<Entry>)
    requires buf.Length < 0x8000_0000_0000_0000 && count <= buf.Length && GoodDirectory(d)
    modifies buf
    ensures count == 0 ==> ret == -EINVAL && fpos' == fpos && es == []
    ensures count > 0 ==> Stepped(d, fpos, count, fpos', es)
    ensures count > 0 ==> (ret < 0 <==> es == [] && Remaining(d, fpos) != []) && (ret < 0 ==> ret == -EINVAL)
    ensures ret >= 0 ==> ret <= count && Records(buf[..ret], es, 0) && ParseRecords(buf[..ret]) == es && (ret == 0 <==> es == [])
  {
    hide Records, FitCount, ChildEntries, ParseRecords;
    es := [];
    if count == 0 { return -EINVAL, fpos, []; }
    var pos, full;
    fpos', pos, full, es := ReadDir(d, fpos, buf, count);
    StepDone(buf[..], d, fpos, count, pos, es, fpos');
    assert buf[..pos] == buf[..][..pos];
    GoodNames(d, fpos, es);
    ParseBack(buf[..pos], es, 0);
    RecordsLength(buf[..pos], es, 0);
    if full && pos == 0 { ret := -EINVAL; } else { ret := pos; }   // no bytes written exactly when no entry was
  }

  /** The effect of a call on the listing: the fitting prefix is returned and the rest remains. */
  ghost predicate Stepped(d: Directory, fpos: nat, count: nat, fpos': nat, es: seq<Entry>) {
    var all := Remaining(d, fpos);
    es == all[..FitCount(all, count)] && Remaining(d, fpos') == all[FitCount(all, count)..]
  }

  lemma StepDone(buf: seq<Byte>, d: Directory, fpos: nat, count: nat, pos: nat, es: seq<Entry>, fpos': nat)
    requires SoFar(buf, count, pos, es, Remaining(d, fpos), Remaining(d, fpos')) && FitCount(Remaining(d, fpos'), count - pos) == 0
    ensures Stepped(d, fpos, count, fpos', es) && Records(buf[..pos], es, 0)
  {
    hide FitCount, Remaining, Records;
  }

  lemma RecordsLength(bytes: seq<Byte>, es: seq<Entry>, at: nat)
    requires Records(bytes, es, at)
    ensures es == [] <==> bytes == []
  {
  }

  lemma {:induction false} ChildNames(d: Directory, i: nat)
    requires GoodDirectory(d)
    ensures forall e :: e in ChildEntries(d, i) ==> 0 !in e.name
    decreases |d.children| - i
  {
    if i < |d.children| { ChildNames(d, i + 1); }
  }

  lemma GoodNames(d: Directory, fpos: nat, es: seq<Entry>)
    requires GoodDirectory(d) && es <= Remaining(d, fpos)
    ensures forall i :: 0 <= i < |es| ==> 0 !in es[i].name
  {
    ChildNames(d, if fpos <= 2 then 0 else fpos - 2);
    hide ChildEntries;
    forall i | 0 <= i < |es| ensures 0 !in es[i].name {
      assert es[i] in Remaining(d, fpos);
    }
  }

  // ---- successive calls

  /** Calls with buffer sizes `counts` take the position through `at`. */
  ghost predicate Session(d: Directory, at: seq<nat>, counts: seq<nat>) {
    |at| == |counts| + 1 &&
    forall i :: 0 <= i < |counts| ==>
      Stepped(d, at[i], counts[i], at[i + 1], Remaining(d, at[i])[..FitCount(Remaining(d, at[i]), counts[i])])
  }

  /** Everything the calls returned, in order. */
  ghost function Listed(d: Directory, at: seq<nat>, counts: seq<nat>): seq<Entry>
    requires |at| == |counts| + 1
  {
    if counts == [] then []
    else Remaining(d, at[0])[..FitCount(Remaining(d, at[0]), counts[0])] + Listed(d, at[1..], counts[1..])
  }

  /** However the buffers are cut, the calls return the listing in order without loss or repetition: what was returned,
      followed by what remains, is what remained at the start. Once a call finds room for nothing because nothing
      remains (it returns 0), the whole listing has been returned. */
  lemma {:induction false} ListingResumes(d: Directory, at: seq<nat>, counts: seq<nat>)
    requires Session(d, at, counts)
    ensures Listed(d, at, counts) + Remaining(d, at[|counts|]) == Remaining(d, at[0])
    decreases |counts|
  {
    hide Remaining, FitCount;
    if counts == [] {
      assert [] + Remaining(d, at[0]) == Remaining(d, at[0]);
    } else {
      var all := Remaining(d, at[0]);
      var k := FitCount(all, counts[0]);
      assert Stepped(d, at[0], counts[0], at[1], all[..k]);
      SessionTail(d, at, counts);
      ListingResumes(d, at[1..], counts[1..]);
      assert all == all[..k] + all[k..];
    }
  }

  lemma SessionTail(d: Directory, at: seq<nat>, counts: seq<nat>)
    requires Session(d, at, counts) && counts != []
    ensures Session(d, at[1..], counts[1..])
  {
    hide Remaining, FitCount, Stepped;
    forall i | 0 <= i < |counts[1..]|
      ensures Stepped(d, at[1..][i], counts[1..][i], at[1..][i + 1], Remaining(d, at[1..][i])[..FitCount(Remaining(d, at[1..][i]), counts[1..][i])])
    {
      assert at[1..][i] == at[i + 1] && at[1..][i + 1] == at[i + 2] && counts[1..][i] == counts[i + 1];
    }
  }

  /** If every buffer has room for the next entry, at most one call per entry is needed, and then nothing remains. */
  lemma {:induction false} ListingEnds(d: Directory, at: seq<nat>, counts: seq<nat>)
    requires Session(d, at, counts) && |counts| >= |Remaining(d, at[0])|
    requires forall i :: 0 <= i < |counts| && Remaining(d, at[i]) != [] ==> RecLen(Remaining(d, at[i])[0].name) <= counts[i]
    ensures Remaining(d, at[|counts|]) == [] && Listed(d, at, counts) == Remaining(d, at[0])
    decreases |counts|
  {
    hide Remaining;
    var all := Remaining(d, at[0]);
    if counts != [] {
      assert Stepped(d, at[0], counts[0], at[1], all[..FitCount(all, counts[0])]);
      SessionTail(d, at, counts);
      assert all != [] ==> FitCount(all, counts[0]) >= 1;
      hide FitCount, Session;
      forall i | 0 <= i < |counts[1..]| && Remaining(d, at[1..][i]) != []
        ensures RecLen(Remaining(d, at[1..][i])[0].name) <= counts[1..][i]
      {
        assert at[1..][i] == at[i + 1] && counts[1..][i] == counts[i + 1];
      }
      ListingEnds(d, at[1..], counts[1..]);
    }
    ListingResumes(d, at, counts);
  }

  // ---- the whole listing

  /** How many of the first `i` children have an inode. */
  ghost function Rank(d: Directory, i: nat): nat
    requires i <= |d.children|
  {
    |set k | 0 <= k < i && d.children[k].Positive?|
  }

  lemma RankNext(d: Directory, i: nat)
    requires i < |d.children|
    ensures Rank(d, i + 1) == Rank(d, i) + if d.children[i].Positive? then 1 else 0
  {
    var before := set k | 0 <= k < i && d.children[k].Positive?;
    var after := set k | 0 <= k < i + 1 && d.children[k].Positive?;
    assert after == if d.children[i].Positive? then before + {i} else before;
  }

  function EntryOf(c: Child): Entry
    requires c.Positive?
  {
    Entry(c.ino, DType(c.mode), c.name)
  }

  /** Where a child's entry stands among those from index `i` on. */
  lemma {:induction false} ChildAt(d: Directory, i: nat, k: nat)
    requires i <= k <= |d.children|
    ensures Rank(d, i) <= Rank(d, k) && Rank(d, k) - Rank(d, i) <= |ChildEntries(d, i)|
    ensures k == |d.children| ==> |ChildEntries(d, i)| == Rank(d, k) - Rank(d, i)
    ensures k < |d.children| && d.children[k].Positive? ==>
            Rank(d, k) - Rank(d, i) < |ChildEntries(d, i)| && ChildEntries(d, i)[Rank(d, k) - Rank(d, i)] == EntryOf(d.children[k])
    decreases k - i
  {
    hide Rank, DType;
    if i < k {
      ChildAt(d, i + 1, k);
      RankNext(d, i);
    }
  }

  /** The listing from the start: ".", "..", then one entry for each child with an inode, that of child `k` in the place its
      rank gives it, and nothing else. */
  lemma WholeListing(d: Directory)
    ensures var all := Remaining(d, 0);
            |all| == 2 + Rank(d, |d.children|) && all[0] == Entry(d.ino, DT_DIR, DOT) && all[1] == Entry(d.parentIno, DT_DIR, DOTDOT) &&
            forall k :: 0 <= k < |d.children| && d.children[k].Positive? ==>
              2 + Rank(d, k) < |all| && all[2 + Rank(d, k)] == EntryOf(d.children[k])
  {
    hide Rank, EntryOf, ChildEntries;
    RankZero(d);
    ChildAt(d, 0, |d.children|);
    forall k | 0 <= k < |d.children| && d.children[k].Positive?
      ensures 2 + Rank(d, k) < |Remaining(d, 0)| && Remaining(d, 0)[2 + Rank(d, k)] == EntryOf(d.children[k])
    {
      ChildAt(d, 0, k);
    }
  }

  lemma RankZero(d: Directory)
    ensures Rank(d, 0) == 0
  {
  }

  /** A program that calls `getdents64` with one buffer until it returns 0, and puts together what it read: the whole
      listing, whenever the buffer holds the largest record. */
  method ListAll(d: Directory, buf: array<Byte>) returns (es: seq<Entry>, ret: int)
    requires 0 < buf.Length < 0x8000_0000_0000_0000 && GoodDirectory(d)
    requires forall e :: e in Remaining(d, 0) ==> RecLen(e.name) <= buf.Length
    modifies buf
    ensures ret == 0 && es == Remaining(d, 0)
  {
    hide Remaining, Records, FitCount, ParseRecords, RecLen;
    var fpos := 0;
    es := [];
    ghost var got;
    ret, fpos, got := SysGetdents64(d, fpos, buf, buf.Length);
    NextCall(d, 0, buf.Length, fpos, got);
    while ret > 0
      invariant es + got + Remaining(d, fpos) == Remaining(d, 0)
      invariant ret >= 0 && ret <= buf.Length && ParseRecords(buf[..ret]) == got && (ret == 0 <==> got == [])
      invariant ret == 0 ==> Remaining(d, fpos) == []
      decreases |Remaining(d, fpos)| + |got|
    {
      es := es + ParseRecords(buf[..ret]);
      ghost var fpos0 := fpos;
      RestIn(d, es, fpos);
      ret, fpos, got := SysGetdents64(d, fpos, buf, buf.Length);
      NextCall(d, fpos0, buf.Length, fpos, got);
    }
  }

  lemma RestIn(d: Directory, es: seq<Entry>, fpos: nat)
    requires es + Remaining(d, fpos) == Remaining(d, 0)
    ensures forall e :: e in Remaining(d, fpos) ==> e in Remaining(d, 0)
  {
    hide Remaining;
    forall e | e in Remaining(d, fpos) ensures e in Remaining(d, 0) { assert e in es + Remaining(d, fpos); }
  }

  /** A buffer with room for the next entry returns at least that one. */
  lemma NextCall(d: Directory, fpos: nat, count: nat, fpos': nat, es: seq<Entry>)
    requires Stepped(d, fpos, count, fpos', es)
    requires forall e :: e in Remaining(d, fpos) ==> RecLen(e.name) <= count
    ensures es + Remaining(d, fpos') == Remaining(d, fpos) && (es == [] ==> Remaining(d, fpos) == [])
  {
    hide Remaining, RecLen;
    var all := Remaining(d, fpos);
    if all != [] { assert all[0] in all; }
  }

  // ---- types and lengths

  /** The DT_ constants are the S_IFMT bits shifted down, for the seven types there are. */
  lemma DTypeIs(mode: nat)
    ensures var fmt := mode / 0x1000 % 16;
            DType(mode) == if fmt in {1, 2, 4, 6, 8, 10, 12} then fmt else 0
  {
  }

  /** A record length is the least multiple of 8 that holds the fixed fields, the name and its NUL. */
  lemma RecLenIs(name: seq<Byte>)
    ensures RecLen(name) % 8 == 0 && 19 + |name| + 1 <= RecLen(name) < 19 + |name| + 1 + 8
  {
  }
}
