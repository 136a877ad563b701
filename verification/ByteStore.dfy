/** Little-endian integers in byte sequences, and what a store into a byte sequence leaves alone. */
module ByteStore {

  type Byte = b: nat | b < 256

  /** `256^k` */
  function Pow256(k: nat): (r: nat)
    ensures r >= 1
  {
    if k == 0 then 1 else 256 * Pow256(k - 1)
  }

  /** The `k` low bytes of `v`, least significant first. */
  function Encode(v: nat, k: nat): (bs: seq<Byte>)
    ensures |bs| == k
  {
    if k == 0 then [] else [v % 256] + Encode(v / 256, k - 1)
  }

  function Decode(bs: seq<Byte>): nat {
    if bs == [] then 0 else bs[0] + 256 * Decode(bs[1..])
  }

  lemma {:induction false} DecodeEncode(v: nat, k: nat)
    requires v < Pow256(k)
    ensures Decode(Encode(v, k)) == v
  {
    if k > 0 {
      DecodeEncode(v / 256, k - 1);
      assert Encode(v, k)[1..] == Encode(v / 256, k - 1);
    }
  }

  lemma {:induction false} DecodeBound(bs: seq<Byte>)
    ensures Decode(bs) < Pow256(|bs|)
  {
    if bs != [] { DecodeBound(bs[1..]); }
  }

  /** The `k`-byte integer stored at `off`. */
  function Get(mem: seq<Byte>, off: nat, k: nat): nat
    requires off + k <= |mem|
  {
    Decode(mem[off..off + k])
  }

  /** `mem` with `bs` stored at `off`. */
  function Put(mem: seq<Byte>, off: nat, bs: seq<Byte>): (r: seq<Byte>)
    requires off + |bs| <= |mem|
    ensures |r| == |mem|
  {
    mem[..off] + bs + mem[off + |bs|..]
  }

  lemma PutSelf(mem: seq<Byte>, off: nat, bs: seq<Byte>)
    requires off + |bs| <= |mem|
    ensures Put(mem, off, bs)[off..off + |bs|] == bs
  {
  }

  /** A range that does not meet the store reads as before. */
  lemma PutApart(mem: seq<Byte>, off: nat, bs: seq<Byte>, a: nat, b: nat)
    requires off + |bs| <= |mem| && a <= b <= |mem| && (b <= off || off + |bs| <= a)
    ensures Put(mem, off, bs)[a..b] == mem[a..b]
  {
    var mem' := Put(mem, off, bs);
    forall i | a <= i < b ensures mem'[i] == mem[i] {}
  }

  lemma GetPut(mem: seq<Byte>, off: nat, v: nat, k: nat)
    requires off + k <= |mem| && v < Pow256(k)
    ensures Get(Put(mem, off, Encode(v, k)), off, k) == v
  {
    PutSelf(mem, off, Encode(v, k));
    DecodeEncode(v, k);
  }

  lemma SubSlice(mem: seq<Byte>, mem': seq<Byte>, a: nat, b: nat, c: nat, d: nat)
    requires a <= c <= d <= b <= |mem| && b <= |mem'| && mem'[a..b] == mem[a..b]
    ensures mem'[c..d] == mem[c..d]
  {
    forall i | c <= i < d ensures mem'[i] == mem[i] {
      assert mem[a..b][i - a] == mem[i] && mem'[a..b][i - a] == mem'[i];
    }
  }

  lemma EncodeNext(v: nat, k: nat, i: nat, rest: nat)
    requires i < k && Encode(v, k)[i..] == Encode(rest, k - i)
    ensures Encode(v, k)[i] == rest % 256 && Encode(v, k)[i + 1..] == Encode(rest / 256, k - (i + 1))
  {
    assert Encode(v, k)[i] == Encode(v, k)[i..][0];
    assert Encode(v, k)[i + 1..] == Encode(v, k)[i..][1..];
  }

  /** `*(u32 *)&a[off] = v`, byte by byte; `k` is the width. */
  method Store(a: array<Byte>, off: nat, v: nat, k: nat)
    requires off + k <= a.Length
    modifies a
    ensures a[..] == Put(old(a[..]), off, Encode(v, k))
  {
    hide Encode;
    var i, rest := 0, v;
    while i < k
      invariant 0 <= i <= k
      invariant Encode(v, k)[i..] == Encode(rest, k - i)
      invariant forall j :: 0 <= j < off || off + i <= j < a.Length ==> a[j] == old(a[j])
      invariant forall j :: 0 <= j < i ==> a[off + j] == Encode(v, k)[j]
    {
      EncodeNext(v, k, i, rest);
      a[off + i] := rest % 256;
      i, rest := i + 1, rest / 256;
    }
  }

  /** `memcpy` into a buffer. */
  method CopyIn(mem: array<Byte>, at: nat, bs: seq<Byte>)
    requires at + |bs| <= mem.Length
    modifies mem
    ensures mem[..] == Put(old(mem[..]), at, bs)
  {
    var i := 0;
    while i < |bs|
      invariant 0 <= i <= |bs|
      invariant forall j :: 0 <= j < i ==> mem[at + j] == bs[j]
      invariant forall j :: 0 <= j < at || at + i <= j < mem.Length ==> mem[j] == old(mem[j])
    {
      mem[at + i] := bs[i];
      i := i + 1;
    }
  }

  /** The NUL-terminated string at `off`. */
  function CString(mem: seq<Byte>, off: nat): seq<Byte>
    requires off <= |mem|
    decreases |mem| - off
  {
    if off == |mem| || mem[off] == 0 then [] else [mem[off]] + CString(mem, off + 1)
  }

  lemma {:induction false} ReadCString(mem: seq<Byte>, off: nat, s: seq<Byte>)
    requires 0 !in s && off + |s| < |mem| && mem[off..off + |s|] == s && mem[off + |s|] == 0
    ensures CString(mem, off) == s
    decreases |s|
  {
    if s != [] {
      assert mem[off] == s[0];
      assert mem[off + 1..off + 1 + |s[1..]|] == mem[off..off + |s|][1..];
      ReadCString(mem, off + 1, s[1..]);
    }
  }
}
