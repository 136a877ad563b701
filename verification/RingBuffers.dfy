/** The two byte rings of the kernel, both proved to be one bounded FIFO queue: the pipe buffer, which wraps
    its positions by masking (`pbuf_write`, `pbuf_read`), and the socket buffer, which wraps by remainder
    (`sock_ringbuf_write`, `sock_ringbuf_read`). */
module RingBuffers {
  import opened Words

  const PAGE_SIZE: nat := 4096
  const PIPE_MAX_SIZE: nat := 0x10_0000

  // ---- the specification: a bounded queue of bytes

  function Min(a: nat, b: nat): nat { if a < b then a else b }

  /** What is accepted of `src` by a queue of capacity `cap` holding `q`: the longest prefix that fits. */
  function Accepted(cap: nat, q: seq<bv8>, src: seq<bv8>): seq<bv8>
    requires |q| <= cap
  {
    src[..Min(|src|, cap - |q|)]
  }

  /** The `n` oldest bytes, or all of them. */
  function Oldest(q: seq<bv8>, n: nat): seq<bv8> {
    q[..Min(n, |q|)]
  }

  /** The queue held by a ring: `len` bytes starting at `start`, wrapping at the end of the array. */
  function Unroll(data: seq<bv8>, start: nat, len: nat): (q: seq<bv8>)
    requires len <= |data| && (start < |data| || len == 0)
    ensures |q| == len
  {
    if len == 0 then []
    else if start + len <= |data| then data[start..start + len]
    else data[start..] + data[..start + len - |data|]
  }

  /** Position `start + i` on a ring of `size` places. */
  function Wrap(size: nat, x: nat): nat
    requires x < 2 * size
  {
    if x < size then x else x - size
  }

  lemma UnrollAt(data: seq<bv8>, start: nat, len: nat, i: nat)
    requires len <= |data| && start < |data| && i < len
    ensures Unroll(data, start, len)[i] == data[Wrap(|data|, start + i)]
  {
  }

  /** Storing at the place after the last byte appends. */
  lemma UnrollPush(data: seq<bv8>, start: nat, len: nat, b: bv8)
    requires len < |data| && start < |data|
    ensures Unroll(data[Wrap(|data|, start + len) := b], start, len + 1) == Unroll(data, start, len) + [b]
  {
    var data' := data[Wrap(|data|, start + len) := b];
    forall i | 0 <= i < len + 1
      ensures Unroll(data', start, len + 1)[i] == (Unroll(data, start, len) + [b])[i]
    {
      UnrollAt(data', start, len + 1, i);
      if i < len { UnrollAt(data, start, len, i); }
    }
  }

  /** Advancing the start by `n` drops the `n` oldest bytes. */
  lemma UnrollDrop(data: seq<bv8>, start: nat, len: nat, n: nat)
    requires n <= len <= |data| && start < |data|
    ensures Unroll(data, Wrap(|data|, start + n), len - n) == Unroll(data, start, len)[n..]
  {
    hide Unroll;
    forall i | 0 <= i < len - n
      ensures Unroll(data, Wrap(|data|, start + n), len - n)[i] == Unroll(data, start, len)[n..][i]
    {
      UnrollAt(data, start, len, n + i);
      UnrollAt(data, Wrap(|data|, start + n), len - n, i);
    }
  }

  lemma ModIsWrap(x: nat, size: nat)
    requires size > 0 && x < 2 * size
    ensures x % size == Wrap(size, x)
  {
    if x < size { ModUnique(x, size, 0, x); } else { ModUnique(x, size, 1, x - size); }
  }

  /** `x & (size - 1)` for a power of two is the same wrap. */
  lemma MaskIsWrap(x: nat, k: nat)
    requires x < 2 * Pow2(k)
    ensures And(x, Pow2(k) - 1) == Wrap(Pow2(k), x)
  {
    MaskIsMod(x, k);
    ModIsWrap(x, Pow2(k));
  }

  /** One byte in: store at the head and advance it by masking. */
  lemma MaskedPush(data: seq<bv8>, k: nat, tail: nat, count: nat, b: bv8)
    requires |data| == Pow2(k) && tail < |data| && count < |data|
    ensures var head := Wrap(|data|, tail + count);
            head < |data| && Unroll(data[head := b], tail, count + 1) == Unroll(data, tail, count) + [b] &&
            And(head + 1, |data| - 1) == Wrap(|data|, tail + (count + 1))
  {
    UnrollPush(data, tail, count, b);
    MaskIsWrap(Wrap(|data|, tail + count) + 1, k);
  }

  /** One byte out: take at the tail and advance it by masking. */
  lemma MaskedPop(data: seq<bv8>, k: nat, tail: nat, count: nat)
    requires |data| == Pow2(k) && tail < |data| && 0 < count <= |data|
    ensures var tail' := And(tail + 1, |data| - 1);
            tail' < |data| && Unroll(data, tail, count) == [data[tail]] + Unroll(data, tail', count - 1) &&
            Wrap(|data|, tail + count) == Wrap(|data|, tail' + (count - 1))
  {
    hide Unroll, And;
    UnrollAt(data, tail, count, 0);
    UnrollDrop(data, tail, count, 1);
    MaskIsWrap(tail + 1, k);
  }

  lemma ModPush(data: seq<bv8>, head: nat, len: nat, b: bv8)
    requires head < |data| && len < |data|
    ensures var tail := Wrap(|data|, head + len);
            tail < |data| && Unroll(data[tail := b], head, len + 1) == Unroll(data, head, len) + [b] &&
            (tail + 1) % |data| == Wrap(|data|, head + (len + 1))
  {
    UnrollPush(data, head, len, b);
    ModIsWrap(Wrap(|data|, head + len) + 1, |data|);
  }

  // ---- the pipe buffer

  /** The size `pipe_alloc` tries after `k` doublings, in 64 bits. */
  function Doubled(k: nat): nat {
    PAGE_SIZE * Pow2(k) % U64
  }

  /** The doubling loop reaches the request exactly when it is at most 2^63; above that the size wraps to 0 and the
      loop never ends. */
  lemma DoublingEnds(bufSize: nat)
    requires bufSize < U64
    ensures (exists k: nat :: Doubled(k) >= bufSize) <==> bufSize <= 0x8000_0000_0000_0000
  {
    hide Doubled;
    forall k: nat ensures Doubled(k) <= 0x8000_0000_0000_0000 { DoubledValue(k); }
    DoubledValue(51);
  }

  lemma DoubledValue(k: nat)
    ensures Doubled(k) == if k < 52 then Pow2(12 + k) else 0
    ensures Doubled(k) <= 0x8000_0000_0000_0000
    ensures k == 51 ==> Doubled(k) == 0x8000_0000_0000_0000
  {
    hide Pow2;
    PowersHere();
    Pow2Add(12, k);
    if k < 51 {
      Pow2Mono(12 + k, 63);
    } else if k > 51 {
      Pow2Add(64, k - 52);
      MultipleOfU64(Pow2(k - 52));
    }
  }

  lemma PowersHere()
    ensures Pow2(12) == PAGE_SIZE && Pow2(63) == 0x8000_0000_0000_0000 && Pow2(64) == U64
  {
    hide Pow2;
    Pow2Is64();
    assert Pow2(6) == 64 by { SmallPower(); }
    Pow2Add(6, 6);
    assert Pow2(1) == 2 by { SmallPower(); }
    Pow2Add(1, 63);
  }

  lemma SmallPower()
    ensures Pow2(1) == 2 && Pow2(6) == 64
  {
  }

  lemma MultipleOfU64(q: nat)
    ensures U64 * q % U64 == 0
  {
  }

  class PipeBuffer {
    const data: array<bv8>
    var head: nat
    var tail: nat
    var count: nat
    ghost const log2size: nat

    ghost predicate Valid()
      reads this, data
    {
      data.Length == Pow2(log2size) && tail < data.Length && count <= data.Length &&
      head == Wrap(data.Length, tail + count)
    }

    ghost function Contents(): (q: seq<bv8>)
      requires Valid()
      reads this, data
      ensures |q| == count
    {
      Unroll(data[..], tail, count)
    }

    /** The sizing part of `pipe_alloc`: doubling from one page, then capped; always a power of two.
        Above 2^63 the 64-bit doubling would wrap to 0 and never end. */
    constructor (bufSize: nat)
      requires bufSize <= 0x8000_0000_0000_0000
      ensures Valid() && fresh(data) && Contents() == []
      ensures data.Length == PIPE_MAX_SIZE || bufSize <= data.Length
      ensures PAGE_SIZE <= data.Length <= PIPE_MAX_SIZE
      ensures PAGE_SIZE < data.Length < PIPE_MAX_SIZE ==> data.Length < 2 * bufSize
    {
      var sz := PAGE_SIZE;
      ghost var k := 12;
      assert Pow2(12) == PAGE_SIZE && Pow2(20) == PIPE_MAX_SIZE by {
        assert Pow2(6) == 64;
        Pow2Add(6, 6);
        Pow2Add(12, 8);
      }
      while sz < bufSize
        invariant sz == Pow2(k) && k >= 12
        invariant sz >= PAGE_SIZE && (sz > PAGE_SIZE ==> sz < 2 * bufSize)
        decreases bufSize - sz
      {
        sz, k := 2 * sz, k + 1;
      }
      if sz > PIPE_MAX_SIZE { sz, k := PIPE_MAX_SIZE, 20; }
      data := new bv8[sz];
      head, tail, count := 0, 0, 0;
      log2size := k;
    }

    /** `pbuf_write` */
    method Write(src: seq<bv8>) returns (written: nat)
      requires Valid()
      modifies this, data
      ensures Valid()
      ensures written == Min(|src|, data.Length - old(count))
      ensures Contents() == old(Contents()) + Accepted(data.Length, old(Contents()), src)
    {
      hide Unroll, And, Wrap, Pow2;
      written := 0;
      while written < |src| && count < data.Length
        invariant Valid() && written <= |src| && count == old(count) + written
        invariant Contents() == old(Contents()) + src[..written]
      {
        MaskedPush(data[..], log2size, tail, count, src[written]);
        ghost var before := data[..];
        data[head] := src[written];
        assert data[..] == before[head := src[written]];
        head := And(head + 1, data.Length - 1);
        count := count + 1;
        written := written + 1;
      }
    }

    /** `pbuf_read` into a caller's buffer. */
    method Read(dst: array<bv8>, n: nat) returns (rd: nat)
      requires Valid() && dst != data && n <= dst.Length
      modifies this, dst
      ensures Valid() && rd == Min(n, old(count)) && data[..] == old(data[..])
      ensures dst[..rd] == Oldest(old(Contents()), n) && dst[rd..] == old(dst[rd..])
      ensures Contents() == old(Contents())[rd..]
    {
      hide Unroll, And, Wrap, Pow2;
      rd := 0;
      while rd < n && count > 0
        invariant Valid() && rd <= n && count == old(count) - rd && data[..] == old(data[..])
        invariant Contents() == old(Contents())[rd..]
        invariant dst[..rd] == old(Contents())[..rd]
        invariant forall j :: rd <= j < dst.Length ==> dst[j] == old(dst[j])
      {
        MaskedPop(data[..], log2size, tail, count);
        dst[rd] := data[tail];
        tail := And(tail + 1, data.Length - 1);
        count := count - 1;
        rd := rd + 1;
      }
    }
  }

  // ---- the socket ring buffer

  class SockRing {
    const buf: array<bv8>
    var head: nat
    var tail: nat
    var len: nat

    ghost predicate Valid()
      reads this, buf
    {
      len <= buf.Length &&
      if buf.Length == 0 then head == 0 && tail == 0
      else head < buf.Length && tail == Wrap(buf.Length, head + len)
    }

    ghost function Contents(): (q: seq<bv8>)
      requires Valid()
      reads this, buf
      ensures |q| == len
    {
      Unroll(buf[..], head, len)
    }

    /** `sock_ringbuf_init`: any size is allowed, zero included. */
    constructor (size: nat)
      ensures Valid() && fresh(buf) && buf.Length == size && Contents() == []
    {
      buf := new bv8[size];
      head, tail, len := 0, 0, 0;
    }

    /** `sock_ringbuf_write` */
    method Write(data: seq<bv8>) returns (n: nat)
      requires Valid()
      modifies this, buf
      ensures Valid()
      ensures n == Min(|data|, buf.Length - old(len))
      ensures Contents() == old(Contents()) + Accepted(buf.Length, old(Contents()), data)
    {
      hide Unroll, Wrap;
      n := Min(|data|, buf.Length - len);
      var i := 0;
      ghost var l := len;
      while i < n
        invariant 0 <= i <= n && l == old(len) + i && head == old(head) && len == old(len)
        invariant buf.Length > 0 ==> tail == Wrap(buf.Length, head + l)
        invariant buf.Length == 0 ==> tail == 0
        invariant Unroll(buf[..], head, l) == old(Contents()) + data[..i]
      {
        ModPush(buf[..], head, l, data[i]);
        ghost var before := buf[..];
        buf[tail] := data[i];
        assert buf[..] == before[tail := data[i]];
        tail := (tail + 1) % buf.Length;
        l := l + 1;
        i := i + 1;
      }
      len := len + n;
    }

    /** `sock_ringbuf_read`: with `peek` the queue keeps its bytes. */
    method Read(data: array<bv8>, want: nat, peek: bool) returns (n: nat)
      requires Valid() && data != buf && want <= data.Length
      modifies this, data
      ensures Valid() && n == Min(want, old(len)) && buf[..] == old(buf[..])
      ensures data[..n] == Oldest(old(Contents()), want) && data[n..] == old(data[n..])
      ensures Contents() == if peek then old(Contents()) else old(Contents())[n..]
      ensures peek ==> head == old(head) && tail == old(tail)
    {
      hide Unroll;
      n := 0;
      if len == 0 { return; }
      n := Min(want, len);
      var h, i := head, 0;
      while i < n
        invariant 0 <= i <= n && Valid() && buf[..] == old(buf[..])
        invariant head == old(head) && tail == old(tail) && len == old(len)
        invariant data[..i] == old(Contents())[..i]
        invariant forall j :: i <= j < data.Length ==> data[j] == old(data[j])
      {
        UnrollAt(buf[..], head, len, i);
        ModIsWrap(h + i, buf.Length);
        data[i] := buf[(h + i) % buf.Length];
        i := i + 1;
      }
      if !peek {
        UnrollDrop(buf[..], head, len, n);
        ModIsWrap(head + n, buf.Length);
        head := (head + n) % buf.Length;
        len := len - n;
      }
    }
  }
}
