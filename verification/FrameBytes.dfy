/** The 4096 bytes of a frame, and the 512 page-table words that they are: the same memory read in two ways. */
module FrameBytes {
  import opened ByteStore
  import opened PhysicalMemory

  const U64: nat := 0x1_0000_0000_0000_0000

  function Value(w: Word): (v: nat)
    ensures v < U64
  {
    w.high * 0x10_0000_0000_0000 + w.frame * 4096 + w.low
  }

  function WordOf(v: nat): (w: Word)
    requires v < U64
    ensures Value(w) == v
  {
    Word(v / 0x10_0000_0000_0000, v / 4096 % 0x100_0000_0000, v % 4096)
  }

  lemma {:induction false} EncodeDecode(bs: seq<Byte>)
    ensures Encode(Decode(bs), |bs|) == bs
  {
    if bs != [] {
      EncodeDecode(bs[1..]);
      assert Decode(bs) % 256 == bs[0] && Decode(bs) / 256 == Decode(bs[1..]);
    }
  }

  lemma {:induction false} EncodeZero(k: nat, i: nat)
    requires i < k
    ensures Encode(0, k)[i] == 0
  {
    if i > 0 { EncodeZero(k - 1, i - 1); }
  }

  lemma Bytes8(bs: seq<Byte>)
    requires |bs| == 8
    ensures Decode(bs) < U64
  {
    DecodeBound(bs);
    Pow8();
  }

  lemma Pow8()
    ensures Pow256(8) == U64
  {
    assert Pow256(4) == 0x1_0000_0000;
    assert Pow256(8) == 256 * (256 * (256 * (256 * Pow256(4))));
  }

  /** The bytes of a page of words, little-endian. */
  function BytesOf(p: Page): (bs: seq<Byte>)
    ensures |bs| == 4096
  {
    seq(4096, x requires 0 <= x < 4096 => Encode(Value(p[x / 8]), 8)[x % 8])
  }

  /** The words that 4096 bytes make up. */
  function PageOf(bs: seq<Byte>): (p: Page)
    requires |bs| == 4096
  {
    seq(512, i requires 0 <= i < 512 => Bytes8(bs[8 * i..8 * i + 8]); WordOf(Decode(bs[8 * i..8 * i + 8])))
  }

  /** Storing bytes and reading them back, word-wise in between. */
  lemma BytesOfPageOf(bs: seq<Byte>)
    requires |bs| == 4096
    ensures BytesOf(PageOf(bs)) == bs
  {
    hide Encode, Decode;
    forall x | 0 <= x < 4096 ensures BytesOf(PageOf(bs))[x] == bs[x] {
      var i := x / 8;
      var b := bs[8 * i..8 * i + 8];
      Bytes8(b);
      EncodeDecode(b);
      assert PageOf(bs)[i] == WordOf(Decode(b));
      assert b[x % 8] == bs[x];
    }
  }

  lemma ByteAt(p: Page, x: nat, i: nat, k: nat)
    requires i < 512 && k < 8 && x == 8 * i + k
    ensures x < 4096 && BytesOf(p)[x] == Encode(Value(p[i]), 8)[k]
  {
    hide Encode, Value;
    assert x / 8 == i && x % 8 == k;
  }

  lemma BytesOfZero(p: Page, i: nat, k: nat)
    requires i < 512 && k < 8 && p[i] == ZERO
    ensures BytesOf(p)[8 * i + k] == 0
  {
    hide Encode, BytesOf, Value;
    ByteAt(p, 8 * i + k, i, k);
    ValueZero(p[i]);
    EncodeZero(8, k);
  }

  lemma ValueZero(w: Word)
    requires w == ZERO
    ensures Value(w) == 0
  {
  }

  lemma ZeroBytes(x: nat)
    requires x < 4096
    ensures BytesOf(ZeroWords())[x] == 0
  {
    hide BytesOf;
    BytesOfZero(ZeroWords(), x / 8, x % 8);
  }
}
