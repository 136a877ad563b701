/** The Internet checksum as `ip_checksum` computes it, the header `ip_send` seals with it and the test `ip_receive`
    makes. */
module Checksum {
  import opened Words
  import opened ByteStore

  function Word(lo: nat, hi: nat): nat {
    lo + 256 * hi
  }

  /** The sum of the little-endian 16-bit words, an odd last byte counting as a word of its own. */
  function WordSum(d: seq<Byte>): nat {
    if |d| == 0 then 0 else if |d| == 1 then d[0] else Word(d[0], d[1]) + WordSum(d[2..])
  }

  /** An odd last byte counts as if a zero byte followed, as for a message of odd length. */
  lemma {:induction false} OddTail(d: seq<Byte>)
    requires |d| % 2 == 1
    ensures WordSum(d) == WordSum(d + [0])
  {
    if |d| > 1 {
      OddTail(d[2..]);
      assert (d + [0])[2..] == d[2..] + [0];
    } else {
      assert (d + [0])[2..] == [];
    }
  }

  /** The words of two parts add up if the first has even length, so the order of words does not matter. */
  lemma {:induction false} SumJoins(x: seq<Byte>, y: seq<Byte>)
    requires |x| % 2 == 0
    ensures WordSum(x + y) == WordSum(x) + WordSum(y)
  {
    if x == [] {
      assert x + y == y;
    } else {
      SumJoins(x[2..], y);
      assert (x + y)[2..] == x[2..] + y;
    }
  }

  /** The 16-bit ones-complement value of `x`: zero only for zero, else between 1 and 65535 and congruent modulo 65535. */
  function Residue(x: nat): (r: nat)
    ensures r < 65536 && r % 65535 == x % 65535 && (r == 0 <==> x == 0)
  {
    if x == 0 then 0 else (x - 1) % 65535 + 1
  }

  /** What `ip_checksum` returns; its accumulator is 32 bits wide. */
  function ChecksumOf(d: seq<Byte>): (r: nat)
    ensures r < 65536
  {
    65535 - Residue(WordSum(d) % U32)
  }

  lemma FoldStep(x: nat)
    requires x >= 65536
    ensures x % 65536 + x / 65536 < x && Residue(x % 65536 + x / 65536) == Residue(x)
  {
    var h, l := x / 65536, x % 65536;
    assert x - 1 == 65535 * h + (h + l - 1);
    ResidueDrop(h + l - 1, h);
  }

  lemma ResidueDrop(y: nat, q: nat)
    ensures (65535 * q + y) % 65535 == y % 65535
  {
  }

  /** The words from offset `i` on are left to add. */
  ghost predicate Left(data: seq<Byte>, i: nat, sum: nat) {
    i <= |data| && (sum + WordSum(data[i..])) % U32 == WordSum(data) % U32
  }

  lemma LeftStart(data: seq<Byte>)
    ensures Left(data, 0, 0)
  {
    assert data[0..] == data;
  }

  lemma LeftStep(data: seq<Byte>, i: nat, sum: nat)
    requires i + 1 < |data| && Left(data, i, sum)
    ensures Left(data, i + 2, (sum + Word(data[i], data[i + 1])) % U32)
  {
    assert data[i..][2..] == data[i + 2..];
    WrapAdd(sum, Word(data[i], data[i + 1]), WordSum(data[i + 2..]));
  }

  lemma LeftEnd(data: seq<Byte>, i: nat, sum: nat)
    requires i <= |data| <= i + 1 && Left(data, i, sum) && sum < U32
    ensures (if i < |data| then (sum + data[i]) % U32 else sum) == WordSum(data) % U32
  {
  }

  /** `ip_checksum` */
  method IpChecksum(data: seq<Byte>) returns (r: nat)
    requires |data| < U32
    ensures r == ChecksumOf(data)
  {
    hide Residue, Left;
    var i, len, sum := 0, |data|, 0;
    LeftStart(data);
    while len > 1
      invariant 0 <= i && 0 <= len && i + len == |data| && 0 <= sum < U32 && Left(data, i, sum)
    {
      LeftStep(data, i, sum);
      sum := (sum + Word(data[i], data[i + 1])) % U32;
      i, len := i + 2, len - 2;
    }
    LeftEnd(data, i, sum);
    if len > 0 { sum := (sum + data[i]) % U32; }
    while sum / 65536 != 0
      invariant 0 <= sum && Residue(sum) == Residue(WordSum(data) % U32)
      decreases sum
    {
      FoldStep(sum);
      sum := sum % 65536 + sum / 65536;
    }
    assert Residue(sum) == sum by { SmallResidue(sum); }
    r := 65535 - sum;
  }

  lemma SmallResidue(x: nat)
    requires x < 65536
    ensures Residue(x) == x
  {
  }

  lemma WrapAdd(s: nat, w: nat, rest: nat)
    ensures ((s + w) % U32 + rest) % U32 == (s + (w + rest)) % U32
  {
  }

  // ---- when the 32-bit accumulator keeps the sum's residue

  lemma {:induction false} WordSumBound(d: seq<Byte>)
    ensures 2 * WordSum(d) <= 65535 * (|d| + 1)
  {
    if |d| >= 2 { WordSumBound(d[2..]); }
  }

  /** The checksum stands for the true sum exactly when the 32-bit accumulator did not wrap. */
  lemma ExactUnlessWrapped(d: seq<Byte>)
    requires |d| < U32
    ensures (ChecksumOf(d) + WordSum(d)) % 65535 == 0 <==> WordSum(d) < U32
  {
    WordSumBound(d);
    hide WordSum, Residue;
    var s := WordSum(d);
    var q, t := s / U32, s % U32;
    Complement(t);
    WrapsCount(q, t, 65535 - Residue(t) + t);
  }

  lemma WrapsCount(q: nat, t: nat, m: nat)
    requires q < 65535 && m % 65535 == 0
    ensures (m + U32 * q) % 65535 == 0 <==> q == 0
  {
    var n := m / 65535;
    assert m + U32 * q == 65535 * (n + 65537 * q) + q;
    ResidueDrop(q, n + 65537 * q);
  }

  lemma Complement(t: nat)
    ensures (65535 - Residue(t) + t) % 65535 == 0
    ensures Residue(65535 - Residue(t) + t) == 65535
  {
  }

  // ---- the checksum field

  /** `d` with the 16-bit word `c` stored at even offset `k`. */
  function WithWord(d: seq<Byte>, k: nat, c: nat): (r: seq<Byte>)
    requires k + 2 <= |d| && c < 65536
    ensures |r| == |d|
  {
    d[k := c % 256][k + 1 := c / 256]
  }

  function WordAt(d: seq<Byte>, k: nat): (r: nat)
    requires k + 2 <= |d|
    ensures r < 65536 && WithWord(d, k, r) == d
  {
    Word(d[k], d[k + 1])
  }

  lemma {:induction false} WordAdds(d: seq<Byte>, k: nat, c: nat)
    requires k + 2 <= |d| && c < 65536 && k % 2 == 0
    ensures WordSum(WithWord(d, k, c)) == WordSum(WithWord(d, k, 0)) + c
  {
    if k == 0 {
      assert WithWord(d, k, c)[2..] == d[2..] == WithWord(d, k, 0)[2..];
    } else {
      WordAdds(d[2..], k - 2, c);
      assert WithWord(d, k, c)[2..] == WithWord(d[2..], k - 2, c);
      assert WithWord(d, k, 0)[2..] == WithWord(d[2..], k - 2, 0);
    }
  }

  /** `d` with the checksum computed over it, the field zeroed, stored in the field. */
  function Sealed(d: seq<Byte>, k: nat): (r: seq<Byte>)
    requires k + 2 <= |d|
    ensures |r| == |d|
  {
    WithWord(d, k, ChecksumOf(WithWord(d, k, 0)))
  }

  /** Sealing makes the checksum of the whole zero, whatever the length: the sum is brought up to a multiple of 65535,
      and the largest 32-bit number is one. */
  lemma SealedSumsToZero(d: seq<Byte>, k: nat)
    requires k + 2 <= |d| && k % 2 == 0
    ensures ChecksumOf(Sealed(d, k)) == 0
  {
    hide WithWord, WordSum, Residue;
    var z := WithWord(d, k, 0);
    var t, c := WordSum(z) % U32, ChecksumOf(z);
    WordAdds(d, k, c);
    WrapAdd(WordSum(z), 0, c);
    Complement(t);
    ComplementFits(t);
    assert WordSum(Sealed(d, k)) % U32 == t + c;
  }

  lemma ComplementFits(t: nat)
    requires t < U32
    ensures t + (65535 - Residue(t)) < U32
  {
  }

  /** The receiver's test, recomputing with the field zeroed and comparing, against the standard one, summing the whole
      to zero: they agree except on the second ones-complement zero, a field of 0xFFFF where 0 was computed. */
  lemma RecomputeVersusSum(d: seq<Byte>, k: nat)
    requires k + 2 <= |d| <= 65536 && k % 2 == 0
    ensures var z := WithWord(d, k, 0);
            ChecksumOf(z) == WordAt(d, k) <==>
            ChecksumOf(d) == 0 && !(WordAt(d, k) == 0xFFFF && ChecksumOf(z) == 0)
  {
    hide WithWord, WordSum, WordAt, Residue, ChecksumOf;
    var z, saved := WithWord(d, k, 0), WordAt(d, k);
    WordAdds(d, k, saved);
    Unwrapped(z);
    Unwrapped(d);
    TwoZeros(WordSum(z), saved);
  }

  lemma Unwrapped(d: seq<Byte>)
    requires |d| <= 65536
    ensures ChecksumOf(d) == 65535 - Residue(WordSum(d))
  {
    hide WordSum, Residue;
    WordSumBound(d);
  }

  lemma TwoZeros(s: nat, saved: nat)
    requires saved < 65536
    ensures 65535 - Residue(s) == saved <==> Residue(s + saved) == 65535 && !(saved == 0xFFFF && Residue(s) == 65535)
  {
    if s > 0 {
      var q, r := (s - 1) / 65535, (s - 1) % 65535;
      assert s - 1 == 65535 * q + r;
      if r + saved < 65535 {
        ResidueDrop(r + saved, q);
      } else if r + saved < 131070 {
        ResidueDrop(r + saved - 65535, q + 1);
      }
    }
  }

  // ---- IP headers

  const FIELD: nat := 10
  const HEADER: nat := 20

  /** The packets whose header `ip_receive` lets through. */
  predicate Accepts(p: seq<Byte>) {
    |p| >= HEADER &&
    var ihl := p[0] % 16 * 4;
    HEADER <= ihl <= |p| && ChecksumOf(WithWord(p[..ihl], FIELD, 0)) == WordAt(p, FIELD)
  }

  /** The header test of `ip_receive`. A packet with a bad checksum is dropped with its field left zero. */
  method IpReceive(packet: array<Byte>) returns (accepted: bool)
    modifies packet
    ensures accepted == Accepts(old(packet[..]))
    ensures accepted ==> packet[..] == old(packet[..])
    ensures !accepted ==> packet[..] == old(packet[..]) ||
                          (packet.Length >= HEADER && packet[..] == WithWord(old(packet[..]), FIELD, 0))
  {
    hide ChecksumOf;
    if packet.Length < HEADER { return false; }
    var ihl := packet[0] % 16 * 4;
    if ihl < HEADER || ihl > packet.Length { return false; }
    ghost var before := packet[..];
    var lo, hi := packet[FIELD], packet[FIELD + 1];
    packet[FIELD], packet[FIELD + 1] := 0, 0;
    assert packet[..] == WithWord(before, FIELD, 0);
    assert packet[..ihl] == WithWord(before[..ihl], FIELD, 0);
    var sum := IpChecksum(packet[..ihl]);
    if sum != Word(lo, hi) { return false; }
    packet[FIELD], packet[FIELD + 1] := lo, hi;
    assert packet[..] == before;
    return true;
  }

  lemma {:induction false} ZeroSum(d: seq<Byte>)
    requires forall i :: 0 <= i < |d| ==> d[i] == 0
    ensures WordSum(d) == 0
  {
    if |d| >= 2 { ZeroSum(d[2..]); }
  }

  /** Such headers exist: over this one, its field zero, the checksum is 0. */
  lemma ZeroChecksumHeader(z: seq<Byte>)
    requires |z| == HEADER && z[..4] == [0x45, 0, 0xBA, 0xFF] && forall i :: 4 <= i < HEADER ==> z[i] == 0
    ensures ChecksumOf(z) == 0 && WithWord(z, FIELD, 0) == z
  {
    hide Residue;
    ZeroSum(z[4..]);
    assert z[2..][2..] == z[4..];
    assert z[0] == z[..4][0] && z[1] == z[..4][1] && z[2] == z[..4][2] && z[3] == z[..4][3];
    assert WordSum(z) == 0xFFFF;
    Unwrapped(z);
    SmallResidue(0xFFFF);
  }

  /** With 0xFFFF in the field instead, the header still sums to zero as section 1 of RFC 1071 asks, and is dropped. */
  lemma SecondZeroDropped(p: seq<Byte>)
    requires |p| >= HEADER && HEADER <= p[0] % 16 * 4 <= |p| && WordAt(p, FIELD) == 0xFFFF
    requires ChecksumOf(WithWord(p[..p[0] % 16 * 4], FIELD, 0)) == 0
    ensures ChecksumOf(p[..p[0] % 16 * 4]) == 0 && !Accepts(p)
  {
    var h := p[..p[0] % 16 * 4];
    var z := WithWord(h, FIELD, 0);
    hide Residue, WordSum, ChecksumOf, WithWord;
    assert WordAt(h, FIELD) == 0xFFFF;
    WordAdds(h, FIELD, 0xFFFF);
    Unwrapped(h);
    Unwrapped(z);
    SecondZero(WordSum(z));
  }

  lemma SecondZero(s: nat)
    requires Residue(s) == 65535
    ensures Residue(s + 65535) == 65535
  {
  }

  lemma SealedAccepted(p: seq<Byte>, header: seq<Byte>)
    requires |header| == HEADER && header[0] == 0x45 && header[FIELD] == header[FIELD + 1] == 0
    requires |p| >= HEADER && p[..HEADER] == Sealed(header, FIELD)
    ensures Accepts(p) && ChecksumOf(p[..HEADER]) == 0
  {
    hide ChecksumOf;
    SealedSumsToZero(header, FIELD);
    assert header == WithWord(header, FIELD, 0) == WithWord(p[..HEADER], FIELD, 0);
    var c := ChecksumOf(header);
    assert p[FIELD] == p[..HEADER][FIELD] == c % 256 && p[FIELD + 1] == p[..HEADER][FIELD + 1] == c / 256;
    assert p[0] == p[..HEADER][0] == 0x45;
  }

  /** Fills in the first 20 bytes of `packet` as `ip_send` does: the rest is untouched and `ip_receive` accepts the
      result. Addresses are stored as they are, length and identification in network order. */
  method IpSendHeader(packet: array<Byte>, id: nat, proto: Byte, src: nat, dst: nat)
    requires packet.Length >= HEADER && id < 65536 && src < U32 && dst < U32
    modifies packet
    ensures Accepts(packet[..]) && packet[HEADER..] == old(packet[HEADER..])
    ensures ChecksumOf(packet[..HEADER]) == 0
    ensures packet[0] == 0x45 && packet[1] == 0 && packet[6] == 0 && packet[7] == 0 && packet[8] == 64 && packet[9] == proto
    ensures Word(packet[3], packet[2]) == packet.Length % 65536 && Word(packet[5], packet[4]) == id
    ensures Get(packet[..], 12, 4) == src && Get(packet[..], 16, 4) == dst
  {
    hide ChecksumOf, Encode, Decode, Accepts;
    var len := packet.Length % 65536;
    var h: seq<Byte> := [0x45, 0, len / 256, len % 256, id / 256, id % 256, 0, 0, 64, proto, 0, 0];
    var header := h + Encode(src, 4) + Encode(dst, 4);
    var c := IpChecksum(header);
    assert WithWord(header, FIELD, 0) == header;
    ghost var header0 := header;
    header := header[FIELD := c % 256][FIELD + 1 := c / 256];
    DecodeEncode(src, 4);
    DecodeEncode(dst, 4);
    var i := 0;
    while i < HEADER
      invariant 0 <= i <= HEADER
      invariant forall j :: 0 <= j < i ==> packet[j] == header[j]
      invariant forall j :: HEADER <= j < packet.Length ==> packet[j] == old(packet[j])
    {
      packet[i] := header[i];
      i := i + 1;
    }
    assert packet[..][..HEADER] == packet[..HEADER] == header;
    assert packet[12..16] == Encode(src, 4) && packet[16..20] == Encode(dst, 4);
    assert packet[HEADER..] == old(packet[HEADER..]);
    SealedAccepted(packet[..], header0);
  }
}
