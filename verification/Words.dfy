/** Machine words as natural numbers, with the C bit operators defined bit by bit.
    Every component that masks, shifts or tests bits uses these definitions, and the
    lemmas here relate them to the arithmetic the proofs are carried out in. */
module Words {

  const U32: nat := 0x1_0000_0000
  const U64: nat := 0x1_0000_0000_0000_0000

  /** `1 << k` without truncation. */
  function Pow2(k: nat): (r: nat)
    ensures r >= 1
  {
    if k == 0 then 1 else 2 * Pow2(k - 1)
  }

  /** Bit `k` of `w`. */
  predicate Bit(w: nat, k: nat) {
    if k == 0 then w % 2 == 1 else Bit(w / 2, k - 1)
  }

  function Or(a: nat, b: nat): nat {
    if a == 0 && b == 0 then 0
    else (if a % 2 == 1 || b % 2 == 1 then 1 else 0) + 2 * Or(a / 2, b / 2)
  }

  function And(a: nat, b: nat): nat {
    if a == 0 || b == 0 then 0
    else (if a % 2 == 1 && b % 2 == 1 then 1 else 0) + 2 * And(a / 2, b / 2)
  }

  /** `a & ~b`. */
  function AndNot(a: nat, b: nat): nat {
    if a == 0 then 0
    else (if a % 2 == 1 && b % 2 == 0 then 1 else 0) + 2 * AndNot(a / 2, b / 2)
  }

  function Xor(a: nat, b: nat): nat {
    if a == 0 && b == 0 then 0
    else (if a % 2 != b % 2 then 1 else 0) + 2 * Xor(a / 2, b / 2)
  }

  lemma {:induction false} BitOfZero(k: nat)
    ensures !Bit(0, k)
  {
    if k > 0 { BitOfZero(k - 1); }
  }

  lemma {:induction false} BitOfOr(a: nat, b: nat, k: nat)
    ensures Bit(Or(a, b), k) == (Bit(a, k) || Bit(b, k))
  {
    if a == 0 && b == 0 {
      BitOfZero(k);
    } else if k > 0 {
      BitOfOr(a / 2, b / 2, k - 1);
    }
  }

  lemma {:induction false} BitOfAnd(a: nat, b: nat, k: nat)
    ensures Bit(And(a, b), k) == (Bit(a, k) && Bit(b, k))
  {
    if a == 0 || b == 0 {
      BitOfZero(k);
    } else if k > 0 {
      BitOfAnd(a / 2, b / 2, k - 1);
    }
  }

  lemma {:induction false} BitOfAndNot(a: nat, b: nat, k: nat)
    ensures Bit(AndNot(a, b), k) == (Bit(a, k) && !Bit(b, k))
  {
    if a == 0 {
      BitOfZero(k);
    } else if k > 0 {
      BitOfAndNot(a / 2, b / 2, k - 1);
    }
  }

  /** `1 << k` has exactly bit `k` set. */
  lemma {:induction false} BitOfPow2(k: nat, j: nat)
    ensures Bit(Pow2(k), j) <==> j == k
  {
    if k == 0 {
      if j > 0 { BitOfZero(j - 1); }
    } else if j > 0 {
      assert Pow2(k) / 2 == Pow2(k - 1);
      BitOfPow2(k - 1, j - 1);
    }
  }

  lemma {:induction false} OrBound(a: nat, b: nat, n: nat)
    requires a < Pow2(n) && b < Pow2(n)
    ensures Or(a, b) < Pow2(n)
  {
    if n > 0 && !(a == 0 && b == 0) { OrBound(a / 2, b / 2, n - 1); }
  }

  lemma {:induction false} AndNotBound(a: nat, b: nat)
    ensures AndNot(a, b) <= a
  {
    if a > 0 { AndNotBound(a / 2, b / 2); }
  }

  lemma {:induction false} AndBound(a: nat, b: nat)
    ensures And(a, b) <= b
  {
    if a > 0 && b > 0 { AndBound(a / 2, b / 2); }
  }

  lemma {:induction false} OrZero(a: nat)
    ensures Or(a, 0) == a && Or(0, a) == a
  {
    if a > 0 { OrZero(a / 2); }
  }

  lemma {:induction false} Pow2Mono(i: nat, j: nat)
    requires i < j
    ensures Pow2(i) < Pow2(j)
  {
    if i + 1 < j { Pow2Mono(i, j - 1); }
  }

  lemma {:induction false} Pow2Add(i: nat, j: nat)
    ensures Pow2(i + j) == Pow2(i) * Pow2(j)
  {
    if i > 0 {
      Pow2Add(i - 1, j);
      assert Pow2(i + j) == 2 * (Pow2(i - 1) * Pow2(j));
    }
  }

  lemma Pow2Is64()
    ensures Pow2(64) == U64
  {
    assert Pow2(8) == 256;
    Pow2Add(8, 8);
    assert Pow2(16) == 65536;
    Pow2Add(16, 16);
    assert Pow2(32) == U32;
    Pow2Add(32, 32);
  }

  /** Masking with a power of two minus one is the remainder: `x & (2^k - 1) == x % 2^k`. */
  lemma {:induction false} MaskIsMod(x: nat, k: nat)
    ensures And(x, Pow2(k) - 1) == x % Pow2(k)
  {
    if k == 0 {
      ModUnique(x, 1, x, 0);
    } else {
      var h := Pow2(k - 1);
      hide And;
      MaskIsMod(x / 2, k - 1);
      ModDouble(x, h);
      MaskStep(x, h, (x / 2) % h, x % (2 * h));
    }
  }

  lemma MaskStep(x: nat, h: nat, r: nat, r2: nat)
    requires h > 0 && And(x / 2, h - 1) == r && r2 == x % 2 + 2 * r
    ensures And(x, 2 * h - 1) == r2
  {
    hide And;
    AndOdd(x, h - 1);
    assert 2 * (h - 1) + 1 == 2 * h - 1;
  }

  lemma AndOdd(x: nat, h: nat)
    ensures And(x, 2 * h + 1) == x % 2 + 2 * And(x / 2, h)
  {
    assert (2 * h + 1) / 2 == h;
  }

  lemma ModDouble(x: nat, h: nat)
    requires h > 0
    ensures x % (2 * h) == x % 2 + 2 * ((x / 2) % h)
    ensures x / (2 * h) == x / 2 / h
  {
    var q, r := x / 2 / h, (x / 2) % h;
    assert x / 2 == q * h + r;
    assert q * (2 * h) == 2 * (q * h);
    ModUnique(x, 2 * h, q, 2 * r + x % 2);
  }

  lemma MulAtLeast(d: int, m: nat)
    requires d >= 1
    ensures d * m >= m
  {
    assert d * m == (d - 1) * m + m;
  }

  /** Quotient and remainder are unique. */
  lemma ModUnique(x: nat, m: nat, q: nat, r: nat)
    requires m > 0 && x == q * m + r && r < m
    ensures x % m == r && x / m == q
  {
    var q', r' := x / m, x % m;
    assert x == q' * m + r';
    assert (q' - q) * m == r - r';
    assert (q - q') * m == r' - r;
    if q < q' {
      MulAtLeast(q' - q, m);
    } else if q' < q {
      MulAtLeast(q - q', m);
    }
  }

  /** Clearing the low bits rounds down: `x & ~(2^k - 1) == x - x % 2^k`. */
  lemma {:induction false} ClearLow(x: nat, k: nat)
    ensures AndNot(x, Pow2(k) - 1) == x - x % Pow2(k)
  {
    if k == 0 {
      AndNotZero(x);
      ModUnique(x, 1, x, 0);
    } else {
      var h := Pow2(k - 1);
      hide AndNot;
      ClearLow(x / 2, k - 1);
      ModDouble(x, h);
      ClearLowStep(x, h, (x / 2) % h, x % (2 * h));
    }
  }

  lemma ClearLowStep(x: nat, h: nat, r: nat, r2: nat)
    requires h > 0 && AndNot(x / 2, h - 1) == x / 2 - r && r2 == x % 2 + 2 * r
    ensures AndNot(x, 2 * h - 1) == x - r2
  {
    hide AndNot;
    AndNotOdd(x, h - 1);
    assert 2 * (h - 1) + 1 == 2 * h - 1;
  }

  lemma {:induction false} AndNotZero(x: nat)
    ensures AndNot(x, 0) == x
  {
    if x > 0 { AndNotZero(x / 2); }
  }

  lemma AndNotOdd(x: nat, h: nat)
    ensures AndNot(x, 2 * h + 1) == 2 * AndNot(x / 2, h)
  {
    assert (2 * h + 1) / 2 == h;
  }

  /** Flipping bit `k` adds or subtracts `2^k`, whichever keeps the other bits. */
  lemma {:induction false} XorPow2(p: nat, k: nat)
    ensures Xor(p, Pow2(k)) == if (p / Pow2(k)) % 2 == 0 then p + Pow2(k) else p - Pow2(k)
    ensures (p / Pow2(k)) % 2 == 1 ==> p >= Pow2(k)
    decreases k
  {
    if k == 0 {
      XorZero(p / 2);
    } else {
      XorPow2(p / 2, k - 1);
      assert Pow2(k) / 2 == Pow2(k - 1) && Pow2(k) % 2 == 0;
      ModDouble(p, Pow2(k - 1));
    }
  }

  lemma {:induction false} XorZero(p: nat)
    ensures Xor(p, 0) == p
  {
    if p > 0 { XorZero(p / 2); }
  }

  /** Sums may be reduced modulo 2^64 at any time. */
  lemma ModAdd(x: int, d: int)
    ensures (x % U64 + d) % U64 == (x + d) % U64
  {
    var q := x / U64;
    assert x == q * U64 + x % U64;
    ModShift(x % U64 + d, q);
  }

  lemma ModShift(y: int, q: int)
    ensures (y + q * U64) % U64 == y % U64
  {
  }

  /** Index of the lowest set bit: `__builtin_ctzll(w)`, or `__builtin_ffsll(w) - 1`. */
  function LowestBit(w: nat): (r: nat)
    requires w > 0
    ensures Bit(w, r)
    ensures forall j :: 0 <= j < r ==> !Bit(w, j)
  {
    if w % 2 == 1 then 0 else 1 + LowestBit(w / 2)
  }

  lemma {:induction false} BitBound(w: nat, k: nat, n: nat)
    requires w < Pow2(n) && Bit(w, k)
    ensures k < n
  {
    if n == 0 { BitOfZero(k); } else if k > 0 { BitBound(w / 2, k - 1, n - 1); }
  }

  /** All 64 bits of the all-ones word are set. */
  lemma {:induction false} AllOnes(n: nat, k: nat)
    requires k < n
    ensures Bit(Pow2(n) - 1, k)
  {
    assert (Pow2(n) - 1) / 2 == Pow2(n - 1) - 1;
    if k > 0 { AllOnes(n - 1, k - 1); }
  }

  // ---- bitmaps: arrays of 64-bit words addressed by a flat bit number

  ghost predicate IsBitmap(ws: seq<nat>) {
    forall i :: 0 <= i < |ws| ==> ws[i] < U64
  }

  predicate BitAt(ws: seq<nat>, p: nat)
    requires p < 64 * |ws|
  {
    Bit(ws[p / 64], p % 64)
  }

  /** `ws[p / 64] |= 1 << (p % 64)` */
  function SetAt(ws: seq<nat>, p: nat): (r: seq<nat>)
    requires p < 64 * |ws|
    ensures |r| == |ws|
  {
    ws[p / 64 := Or(ws[p / 64], Pow2(p % 64))]
  }

  /** `ws[p / 64] &= ~(1 << (p % 64))` */
  function ClearAt(ws: seq<nat>, p: nat): (r: seq<nat>)
    requires p < 64 * |ws|
    ensures |r| == |ws|
  {
    ws[p / 64 := AndNot(ws[p / 64], Pow2(p % 64))]
  }

  lemma SetAtBits(ws: seq<nat>, p: nat)
    requires p < 64 * |ws| && IsBitmap(ws)
    ensures IsBitmap(SetAt(ws, p))
    ensures forall q :: 0 <= q < 64 * |ws| ==> BitAt(SetAt(ws, p), q) == (q == p || BitAt(ws, q))
  {
    Pow2Is64();
    Pow2Mono(p % 64, 64);
    OrBound(ws[p / 64], Pow2(p % 64), 64);
    forall q | 0 <= q < 64 * |ws|
      ensures BitAt(SetAt(ws, p), q) == (q == p || BitAt(ws, q))
    {
      BitOfOr(ws[p / 64], Pow2(p % 64), q % 64);
      BitOfPow2(p % 64, q % 64);
    }
  }

  lemma ClearAtBits(ws: seq<nat>, p: nat)
    requires p < 64 * |ws| && IsBitmap(ws)
    ensures IsBitmap(ClearAt(ws, p))
    ensures forall q :: 0 <= q < 64 * |ws| ==> BitAt(ClearAt(ws, p), q) == (q != p && BitAt(ws, q))
  {
    AndNotBound(ws[p / 64], Pow2(p % 64));
    forall q | 0 <= q < 64 * |ws|
      ensures BitAt(ClearAt(ws, p), q) == (q != p && BitAt(ws, q))
    {
      BitOfAndNot(ws[p / 64], Pow2(p % 64), q % 64);
      BitOfPow2(p % 64, q % 64);
    }
  }

  /** The first non-zero word and its lowest set bit give the lowest set bit of the whole map. */
  lemma FirstSetBit(ws: seq<nat>, i: nat)
    requires i < |ws| && IsBitmap(ws) && ws[i] != 0
    requires forall j :: 0 <= j < i ==> ws[j] == 0
    ensures LowestBit(ws[i]) < 64
    ensures BitAt(ws, 64 * i + LowestBit(ws[i]))
    ensures forall q :: 0 <= q < 64 * i + LowestBit(ws[i]) ==> !BitAt(ws, q)
  {
    Pow2Is64();
    BitBound(ws[i], LowestBit(ws[i]), 64);
    var b := LowestBit(ws[i]);
    assert (64 * i + b) / 64 == i && (64 * i + b) % 64 == b;
    forall q | 0 <= q < 64 * i + b
      ensures !BitAt(ws, q)
    {
      if q < 64 * i {
        assert q / 64 < i;
        BitOfZero(q % 64);
      } else {
        assert q / 64 == i && q % 64 < b;
      }
    }
  }

  lemma AllWordsZero(ws: seq<nat>)
    requires forall j :: 0 <= j < |ws| ==> ws[j] == 0
    ensures forall q :: 0 <= q < 64 * |ws| ==> !BitAt(ws, q)
  {
    forall q | 0 <= q < 64 * |ws| ensures !BitAt(ws, q) { BitOfZero(q % 64); }
  }
}
