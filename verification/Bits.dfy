/** Machine-word arithmetic on naturals: the C operators `&`, `~`, `<<` and `>>`
    written bit by bit, and the lemmas that turn masks into remainders. */
module Bits {

  const TWO12: nat := 0x1000
  const TWO21: nat := 0x20_0000
  const TWO30: nat := 0x4000_0000
  const TWO39: nat := 0x80_0000_0000
  const TWO41: nat := 0x200_0000_0000
  const TWO48: nat := 0x1_0000_0000_0000
  const TWO52: nat := 0x10_0000_0000_0000
  const TWO63: nat := 0x8000_0000_0000_0000
  const TWO64: nat := 0x1_0000_0000_0000_0000

  function Pow2(n: nat): (p: nat)
    ensures p >= 1
  {
    if n == 0 then 1 else 2 * Pow2(n - 1)
  }

  /** Bitwise and of two naturals. */
  function And(a: nat, b: nat): nat
  {
    if a == 0 || b == 0 then 0
    else (if a % 2 == 1 && b % 2 == 1 then 1 else 0) + 2 * And(a / 2, b / 2)
  }

  /** `w >> k`. */
  function Shr(w: nat, k: nat): nat
  {
    if k == 0 then w else Shr(w / 2, k - 1)
  }

  lemma {:induction false} ShrIsQuotient(w: nat, k: nat)
    ensures Shr(w, k) == w / Pow2(k)
  {
    if k > 0 {
      HalfMod(w, k);
      ShrIsQuotient(w / 2, k - 1);
    }
  }

  /** Complement of a 64-bit word. */
  function Not64(w: nat): nat
    requires w < TWO64
  {
    TWO64 - 1 - w
  }

  /** True iff bit `k` of `w` is set. */
  predicate Bit(w: nat, k: nat) {
    w / Pow2(k) % 2 == 1
  }

  lemma HalfMod(w: nat, n: nat)
    requires n > 0
    ensures w / Pow2(n) == w / 2 / Pow2(n - 1)
    ensures w % Pow2(n) == w % 2 + 2 * (w / 2 % Pow2(n - 1))
  {
    var p := Pow2(n - 1);
    var q := w / 2 / p;
    var r := w / 2 % p;
    assert w == q * (2 * p) + (w % 2 + 2 * r);
    RemainderUnique(w, 2 * p, q, w % 2 + 2 * r);
  }

  lemma RemainderUnique(w: nat, d: nat, q: nat, r: nat)
    requires r < d && w == q * d + r
    ensures w % d == r && w / d == q
  {
    var q', r' := w / d, w % d;
    assert w == q' * d + r';
    if q > q' {
      MulGap(q', q, d);
    } else if q < q' {
      MulGap(q, q', d);
    }
  }

  lemma DivDiv(w: nat, a: nat, b: nat)
    requires a > 0 && b > 0
    ensures a * b > 0 && w / a / b == w / (a * b)
  {
    var x, r := w / a, w % a;
    var q, s := x / b, x % b;
    assert w == x * a + r && x == q * b + s;
    MulGap(s, b, a);
    assert x * a == q * (a * b) + s * a;
    RemainderUnique(w, a * b, q, s * a + r);
  }

  lemma MulGap(x: nat, y: nat, d: nat)
    requires x < y
    ensures x * d + d <= y * d
  {
    assert y * d == x * d + (y - x) * d;
    assert (y - x) * d == (y - x - 1) * d + d;
  }

  /** The lowest `n` bits of `w`. */
  function Low(w: nat, n: nat): nat
  {
    if n == 0 then 0 else w % 2 + 2 * Low(w / 2, n - 1)
  }

  lemma {:induction false} LowIsRemainder(w: nat, n: nat)
    ensures Low(w, n) == w % Pow2(n)
  {
    if n > 0 {
      HalfMod(w, n);
      LowIsRemainder(w / 2, n - 1);
    }
  }

  lemma {:induction false} AndMaskLow(w: nat, mask: nat, m: nat, n: nat)
    requires n <= m && mask + Pow2(n) == Pow2(m)
    ensures And(w, mask) == Low(w, m) - Low(w, n)
  {
    if m > 0 {
      if n == 0 {
        AndMaskLow(w / 2, mask / 2, m - 1, 0);
      } else {
        AndMaskLow(w / 2, mask / 2, m - 1, n - 1);
      }
    }
  }

  lemma Pow2Monotone(n: nat, m: nat)
    requires n <= m
    ensures Pow2(n) <= Pow2(m)
  {
    if n < m {
      Pow2Monotone(n, m - 1);
    }
  }

  /** A contiguous mask `2^m - 2^n` keeps exactly bits n..m-1. */
  lemma AndMask(w: nat, m: nat, n: nat)
    requires n <= m
    ensures Pow2(n) <= Pow2(m)
    ensures And(w, Pow2(m) - Pow2(n)) == w % Pow2(m) - w % Pow2(n)
  {
    Pow2Monotone(n, m);
    AndMaskLow(w, Pow2(m) - Pow2(n), m, n);
    LowIsRemainder(w, m);
    LowIsRemainder(w, n);
  }

  lemma {:induction false} AndComplementLow(w: nat, x: nat, y: nat, n: nat)
    requires x + y + 1 == Pow2(n)
    ensures And(w, y) + And(w, x) == Low(w, n)
  {
    if n > 0 {
      AndComplementLow(w / 2, x / 2, y / 2, n - 1);
    }
  }

  /** Anding with a mask and with its complement splits a word. */
  lemma AndComplement(w: nat, x: nat, n: nat)
    requires x < Pow2(n)
    ensures And(w, Pow2(n) - 1 - x) + And(w, x) == w % Pow2(n)
  {
    AndComplementLow(w, x, Pow2(n) - 1 - x, n);
    LowIsRemainder(w, n);
  }

  lemma PowerValues()
    ensures Pow2(3) == 8 && Pow2(7) == 128 && Pow2(9) == 512 && Pow2(12) == TWO12
    ensures Pow2(21) == TWO21 && Pow2(30) == TWO30 && Pow2(39) == TWO39 && Pow2(41) == TWO41
    ensures Pow2(42) == 2 * TWO41 && Pow2(52) == TWO52 && Pow2(63) == TWO63 && Pow2(64) == TWO64
  {
    assert Pow2(12) == TWO12;
    assert Pow2(24) == 0x100_0000;
    assert Pow2(36) == 0x10_0000_0000;
    assert Pow2(48) == TWO48;
    assert Pow2(60) == 0x1000_0000_0000_0000;
  }

  /** `w & ~(1 << 63)`. */
  lemma ClearBit63(w: nat)
    requires w < TWO64
    ensures And(w, Not64(TWO63)) == w % TWO63
  {
    PowerValues();
    AndMask(w, 63, 0);
  }

  lemma Pow2Less(k: nat, n: nat)
    requires k < n
    ensures 2 * Pow2(k) <= Pow2(n)
  {
    if k + 1 < n {
      Pow2Less(k, n - 1);
    }
  }

  lemma {:induction false} Pow2Split(k: nat, n: nat)
    requires k < n
    ensures Pow2(n) == 2 * Pow2(k) * Pow2(n - 1 - k)
  {
    if k + 1 < n {
      Pow2Split(k, n - 1);
    }
  }

  /** `w & ~(1 << k)` in an n-bit word. */
  lemma ClearBit(w: nat, k: nat, n: nat)
    requires k < n && w < Pow2(n)
    ensures Pow2(k) < Pow2(n)
    ensures And(w, Pow2(n) - 1 - Pow2(k)) == if Bit(w, k) then w - Pow2(k) else w
  {
    Pow2Less(k, n);
    AndComplement(w, Pow2(k), n);
    RemainderUnique(w, Pow2(n), 0, w);
    AndOneBit(w, k);
  }

  lemma AndOneBit(w: nat, k: nat)
    ensures And(w, Pow2(k)) == if Bit(w, k) then Pow2(k) else 0
  {
    AndMask(w, k + 1, k);
    SplitBit(w, Pow2(k));
  }

  /** Adding a multiple of `2 * d` keeps the bit of weight `d` and everything below it. */
  lemma AddMultiple(w: nat, d: nat, j: nat)
    requires d > 0
    ensures (w + 2 * d * j) / d % 2 == w / d % 2
    ensures (w + 2 * d * j) % d == w % d
  {
    assert 2 * d * j == (j * 2) * d;
    AddQuotient(w, d, j * 2);
    AddQuotient(w / d, 2, j);
  }

  /** `w & ~(1 << 41)` in a 64-bit word. */
  lemma ClearBit41(w: nat)
    requires w < TWO64
    ensures And(w, Not64(TWO41)) == if w / TWO41 % 2 == 1 then w - TWO41 else w
  {
    PowerValues();
    ClearBit(w, 41, 64);
  }

  lemma AddQuotient(r: nat, d: nat, c: nat)
    requires d > 0
    ensures (r + c * d) / d == r / d + c && (r + c * d) % d == r % d
  {
    assert (r / d + c) * d == r / d * d + c * d;
    RemainderUnique(r + c * d, d, r / d + c, r % d);
  }

  lemma DivMonotone(a: nat, b: nat, d: nat)
    requires a <= b && d > 0
    ensures a / d <= b / d
  {
    if b / d < a / d {
      MulGap(b / d, a / d, d);
    }
  }

  /** A field of `k` values above weight `d` is not affected by adding a multiple of `k * d`. */
  lemma FieldOfSum(r: nat, d: nat, k: nat, q: nat)
    requires d > 0 && k > 0
    ensures (r + q * (k * d)) / d % k == r / d % k
  {
    assert q * (k * d) == (q * k) * d;
    AddQuotient(r, d, q * k);
    AddQuotient(r / d, k, q);
  }

  lemma ClearedBit(w: nat, d: nat)
    requires d > 0 && w / d % 2 == 1
    ensures w >= d && (w - d) / d % 2 == 0
    ensures (w - d) % d == w % d && (w - d) / (2 * d) == w / (2 * d)
  {
    var k, r := w / d / 2, w % d;
    assert w == k * (2 * d) + (d + r) by { assert w / d == 2 * k + 1; }
    RemainderUnique(w, 2 * d, k, d + r);
    RemainderUnique(w - d, 2 * d, k, r);
    RemainderUnique(w - d, d, 2 * k, r);
  }

  lemma SplitBit(w: nat, d: nat)
    requires d > 0
    ensures w % (2 * d) - w % d == if w / d % 2 == 1 then d else 0
  {
    var q, r := w / d, w % d;
    assert w == q * d + r;
    assert q == 2 * (q / 2) + q % 2;
    assert q * d == (q / 2) * (2 * d) + (q % 2) * d;
    RemainderUnique(w, 2 * d, q / 2, (q % 2) * d + r);
  }
}
