/** Bit-level helpers on natural numbers.

    The C code masks hashes, directory indices and offsets with `&`, walks 16-bit group
    masks with "count trailing zeros", and clears the lowest set bit with `m & (m - 1)`.
    These operators are defined here bit by bit, and the lemmas say what they compute. */
module Bits {

  function Pow2(n: nat): (r: nat)
    ensures r > 0
  {
    if n == 0 then 1 else 2 * Pow2(n - 1)
  }

  /** Bitwise conjunction. */
  function BitAnd(a: nat, b: nat): (r: nat)
    ensures r <= a && r <= b
  {
    if a == 0 || b == 0 then 0
    else (if a % 2 == 1 && b % 2 == 1 then 1 else 0) + 2 * BitAnd(a / 2, b / 2)
  }

  /** Bit number `i` of `m`. */
  predicate Bit(m: nat, i: nat) {
    if i == 0 then m % 2 == 1 else Bit(m / 2, i - 1)
  }

  /** The number of trailing zero bits. */
  function Ctz(m: nat): (r: nat)
    requires m > 0
  {
    if m % 2 == 1 then 0 else 1 + Ctz(m / 2)
  }

  lemma {:induction false} Pow2Monotone(a: nat, b: nat)
    requires a <= b
    ensures Pow2(a) <= Pow2(b)
  {
    if a < b { Pow2Monotone(a, b - 1); }
  }

  lemma {:induction false} Pow2Add(a: nat, b: nat)
    ensures Pow2(a + b) == Pow2(a) * Pow2(b)
  {
    if a > 0 { Pow2Add(a - 1, b); }
  }

  lemma HalfMod(h: nat, m: nat)
    requires m > 0
    ensures h % (2 * m) == h % 2 + 2 * ((h / 2) % m)
  {
    var q, r := (h / 2) / m, (h / 2) % m;
    assert h / 2 == q * m + r;
    assert h == (2 * m) * q + (h % 2 + 2 * r);
    ModUnique(h, 2 * m, q, h % 2 + 2 * r);
  }

  lemma ModUnique(h: nat, m: nat, q: nat, r: nat)
    requires 0 <= r < m && h == m * q + r
    ensures h % m == r && h / m == q
  {
    var d := h / m - q;
    assert m * d == m * (h / m) - m * q;
    OnlyZeroFits(m, d);
  }

  lemma OnlyZeroFits(m: int, d: int)
    requires 0 < m
    requires 0 - m < m * d < m
    ensures d == 0
  {
    if d > 0 {
      MulAtLeast(m, d);
    }
  }

  lemma MulAtLeast(x: nat, y: nat)
    requires y > 0
    ensures x <= x * y
  {
    MulNonneg(x, y - 1);
    assert x * y == x + x * (y - 1);
  }

  lemma MulNonneg(x: nat, y: nat)
    ensures 0 <= x * y
  {
  }

  /** Masking with 2^n - 1 is reduction modulo 2^n. */
  lemma {:induction false} AndMask(h: nat, n: nat)
    ensures BitAnd(h, Pow2(n) - 1) == h % Pow2(n)
  {
    if n == 0 {
    } else {
      AndMask(h / 2, n - 1);
      HalfMod(h, Pow2(n - 1));
      var m := Pow2(n) - 1;
      assert m == 2 * Pow2(n - 1) - 1;
      assert m / 2 == Pow2(n - 1) - 1 && m % 2 == 1;
    }
  }

  /** Masking with 2^n tests bit n. */
  lemma {:induction false} AndPow2(h: nat, n: nat)
    ensures (BitAnd(h, Pow2(n)) != 0) == Bit(h, n)
  {
    if n > 0 {
      AndPow2(h / 2, n - 1);
      if h == 0 { ZeroBits(n); }
    } else {
      if h != 0 { assert BitAnd(h / 2, 0) == 0; }
    }
  }

  lemma {:induction false} ZeroBits(n: nat)
    ensures !Bit(0, n)
  {
    if n > 0 { ZeroBits(n - 1); }
  }

  /** One more bit of a residue. */
  lemma {:induction false} ModSplit(h: nat, n: nat)
    ensures h % Pow2(n + 1) == h % Pow2(n) + (if Bit(h, n) then Pow2(n) else 0)
  {
    HalfMod(h, Pow2(n));
    if n > 0 {
      ModSplit(h / 2, n - 1);
      HalfMod(h, Pow2(n - 1));
    }
  }

  /** A residue modulo 2^b fixes the residue modulo any smaller power. */
  lemma {:induction false} ModMod(h: nat, a: nat, b: nat)
    requires a <= b
    ensures (h % Pow2(b)) % Pow2(a) == h % Pow2(a)
    decreases b
  {
    var lo := h % Pow2(b - (if a < b then 1 else 0));
    if a < b {
      ModMod(h, a, b - 1);
      ModSplit(h, b - 1);
      assert h % Pow2(b) == lo + (if Bit(h, b - 1) then Pow2(b - 1) else 0);
      Pow2Add(b - 1 - a, a);
      ModAddMultiple(lo, Pow2(a), Pow2(b - 1 - a));
    } else {
      SmallMod(lo, Pow2(a));
    }
  }

  lemma SmallMod(x: nat, m: nat)
    requires x < m
    ensures x % m == x
  {
  }

  lemma ModAddMultiple(x: nat, m: nat, k: nat)
    requires m > 0
    ensures (x + k * m) % m == x % m
  {
    var q, r := x / m, x % m;
    assert x + k * m == m * (q + k) + r;
    ModUnique(x + k * m, m, q + k, r);
  }

  /** A residue below 2^n has no bit from n on. */
  lemma {:induction false} BitOfSmall(h: nat, n: nat)
    requires h < Pow2(n)
    ensures !Bit(h, n)
  {
    if n > 0 { BitOfSmall(h / 2, n - 1); }
  }

  /** Bits below b survive reduction modulo 2^b. */
  lemma {:induction false} BitOfMod(h: nat, n: nat, b: nat)
    requires n < b
    ensures Bit(h % Pow2(b), n) == Bit(h, n)
  {
    HalfMod(h, Pow2(b - 1));
    var r := h % Pow2(b);
    assert r % 2 == h % 2 && r / 2 == (h / 2) % Pow2(b - 1);
    if n > 0 { BitOfMod(h / 2, n - 1, b - 1); }
  }

  /** `Ctz` finds the lowest set bit. */
  lemma {:induction false} CtzIsLowest(m: nat)
    requires m > 0
    ensures Bit(m, Ctz(m))
    ensures forall i: nat :: i < Ctz(m) ==> !Bit(m, i)
  {
    if m % 2 == 0 {
      CtzIsLowest(m / 2);
      forall i: nat | i < Ctz(m) ensures !Bit(m, i) {
        if i > 0 { assert !Bit(m / 2, i - 1); }
      }
    }
  }

  /** `m & (m - 1)` clears exactly the lowest set bit. */
  lemma {:induction false} ClearLowest(m: nat, i: nat)
    requires m > 0
    ensures Bit(BitAnd(m, m - 1), i) == (Bit(m, i) && i != Ctz(m))
    ensures BitAnd(m, m - 1) < m
  {
    var r := BitAnd(m, m - 1);
    if m % 2 == 1 {
      AndSelf(m / 2);
      assert r == m - 1;
      if i > 0 { assert r / 2 == m / 2; }
    } else {
      var a := m / 2;
      assert (m - 1) / 2 == a - 1;
      assert r == 2 * BitAnd(a, a - 1);
      ClearLowest(a, if i == 0 then 0 else i - 1);
      assert r / 2 == BitAnd(a, a - 1);
    }
  }

  lemma {:induction false} AndSelf(a: nat)
    ensures BitAnd(a, a) == a
  {
    if a > 0 { AndSelf(a / 2); }
  }

  lemma {:induction false} CtzBound(m: nat, n: nat)
    requires 0 < m < Pow2(n)
    ensures Ctz(m) < n
  {
    if m % 2 == 0 { CtzBound(m / 2, n - 1); }
  }

  /** Setting a bit above all the others. */
  lemma {:induction false} SetBit(m: nat, n: nat, i: nat)
    requires m < Pow2(n)
    ensures Bit(m + Pow2(n), i) == (Bit(m, i) || i == n)
    ensures m + Pow2(n) < Pow2(n + 1)
  {
    if n == 0 {
      if i > 0 { ZeroBits(i - 1); }
    } else {
      var s := m + Pow2(n);
      assert s / 2 == m / 2 + Pow2(n - 1) && s % 2 == m % 2;
      SetBit(m / 2, n - 1, if i == 0 then 0 else i - 1);
    }
  }
}
