/** Machine words as integers cut to 64 bits: exclusive or, shifts and wrapping multiplication. */
module Words {
  import opened Arithmetic

  const MODULUS: nat := 0x1_0000_0000_0000_0000

  /** A 64-bit word. */
  type word = n: nat | n < MODULUS

  function Mask(n: int): word {
    n % MODULUS
  }

  // ---- Exclusive or and shift on integers ----

  function Xor(a: nat, b: nat): nat
    decreases a + b
  {
    if a == 0 && b == 0 then 0 else 2 * Xor(a / 2, b / 2) + if a % 2 == b % 2 then 0 else 1
  }

  function Shift(a: nat, k: nat): nat {
    if k == 0 then a else Shift(a / 2, k - 1)
  }

  function Pow2(n: nat): (p: nat)
    ensures p > 0
  {
    if n == 0 then 1 else 2 * Pow2(n - 1)
  }

  lemma {:induction false} Pow2Eight(n: nat)
    ensures Pow2(n + 8) == 256 * Pow2(n)
  {
    assert Pow2(n + 2) == 2 * Pow2(n + 1);
    assert Pow2(n + 4) == 2 * Pow2(n + 3);
    assert Pow2(n + 6) == 2 * Pow2(n + 5);
  }

  lemma Pow2Word()
    ensures Pow2(64) == MODULUS
  {
    assert Pow2(0) == 1;
    Pow2Eight(0);
    Pow2Eight(8);
    Pow2Eight(16);
    Pow2Eight(24);
    Pow2Eight(32);
    Pow2Eight(40);
    Pow2Eight(48);
    Pow2Eight(56);
  }

  lemma XorDigits(a: nat, b: nat)
    ensures Xor(a, b) / 2 == Xor(a / 2, b / 2)
    ensures Xor(a, b) % 2 == if a % 2 == b % 2 then 0 else 1
  {
  }

  lemma SameDigits(x: nat, y: nat)
    requires x / 2 == y / 2 && x % 2 == y % 2
    ensures x == y
  {
  }

  lemma {:induction false} XorAssociative(a: nat, b: nat, c: nat)
    ensures Xor(Xor(a, b), c) == Xor(a, Xor(b, c))
    decreases a + b + c
  {
    if a + b + c > 0 {
      XorAssociative(a / 2, b / 2, c / 2);
      hide Xor;
      XorDigits(a, b);
      XorDigits(b, c);
      XorDigits(Xor(a, b), c);
      XorDigits(a, Xor(b, c));
      SameDigits(Xor(Xor(a, b), c), Xor(a, Xor(b, c)));
    }
  }

  lemma {:induction false} XorSelf(a: nat)
    ensures Xor(a, a) == 0
  {
    if a > 0 {
      XorSelf(a / 2);
    }
  }

  lemma {:induction false} XorZero(a: nat)
    ensures Xor(a, 0) == a
  {
    if a > 0 {
      XorZero(a / 2);
    }
  }

  lemma {:induction false} XorCommutes(a: nat, b: nat)
    ensures Xor(a, b) == Xor(b, a)
    decreases a + b
  {
    if a + b > 0 {
      XorCommutes(a / 2, b / 2);
    }
  }

  /** Folding the same value in twice leaves nothing behind. */
  lemma XorCancels(a: nat, b: nat)
    ensures Xor(Xor(a, b), b) == a
  {
    XorAssociative(a, b, b);
    XorSelf(b);
    XorZero(a);
  }

  lemma {:induction false} XorBounded(a: nat, b: nat, n: nat)
    requires a < Pow2(n) && b < Pow2(n)
    ensures Xor(a, b) < Pow2(n)
  {
    if n > 0 {
      XorBounded(a / 2, b / 2, n - 1);
    }
  }

  lemma {:induction false} ShiftXor(a: nat, b: nat, k: nat)
    ensures Shift(Xor(a, b), k) == Xor(Shift(a, k), Shift(b, k))
  {
    if k > 0 {
      assert Xor(a, b) / 2 == Xor(a / 2, b / 2);
      ShiftXor(a / 2, b / 2, k - 1);
    }
  }

  lemma {:induction false} ShiftShift(a: nat, j: nat, k: nat)
    ensures Shift(Shift(a, j), k) == Shift(a, j + k)
  {
    if j > 0 {
      ShiftShift(a / 2, j - 1, k);
    }
  }

  lemma {:induction false} ShiftedOut(a: nat, k: nat, n: nat)
    requires a < Pow2(n) && n <= k
    ensures Shift(a, k) == 0
  {
    if k > 0 {
      ShiftedOut(a / 2, k - 1, if n == 0 then 0 else n - 1);
    }
  }

  lemma {:induction false} ShiftShrinks(a: nat, k: nat)
    ensures Shift(a, k) <= a
  {
    if k > 0 {
      ShiftShrinks(a / 2, k - 1);
    }
  }

  // ---- Binary digits ----

  /** The binary digit of weight 2^k. */
  predicate Digit(n: nat, k: nat) {
    n / Pow2(k) % 2 == 1
  }

  lemma {:induction false} ShiftMeans(n: nat, k: nat)
    ensures Shift(n, k) == n / Pow2(k)
    decreases k
  {
    if k > 0 {
      ShiftMeans(n / 2, k - 1);
      DivideTwice(n, 2, Pow2(k - 1));
    }
  }

  /** Exclusive or, digit by digit. */
  lemma XorDigit(a: nat, b: nat, k: nat)
    ensures Digit(Xor(a, b), k) == (Digit(a, k) != Digit(b, k))
  {
    ShiftMeans(Xor(a, b), k);
    ShiftMeans(a, k);
    ShiftMeans(b, k);
    ShiftXor(a, b, k);
    XorDigits(Shift(a, k), Shift(b, k));
    hide Xor;
    hide Shift;
    hide Pow2;
  }

  lemma ShiftDigit(a: nat, j: nat, k: nat)
    ensures Digit(Shift(a, j), k) == Digit(a, j + k)
  {
    ShiftMeans(Shift(a, j), k);
    ShiftMeans(a, j + k);
    ShiftShift(a, j, k);
  }

  // ---- Wrapping multiplication ----

  predicate Inverses(c: nat, d: nat) {
    c * d % MODULUS == 1
  }

  lemma Congruent(a: nat, b: nat, q: int)
    requires a == b + q * MODULUS
    ensures a % MODULUS == b % MODULUS
  {
  }

  lemma ScaleInverse(z: word, c: nat, d: nat)
    requires Inverses(c, d)
    ensures Mask(Mask(z * c) * d) == z
  {
    var q, p := z * c / MODULUS, c * d / MODULUS;
    assert Mask(z * c) == z * c - q * MODULUS;
    assert d * c == p * MODULUS + 1;
    Rescaled(z, d, c, p, q);
    Congruent(Mask(z * c) * d, z, z * p - q * d);
  }

  lemma Rescaled(gap: int, c: int, e: int, p: int, q: int)
    requires c * e == p * MODULUS + 1
    ensures (gap * e - q * MODULUS) * c == gap + (gap * p - q * c) * MODULUS
  {
    calc {
      (gap * e - q * MODULUS) * c;
      gap * (c * e) - q * c * MODULUS;
      gap * (p * MODULUS + 1) - q * c * MODULUS;
      gap + (gap * p - q * c) * MODULUS;
    }
  }
}
