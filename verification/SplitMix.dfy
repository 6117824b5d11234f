/**
 * The splitmix64 stream of the trace generator. Words are integers cut to 64 bits, as in the
 * generator, and no output repeats within 2^64 draws from any seed.
 */
module SplitMix {
  import opened Words

  // ---- The mixer is a bijection on 64-bit words ----

  function Fold(z: nat, k: nat): nat {
    Xor(z, Shift(z, k))
  }

  function Unfold(x: nat, k: nat): nat {
    Xor(x, Xor(Shift(x, k), Shift(x, 2 * k)))
  }

  lemma FoldBounded(z: word, k: nat)
    ensures Fold(z, k) < MODULUS && Unfold(z, k) < MODULUS
  {
    Pow2Word();
    ShiftShrinks(z, k);
    ShiftShrinks(z, 2 * k);
    XorBounded(z, Shift(z, k), 64);
    XorBounded(Shift(z, k), Shift(z, 2 * k), 64);
    XorBounded(z, Xor(Shift(z, k), Shift(z, 2 * k)), 64);
  }

  /** Folding down by at least 22 bits is undone by folding once and twice as far. */
  lemma FoldInverse(z: word, k: nat)
    requires k >= 22
    ensures Unfold(Fold(z, k), k) == z && Fold(Unfold(z, k), k) == z
  {
    hide Xor;
    hide Shift;
    Pow2Word();
    var a, b := Shift(z, k), Shift(z, 2 * k);
    ShiftShift(z, k, k);
    ShiftShift(z, k, 2 * k);
    ShiftShift(z, 2 * k, k);
    ShiftedOut(z, 3 * k, 64);
    ShiftXor(z, a, k);
    ShiftXor(z, a, 2 * k);
    XorZero(b);
    XorAssociative(a, b, b);
    XorSelf(b);
    XorZero(a);
    XorCancels(z, a);
    ShiftXor(z, Xor(a, b), k);
    ShiftXor(a, b, k);
    XorAssociative(z, Xor(a, b), Xor(a, b));
    XorCancels(z, Xor(a, b));
  }

  const FACTOR_A: nat := 0xBF58_476D_1CE4_E5B9
  const INVERSE_A: nat := 0x96de_1b17_3f11_9089
  const FACTOR_B: nat := 0x94D0_49BB_1331_11EB
  const INVERSE_B: nat := 0x3196_42b2_d24d_8ec3
  const GAMMA: nat := 0x9E37_79B9_7F4A_7C15
  const INVERSE_GAMMA: nat := 0xf1de_83e1_9937_733d

  lemma FactorsInvertible()
    ensures Inverses(FACTOR_A, INVERSE_A) && Inverses(INVERSE_A, FACTOR_A)
    ensures Inverses(FACTOR_B, INVERSE_B) && Inverses(INVERSE_B, FACTOR_B)
    ensures Inverses(GAMMA, INVERSE_GAMMA)
  {
  }

  function Mix(z: word): nat {
    Fold(Mask(Fold(Mask(Fold(z, 30) * FACTOR_A), 27) * FACTOR_B), 31)
  }

  function Unmix(y: word): nat {
    Unfold(Mask(Unfold(Mask(Unfold(y, 31) * INVERSE_B), 27) * INVERSE_A), 30)
  }

  /** The mixer maps words to words and has a two-sided inverse. */
  lemma MixBijective(z: word)
    ensures Mix(z) < MODULUS && Unmix(z) < MODULUS
    ensures Unmix(Mix(z)) == z && Mix(Unmix(z)) == z
  {
    hide Fold;
    hide Unfold;
    hide Mask;
    FactorsInvertible();
    hide Inverses;
    FoldBounded(z, 30);
    var a := Fold(z, 30);
    var b := Mask(a * FACTOR_A);
    FoldBounded(b, 27);
    var c := Fold(b, 27);
    var d := Mask(c * FACTOR_B);
    FoldBounded(d, 31);
    FoldInverse(z, 30);
    ScaleInverse(a, FACTOR_A, INVERSE_A);
    FoldInverse(b, 27);
    ScaleInverse(c, FACTOR_B, INVERSE_B);
    FoldInverse(d, 31);
    FoldBounded(z, 31);
    var e := Unfold(z, 31);
    var f := Mask(e * INVERSE_B);
    FoldBounded(f, 27);
    var g := Unfold(f, 27);
    var h := Mask(g * INVERSE_A);
    FoldBounded(h, 30);
    FoldInverse(z, 31);
    ScaleInverse(e, INVERSE_B, FACTOR_B);
    FoldInverse(f, 27);
    ScaleInverse(g, INVERSE_A, FACTOR_A);
    FoldInverse(h, 30);
  }

  // ---- The generator ----

  function Increment(state: word): word {
    Mask(state + GAMMA)
  }

  /** The state after `n` draws. */
  function StateAfter(seed: word, n: nat): word {
    if n == 0 then seed else Increment(StateAfter(seed, n - 1))
  }

  /** The `n`-th output, counting from zero. */
  function Draw(seed: word, n: nat): nat {
    Mix(StateAfter(seed, n + 1))
  }

  /** `x` is `z` with its digits also folded down by `k`. */
  ghost predicate FoldsDown(z: nat, k: nat, x: nat) {
    forall i: nat :: Digit(x, i) == (Digit(z, i) != Digit(z, i + k))
  }

  lemma FoldMeans(z: nat, k: nat)
    ensures FoldsDown(z, k, Fold(z, k))
  {
    hide Digit;
    forall i: nat
      ensures Digit(Fold(z, k), i) == (Digit(z, i) != Digit(z, i + k))
    {
      XorDigit(z, Shift(z, k), i);
      ShiftDigit(z, k, i);
    }
  }

  /** The mixer in binary digits: fold by 30, multiply, fold by 27, multiply, fold by 31. */
  lemma MixMeans(z: word) returns (a: nat, b: nat)
    ensures FoldsDown(z, 30, a) && FoldsDown(a * 0xBF58_476D_1CE4_E5B9 % 0x1_0000_0000_0000_0000, 27, b)
    ensures FoldsDown(b * 0x94D0_49BB_1331_11EB % 0x1_0000_0000_0000_0000, 31, Mix(z))
  {
    hide Fold;
    hide FoldsDown;
    a := Fold(z, 30);
    FoldMeans(z, 30);
    b := Fold(Mask(a * FACTOR_A), 27);
    FoldMeans(Mask(a * FACTOR_A), 27);
    FoldMeans(Mask(b * FACTOR_B), 31);
  }

  class Rng {
    var state: word
    ghost var seed: word
    ghost var drawn: nat

    ghost predicate Valid()
      reads this
    {
      state == StateAfter(seed, drawn)
    }

    /** Any integer seeds the stream; only its low 64 bits matter. */
    constructor (seed: int)
      ensures Valid() && this.seed == Mask(seed) && drawn == 0
    {
      state := Mask(seed);
      this.seed := Mask(seed);
      drawn := 0;
    }

    method NextU64() returns (r: nat)
      requires Valid()
      modifies this
      ensures Valid() && seed == old(seed) && drawn == old(drawn) + 1
      ensures r == Draw(seed, old(drawn)) && r < MODULUS
    {
      hide Xor;
      hide Shift;
      hide Mask;
      state := Mask(state + GAMMA);
      drawn := drawn + 1;
      var z: nat := state;
      z := Mask(Xor(z, Shift(z, 30)) * FACTOR_A);
      z := Mask(Xor(z, Shift(z, 27)) * FACTOR_B);
      r := Xor(z, Shift(z, 31));
      MixBijective(state);
    }
  }

  // ---- No repetition ----

  lemma MaskSum(a: nat, b: nat)
    ensures Mask(Mask(a) + b) == Mask(a + b)
  {
    Congruent(a + b, Mask(a) + b, a / MODULUS);
  }

  /** After `n` draws the state is the seed plus `n` increments. */
  lemma {:induction false} StateIsLinear(seed: word, n: nat)
    ensures StateAfter(seed, n) == Mask(seed + n * GAMMA)
  {
    if n > 0 {
      StateIsLinear(seed, n - 1);
      hide Mask;
      MaskSum(seed + (n - 1) * GAMMA, GAMMA);
      assert seed + (n - 1) * GAMMA + GAMMA == seed + n * GAMMA;
    }
  }

  /** A distance that an invertible step carries back to the start is a multiple of 2^64. */
  lemma InvertibleStep(d: nat, c: nat, e: nat, q: int)
    requires Inverses(c, e) && d * c == q * MODULUS
    ensures d % MODULUS == 0
  {
    var p := c * e / MODULUS;
    assert c * e == p * MODULUS + 1;
    calc {
      d;
      d * (c * e - p * MODULUS);
      d * c * e - d * p * MODULUS;
      q * MODULUS * e - d * p * MODULUS;
      (q * e - d * p) * MODULUS;
    }
    Congruent(d, 0, q * e - d * p);
  }

  /** Within any 2^64 consecutive draws from any seed no output repeats. */
  lemma NoRepeat(seed: word, i: nat, j: nat)
    requires i < j < i + MODULUS
    ensures Draw(seed, i) != Draw(seed, j)
  {
    hide Mix;
    hide Unmix;
    var s, t := StateAfter(seed, i + 1), StateAfter(seed, j + 1);
    MixBijective(s);
    MixBijective(t);
    StateIsLinear(seed, i + 1);
    StateIsLinear(seed, j + 1);
    FactorsInvertible();
    hide Inverses;
    hide Mask;
    if s == t {
      SameMask(seed, i + 1, j + 1, GAMMA, INVERSE_GAMMA);
      assert false;
    }
  }

  /** States that many invertible steps apart agree only a multiple of 2^64 steps apart. */
  lemma SameMask(seed: nat, i: nat, j: nat, c: nat, e: nat)
    requires i <= j && Inverses(c, e) && Mask(seed + i * c) == Mask(seed + j * c)
    ensures (j - i) % MODULUS == 0
  {
    hide Inverses;
    var a, b := seed + i * c, seed + j * c;
    assert (j - i) * c == b - a;
    Apart(a, b);
    InvertibleStep(j - i, c, e, b / MODULUS - a / MODULUS);
  }

  lemma Apart(a: nat, b: nat)
    requires Mask(a) == Mask(b)
    ensures b - a == (b / MODULUS - a / MODULUS) * MODULUS
  {
  }

  /** Every word is drawn: from any seed some draw gives it. */
  lemma EveryWordIsDrawn(seed: word, r: word) returns (n: nat)
    ensures n < MODULUS && Draw(seed, n) == r
  {
    hide Mix;
    hide Unmix;
    MixBijective(r);
    FactorsInvertible();
    hide Inverses;
    n := StepsBetween(Increment(seed), Unmix(r), GAMMA, INVERSE_GAMMA);
    StateIsLinear(Increment(seed), n);
    StateShift(seed, n);
  }

  lemma {:induction false} StateShift(seed: word, n: nat)
    ensures StateAfter(seed, n + 1) == StateAfter(Increment(seed), n)
  {
    hide Increment;
    if n > 0 {
      StateShift(seed, n - 1);
    }
  }

  /** Every word is some number of invertible steps away from every other. */
  lemma StepsBetween(from: word, to: word, c: nat, e: nat) returns (n: nat)
    requires Inverses(c, e)
    ensures n < MODULUS && Mask(from + n * c) == to
  {
    var gap := to + MODULUS - from;
    n := Mask(gap * e);
    var q, p := gap * e / MODULUS, c * e / MODULUS;
    assert n == gap * e - q * MODULUS;
    assert c * e == p * MODULUS + 1;
    Rescaled(gap, c, e, p, q);
    Congruent(from + n * c, to, 1 + gap * p - q * c);
  }
}
