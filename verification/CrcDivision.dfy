/**
 * The remainder of module `Crc64` is a remainder: written out as coefficients, every message is a multiple
 * of the generator plus it. Coefficient lists are highest first.
 */
module CrcDivision {
  import opened Crc64

  /** The sum of two polynomials over GF(2). */
  function Add(a: seq<bool>, b: seq<bool>): (s: seq<bool>)
    requires |a| == |b|
    ensures |s| == |a| && forall i :: 0 <= i < |s| ==> s[i] == (a[i] != b[i])
  {
    seq(|a|, i requires 0 <= i < |a| => a[i] != b[i])
  }

  function High(v: bv64): bool {
    v & 0x8000_0000_0000_0000 != 0
  }

  function Double(v: bv64): bv64 {
    v << 1
  }

  /** The first `k` coefficients of a word. */
  function Peel(v: bv64, k: nat): (s: seq<bool>)
    ensures |s| == k
    decreases k
  {
    if k == 0 then [] else [High(v)] + Peel(Double(v), k - 1)
  }

  function Coefficients(p: Poly): (s: seq<bool>)
    ensures |s| == 64
  {
    Peel(p.bits, 64)
  }

  const TAIL := Poly(0x42f0_e1eb_a9ea_3693)

  /** The generator: x^64 and the tail. */
  function Generator(): (s: seq<bool>)
    ensures |s| == 65
  {
    [true] + Coefficients(TAIL)
  }

  /** The product of a polynomial and the generator, coefficient by coefficient. */
  function Product(q: seq<bool>): (s: seq<bool>)
    ensures |s| == |q| + 64
  {
    if |q| == 0 then Zeros(64)
    else
      var n := |q| - 1;
      Add(Product(q[..n]) + [false], Zeros(n) + if q[n] then Generator() else Zeros(65))
  }

  // ---- Words as coefficient lists ----

  lemma HighRaw(a: bv64, b: bv64)
    ensures ((a ^ b) & 0x8000_0000_0000_0000 != 0) == ((a & 0x8000_0000_0000_0000 != 0) != (b & 0x8000_0000_0000_0000 != 0))
  {
  }

  lemma DoubleRaw(a: bv64, b: bv64)
    ensures (a ^ b) << 1 == (a << 1) ^ (b << 1)
  {
  }

  lemma HighXor(a: bv64, b: bv64)
    ensures High(Xor(a, b)) == (High(a) != High(b))
  {
    HighRaw(a, b);
  }

  lemma DoubleXor(a: bv64, b: bv64)
    ensures Double(Xor(a, b)) == Xor(Double(a), Double(b))
  {
    DoubleRaw(a, b);
  }

  lemma {:induction false} PeelXor(a: bv64, b: bv64, k: nat)
    ensures Peel(Xor(a, b), k) == Add(Peel(a, k), Peel(b, k))
    decreases k
  {
    hide Xor;
    hide High;
    hide Double;
    if k > 0 {
      HighXor(a, b);
      DoubleXor(a, b);
      PeelXor(Double(a), Double(b), k - 1);
    }
  }

  function Shifted(v: bv64, k: nat): bv64
    decreases k
  {
    if k == 0 then v else Shifted(Double(v), k - 1)
  }

  lemma {:induction false} ShiftedSum(v: bv64, j: nat, k: nat)
    ensures Shifted(v, j + k) == Shifted(Shifted(v, j), k)
    decreases j
  {
    hide Double;
    if j > 0 {
      ShiftedSum(Double(v), j - 1, k);
    }
  }

  lemma {:induction false} PeelSum(v: bv64, j: nat, k: nat)
    ensures Peel(v, j + k) == Peel(v, j) + Peel(Shifted(v, j), k)
    decreases j
  {
    hide Double;
    hide High;
    if j > 0 {
      PeelSum(Double(v), j - 1, k);
    }
  }

  // Shifts by powers of two, each twice the one before.

  function Shl4(v: bv64): bv64 {
    v << 4
  }

  function Shl16(v: bv64): bv64 {
    v << 16
  }

  function Shl32(v: bv64): bv64 {
    v << 32
  }

  lemma Raw2(v: bv64)
    ensures (v << 1) << 1 == v << 2
  {
  }

  lemma Raw4(v: bv64)
    ensures (v << 2) << 2 == v << 4
  {
  }

  lemma Raw8(v: bv64)
    ensures (v << 4) << 4 == v << 8
  {
  }

  lemma Raw16(v: bv64)
    ensures (v << 8) << 8 == v << 16
  {
  }

  lemma Raw32(v: bv64)
    ensures (v << 16) << 16 == v << 32
  {
  }

  lemma Raw64(v: bv64)
    ensures (v << 32) << 32 == 0
  {
  }

  lemma Steps2(v: bv64)
    ensures Shifted(v, 2) == Shl2(v)
  {
    Raw2(v);
    assert Shifted(v, 2) == Shifted(Double(v), 1) == Shifted(Double(Double(v)), 0);
  }

  lemma Twice4(v: bv64)
    ensures Shl2(Shl2(v)) == Shl4(v)
  {
    Raw4(v);
  }

  lemma Twice8(v: bv64)
    ensures Shl4(Shl4(v)) == Shl8(v)
  {
    Raw8(v);
  }

  lemma Twice16(v: bv64)
    ensures Shl8(Shl8(v)) == Shl16(v)
  {
    Raw16(v);
  }

  lemma Twice32(v: bv64)
    ensures Shl16(Shl16(v)) == Shl32(v)
  {
    Raw32(v);
  }

  lemma Twice64(v: bv64)
    ensures Shl32(Shl32(v)) == 0
  {
    Raw64(v);
  }

  lemma Steps4(v: bv64)
    ensures Shifted(v, 4) == Shl4(v)
  {
    hide *;
    ShiftedSum(v, 2, 2);
    Steps2(v);
    Steps2(Shl2(v));
    Twice4(v);
  }

  lemma Steps8(v: bv64)
    ensures Shifted(v, 8) == Shl8(v)
  {
    hide *;
    ShiftedSum(v, 4, 4);
    Steps4(v);
    Steps4(Shl4(v));
    Twice8(v);
  }

  lemma Steps16(v: bv64)
    ensures Shifted(v, 16) == Shl16(v)
  {
    hide *;
    ShiftedSum(v, 8, 8);
    Steps8(v);
    Steps8(Shl8(v));
    Twice16(v);
  }

  lemma Steps32(v: bv64)
    ensures Shifted(v, 32) == Shl32(v)
  {
    hide *;
    ShiftedSum(v, 16, 16);
    Steps16(v);
    Steps16(Shl16(v));
    Twice32(v);
  }

  lemma Steps64(v: bv64)
    ensures Shifted(v, 64) == 0
  {
    hide *;
    ShiftedSum(v, 32, 32);
    Steps32(v);
    Steps32(Shl32(v));
    Twice64(v);
  }

  lemma HighZero()
    ensures !High(0) && Double(0) == 0
  {
  }

  /** A doubled word ends in a zero coefficient. */
  lemma PeelDoubled(v: bv64)
    ensures Peel(Double(v), 64) == Peel(Double(v), 63) + [false]
  {
    hide Double;
    hide High;
    PeelSum(Double(v), 63, 1);
    assert Shifted(v, 64) == Shifted(Double(v), 63);
    Steps64(v);
    HighZero();
    assert Peel(0, 1) == [High(0)] + Peel(Double(0), 0);
  }

  lemma {:induction false} PeelZero(k: nat)
    ensures Peel(0, k) == Zeros(k)
  {
    hide Double;
    hide High;
    if k > 0 {
      HighZero();
      PeelZero(k - 1);
    }
  }

  // ---- The word one ----

  lemma Constants()
    ensures Shl32(1) == 0x1_0000_0000 && Shl16(0x1_0000_0000) == 0x1_0000_0000_0000
    ensures Shl8(0x1_0000_0000_0000) == 0x0100_0000_0000_0000 && Shl4(0x0100_0000_0000_0000) == 0x1000_0000_0000_0000
    ensures Shl2(0x1000_0000_0000_0000) == 0x4000_0000_0000_0000 && Double(0x4000_0000_0000_0000) == 0x8000_0000_0000_0000
    ensures !High(0x4000_0000_0000_0000) && High(0x8000_0000_0000_0000)
  {
  }

  lemma Clear2(v: bv64)
    requires v & 0xC000_0000_0000_0000 == 0
    ensures v & 0x8000_0000_0000_0000 == 0 && (v << 1) & 0x8000_0000_0000_0000 == 0
  {
  }

  lemma Clear4(v: bv64)
    requires v & 0xF000_0000_0000_0000 == 0
    ensures v & 0xC000_0000_0000_0000 == 0 && (v << 2) & 0xC000_0000_0000_0000 == 0
  {
  }

  lemma Clear8(v: bv64)
    requires v & 0xFF00_0000_0000_0000 == 0
    ensures v & 0xF000_0000_0000_0000 == 0 && (v << 4) & 0xF000_0000_0000_0000 == 0
  {
  }

  lemma Clear16(v: bv64)
    requires v & 0xFFFF_0000_0000_0000 == 0
    ensures v & 0xFF00_0000_0000_0000 == 0 && (v << 8) & 0xFF00_0000_0000_0000 == 0
  {
  }

  lemma Clear32(v: bv64)
    requires v & 0xFFFF_FFFF_0000_0000 == 0
    ensures v & 0xFFFF_0000_0000_0000 == 0 && (v << 16) & 0xFFFF_0000_0000_0000 == 0
  {
  }

  lemma ZerosSum(j: nat, k: nat)
    ensures Zeros(j) + Zeros(k) == Zeros(j + k)
  {
  }

  lemma Peel2(v: bv64)
    requires v & 0xC000_0000_0000_0000 == 0
    ensures Peel(v, 2) == Zeros(2)
  {
    Clear2(v);
    assert Peel(v, 2) == [High(v)] + ([High(Double(v))] + Peel(Double(Double(v)), 0));
  }

  lemma Peel4(v: bv64)
    requires v & 0xF000_0000_0000_0000 == 0
    ensures Peel(v, 4) == Zeros(4)
  {
    hide Peel;
    hide Shifted;
    Clear4(v);
    Peel2(v);
    Peel2(Shl2(v));
    PeelSum(v, 2, 2);
    Steps2(v);
    ZerosSum(2, 2);
  }

  lemma Peel8(v: bv64)
    requires v & 0xFF00_0000_0000_0000 == 0
    ensures Peel(v, 8) == Zeros(8)
  {
    hide Peel;
    hide Shifted;
    Clear8(v);
    Peel4(v);
    Peel4(Shl4(v));
    PeelSum(v, 4, 4);
    Steps4(v);
    ZerosSum(4, 4);
  }

  lemma Peel16(v: bv64)
    requires v & 0xFFFF_0000_0000_0000 == 0
    ensures Peel(v, 16) == Zeros(16)
  {
    hide Peel;
    hide Shifted;
    Clear16(v);
    Peel8(v);
    Peel8(Shl8(v));
    PeelSum(v, 8, 8);
    Steps8(v);
    ZerosSum(8, 8);
  }

  lemma Peel32(v: bv64)
    requires v & 0xFFFF_FFFF_0000_0000 == 0
    ensures Peel(v, 32) == Zeros(32)
  {
    hide Peel;
    hide Shifted;
    Clear32(v);
    Peel16(v);
    Peel16(Shl16(v));
    PeelSum(v, 16, 16);
    Steps16(v);
    ZerosSum(16, 16);
  }

  lemma PeelTwo()
    ensures Peel(0x4000_0000_0000_0000, 2) == Zeros(1) + [true]
  {
    hide High;
    hide Double;
    Constants();
    assert Peel(0x4000_0000_0000_0000, 2) == [High(0x4000_0000_0000_0000)] + Peel(0x8000_0000_0000_0000, 1);
    assert Peel(0x8000_0000_0000_0000, 1) == [High(0x8000_0000_0000_0000)] + Peel(Double(0x8000_0000_0000_0000), 0);
  }

  lemma PeelMore(v: bv64, next: bv64, j: nat, k: nat)
    requires Shifted(v, j) == next && Peel(v, j) == Zeros(j) && k > 0 && Peel(next, k) == Zeros(k - 1) + [true]
    ensures Peel(v, j + k) == Zeros(j + k - 1) + [true]
  {
    hide Peel;
    hide Shifted;
    PeelSum(v, j, k);
    ZerosSum(j, k - 1);
    assert Zeros(j) + (Zeros(k - 1) + [true]) == (Zeros(j) + Zeros(k - 1)) + [true];
  }

  lemma PeelOne()
    ensures Peel(1, 64) == Zeros(63) + [true]
  {
    hide Peel;
    hide Shifted;
    hide High;
    hide Double;
    hide Shl2;
    hide Shl4;
    hide Shl8;
    hide Shl16;
    hide Shl32;
    Constants();
    PeelTwo();
    Steps2(0x1000_0000_0000_0000);
    Peel2(0x1000_0000_0000_0000);
    PeelMore(0x1000_0000_0000_0000, 0x4000_0000_0000_0000, 2, 2);
    Steps4(0x0100_0000_0000_0000);
    Peel4(0x0100_0000_0000_0000);
    PeelMore(0x0100_0000_0000_0000, 0x1000_0000_0000_0000, 4, 4);
    Steps8(0x1_0000_0000_0000);
    Peel8(0x1_0000_0000_0000);
    PeelMore(0x1_0000_0000_0000, 0x0100_0000_0000_0000, 8, 8);
    Steps16(0x1_0000_0000);
    Peel16(0x1_0000_0000);
    PeelMore(0x1_0000_0000, 0x1_0000_0000_0000, 16, 16);
    Steps32(1);
    Peel32(1);
    PeelMore(1, 0x1_0000_0000, 32, 32);
  }

  // ---- One step of the division ----

  lemma BitCoefficients(b: bool)
    ensures Coefficients(Bit(b)) == Zeros(63) + [b]
  {
    hide Peel;
    if b {
      PeelOne();
    } else {
      PeelZero(64);
      ZerosSum(63, 1);
      assert Zeros(1) == [false];
    }
  }

  lemma PlusCoefficients(p: Poly, q: Poly)
    ensures Coefficients(Plus(p, q)) == Add(Coefficients(p), Coefficients(q))
  {
    hide Peel;
    hide Xor;
    PeelXor(p.bits, q.bits, 64);
  }

  /** Multiplying by x shifts the coefficients. */
  lemma ShiftedCoefficients(p: Poly)
    ensures Coefficients(p) + [false] == [High(p.bits)] + Coefficients(Poly(Double(p.bits)))
  {
    hide High;
    hide Double;
    PeelDoubled(p.bits);
    assert Peel(p.bits, 64) == [High(p.bits)] + Peel(Double(p.bits), 63);
  }

  lemma ReduceHigh(r: bv64)
    requires High(r)
    ensures ShiftReduce(r) == (r << 1) ^ 0x42f0_e1eb_a9ea_3693
  {
  }

  lemma ReduceLow(r: bv64)
    requires !High(r)
    ensures ShiftReduce(r) == Double(r)
  {
  }

  lemma ReduceXor(r: bv64)
    requires High(r)
    ensures ShiftReduce(r) == Xor(Double(r), 0x42f0_e1eb_a9ea_3693)
  {
    hide ShiftReduce;
    hide High;
    ReduceHigh(r);
  }

  /** If a coefficient is shifted out, the generator is taken away. */
  lemma TimesXReduces(p: Poly)
    ensures TimesX(p) == if High(p.bits) then Plus(Poly(Double(p.bits)), TAIL) else Poly(Double(p.bits))
  {
    hide ShiftReduce;
    hide High;
    hide Double;
    hide Xor;
    if High(p.bits) {
      ReduceXor(p.bits);
    } else {
      ReduceLow(p.bits);
    }
  }

  lemma StepIdentity(p: Poly, b: bool)
    ensures Coefficients(p) + [b] ==
      Add(if High(p.bits) then Generator() else Zeros(65), [false] + Coefficients(Plus(TimesX(p), Bit(b))))
  {
    hide Coefficients;
    hide Plus;
    hide TimesX;
    hide Bit;
    hide High;
    var high, shifted := High(p.bits), Poly(Double(p.bits));
    ShiftedCoefficients(p);
    TimesXReduces(p);
    BitCoefficients(b);
    PlusCoefficients(TimesX(p), Bit(b));
    PlusCoefficients(shifted, TAIL);
    var c, left := Coefficients(p), Coefficients(p) + [b];
    var right := Add(if high then Generator() else Zeros(65), [false] + Coefficients(Plus(TimesX(p), Bit(b))));
    forall i | 0 <= i < 65
      ensures left[i] == right[i]
    {
      assert (c + [false])[i] == ([high] + Coefficients(shifted))[i];
    }
  }

  // ---- The division ----

  /** Every polynomial is a multiple of the generator plus its remainder, which has degree below 64. */
  lemma {:induction false} Division(bits: seq<bool>) returns (q: seq<bool>)
    ensures |q| == |bits|
    ensures Zeros(64) + bits == Add(Product(q), Zeros(|bits|) + Coefficients(Remainder(bits)))
  {
    hide Coefficients;
    hide Plus;
    hide TimesX;
    hide Bit;
    hide High;
    hide Generator;
    hide Remainder;
    hide Product;
    if |bits| == 0 {
      q := [];
      NothingDivided();
      assert bits == [];
    } else {
      var n := |bits| - 1;
      var before, b := bits[..n], bits[n];
      assert before + [b] == bits;
      var r := Remainder(before);
      var q' := Division(before);
      q := q' + [High(r.bits)];
      StepIdentity(r, b);
      RemainderAppend(before, b);
      DivisionStep(q', before, b, High(r.bits), Coefficients(r), Coefficients(Remainder(bits)));
    }
  }

  lemma NothingDivided()
    ensures Zeros(64) + [] == Add(Product([]), Zeros(0) + Coefficients(Remainder([])))
  {
    hide Coefficients;
    ZeroCoefficients();
  }

  lemma ZeroCoefficients()
    ensures Coefficients(ZERO) == Zeros(64)
  {
    PeelZero(64);
  }

  lemma {:induction false} DivisionStep(q: seq<bool>, bits: seq<bool>, b: bool, high: bool, r: seq<bool>, r': seq<bool>)
    requires |q| == |bits| && |r| == |r'| == 64 && Zeros(64) + bits == Add(Product(q), Zeros(|bits|) + r)
    requires r + [b] == Add(if high then Generator() else Zeros(65), [false] + r')
    ensures Zeros(64) + (bits + [b]) == Add(Product(q + [high]), Zeros(|bits| + 1) + r')
  {
    hide Generator;
    hide Product;
    var g := if high then Generator() else Zeros(65);
    ProductAppend(q, high);
    ShiftAndSubtract(Product(q), bits, b, r, r', g);
  }

  lemma {:induction false} ProductAppend(q: seq<bool>, b: bool)
    ensures Product(q + [b]) == Add(Product(q) + [false], Zeros(|q|) + if b then Generator() else Zeros(65))
  {
    hide Generator;
    assert (q + [b])[..|q|] == q;
  }

  /** Bringing down one more coefficient and taking away `g`, on the lists alone. */
  lemma {:induction false} ShiftAndSubtract(p: seq<bool>, bits: seq<bool>, b: bool, r: seq<bool>, r': seq<bool>, g: seq<bool>)
    requires |p| == |bits| + 64 && |r| == |r'| == 64 && |g| == 65
    requires Zeros(64) + bits == Add(p, Zeros(|bits|) + r) && r + [b] == Add(g, [false] + r')
    ensures Zeros(64) + (bits + [b]) == Add(Add(p + [false], Zeros(|bits|) + g), Zeros(|bits| + 1) + r')
  {
    var n := |bits|;
    var left, right := Zeros(64) + (bits + [b]), Add(Add(p + [false], Zeros(n) + g), Zeros(n + 1) + r');
    forall i | 0 <= i < n + 65
      ensures left[i] == right[i]
    {
      if i < n + 64 {
        assert left[i] == (Zeros(64) + bits)[i] == (p[i] != (Zeros(n) + r)[i]);
      }
      if i >= n {
        assert (r + [b])[i - n] == (g[i - n] != ([false] + r')[i - n]);
      }
    }
  }

  // ---- There is only one remainder ----

  lemma {:induction false} ProductLinear(a: seq<bool>, b: seq<bool>)
    requires |a| == |b|
    ensures Product(Add(a, b)) == Add(Product(a), Product(b))
    decreases |a|
  {
    hide Generator;
    hide Product;
    if |a| > 0 {
      var n := |a| - 1;
      var x, y := a[..n], b[..n];
      assert a == x + [a[n]] && b == y + [b[n]];
      assert Add(a, b) == Add(x, y) + [a[n] != b[n]];
      ProductLinear(x, y);
      ProductAppend(x, a[n]);
      ProductAppend(y, b[n]);
      ProductAppend(Add(x, y), a[n] != b[n]);
      AddAligned(Product(x), Product(y), a[n], b[n], Generator());
    } else {
      assert a == b == Add(a, b) == [];
      ProductOfNothing();
    }
  }

  lemma ProductOfNothing()
    ensures Product([]) == Zeros(64)
  {
  }

  lemma {:induction false} AddAligned(p: seq<bool>, q: seq<bool>, a: bool, b: bool, g: seq<bool>)
    requires |p| == |q| >= 64 && |g| == 65
    ensures var n := |p| - 64;
      Add(Add(p, q) + [false], Zeros(n) + if a != b then g else Zeros(65))
      == Add(Add(p + [false], Zeros(n) + if a then g else Zeros(65)), Add(q + [false], Zeros(n) + if b then g else Zeros(65)))
  {
  }

  /** The product starts where the factor starts. */
  lemma {:induction false} ProductLeads(q: seq<bool>, i: nat)
    requires i < |q| && forall j :: 0 <= j < i ==> !q[j]
    ensures Product(q)[i] == q[i]
    decreases |q|
  {
    hide Product;
    var n := |q| - 1;
    assert q == q[..n] + [q[n]];
    ProductAppend(q[..n], q[n]);
    if i < n {
      ProductLeads(q[..n], i);
    } else {
      assert q[..n] == Zeros(n);
      ProductOfZero(n);
    }
  }

  lemma {:induction false} ProductOfZero(n: nat)
    ensures Product(Zeros(n)) == Zeros(n + 64)
  {
    if n > 0 {
      assert Zeros(n)[..n - 1] == Zeros(n - 1);
      ProductOfZero(n - 1);
    }
  }

  lemma {:induction false} SmallProduct(q: seq<bool>, i: nat)
    requires i <= |q| && forall j :: 0 <= j < |q| ==> !Product(q)[j]
    ensures forall j :: 0 <= j < i ==> !q[j]
  {
    if i > 0 {
      SmallProduct(q, i - 1);
      ProductLeads(q, i - 1);
    }
  }

  /** No other polynomial of degree below 64 is left by any multiple of the generator. */
  lemma {:induction false} RemainderUnique(bits: seq<bool>, q: seq<bool>, r: seq<bool>)
    requires |q| == |bits| && |r| == 64 && Zeros(64) + bits == Add(Product(q), Zeros(|bits|) + r)
    ensures r == Coefficients(Remainder(bits))
  {
    hide Remainder;
    hide Coefficients;
    hide Product;
    var q' := Division(bits);
    var r' := Coefficients(Remainder(bits));
    var n, d := |bits|, Add(q, q');
    ProductLinear(q, q');
    forall i | 0 <= i < n + 64
      ensures Product(d)[i] == ((Zeros(n) + r)[i] != (Zeros(n) + r')[i])
    {
      assert (Zeros(64) + bits)[i] == (Product(q)[i] != (Zeros(n) + r)[i]);
      assert (Zeros(64) + bits)[i] == (Product(q')[i] != (Zeros(n) + r')[i]);
    }
    SmallProduct(d, n);
    assert d == Zeros(n);
    ProductOfZero(n);
    forall i | 0 <= i < 64
      ensures r[i] == r'[i]
    {
      assert !Product(d)[n + i];
    }
  }

  /** The checksum is the remainder of the message times x^64 under division by the generator. */
  lemma {:induction false} ReferenceDivides(bytes: seq<bv8>) returns (q: seq<bool>)
    ensures var message := Bits(bytes) + Zeros(64);
      |q| == |message| && Zeros(64) + message == Add(Product(q), Zeros(|message|) + Coefficients(Reference(bytes)))
  {
    hide Remainder;
    hide Coefficients;
    hide Product;
    hide Bits;
    q := Division(Bits(bytes) + Zeros(64));
  }
}
