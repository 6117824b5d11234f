/**
 * CRC-64/ECMA-182. The checksum is the remainder of the message polynomial times x^64 modulo the
 * generator, so it is defined here by Horner's rule over bits, and the table-driven loop is proved to
 * compute it. Linearity and invertibility of multiplication by x then give burst detection.
 */
module Crc64 {
  /** A polynomial over GF(2) of degree below 64. */
  datatype Poly = Poly(bits: bv64)

  const ZERO := Poly(0)

  function Xor(a: bv64, b: bv64): bv64 {
    a ^ b
  }

  function Plus(a: Poly, b: Poly): Poly {
    Poly(Xor(a.bits, b.bits))
  }

  function ShiftReduce(r: bv64): bv64 {
    if r & 0x8000_0000_0000_0000 != 0 then (r << 1) ^ 0x42f0_e1eb_a9ea_3693 else r << 1
  }

  /** Multiplication by x modulo the generator. */
  function TimesX(p: Poly): Poly {
    Poly(ShiftReduce(p.bits))
  }

  /** Multiplication by x^n modulo the generator. */
  function TimesXn(n: nat, p: Poly): Poly {
    if n == 0 then p else TimesX(TimesXn(n - 1, p))
  }

  function BitWord(b: bool): bv64 {
    if b then 1 else 0
  }

  function Bit(b: bool): Poly {
    Poly(BitWord(b))
  }

  function Widen(b: bv8): bv64 {
    b as bv64
  }

  function Shl8(r: bv64): bv64 {
    r << 8
  }

  function Shl56(r: bv64): bv64 {
    r << 56
  }

  function Low(b: bv8): Poly {
    Poly(Widen(b))
  }

  function Top(b: bv8): Poly {
    Poly(Shl56(Widen(b)))
  }

  // ---- The reference: bit-serial remainder ----

  /** The remainder of a polynomial given by its coefficients, highest first. */
  function Remainder(bits: seq<bool>): Poly {
    if |bits| == 0 then ZERO else Plus(TimesX(Remainder(bits[..|bits| - 1])), Bit(bits[|bits| - 1]))
  }

  function Coefficient(v: bv8, k: nat): bool
    requires k < 8
  {
    if k == 0 then v & 0x80 != 0
    else if k == 1 then v & 0x40 != 0
    else if k == 2 then v & 0x20 != 0
    else if k == 3 then v & 0x10 != 0
    else if k == 4 then v & 8 != 0
    else if k == 5 then v & 4 != 0
    else if k == 6 then v & 2 != 0
    else v & 1 != 0
  }

  /** The eight coefficients of a byte, highest first. */
  function ByteBits(b: bv8): (s: seq<bool>)
    ensures |s| == 8
  {
    seq(8, k requires 0 <= k < 8 => Coefficient(b, k))
  }

  function Bits(bytes: seq<bv8>): (s: seq<bool>)
    ensures |s| == 8 * |bytes|
  {
    if |bytes| == 0 then [] else Bits(bytes[..|bytes| - 1]) + ByteBits(bytes[|bytes| - 1])
  }

  function Zeros(n: nat): (s: seq<bool>)
    ensures |s| == n
  {
    seq(n, _ => false)
  }

  /** The message polynomial times x^64, reduced. */
  function Reference(bytes: seq<bv8>): Poly {
    Remainder(Bits(bytes) + Zeros(64))
  }

  // ---- Algebra ----

  lemma PlusAssociative(a: Poly, b: Poly, c: Poly)
    ensures Plus(Plus(a, b), c) == Plus(a, Plus(b, c))
  {
  }

  lemma PlusCommutative(a: Poly, b: Poly)
    ensures Plus(a, b) == Plus(b, a)
  {
  }

  lemma PlusZero(a: Poly)
    ensures Plus(a, ZERO) == a && Plus(ZERO, a) == a && Plus(a, a) == ZERO
  {
  }

  lemma PlusCancel(a: Poly, b: Poly, c: Poly)
    ensures Plus(a, c) == Plus(b, c) ==> a == b
    ensures Plus(c, a) == Plus(c, b) ==> a == b
  {
    hide Plus;
    PlusAssociative(a, c, c);
    PlusAssociative(b, c, c);
    PlusZero(a);
    PlusZero(b);
    PlusZero(c);
    PlusCommutative(a, c);
    PlusCommutative(b, c);
  }

  lemma LinearLowLow(a: bv64, b: bv64)
    requires a & 0x8000_0000_0000_0000 == 0 && b & 0x8000_0000_0000_0000 == 0
    ensures ShiftReduce(Xor(a, b)) == Xor(ShiftReduce(a), ShiftReduce(b))
  {
  }

  lemma LinearLowHigh(a: bv64, b: bv64)
    requires a & 0x8000_0000_0000_0000 == 0 && b & 0x8000_0000_0000_0000 != 0
    ensures ShiftReduce(Xor(a, b)) == Xor(ShiftReduce(a), ShiftReduce(b))
  {
  }

  lemma LinearHighHigh(a: bv64, b: bv64)
    requires a & 0x8000_0000_0000_0000 != 0 && b & 0x8000_0000_0000_0000 != 0
    ensures ShiftReduce(Xor(a, b)) == Xor(ShiftReduce(a), ShiftReduce(b))
  {
  }

  lemma ShiftReduceLinear(a: bv64, b: bv64)
    ensures ShiftReduce(Xor(a, b)) == Xor(ShiftReduce(a), ShiftReduce(b))
  {
    hide ShiftReduce;
    hide Xor;
    if a & 0x8000_0000_0000_0000 == 0 && b & 0x8000_0000_0000_0000 == 0 {
      LinearLowLow(a, b);
    } else if a & 0x8000_0000_0000_0000 == 0 {
      LinearLowHigh(a, b);
    } else if b & 0x8000_0000_0000_0000 == 0 {
      LinearLowHigh(b, a);
      XorCommutative(a, b);
      XorCommutative(ShiftReduce(a), ShiftReduce(b));
    } else {
      LinearHighHigh(a, b);
    }
  }

  lemma XorCommutative(a: bv64, b: bv64)
    ensures Xor(a, b) == Xor(b, a)
  {
  }

  lemma TimesXLinear(a: Poly, b: Poly)
    ensures TimesX(Plus(a, b)) == Plus(TimesX(a), TimesX(b))
  {
    hide ShiftReduce;
    hide Xor;
    ShiftReduceLinear(a.bits, b.bits);
  }

  lemma InjectiveLowLow(a: bv64, b: bv64)
    requires a & 0x8000_0000_0000_0000 == 0 && b & 0x8000_0000_0000_0000 == 0
    ensures ShiftReduce(a) == ShiftReduce(b) ==> a == b
  {
  }

  lemma InjectiveHighHigh(a: bv64, b: bv64)
    requires a & 0x8000_0000_0000_0000 != 0 && b & 0x8000_0000_0000_0000 != 0
    ensures ShiftReduce(a) == ShiftReduce(b) ==> a == b
  {
  }

  lemma InjectiveLowHigh(a: bv64, b: bv64)
    requires a & 0x8000_0000_0000_0000 == 0 && b & 0x8000_0000_0000_0000 != 0
    ensures ShiftReduce(a) != ShiftReduce(b)
  {
  }

  /** The generator's constant term is 1, so multiplication by x can be undone. */
  lemma TimesXInjective(a: Poly, b: Poly)
    requires TimesX(a) == TimesX(b)
    ensures a == b
  {
    hide ShiftReduce;
    var x, y := a.bits, b.bits;
    if x & 0x8000_0000_0000_0000 == 0 && y & 0x8000_0000_0000_0000 == 0 {
      InjectiveLowLow(x, y);
    } else if x & 0x8000_0000_0000_0000 == 0 {
      InjectiveLowHigh(x, y);
    } else if y & 0x8000_0000_0000_0000 == 0 {
      InjectiveLowHigh(y, x);
    } else {
      InjectiveHighHigh(x, y);
    }
  }

  lemma {:induction false} TimesXnLinear(n: nat, a: Poly, b: Poly)
    ensures TimesXn(n, Plus(a, b)) == Plus(TimesXn(n, a), TimesXn(n, b))
  {
    hide TimesX;
    hide Plus;
    if n > 0 {
      TimesXnLinear(n - 1, a, b);
      TimesXLinear(TimesXn(n - 1, a), TimesXn(n - 1, b));
    }
  }

  lemma {:induction false} TimesXnInjective(n: nat, a: Poly, b: Poly)
    requires TimesXn(n, a) == TimesXn(n, b)
    ensures a == b
  {
    hide TimesX;
    if n > 0 {
      TimesXInjective(TimesXn(n - 1, a), TimesXn(n - 1, b));
      TimesXnInjective(n - 1, a, b);
    }
  }

  lemma {:induction false} TimesXnAdd(m: nat, n: nat, a: Poly)
    ensures TimesXn(m, TimesXn(n, a)) == TimesXn(m + n, a)
  {
    hide TimesX;
    if m > 0 {
      TimesXnAdd(m - 1, n, a);
    }
  }

  lemma {:induction false} ZeroStaysZero(n: nat)
    ensures TimesXn(n, ZERO) == ZERO
  {
    if n > 0 {
      ZeroStaysZero(n - 1);
    }
  }

  lemma TimesX8(p: Poly)
    ensures TimesXn(8, p) == TimesX(TimesX(TimesX(TimesX(TimesX(TimesX(TimesX(TimesX(p))))))))
  {
    hide TimesX;
    var q := TimesX(p);
    assert q == TimesXn(1, p);
    assert TimesXn(4, p) == TimesX(TimesX(TimesX(q))) by {
      assert TimesXn(2, p) == TimesX(q);
    }
    assert TimesXn(8, p) == TimesX(TimesX(TimesX(TimesX(TimesXn(4, p))))) by {
      assert TimesXn(6, p) == TimesX(TimesX(TimesXn(4, p)));
    }
  }

  function ShiftReduce8(r: bv64): bv64 {
    ShiftReduce(ShiftReduce(ShiftReduce(ShiftReduce(
      ShiftReduce(ShiftReduce(ShiftReduce(ShiftReduce(r))))))))
  }

  predicate TopByteClear(r: bv64) {
    r & 0xff00_0000_0000_0000 == 0
  }

  function Shl2(r: bv64): bv64 {
    r << 2
  }

  predicate TopPairClear(r: bv64) {
    r & 0xc000_0000_0000_0000 == 0
  }

  lemma ShiftTwice(r: bv64)
    requires TopPairClear(r)
    ensures ShiftReduce(ShiftReduce(r)) == Shl2(r)
  {
  }

  lemma LowShifts(r: bv64)
    requires TopByteClear(r)
    ensures TopPairClear(r) && TopPairClear(Shl2(r)) && TopPairClear(Shl2(Shl2(r)))
    ensures TopPairClear(Shl2(Shl2(Shl2(r)))) && Shl2(Shl2(Shl2(Shl2(r)))) == Shl8(r)
  {
  }

  lemma ShiftReduce8Low(r: bv64)
    requires TopByteClear(r)
    ensures ShiftReduce8(r) == Shl8(r)
  {
    hide ShiftReduce;
    hide TopByteClear;
    hide TopPairClear;
    hide Shl2;
    hide Shl8;
    LowShifts(r);
    ShiftTwice(r);
    ShiftTwice(Shl2(r));
    ShiftTwice(Shl2(Shl2(r)));
    ShiftTwice(Shl2(Shl2(Shl2(r))));
  }

  /** Eight shifts of a word whose top byte is clear reduce nothing. */
  lemma TimesX8Low(r: bv64)
    requires TopByteClear(r)
    ensures TimesXn(8, Poly(r)) == Poly(Shl8(r))
  {
    hide TimesXn;
    hide ShiftReduce;
    hide Shl8;
    hide TopByteClear;
    TimesX8(Poly(r));
    ShiftReduce8Low(r);
  }

  // ---- The table-driven loop ----

  /** What the loop has computed after some bytes: one step is a multiplication by x^8. */
  function Folded(bytes: seq<bv8>): Poly {
    if |bytes| == 0 then ZERO else TimesXn(8, Plus(Folded(bytes[..|bytes| - 1]), Top(bytes[|bytes| - 1])))
  }

  function Lower56(crc: bv64): bv64 {
    crc & 0x00ff_ffff_ffff_ffff
  }

  function Index(crc: bv64, b: bv8): bv8 {
    ((crc >> 56) as bv8) ^ b
  }

  lemma Lower56Shift(crc: bv64)
    ensures Shl8(Lower56(crc)) == Shl8(crc) && TopByteClear(Lower56(crc))
  {
  }

  lemma ByteRoundTrip(v: bv8)
    ensures (v as int) as bv8 == v
  {
  }

  lemma SplitTop(crc: bv64, b: bv8)
    ensures Xor(crc, (b as bv64) << 56)
         == Xor(((((crc >> 56) as bv8) ^ b) as bv64) << 56, crc & 0x00ff_ffff_ffff_ffff)
  {
  }

  lemma IndexTop(crc: bv64, b: bv8)
    ensures Xor(crc, Shl56(Widen(b))) == Xor(Shl56(Widen(Index(crc, b))), Lower56(crc))
  {
    hide Xor;
    SplitTop(crc, b);
  }

  /** One table lookup, one shift and one xor perform eight bit steps. */
  lemma TableStep(crc: bv64, b: bv8)
    ensures Plus(TimesXn(8, Top(Index(crc, b))), Poly(Shl8(crc))) == TimesXn(8, Plus(Poly(crc), Top(b)))
  {
    hide TimesXn;
    hide Xor;
    hide Shl8;
    hide Shl56;
    hide Widen;
    hide Index;
    hide Lower56;
    hide TopByteClear;
    IndexTop(crc, b);
    Lower56Shift(crc);
    assert Plus(Poly(crc), Top(b)) == Plus(Top(Index(crc, b)), Poly(Lower56(crc)));
    TimesXnLinear(8, Top(Index(crc, b)), Poly(Lower56(crc)));
    TimesX8Low(Lower56(crc));
  }

  method Crc64Table() returns (table: array<bv64>)
    ensures fresh(table) && table.Length == 256
    ensures forall i :: 0 <= i < 256 ==> Poly(table[i]) == TimesXn(8, Top(i as bv8))
  {
    hide ShiftReduce;
    hide Widen;
    hide Shl56;
    table := new bv64[256];
    for index := 0 to 256
      invariant forall i :: 0 <= i < index ==> Poly(table[i]) == TimesXn(8, Top(i as bv8))
    {
      var remainder := Shl56(Widen(index as bv8));
      for bit := 0 to 8
        invariant Poly(remainder) == TimesXn(bit, Top(index as bv8))
      {
        remainder := ShiftReduce(remainder);
      }
      table[index] := remainder;
    }
  }

  method Checksum(bytes: seq<bv8>) returns (crc: bv64)
    ensures Poly(crc) == Reference(bytes)
  {
    hide TimesXn;
    hide Reference;
    hide Index;
    hide Xor;
    hide Shl8;
    hide Shl56;
    hide Widen;
    var table := Crc64Table();
    crc := 0;
    for i := 0 to |bytes|
      invariant Poly(crc) == Folded(bytes[..i])
      invariant forall k :: 0 <= k < 256 ==> Poly(table[k]) == TimesXn(8, Top(k as bv8))
    {
      TableStep(crc, bytes[i]);
      assert bytes[..i + 1][..i] == bytes[..i];
      assert Folded(bytes[..i + 1]) == TimesXn(8, Plus(Poly(crc), Top(bytes[i])));
      var v := Index(crc, bytes[i]);
      ByteRoundTrip(v);
      var entry := table[v as int];
      assert Poly(table[v as int]) == TimesXn(8, Top((v as int) as bv8));
      assert Poly(Xor(entry, Shl8(crc))) == Plus(Poly(entry), Poly(Shl8(crc)));
      crc := Xor(entry, Shl8(crc));
    }
    assert bytes[..|bytes|] == bytes;
    FoldedIsReference(bytes);
  }

  // ---- The loop computes the reference remainder ----

  lemma RemainderAppend(bits: seq<bool>, bit: bool)
    ensures Remainder(bits + [bit]) == Plus(TimesX(Remainder(bits)), Bit(bit))
  {
    hide TimesX;
    hide Plus;
    hide Bit;
    assert (bits + [bit])[..|bits|] == bits;
  }

  /** The value of the first `k` coefficients of a byte. */
  function PartBits(v: bv8, k: nat): bv64
    requires k <= 8
  {
    var w := v as bv64;
    if k == 0 then 0
    else if k == 1 then w >> 7
    else if k == 2 then w >> 6
    else if k == 3 then w >> 5
    else if k == 4 then w >> 4
    else if k == 5 then w >> 3
    else if k == 6 then w >> 2
    else if k == 7 then w >> 1
    else w
  }

  function Part(b: bv8, k: nat): Poly
    requires k <= 8
  {
    Poly(PartBits(b, k))
  }

  lemma PartStepBits(v: bv8, k: nat)
    requires k < 8
    ensures Xor(ShiftReduce(PartBits(v, k)), BitWord(Coefficient(v, k))) == PartBits(v, k + 1)
  {
    if k == 0 {
    } else if k == 1 {
    } else if k == 2 {
    } else if k == 3 {
    } else if k == 4 {
    } else if k == 5 {
    } else if k == 6 {
    } else {
    }
  }

  lemma PartStep(b: bv8, k: nat)
    requires k < 8
    ensures Plus(TimesX(Part(b, k)), Bit(ByteBits(b)[k])) == Part(b, k + 1)
  {
    hide ShiftReduce;
    hide Xor;
    hide BitWord;
    hide PartBits;
    hide Coefficient;
    PartStepBits(b, k);
  }

  /** Horner's rule over the first `k` coefficients of a byte. */
  lemma {:induction false} AppendBits(bits: seq<bool>, b: bv8, k: nat)
    requires k <= 8
    ensures Remainder(bits + ByteBits(b)[..k]) == Plus(TimesXn(k, Remainder(bits)), Part(b, k))
  {
    hide TimesX;
    hide Plus;
    hide Part;
    hide Bit;
    var s := ByteBits(b);
    if k == 0 {
      assert bits + s[..0] == bits;
      PlusZero(Remainder(bits));
      PartZero(b);
    } else {
      var r, p := TimesXn(k - 1, Remainder(bits)), Part(b, k - 1);
      AppendBits(bits, b, k - 1);
      assert bits + s[..k] == (bits + s[..k - 1]) + [s[k - 1]];
      RemainderAppend(bits + s[..k - 1], s[k - 1]);
      TimesXLinear(r, p);
      PlusAssociative(TimesX(r), TimesX(p), Bit(s[k - 1]));
      PartStep(b, k - 1);
    }
  }

  lemma PartZero(b: bv8)
    ensures Part(b, 0) == ZERO && Part(b, 8) == Low(b)
  {
  }

  /** The byte-wise Horner step. */
  lemma BitsAppend(bytes: seq<bv8>, b: bv8)
    ensures Remainder(Bits(bytes + [b])) == Plus(TimesXn(8, Remainder(Bits(bytes))), Low(b))
  {
    hide TimesXn;
    hide Remainder;
    hide Plus;
    hide Part;
    assert (bytes + [b])[..|bytes|] == bytes;
    AppendBits(Bits(bytes), b, 8);
    assert ByteBits(b)[..8] == ByteBits(b);
    PartZero(b);
  }

  lemma {:induction false} RemainderZeros(bits: seq<bool>, n: nat)
    ensures Remainder(bits + Zeros(n)) == TimesXn(n, Remainder(bits))
  {
    hide TimesX;
    hide Plus;
    if n == 0 {
      assert bits + Zeros(0) == bits;
    } else {
      assert bits + Zeros(n) == (bits + Zeros(n - 1)) + [false];
      RemainderZeros(bits, n - 1);
      RemainderAppend(bits + Zeros(n - 1), false);
      PlusZero(TimesXn(n, Remainder(bits)));
    }
  }

  lemma ByteMoves(b: bv8)
    ensures var w := Widen(b);
      && TopByteClear(w) && TopByteClear(Shl8(w)) && TopByteClear(Shl8(Shl8(w)))
      && TopByteClear(Shl8(Shl8(Shl8(w)))) && TopByteClear(Shl8(Shl8(Shl8(Shl8(w)))))
      && TopByteClear(Shl8(Shl8(Shl8(Shl8(Shl8(w))))))
      && TopByteClear(Shl8(Shl8(Shl8(Shl8(Shl8(Shl8(w)))))))
    ensures Shl8(Shl8(Shl8(Shl8(Shl8(Shl8(Shl8(Widen(b)))))))) == Shl56(Widen(b))
  {
    ByteMovesBits(b);
  }

  lemma ByteMovesBits(v: bv8)
    ensures var w := v as bv64;
      && w & 0xff00_0000_0000_0000 == 0 && (w << 8) & 0xff00_0000_0000_0000 == 0 && ((w << 8) << 8) & 0xff00_0000_0000_0000 == 0
      && (((w << 8) << 8) << 8) & 0xff00_0000_0000_0000 == 0 && ((((w << 8) << 8) << 8) << 8) & 0xff00_0000_0000_0000 == 0
      && (((((w << 8) << 8) << 8) << 8) << 8) & 0xff00_0000_0000_0000 == 0
      && ((((((w << 8) << 8) << 8) << 8) << 8) << 8) & 0xff00_0000_0000_0000 == 0
    ensures var w := v as bv64;
      ((((((w << 8) << 8) << 8) << 8) << 8) << 8) << 8 == w << 56
  {
  }

  /** Multiplying a byte by x^56 only moves it to the top. */
  lemma ByteToTop(b: bv8)
    ensures TimesXn(56, Low(b)) == Top(b)
  {
    hide TimesXn;
    hide Shl8;
    hide Shl56;
    hide Widen;
    hide TopByteClear;
    var w0, p := Widen(b), Low(b);
    var w1 := Shl8(w0);
    var w2 := Shl8(w1);
    var w3 := Shl8(w2);
    var w4 := Shl8(w3);
    var w5 := Shl8(w4);
    var w6 := Shl8(w5);
    ByteMoves(b);
    TimesX8Low(w0);
    TimesX8Low(w1);
    TimesX8Low(w2);
    TimesX8Low(w3);
    TimesX8Low(w4);
    TimesX8Low(w5);
    TimesX8Low(w6);
    TimesXnAdd(8, 8, p);
    TimesXnAdd(8, 16, p);
    TimesXnAdd(8, 24, p);
    TimesXnAdd(8, 32, p);
    TimesXnAdd(8, 40, p);
    TimesXnAdd(8, 48, p);
  }

  /** The loop's value is the remainder of the message times x^64. */
  lemma {:induction false} FoldedIsReference(bytes: seq<bv8>)
    ensures Folded(bytes) == TimesXn(64, Remainder(Bits(bytes))) == Reference(bytes)
  {
    hide TimesXn;
    hide Plus;
    hide Low;
    hide Top;
    RemainderZeros(Bits(bytes), 64);
    if |bytes| == 0 {
      ZeroStaysZero(64);
    } else {
      var n := |bytes| - 1;
      var b, r := bytes[n], Remainder(Bits(bytes[..n]));
      FoldedIsReference(bytes[..n]);
      assert bytes == bytes[..n] + [b];
      BitsAppend(bytes[..n], b);
      ByteToTop(b);
      TimesXnLinear(8, TimesXn(64, r), Top(b));
      TimesXnAdd(8, 64, r);
      TimesXnAdd(8, 56, Low(b));
      TimesXnAdd(64, 8, r);
      TimesXnLinear(64, TimesXn(8, r), Low(b));
    }
  }

  // ---- Burst detection ----

  lemma ConcatStep(ra: Poly, rb: Poly, w: Poly, m: nat)
    ensures Plus(TimesXn(8, Plus(TimesXn(m, ra), rb)), w) == Plus(TimesXn(m + 8, ra), Plus(TimesXn(8, rb), w))
  {
    hide TimesXn;
    hide Plus;
    TimesXnLinear(8, TimesXn(m, ra), rb);
    TimesXnAdd(8, m, ra);
    PlusAssociative(TimesXn(m + 8, ra), TimesXn(8, rb), w);
  }

  lemma ConcatByte(a: seq<bv8>, b: seq<bv8>, x: bv8)
    requires Remainder(Bits(a + b)) == Plus(TimesXn(8 * |b|, Remainder(Bits(a))), Remainder(Bits(b)))
    ensures Remainder(Bits(a + (b + [x])))
         == Plus(TimesXn(8 * |b| + 8, Remainder(Bits(a))), Remainder(Bits(b + [x])))
  {
    hide *;
    assert a + (b + [x]) == (a + b) + [x];
    BitsAppend(a + b, x);
    BitsAppend(b, x);
    ConcatStep(Remainder(Bits(a)), Remainder(Bits(b)), Low(x), 8 * |b|);
  }

  lemma ConcatNothing(a: seq<bv8>)
    ensures Remainder(Bits(a + [])) == Plus(TimesXn(0, Remainder(Bits(a))), Remainder(Bits([])))
  {
    hide Plus;
    assert a + [] == a;
    PlusZero(Remainder(Bits(a)));
  }

  /** The remainder of a concatenation. */
  lemma {:induction false} RemainderConcat(a: seq<bv8>, b: seq<bv8>)
    ensures Remainder(Bits(a + b)) == Plus(TimesXn(8 * |b|, Remainder(Bits(a))), Remainder(Bits(b)))
  {
    hide *;
    if |b| == 0 {
      ConcatNothing(a);
      assert b == [];
    } else {
      var n := |b| - 1;
      RemainderConcat(a, b[..n]);
      ConcatByte(a, b[..n], b[n]);
      assert b == b[..n] + [b[n]];
    }
  }

  /** The mask of the lowest `n` bytes. */
  function LowBytes(n: nat): bv64 {
    if n == 0 then 0 else Grow(LowBytes(n - 1))
  }

  function Grow(m: bv64): bv64 {
    (m << 8) | 0xff
  }

  predicate Masked(r: bv64, m: bv64) {
    r & !m == 0
  }

  lemma LowBytesSeven(n: nat)
    requires n <= 7
    ensures LowBytes(n) & 0xff00_0000_0000_0000 == 0
  {
    assert LowBytes(2) == 0xffff;
    assert LowBytes(4) == 0xffff_ffff;
    assert LowBytes(6) == 0xffff_ffff_ffff;
  }

  lemma MaskStep(r: bv64, m: bv64, v: bv8)
    requires Masked(r, m)
    ensures Masked(Xor(Shl8(r), v as bv64), Grow(m))
  {
  }

  lemma MaskLow(r: bv64, m: bv64)
    requires Masked(r, m) && m & 0xff00_0000_0000_0000 == 0
    ensures TopByteClear(r)
  {
  }

  predicate Within(p: Poly, n: nat) {
    Masked(p.bits, LowBytes(n))
  }

  function Shifted(p: Poly): Poly {
    Poly(Shl8(p.bits))
  }

  lemma WithinStep(p: Poly, n: nat, b: bv8)
    requires Within(p, n)
    ensures Within(Plus(Shifted(p), Low(b)), n + 1)
  {
    hide Masked;
    hide Xor;
    hide Shl8;
    hide Grow;
    MaskStep(p.bits, LowBytes(n), b);
  }

  lemma WithinLow(p: Poly, n: nat)
    requires n <= 7 && Within(p, n)
    ensures TopByteClear(p.bits)
  {
    hide Masked;
    hide TopByteClear;
    LowBytesSeven(n);
    hide LowBytes;
    MaskLow(p.bits, LowBytes(n));
  }

  lemma ShortShift(p: Poly, n: nat)
    requires n <= 7 && Within(p, n)
    ensures TimesXn(8, p) == Shifted(p)
  {
    hide TimesXn;
    hide Within;
    hide Shl8;
    hide TopByteClear;
    WithinLow(p, n);
    TimesX8Low(p.bits);
  }

  /** A word of at most eight bytes is its own remainder, byte after byte. */
  lemma {:induction false} ShortWord(w: seq<bv8>)
    requires |w| <= 8
    ensures Within(Remainder(Bits(w)), |w|)
    ensures |w| > 0 ==>
      && Within(Remainder(Bits(w[..|w| - 1])), |w| - 1)
      && Remainder(Bits(w)) == Plus(Shifted(Remainder(Bits(w[..|w| - 1]))), Low(w[|w| - 1]))
  {
    hide TimesXn;
    hide Plus;
    hide Low;
    hide Shifted;
    if |w| > 0 {
      hide Within;
      var n := |w| - 1;
      var r := Remainder(Bits(w[..n]));
      ShortWord(w[..n]);
      WithinStep(r, n, w[n]);
      ShortShift(r, n);
      assert w == w[..n] + [w[n]];
      BitsAppend(w[..n], w[n]);
    }
  }

  lemma LastByteBits(r: bv64, q: bv64, v: bv8, u: bv8)
    requires TopByteClear(r) && TopByteClear(q)
    requires Xor(Shl8(r), v as bv64) == Xor(Shl8(q), u as bv64)
    ensures v == u && r == q
  {
  }

  lemma LastByte(p: Poly, q: Poly, n: nat, a: bv8, b: bv8)
    requires n <= 7 && Within(p, n) && Within(q, n)
    requires Plus(Shifted(p), Low(a)) == Plus(Shifted(q), Low(b))
    ensures a == b && p == q
  {
    hide Within;
    hide Xor;
    hide Shl8;
    hide TopByteClear;
    WithinLow(p, n);
    WithinLow(q, n);
    LastByteBits(p.bits, q.bits, a, b);
  }

  lemma {:induction false} ShortWordsDiffer(a: seq<bv8>, b: seq<bv8>)
    requires |a| == |b| <= 8 && Remainder(Bits(a)) == Remainder(Bits(b))
    ensures a == b
  {
    hide Remainder;
    hide Within;
    hide Plus;
    hide Low;
    hide Shifted;
    if |a| > 0 {
      var n := |a| - 1;
      ShortWord(a);
      ShortWord(b);
      LastByte(Remainder(Bits(a[..n])), Remainder(Bits(b[..n])), n, a[n], b[n]);
      ShortWordsDiffer(a[..n], b[..n]);
      assert a == a[..n] + [a[n]] && b == b[..n] + [b[n]];
    }
  }

  lemma WindowRemainder(a: seq<bv8>, lo: nat, hi: nat)
    requires lo <= hi <= |a|
    ensures Remainder(Bits(a)) ==
      Plus(TimesXn(8 * (|a| - hi), Plus(TimesXn(8 * (hi - lo), Remainder(Bits(a[..lo]))), Remainder(Bits(a[lo..hi])))),
           Remainder(Bits(a[hi..])))
  {
    hide Remainder;
    hide TimesXn;
    hide Plus;
    RemainderConcat(a[..lo], a[lo..hi]);
    assert a[..lo] + a[lo..hi] == a[..hi];
    RemainderConcat(a[..hi], a[hi..]);
    assert a[..hi] + a[hi..] == a;
  }

  /**
   * Two strings of equal length that differ only inside one window of at most eight consecutive bytes
   * have different checksums.
   */
  lemma BurstDetected(a: seq<bv8>, b: seq<bv8>, lo: nat, hi: nat)
    requires |a| == |b| && lo <= hi <= |a| && hi <= lo + 8
    requires a[..lo] == b[..lo] && a[hi..] == b[hi..] && a != b
    ensures Reference(a) != Reference(b)
  {
    hide Remainder;
    hide TimesXn;
    hide Plus;
    hide Reference;
    assert a == a[..lo] + a[lo..hi] + a[hi..];
    assert b == b[..lo] + b[lo..hi] + b[hi..];
    if Reference(a) == Reference(b) {
      FoldedIsReference(a);
      FoldedIsReference(b);
      TimesXnInjective(64, Remainder(Bits(a)), Remainder(Bits(b)));
      WindowRemainder(a, lo, hi);
      WindowRemainder(b, lo, hi);
      var s, p, n := Remainder(Bits(a[hi..])), TimesXn(8 * (hi - lo), Remainder(Bits(a[..lo]))), 8 * (|a| - hi);
      var x, y := Remainder(Bits(a[lo..hi])), Remainder(Bits(b[lo..hi]));
      PlusCancel(TimesXn(n, Plus(p, x)), TimesXn(n, Plus(p, y)), s);
      TimesXnInjective(n, Plus(p, x), Plus(p, y));
      PlusCancel(x, y, p);
      ShortWordsDiffer(a[lo..hi], b[lo..hi]);
      assert false;
    }
  }
}
