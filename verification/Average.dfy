/** The generator's decimal AVG: the display scale it divides to, the rounding, and the printed text. */
module Average {
  import opened Arithmetic
  import opened Bytes

  // ---- Decimal notation ----

  function Pow10(n: nat): (p: nat)
    ensures p > 0
  {
    if n == 0 then 1 else 10 * Pow10(n - 1)
  }

  lemma {:induction false} Pow10Sum(m: nat, n: nat)
    ensures Pow10(m + n) == Pow10(m) * Pow10(n)
  {
    if m > 0 {
      Pow10Sum(m - 1, n);
    }
  }

  function DigitChar(d: nat): char
    requires d < 10
  {
    '0' + d as char
  }

  predicate IsDigit(c: char) {
    '0' <= c <= '9'
  }

  function DigitValue(c: char): nat
    requires IsDigit(c)
  {
    c as int - '0' as int
  }

  ghost predicate AllDigits(s: string) {
    forall i :: 0 <= i < |s| ==> IsDigit(s[i])
  }

  /** The usual notation of a natural number. */
  function Digits(n: nat): (s: string)
    ensures |s| > 0 && AllDigits(s)
  {
    if n < 10 then [DigitChar(n)] else Digits(n / 10) + [DigitChar(n % 10)]
  }

  /** The number a digit string denotes. */
  function Number(s: string): nat
    requires AllDigits(s)
  {
    if s == [] then 0 else 10 * Number(s[..|s| - 1]) + DigitValue(s[|s| - 1])
  }

  lemma {:induction false} NumberOfDigits(n: nat)
    ensures Number(Digits(n)) == n
  {
    var s := Digits(n);
    if n >= 10 {
      NumberOfDigits(n / 10);
      assert s[..|s| - 1] == Digits(n / 10);
    }
  }

  /** The length of the notation is the magnitude of the number. */
  lemma {:induction false} DigitsMagnitude(n: nat)
    requires n > 0
    ensures Pow10(|Digits(n)| - 1) <= n < Pow10(|Digits(n)|)
  {
    if n >= 10 {
      DigitsMagnitude(n / 10);
    }
  }

  // ---- The scale ----

  /** The base-10^4 weight of the leading digit group. */
  function Weight(x: nat): nat {
    if x == 0 then 0 else (|Digits(x)| - 1) / 4
  }

  function Over(x: nat, p: nat): nat
    requires p > 0
  {
    x / p
  }

  /** The value of the leading digit group. */
  function Lead(x: nat): nat {
    if x == 0 then 0 else Over(x, Pow10(4 * Weight(x)))
  }

  function Abs(x: int): nat {
    if x < 0 then -x else x
  }

  function QuotientWeight(n: int, d: int): int {
    Weight(Abs(n)) - Weight(Abs(d)) - (if Lead(Abs(n)) <= Lead(Abs(d)) then 1 else 0)
  }

  /** The most digits ever shown after the point. */
  const CUT: nat := 1000

  lemma CutIs()
    ensures CUT == 1000
  {
  }

  function DivScale(n: int, d: int): nat {
    var scale := 16 - 4 * QuotientWeight(n, d);
    if scale < 0 then 0 else if scale > CUT then CUT else scale
  }

  /** The leading group is one base-10^4 digit, and the number lies in its bracket. */
  lemma LeadBracket(x: nat)
    requires x > 0
    ensures 1 <= Lead(x) < 10000
    ensures Lead(x) * Pow10(4 * Weight(x)) <= x < (Lead(x) + 1) * Pow10(4 * Weight(x))
  {
    var n := |Digits(x)|;
    var w := Weight(x);
    var p := Pow10(4 * w);
    DigitsMagnitude(x);
    var m := n - 1 - 4 * w;
    Pow10Sum(4 * w, m);
    Pow10Sum(4 * w, m + 1);
    assert 4 * w + m == n - 1;
    Division(x, p);
    SmallPow10(m);
    assert p <= x;
    assert x < p * 10000 by {
      assert x < p * Pow10(m + 1);
      assert p * Pow10(m + 1) <= p * 10000;
    }
    LeadFits(x, p);
  }

  lemma SmallPow10(m: nat)
    requires m <= 3
    ensures 1 <= Pow10(m) && Pow10(m + 1) <= 10000
  {
    assert Pow10(1) == 10 && Pow10(2) == 100 && Pow10(3) == 1000 && Pow10(4) == 10000;
  }

  lemma Division(x: nat, p: nat)
    requires p > 0
    ensures x / p * p <= x < (x / p + 1) * p
  {
  }

  lemma LeadFits(x: nat, p: nat)
    requires 0 < p <= x < p * 10000
    ensures 1 <= x / p < 10000
  {
    Division(x, p);
    CancelLess(x / p, 10000, p);
    CancelLess(1, x / p + 1, p);
  }

  /** The powers of ten on both sides of the quotient, over a common factor. */
  lemma CommonPower(n: nat, d: nat, up: nat, down: nat) returns (p: nat, l: nat)
    requires up - down == -4 * QuotientWeight(n, d)
    ensures l == if Lead(n) <= Lead(d) then 10000 else 1
    ensures Pow10(4 * Weight(n)) * Pow10(up) == p * l && Pow10(4 * Weight(d)) * Pow10(down) == p && p > 0
  {
    hide Lead;
    hide Weight;
    var w1, w2 := Weight(n), Weight(d);
    var less := if Lead(n) <= Lead(d) then 4 else 0;
    assert 4 * w1 + up == (4 * w2 + down) + less;
    Pow10Sum(4 * w1, up);
    Pow10Sum(4 * w2, down);
    Pow10Sum(4 * w2 + down, less);
    p, l := Pow10(4 * w2 + down), Pow10(less);
    assert Pow10(0) == 1;
    SmallPow10(3);
    assert Pow10(4) == 10000;
  }

  lemma Scale(a: nat, b: nat, p: nat)
    requires a <= b
    ensures a * p <= b * p
  {
  }

  lemma StrictScale(a: nat, b: nat, p: nat)
    requires a < b && p > 0
    ensures a * p < b * p
  {
  }

  lemma Regroup(f: nat, a: nat, b: nat, c: nat)
    requires a * b == c
    ensures f * a * b == f * c
  {
    assert f * a * b == f * (a * b);
  }

  /** The quotient is at least 10^(4 * weight), which is 10^(down - up). */
  lemma QuotientAtLeast(n: nat, d: nat, up: nat, down: nat)
    requires n > 0 && d > 0
    requires up - down == -4 * QuotientWeight(n, d)
    ensures n * Pow10(up) >= d * Pow10(down)
  {
    hide *;
    LeadBracket(n);
    LeadBracket(d);
    var p, l := CommonPower(n, d, up, down);
    var f1, f2 := Lead(n), Lead(d);
    Scale(f1 * Pow10(4 * Weight(n)), n, Pow10(up));
    Scale(d, (f2 + 1) * Pow10(4 * Weight(d)), Pow10(down));
    Regroup(f1, Pow10(4 * Weight(n)), Pow10(up), p * l);
    Regroup(f2 + 1, Pow10(4 * Weight(d)), Pow10(down), p);
    LowerBracket(f1, f2, l, p);
  }

  lemma LowerBracket(f1: nat, f2: nat, l: nat, p: nat)
    requires 1 <= f1 && f2 < 10000 && l == if f1 <= f2 then 10000 else 1
    ensures (f2 + 1) * p <= f1 * (p * l)
  {
    if f1 <= f2 {
      Scale(f2 + 1, f1 * 10000, p);
      assert f1 * (p * 10000) == f1 * 10000 * p;
    } else {
      Scale(f2 + 1, f1, p);
    }
  }

  lemma UpperBracket(f1: nat, f2: nat, l: nat, p: nat)
    requires f1 < 10000 && 1 <= f2 && l == if f1 <= f2 then 10000 else 1
    ensures (f1 + 1) * (p * l) <= f2 * p * 20000
  {
    if f1 <= f2 {
      Scale((f1 + 1) * 10000, f2 * 20000, p);
      assert (f1 + 1) * (p * 10000) == (f1 + 1) * 10000 * p;
    } else {
      Scale(f1 + 1, f2 * 20000, p);
    }
    assert f2 * p * 20000 == f2 * 20000 * p;
  }

  /** The upper bracket: the quotient is below 2 * 10^4 times that power. */
  lemma QuotientAtMost(n: nat, d: nat, up: nat, down: nat)
    requires n > 0 && d > 0
    requires up - down == -4 * QuotientWeight(n, d)
    ensures n * Pow10(up) < d * Pow10(down) * 20000
  {
    hide *;
    LeadBracket(n);
    LeadBracket(d);
    var p, l := CommonPower(n, d, up, down);
    var f1, f2 := Lead(n), Lead(d);
    StrictScale(n, (f1 + 1) * Pow10(4 * Weight(n)), Pow10(up));
    Scale(f2 * Pow10(4 * Weight(d)), d, Pow10(down));
    Regroup(f1 + 1, Pow10(4 * Weight(n)), Pow10(up), p * l);
    Regroup(f2, Pow10(4 * Weight(d)), Pow10(down), p);
    UpperBracket(f1, f2, l, p);
    Scale(f2 * p, d * Pow10(down), 20000);
  }

  // ---- Rounding ----

  /** Long division, rounded half up; on magnitudes that is half away from zero. */
  function Rounded(n: nat, d: nat): nat
    requires d > 0
  {
    n / d + if 2 * (n % d) >= d then 1 else 0
  }

  /** Within half a unit of the exact quotient, and a tie goes up. */
  lemma RoundedHalfUp(n: nat, d: nat)
    requires d > 0
    ensures 2 * n - d < 2 * d * Rounded(n, d) <= 2 * n + d
  {
    var q, r := n / d, n % d;
    assert n == d * q + r;
    if 2 * r >= d {
      assert 2 * d * (q + 1) == 2 * (d * q) + 2 * d;
    } else {
      assert 2 * d * q == 2 * (d * q);
    }
  }

  /** Nothing else rounds that way. */
  lemma RoundedUnique(n: nat, d: nat, q: nat)
    requires d > 0 && 2 * n - d < 2 * d * q <= 2 * n + d
    ensures q == Rounded(n, d)
  {
    RoundedHalfUp(n, d);
    hide Rounded;
    var t := Rounded(n, d);
    assert (t + 1) * (2 * d) == 2 * d * t + 2 * d && q * (2 * d) == 2 * d * q;
    assert (q + 1) * (2 * d) == 2 * d * q + 2 * d && t * (2 * d) == 2 * d * t;
    CancelLess(q, t + 1, 2 * d);
    CancelLess(t, q + 1, 2 * d);
  }

  /** The magnitude AVG prints, in units of the last place. */
  function Units(sum: int, count: nat): nat
    requires count > 0
  {
    Rounded(Abs(sum) * Pow10(DivScale(sum, count)), count)
  }

  lemma FloorAtLeast(n: nat, d: nat, b: nat)
    requires d > 0 && n >= d * b
    ensures Over(n, d) >= b && Rounded(n, d) >= Over(n, d)
  {
    Division(n, d);
    CancelLess(b, n / d + 1, d);
  }

  lemma BeyondSixteen(n: nat, d: nat, w: int)
    requires n > 0 && d > 0 && w == QuotientWeight(n, d) && w > 4
    ensures n * Pow10(0) >= d * Pow10(16)
  {
    hide *;
    QuotientAtLeast(n, d, 0, 4 * w);
    Pow10Sum(16, 4 * w - 16);
    var more := Pow10(4 * w - 16);
    Scale(1, more, d * Pow10(16));
    Regroup(d, Pow10(16), more, Pow10(4 * w));
  }

  function Times(a: nat, b: nat): nat {
    a * b
  }

  function UncutScale(sum: int, count: nat): int {
    16 - 4 * QuotientWeight(sum, count)
  }

  /** The scaled quotient has at least 17 digits. */
  predicate EnoughDigits(sum: int, count: nat)
    requires count > 0
  {
    Over(Times(Abs(sum), Pow10(DivScale(sum, count))), count) >= Pow10(16)
  }

  /** The greatest count whose average with `sum` is at least 10^-984. */
  function Floor(sum: int): nat {
    Times(Abs(sum), Pow10(CUT - 16))
  }

  lemma EnoughMeans(sum: int, count: nat, p: nat)
    requires count > 0 && p == Pow10(DivScale(sum, count))
    ensures EnoughDigits(sum, count) <==> Over(Abs(sum) * p, count) >= Pow10(16)
    ensures UncutScale(sum, count) == 16 - 4 * QuotientWeight(sum, count)
  {
    hide Over;
    hide Pow10;
    hide DivScale;
    hide QuotientWeight;
  }

  lemma ScaledAtLeast(n: nat, d: nat, s: nat, w: int)
    requires n > 0 && d > 0 && w == QuotientWeight(n, d)
    requires s == if 16 - 4 * w < 0 then 0 else 16 - 4 * w
    ensures n * Pow10(s) >= d * Pow10(16)
  {
    hide *;
    if s > 0 || w == 4 {
      QuotientAtLeast(n, d, s, 16);
    } else {
      BeyondSixteen(n, d, w);
    }
  }

  /** Unless the scale was cut at 1000, a nonzero average carries at least 17 significant digits. */
  lemma ScaledQuotient(sum: int, count: nat)
    requires sum != 0 && count > 0 && UncutScale(sum, count) <= CUT
    ensures EnoughDigits(sum, count) && Units(sum, count) >= Pow10(16)
  {
    hide Over;
    hide Rounded;
    hide Pow10;
    hide Weight;
    hide Lead;
    var n, s := Abs(sum), DivScale(sum, count);
    EnoughMeans(sum, count, Pow10(s));
    ScaledAtLeast(n, count, s, QuotientWeight(sum, count));
    FloorAtLeast(n * Pow10(s), count, Pow10(16));
  }

  /** When digits are shown after the point, no more than needed: the scaled quotient stays below 2 * 10^20. */
  lemma ScaleNotExcessive(sum: int, count: nat)
    requires sum != 0 && count > 0 && 0 < DivScale(sum, count) < 1000
    ensures Abs(sum) * Pow10(DivScale(sum, count)) < count * Pow10(16) * 20000
  {
    QuotientAtMost(Abs(sum), count, DivScale(sum, count), 16);
  }

  // ---- Exactly when the cut at 1000 costs digits ----

  lemma OverExact(n: nat, p: nat, d: nat, b: nat)
    requires d > 0
    ensures Over(n * p, d) >= b <==> n * p >= d * b
  {
    var x := n * p;
    Division(x, d);
    if x >= d * b {
      FloorAtLeast(x, d, b);
    } else {
      CancelLess(x / d, b, d);
    }
  }

  /** From an uncut scale of 1008 on, 1000 digits are never enough. */
  lemma FarBeyondTheCut(n: nat, d: nat, scale: nat)
    requires n > 0 && d > 0 && scale == 16 - 4 * QuotientWeight(n, d) && scale >= 1008
    ensures n * Pow10(CUT) < d * Pow10(16)
  {
    hide *;
    CutIs();
    QuotientAtMost(n, d, scale, 16);
    Pow10Sum(CUT, scale - CUT);
    Pow10Sum(8, scale - 1008);
    EightZeros();
    var x, y, more := n * Pow10(CUT), d * Pow10(16), Pow10(scale - CUT);
    Regroup(n, Pow10(CUT), more, Pow10(scale));
    Scale(1, Pow10(scale - 1008), Pow10(8));
    Scale(20000, more, x);
  }

  lemma EightZeros()
    ensures Pow10(8) == 1_0000_0000
  {
    assert Pow10(2) == 100;
    assert Pow10(4) == 10000;
    assert Pow10(6) == 100_0000;
  }

  lemma CutScale(sum: int, count: nat)
    ensures QuotientWeight(Abs(sum), count) == QuotientWeight(sum, count)
    ensures 16 - 4 * QuotientWeight(sum, count) > 1000 ==> DivScale(sum, count) == 1000
  {
    hide Weight;
    hide Lead;
  }

  lemma FloorIs(sum: int)
    ensures Floor(sum) == Abs(sum) * Pow10(CUT - 16)
  {
    hide Pow10;
  }

  /**
   * Exactly when a nonzero average has at least 17 significant digits: the scale was not cut, or it was
   * cut from 1004 and the quotient is at least 10^-984. Both can be read off the sum and the count.
   */
  lemma CutExact(sum: int, count: nat)
    requires sum != 0 && count > 0
    ensures EnoughDigits(sum, count) <==> UncutScale(sum, count) <= CUT || (UncutScale(sum, count) == CUT + 4 && count <= Floor(sum))
  {
    hide *;
    CutIs();
    var n, w := Abs(sum), QuotientWeight(sum, count);
    EnoughMeans(sum, count, Pow10(DivScale(sum, count)));
    FloorIs(sum);
    CutScale(sum, count);
    if 16 - 4 * w <= 1000 {
      ScaledQuotient(sum, count);
    } else {
      NonzeroAbs(sum);
      CutDigits(n, count, 16 - 4 * w);
    }
  }

  lemma CutDigits(n: nat, d: nat, scale: nat)
    requires n > 0 && d > 0 && scale == 16 - 4 * QuotientWeight(n, d) && scale > 1000
    ensures Over(n * Pow10(CUT), d) >= Pow10(16) <==> scale == 1004 && d <= n * Pow10(CUT - 16)
  {
    hide *;
    CutIs();
    CutQuotient(n, d, scale);
    OverExact(n, Pow10(CUT), d, Pow10(16));
  }

  lemma NonzeroAbs(x: int)
    ensures x != 0 ==> Abs(x) > 0
  {
  }

  lemma CutQuotient(n: nat, d: nat, scale: nat)
    requires n > 0 && d > 0 && scale == 16 - 4 * QuotientWeight(n, d) && scale > 1000
    ensures n * Pow10(CUT) >= d * Pow10(16) <==> scale == 1004 && d <= n * Pow10(CUT - 16)
  {
    hide *;
    CutIs();
    assert scale == 1004 || scale >= 1008;
    if scale >= 1008 {
      FarBeyondTheCut(n, d, scale);
    } else {
      Pow10Sum(CUT - 16, 16);
      Regroup(n, Pow10(CUT - 16), Pow10(16), Pow10(CUT));
      if d <= n * Pow10(CUT - 16) {
        Scale(d, n * Pow10(CUT - 16), Pow10(16));
      } else {
        StrictScale(n * Pow10(CUT - 16), d, Pow10(16));
      }
    }
  }

  lemma {:induction false} DigitsOfPow10(n: nat)
    ensures |Digits(Pow10(n))| == n + 1
  {
    if n > 0 {
      DigitsOfPow10(n - 1);
    }
  }

  lemma Pow10Lead(w: nat, f: nat)
    requires f <= 3
    ensures Weight(Pow10(4 * w + f)) == w && Lead(Pow10(4 * w + f)) == Pow10(f)
  {
    DigitsOfPow10(4 * w + f);
    Pow10Sum(4 * w, f);
    hide Pow10;
    hide Digits;
    ExactQuotient(Pow10(f), Pow10(4 * w));
  }

  lemma ExactQuotient(q: nat, p: nat)
    requires p > 0
    ensures Over(p * q, p) == q
  {
    Division(p * q, p);
    CancelLess(q, p * q / p + 1, p);
    CancelLess(p * q / p, q + 1, p);
  }

  lemma CutWeight(f: nat)
    requires f <= 1
    ensures QuotientWeight(1, Pow10(CUT - 16 + f)) == -247
  {
    Pow10Lead(0, 0);
    Pow10Lead(246, f);
    SmallPow10(0);
    assert Pow10(0) == 1;
    hide Pow10;
    hide Weight;
    hide Lead;
    assert 4 * 246 + f == 984 + f && 4 * 0 + 0 == 0;
  }

  /** At an uncut scale of 1004 both happen: one in 10^984 keeps its digits, one in 10^985 does not. */
  lemma BothAtTheCut()
    ensures UncutScale(1, Pow10(CUT - 16)) == 1004 && EnoughDigits(1, Pow10(CUT - 16))
    ensures UncutScale(1, Pow10(CUT - 15)) == 1004 && !EnoughDigits(1, Pow10(CUT - 15))
  {
    hide *;
    CutIs();
    CutWeight(0);
    CutWeight(1);
    Pow10Sum(CUT - 16, 1);
    One();
    EnoughMeans(1, Pow10(CUT - 16), Pow10(DivScale(1, Pow10(CUT - 16))));
    EnoughMeans(1, Pow10(CUT - 15), Pow10(DivScale(1, Pow10(CUT - 15))));
    FloorIs(1);
    CutExact(1, Pow10(CUT - 16));
    CutExact(1, Pow10(CUT - 15));
    Scale(1, 10, Pow10(CUT - 16));
  }

  lemma One()
    ensures Abs(1) == 1 && Pow10(1) == 10
  {
    assert Pow10(0) == 1;
  }

  // ---- The printed text ----

  function Zeros(n: nat): (s: string)
    ensures |s| == n && AllDigits(s)
  {
    if n == 0 then "" else "0" + Zeros(n - 1)
  }

  function PadLeft(s: string, width: nat): string {
    if |s| >= width then s else Zeros(width - |s|) + s
  }

  function Avg(sum: int, count: nat): string {
    if count == 0 then "NULL" else
    var scale := DivScale(sum, count);
    var q := Units(sum, count);
    var digits := PadLeft(Digits(q), scale + 1);
    var text := if scale == 0 then digits else digits[..|digits| - scale] + "." + digits[|digits| - scale..];
    if sum < 0 && q > 0 then "-" + text else text
  }

  /** A decimal literal: sign, digits, and how many of them follow the point. */
  datatype Decimal = Decimal(negative: bool, units: nat, scale: nat)

  function Point(s: string): (k: nat)
    ensures k <= |s| && '.' !in s[..k] && (k < |s| ==> s[k] == '.')
  {
    if s == [] || s[0] == '.' then 0 else
    var k := Point(s[1..]);
    assert s[..k + 1] == [s[0]] + s[1..][..k];
    k + 1
  }

  ghost function ReadMagnitude(s: string, negative: bool): Option<Decimal> {
    var k := Point(s);
    var whole, part := s[..k], if k < |s| then s[k + 1..] else "";
    if whole != [] && (k < |s| ==> part != []) && AllDigits(whole + part) then
      Some(Decimal(negative, Number(whole + part), |part|))
    else
      None
  }

  /** Reads a decimal literal. */
  ghost function Read(text: string): Option<Decimal> {
    if text != [] && text[0] == '-' then ReadMagnitude(text[1..], true) else ReadMagnitude(text, false)
  }

  lemma {:induction false} NumberOfZeros(n: nat, s: string)
    requires AllDigits(s)
    ensures AllDigits(Zeros(n) + s) && Number(Zeros(n) + s) == Number(s)
    decreases |s|, n
  {
    var t := Zeros(n) + s;
    if s != [] {
      assert t[..|t| - 1] == Zeros(n) + s[..|s| - 1];
      NumberOfZeros(n, s[..|s| - 1]);
    } else if n > 0 {
      assert t == Zeros(n);
      ZerosEnd(n);
      NumberOfZeros(n - 1, s);
      assert Zeros(n - 1) + s == Zeros(n - 1);
    } else {
      assert t == s;
    }
  }

  lemma {:induction false} ZerosEnd(n: nat)
    requires n > 0
    ensures Zeros(n) == Zeros(n - 1) + "0"
  {
    if n > 1 {
      ZerosEnd(n - 1);
    }
  }

  lemma {:induction false} PointOf(whole: string, part: string)
    requires AllDigits(whole)
    ensures Point(whole + "." + part) == |whole| && Point(whole) == |whole|
  {
    var s := whole + "." + part;
    if whole != [] {
      assert s[1..] == whole[1..] + "." + part;
      PointOf(whole[1..], part);
    }
  }

  lemma ReadWhole(digits: string, negative: bool)
    requires AllDigits(digits) && digits != []
    ensures ReadMagnitude(digits, negative) == Some(Decimal(negative, Number(digits), 0))
  {
    PointOf(digits, "");
    hide Point;
    hide Number;
    assert digits[..|digits|] + "" == digits;
  }

  lemma ReadPointed(whole: string, part: string, negative: bool)
    requires AllDigits(whole) && AllDigits(part) && whole != [] && part != []
    ensures AllDigits(whole + part)
    ensures ReadMagnitude(whole + "." + part, negative) == Some(Decimal(negative, Number(whole + part), |part|))
  {
    PointOf(whole, part);
    hide Point;
    hide Number;
    var s := whole + "." + part;
    assert s[..|whole|] == whole && s[|whole| + 1..] == part;
  }

  lemma ReadSigned(text: string, negative: bool)
    requires text != [] && text[0] != '-'
    ensures Read(if negative then "-" + text else text) == ReadMagnitude(text, negative)
  {
    hide ReadMagnitude;
    assert ("-" + text)[1..] == text;
  }

  lemma ReadPrinted(digits: string, scale: nat, negative: bool)
    requires AllDigits(digits) && |digits| > scale
    ensures var text := if scale == 0 then digits else digits[..|digits| - scale] + "." + digits[|digits| - scale..];
      Read(if negative then "-" + text else text) == Some(Decimal(negative, Number(digits), scale))
  {
    hide ReadMagnitude;
    hide Read;
    hide Number;
    assert IsDigit(digits[0]);
    if scale > 0 {
      var whole, part := digits[..|digits| - scale], digits[|digits| - scale..];
      assert whole + part == digits;
      ReadPointed(whole, part, negative);
      ReadSigned(whole + "." + part, negative);
    } else {
      ReadWhole(digits, negative);
      ReadSigned(digits, negative);
    }
  }

  lemma PaddedNumber(q: nat, width: nat)
    ensures |PadLeft(Digits(q), width)| >= width
    ensures AllDigits(PadLeft(Digits(q), width)) && Number(PadLeft(Digits(q), width)) == q
  {
    NumberOfDigits(q);
    hide Digits;
    hide Number;
    if |Digits(q)| < width {
      NumberOfZeros(width - |Digits(q)|, Digits(q));
    }
  }

  lemma PrintedReads(sum: int, count: nat)
    requires count > 0
    ensures Read(Avg(sum, count)) == Some(Decimal(sum < 0 && Units(sum, count) > 0, Units(sum, count), DivScale(sum, count)))
  {
    hide Read;
    hide PadLeft;
    hide Digits;
    hide Units;
    hide DivScale;
    hide Number;
    var scale, q := DivScale(sum, count), Units(sum, count);
    PaddedNumber(q, scale + 1);
    ReadPrinted(PadLeft(Digits(q), scale + 1), scale, sum < 0 && q > 0);
  }

  /**
   * What AVG prints reads back as the exact average rounded half away from zero at its display
   * scale, and zero never carries a sign.
   */
  lemma PrintedIsRounded(sum: int, count: nat)
    requires count > 0
    ensures Read(Avg(sum, count)).Some?
    ensures var d := Read(Avg(sum, count)).value;
      && d.scale == DivScale(sum, count)
      && (d.negative <==> sum < 0 && d.units > 0)
      && 2 * (Abs(sum) * Pow10(d.scale)) - count < 2 * count * d.units <= 2 * (Abs(sum) * Pow10(d.scale)) + count
  {
    hide Read;
    hide Avg;
    hide Rounded;
    hide DivScale;
    hide Pow10;
    PrintedReads(sum, count);
    RoundedHalfUp(Abs(sum) * Pow10(DivScale(sum, count)), count);
  }

  /** An average of nothing is NULL, and no other one reads so. */
  lemma NullIffEmpty(sum: int, count: nat)
    ensures Avg(sum, count) == "NULL" <==> count == 0
  {
    if count > 0 {
      PrintedIsRounded(sum, count);
      var k := Point("NULL");
      assert k > 0;
      assert "NULL"[..k][0] == 'N';
      assert forall part :: !AllDigits("NULL"[..k] + part) by {
        forall part: string
          ensures !AllDigits("NULL"[..k] + part)
        {
          assert ("NULL"[..k] + part)[0] == 'N';
        }
      }
    }
  }

  // ---- The shape of the text ----

  lemma {:induction false} DigitsDrop(q: nat, s: nat)
    requires s < |Digits(q)|
    ensures Digits(q)[..|Digits(q)| - s] == Digits(Over(q, Pow10(s)))
    decreases s
  {
    hide Digits;
    hide Pow10;
    hide Over;
    NoPower();
    if s == 0 {
      OverOne(q);
      assert Digits(q)[..|Digits(q)|] == Digits(q);
    } else {
      DigitsStep(q, s);
      DigitsDrop(q / 10, s - 1);
      OverTwice(q, Pow10(s - 1));
      var all, most := Digits(q), Digits(q / 10);
      assert all[..|all| - s] == most[..|most| - (s - 1)];
    }
  }

  lemma OverOne(q: nat)
    ensures Over(q, 1) == q
  {
  }

  lemma OverTwice(q: nat, p: nat)
    requires p > 0
    ensures Over(q / 10, p) == Over(q, 10 * p)
  {
    DivideTwice(q, 10, p);
  }

  lemma OverSmall(q: nat, p: nat)
    requires q < p
    ensures Over(q, p) == 0
  {
    DivisionUnique(q, p, 0, q);
  }

  lemma NoPower()
    ensures Pow10(0) == 1
  {
  }

  lemma DigitsStep(q: nat, s: nat)
    requires 0 < s < |Digits(q)|
    ensures Digits(q) == Digits(q / 10) + [DigitChar(q % 10)] && Pow10(s) == 10 * Pow10(s - 1)
  {
  }

  lemma SmallQuotient(q: nat, s: nat)
    requires |Digits(q)| <= s
    ensures Over(q, Pow10(s)) == 0
  {
    if q > 0 {
      DigitsMagnitude(q);
      Pow10Monotone(|Digits(q)|, s);
    }
    OverSmall(q, Pow10(s));
  }

  /** The digits before the last `s` of a padded number are the plain notation of its whole part. */
  lemma WholePart(q: nat, s: nat)
    ensures var digits := PadLeft(Digits(q), s + 1); |digits| > s && digits[..|digits| - s] == Digits(Over(q, Pow10(s)))
  {
    hide Digits;
    hide Pow10;
    hide Over;
    hide Zeros;
    if |Digits(q)| > s {
      DigitsDrop(q, s);
    } else {
      SmallQuotient(q, s);
      WholeOfZeros(s + 1 - |Digits(q)|, Digits(q), s);
    }
  }

  lemma WholeOfZeros(n: nat, digits: string, s: nat)
    requires n > 0 && n + |digits| == s + 1
    ensures var all := Zeros(n) + digits; all[..|all| - s] == Digits(0)
  {
    var all := Zeros(n) + digits;
    assert |all| - s == 1 && all[0] == '0';
    assert Digits(0) == "0";
  }

  lemma AvgText(sum: int, count: nat, digits: string, scale: nat, q: nat)
    requires count > 0 && scale == DivScale(sum, count) && q == Units(sum, count) && digits == PadLeft(Digits(q), scale + 1)
    requires |digits| > scale
    ensures var text := if scale == 0 then digits else digits[..|digits| - scale] + "." + digits[|digits| - scale..];
      Avg(sum, count) == if sum < 0 && q > 0 then "-" + text else text
  {
    hide DivScale;
    hide Units;
    hide Digits;
    hide Pow10;
    hide PadLeft;
  }

  /** The text is the sign, the whole part without leading zeros, and exactly as many digits as the scale after a point. */
  lemma PrintedShape(sum: int, count: nat) returns (sign: string, whole: string, part: string)
    requires count > 0
    ensures sign == if sum < 0 && Units(sum, count) > 0 then "-" else ""
    ensures whole == Digits(Over(Units(sum, count), Pow10(DivScale(sum, count)))) && |part| == DivScale(sum, count)
    ensures Avg(sum, count) == sign + whole + if part == "" then "" else "." + part
  {
    hide *;
    var scale, q := DivScale(sum, count), Units(sum, count);
    WholePart(q, scale);
    var digits := PadLeft(Digits(q), scale + 1);
    sign, whole, part := if sum < 0 && q > 0 then "-" else "", digits[..|digits| - scale], digits[|digits| - scale..];
    AvgText(sum, count, digits, scale, q);
    Assembled(digits, scale, sum < 0 && q > 0);
  }

  lemma Assembled(digits: string, scale: nat, negative: bool)
    requires scale < |digits|
    ensures var text := if scale == 0 then digits else digits[..|digits| - scale] + "." + digits[|digits| - scale..];
      (if negative then "-" + text else text) ==
      (if negative then "-" else "") + digits[..|digits| - scale] + (if scale == 0 then "" else "." + digits[|digits| - scale..])
  {
    var whole, part := digits[..|digits| - scale], digits[|digits| - scale..];
    if scale == 0 {
      assert whole == digits;
      assert "-" + whole + "" == "-" + digits && "" + whole + "" == digits;
    } else {
      assert "-" + whole + ("." + part) == "-" + (whole + "." + part);
      assert "" + whole + ("." + part) == whole + "." + part;
    }
  }

  // ---- With the sign, and without the helpers ----

  /** As a signed number, what AVG prints is the average rounded half away from zero. */
  lemma SignedAverage(sum: int, count: nat)
    requires count > 0
    ensures Read(Avg(sum, count)).Some?
    ensures var d := Read(Avg(sum, count)).value;
      var v, exact := if d.negative then -(d.units as int) else d.units, sum * Pow10(d.scale);
      if sum >= 0 then 2 * exact - count < 2 * count * v <= 2 * exact + count
      else 2 * exact - count <= 2 * count * v < 2 * exact + count
  {
    hide Read;
    hide Avg;
    hide DivScale;
    hide Pow10;
    PrintedIsRounded(sum, count);
    var d := Read(Avg(sum, count)).value;
    SignedBounds(sum, count, d.negative, d.units, Pow10(d.scale));
  }

  lemma SignedBounds(sum: int, count: nat, negative: bool, units: nat, p: nat)
    requires negative <==> sum < 0 && units > 0
    requires 2 * (Abs(sum) * p) - count < 2 * count * units <= 2 * (Abs(sum) * p) + count
    ensures var v, exact := if negative then -(units as int) else units, sum * p;
      if sum >= 0 then 2 * exact - count < 2 * count * v <= 2 * exact + count
      else 2 * exact - count <= 2 * count * v < 2 * exact + count
  {
    if sum < 0 {
      assert Abs(sum) * p == -(sum * p);
      assert 2 * count * (-(units as int)) == -(2 * count * units);
    }
  }

  lemma {:induction false} Pow10Monotone(m: nat, n: nat)
    requires m <= n
    ensures Pow10(m) <= Pow10(n)
    decreases n - m
  {
    if m < n {
      Pow10Monotone(m + 1, n);
    }
  }

  lemma Pow10Order(m: nat, n: nat)
    requires Pow10(m) < Pow10(n)
    ensures m < n
  {
    hide Pow10;
    if n <= m {
      Pow10Monotone(n, m);
      assert false;
    }
  }

  /** The bracket determines the leading group: any `w` and `f` that fit are the ones used. */
  lemma LeadUnique(x: nat, w: nat, f: nat)
    requires 1 <= f < 10000 && f * Pow10(4 * w) <= x < (f + 1) * Pow10(4 * w)
    ensures Weight(x) == w && Lead(x) == f
  {
    hide Digits;
    hide Pow10;
    var p, n := Pow10(4 * w), |Digits(x)|;
    Scale(1, f, p);
    Scale(f + 1, 10000, p);
    TenThousand(4 * w);
    DigitsMagnitude(x);
    Pow10Order(4 * w, n);
    Pow10Order(n - 1, 4 * w + 4);
    assert Weight(x) == w;
    Division(x, p);
    CancelLess(f, Over(x, p) + 1, p);
    CancelLess(Over(x, p), f + 1, p);
  }

  lemma TenThousand(n: nat)
    ensures Pow10(n + 4) == 10000 * Pow10(n)
  {
    assert Pow10(n + 2) == 10 * Pow10(n + 1);
    assert Pow10(n + 4) == 10 * Pow10(n + 3);
  }

  /** `f` is the leading base-10^4 digit of the magnitude of `x`, of weight `w`; zero has the digit 0 of weight 0. */
  ghost predicate Leads(x: int, w: nat, f: nat) {
    if x == 0 then w == 0 && f == 0 else
    var m := if x < 0 then -x else x;
    1 <= f < 10000 && f * Pow10(4 * w) <= m < (f + 1) * Pow10(4 * w)
  }

  lemma LeadsUnique(x: int, w: nat, f: nat)
    requires Leads(x, w, f)
    ensures Weight(Abs(x)) == w && Lead(Abs(x)) == f
  {
    hide Pow10;
    hide Digits;
    if x != 0 {
      LeadUnique(Abs(x), w, f);
    }
  }

  /**
   * The display scale from the leading digits alone: 16 digits past the quotient's weight, cut to 0 and
   * 1000. A zero sum counts as a leading digit 0 of weight 0.
   */
  lemma ScaleMeans(sum: int, count: int, w1: nat, f1: nat, w2: nat, f2: nat)
    requires Leads(sum, w1, f1) && Leads(count, w2, f2)
    ensures var scale := 16 - 4 * (w1 - w2 - if f1 <= f2 then 1 else 0);
      DivScale(sum, count) == if scale < 0 then 0 else if scale > 1000 then 1000 else scale
  {
    hide Leads;
    hide Weight;
    hide Lead;
    LeadsUnique(sum, w1, f1);
    LeadsUnique(count, w2, f2);
  }
}
