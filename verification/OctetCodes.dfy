/** Bytes as the coefficient lists that the checksum polynomial is made of. */
module OctetCodes {
  import opened Bytes
  import Crc64

  function Assembled(c0: bool, c1: bool, c2: bool, c3: bool, c4: bool, c5: bool, c6: bool, c7: bool): bv8 {
    (if c0 then 0x80 else 0) | (if c1 then 0x40 else 0) | (if c2 then 0x20 else 0) | (if c3 then 0x10 else 0)
    | (if c4 then 8 else 0) | (if c5 then 4 else 0) | (if c6 then 2 else 0) | (if c7 then 1 else 0)
  }

  predicate Odd(n: nat) {
    n % 2 == 1
  }

  /** Halved `k` times. */
  function Half(n: nat, k: nat): nat {
    if k == 0 then n else Half(n, k - 1) / 2
  }

  function Octet(b: byte): bv8 {
    var b1, b2, b3, b4, b5, b6, b7 := Half(b, 1), Half(b, 2), Half(b, 3), Half(b, 4), Half(b, 5), Half(b, 6), Half(b, 7);
    Assembled(Odd(b7), Odd(b6), Odd(b5), Odd(b4), Odd(b3), Odd(b2), Odd(b1), Odd(b))
  }

  function Octets(bytes: seq<byte>): (s: seq<bv8>)
    ensures |s| == |bytes|
  {
    seq(|bytes|, i requires 0 <= i < |bytes| => Octet(bytes[i]))
  }

  lemma AssembledFrom(c0: bool, c1: bool, c2: bool, c3: bool, c4: bool, c5: bool, c6: bool, c7: bool)
    ensures var v := Assembled(c0, c1, c2, c3, c4, c5, c6, c7);
      && Crc64.Coefficient(v, 0) == c0 && Crc64.Coefficient(v, 1) == c1 && Crc64.Coefficient(v, 2) == c2
      && Crc64.Coefficient(v, 3) == c3 && Crc64.Coefficient(v, 4) == c4 && Crc64.Coefficient(v, 5) == c5
      && Crc64.Coefficient(v, 6) == c6 && Crc64.Coefficient(v, 7) == c7
  {
  }

  function Worth(c: bool, weight: nat): nat {
    if c then weight else 0
  }

  function Sum8(c0: bool, c1: bool, c2: bool, c3: bool, c4: bool, c5: bool, c6: bool, c7: bool): nat {
    Worth(c0, 128) + Worth(c1, 64) + Worth(c2, 32) + Worth(c3, 16) + Worth(c4, 8) + Worth(c5, 4) + Worth(c6, 2) + Worth(c7, 1)
  }

  /** The number whose coefficients, highest first, these are. */
  function Value(v: bv8): nat {
    Sum8(Crc64.Coefficient(v, 0), Crc64.Coefficient(v, 1), Crc64.Coefficient(v, 2), Crc64.Coefficient(v, 3),
         Crc64.Coefficient(v, 4), Crc64.Coefficient(v, 5), Crc64.Coefficient(v, 6), Crc64.Coefficient(v, 7))
  }

  lemma Halve(n: nat, k: nat, weight: nat)
    ensures weight * Half(n, k) == 2 * weight * Half(n, k + 1) + Worth(Odd(Half(n, k)), weight)
  {
    var x := Half(n, k);
    assert Half(n, k + 1) == x / 2;
    assert x == 2 * (x / 2) + if x % 2 == 1 then 1 else 0;
  }

  lemma {:induction false} HalfSmall(n: nat, k: nat, bound: nat)
    requires Half(n, k) < 2 * bound
    ensures Half(n, k + 1) < bound
  {
    assert Half(n, k + 1) == Half(n, k) / 2;
  }

  lemma ByteDigits(b: byte)
    ensures Sum8(Odd(Half(b, 7)), Odd(Half(b, 6)), Odd(Half(b, 5)), Odd(Half(b, 4)),
                 Odd(Half(b, 3)), Odd(Half(b, 2)), Odd(Half(b, 1)), Odd(b)) == b
  {
    assert Half(b, 0) == b;
    hide Half;
    hide Odd;
    hide Worth;
    HalfSmall(b, 0, 128);
    HalfSmall(b, 1, 64);
    HalfSmall(b, 2, 32);
    HalfSmall(b, 3, 16);
    HalfSmall(b, 4, 8);
    HalfSmall(b, 5, 4);
    HalfSmall(b, 6, 2);
    HalfSmall(b, 7, 1);
    Halve(b, 0, 1);
    Halve(b, 1, 2);
    Halve(b, 2, 4);
    Halve(b, 3, 8);
    Halve(b, 4, 16);
    Halve(b, 5, 32);
    Halve(b, 6, 64);
    Halve(b, 7, 128);
  }

  /** The octet of a byte has the byte's value. */
  lemma OctetMeans(b: byte)
    ensures Value(Octet(b)) == b
  {
    hide Assembled;
    hide Crc64.Coefficient;
    hide Sum8;
    hide Half;
    hide Odd;
    AssembledFrom(Odd(Half(b, 7)), Odd(Half(b, 6)), Odd(Half(b, 5)), Odd(Half(b, 4)),
                  Odd(Half(b, 3)), Odd(Half(b, 2)), Odd(Half(b, 1)), Odd(b));
    ByteDigits(b);
  }

  /** So octets are the bytes themselves, in order, and none are lost. */
  lemma {:induction false} OctetsMean(bytes: seq<byte>, i: nat)
    requires i < |bytes|
    ensures Octets(bytes)[i] == Octet(bytes[i]) && Value(Octets(bytes)[i]) == bytes[i]
  {
    hide Octet;
    hide Value;
    OctetMeans(bytes[i]);
  }

  lemma {:induction false} OctetsDiffer(a: seq<byte>, b: seq<byte>)
    requires |a| == |b| && a != b
    ensures Octets(a) != Octets(b)
  {
    hide Octets;
    hide Value;
    var i :| 0 <= i < |a| && a[i] != b[i];
    OctetsMean(a, i);
    OctetsMean(b, i);
  }

  lemma {:induction false} OctetsSlice(a: seq<byte>, b: seq<byte>, lo: nat, hi: nat)
    requires |a| == |b| && lo <= hi <= |a| && a[lo..hi] == b[lo..hi]
    ensures Octets(a)[lo..hi] == Octets(b)[lo..hi]
  {
    hide Octet;
    forall i | lo <= i < hi
      ensures Octets(a)[i] == Octets(b)[i]
    {
      assert a[i] == a[lo..hi][i - lo] && b[i] == b[lo..hi][i - lo];
    }
  }
}
