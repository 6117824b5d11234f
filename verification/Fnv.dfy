/** The FNV-style checksum of the copy-on-write prototype. */
module Fnv {
  import opened Bytes
  import opened Words

  const BASIS: u64 := 0xcbf2_9ce4_8422_2325
  const PRIME: u64 := 0x100_0000_01b3
  const INVERSE_PRIME: u64 := 0xce96_5057_aff6_957b

  function Mix(hash: u64, b: byte): u64 {
    Mask(Xor(hash, b) * PRIME)
  }

  function Digest(bytes: seq<byte>): u64 {
    if |bytes| == 0 then BASIS else Mix(Digest(bytes[..|bytes| - 1]), bytes[|bytes| - 1])
  }

  method Checksum(bytes: seq<byte>) returns (hash: u64)
    ensures hash == Digest(bytes)
  {
    hide Xor;
    hide Mask;
    hash := BASIS;
    for i := 0 to |bytes|
      invariant hash == Digest(bytes[..i])
    {
      hash := Mask(Xor(hash, bytes[i]) * PRIME);
      assert bytes[..i + 1][..i] == bytes[..i];
    }
    assert bytes[..|bytes|] == bytes;
  }

  // ---- No single byte goes unseen ----

  lemma XorInjective(a: nat, b: nat, x: nat, y: nat)
    requires Xor(a, x) == Xor(b, y)
    ensures x == y ==> a == b
    ensures a == b ==> x == y
  {
    hide Xor;
    XorCancels(a, x);
    XorCancels(b, y);
    XorCommutes(a, x);
    XorCommutes(b, y);
    XorCancels(x, a);
    XorCancels(y, b);
  }

  lemma MixInjective(h: u64, h': u64, b: byte, b': byte)
    requires Mix(h, b) == Mix(h', b')
    ensures b == b' ==> h == h'
    ensures h == h' ==> b == b'
  {
    hide Xor;
    hide Mask;
    Pow2Word();
    hide Pow2;
    XorBounded(h, b, 64);
    XorBounded(h', b', 64);
    PrimeInvertible();
    hide Inverses;
    ScaleInverse(Xor(h, b), PRIME, INVERSE_PRIME);
    ScaleInverse(Xor(h', b'), PRIME, INVERSE_PRIME);
    XorInjective(h, h', b, b');
  }

  lemma PrimeInvertible()
    ensures Inverses(PRIME, INVERSE_PRIME)
  {
  }

  /** Digests that differ stay different under equal continuations. */
  lemma {:induction false} DigestContinues(a: seq<byte>, b: seq<byte>, tail: seq<byte>)
    requires Digest(a + tail) == Digest(b + tail)
    ensures Digest(a) == Digest(b)
    decreases |tail|
  {
    hide Mix;
    if |tail| == 0 {
      assert a + tail == a && b + tail == b;
    } else {
      var n := |tail| - 1;
      assert (a + tail)[..|a + tail| - 1] == a + tail[..n] && (b + tail)[..|b + tail| - 1] == b + tail[..n];
      MixInjective(Digest(a + tail[..n]), Digest(b + tail[..n]), tail[n], tail[n]);
      DigestContinues(a, b, tail[..n]);
    }
  }

  /** Strings of equal length that differ in one byte have different digests. */
  lemma {:induction false} OneByteDetected(a: seq<byte>, b: seq<byte>, i: nat)
    requires |a| == |b| && i < |a| && a[..i] == b[..i] && a[i + 1..] == b[i + 1..] && a[i] != b[i]
    ensures Digest(a) != Digest(b)
  {
    hide Mix;
    if Digest(a) == Digest(b) {
      assert a == a[..i + 1] + a[i + 1..] && b == b[..i + 1] + b[i + 1..];
      DigestContinues(a[..i + 1], b[..i + 1], a[i + 1..]);
      assert a[..i + 1][..i] == a[..i] && b[..i + 1][..i] == b[..i];
      MixInjective(Digest(a[..i]), Digest(b[..i]), a[i], b[i]);
      assert false;
    }
  }
}
