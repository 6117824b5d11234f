/** Bytes, unsigned 64-bit words and their little-endian images, and the results of I/O calls. */
module Bytes {
  import opened Arithmetic

  const U64_LIMIT: int := 0x1_0000_0000_0000_0000

  type byte = x: int | 0 <= x < 256
  type u64 = x: int | 0 <= x < U64_LIMIT

  datatype Option<+T> = None | Some(value: T)

  datatype ErrorKind = InvalidData | InvalidInput | UnexpectedEof | StorageFull | Other

  datatype Result<+T> = Ok(value: T) | Err(kind: ErrorKind) {
    predicate IsFailure() {
      Err?
    }
    function PropagateFailure<U>(): Result<U>
      requires Err?
    {
      Err(kind)
    }
    function Extract(): T
      requires Ok?
    {
      value
    }
  }

  /** A positioned write request. */
  datatype Write = Write(offset: u64, bytes: seq<byte>)

  function End(w: Write): nat {
    w.offset + |w.bytes|
  }

  predicate Covers(w: Write, a: int) {
    w.offset <= a < w.offset + |w.bytes|
  }

  function Pow256(n: nat): (p: nat)
    ensures p > 0
  {
    if n == 0 then 1 else 256 * Pow256(n - 1)
  }

  function LittleEndian(v: nat, n: nat): (s: seq<byte>)
    ensures |s| == n
  {
    if n == 0 then [] else [v % 256] + LittleEndian(v / 256, n - 1)
  }

  function FromLittleEndian(s: seq<byte>): nat {
    if |s| == 0 then 0 else s[0] + 256 * FromLittleEndian(s[1..])
  }

  lemma {:induction false} FromLittleEndianBound(s: seq<byte>)
    ensures FromLittleEndian(s) < Pow256(|s|)
  {
    if |s| > 0 {
      FromLittleEndianBound(s[1..]);
    }
  }

  lemma Pow256Eight()
    ensures Pow256(8) == U64_LIMIT
  {
    assert Pow256(4) == 0x1_0000_0000 by {
      assert Pow256(2) == 0x1_0000;
    }
    assert Pow256(6) == 256 * Pow256(5);
  }

  lemma {:induction false} DecodeLittleEndian(v: nat, n: nat)
    requires v < Pow256(n)
    ensures FromLittleEndian(LittleEndian(v, n)) == v
  {
    if n > 0 {
      DecodeLittleEndian(v / 256, n - 1);
      assert LittleEndian(v, n)[1..] == LittleEndian(v / 256, n - 1);
    }
  }

  lemma {:induction false} EncodeLittleEndian(s: seq<byte>)
    ensures LittleEndian(FromLittleEndian(s), |s|) == s
  {
    if |s| > 0 {
      EncodeLittleEndian(s[1..]);
      assert FromLittleEndian(s) % 256 == s[0] && FromLittleEndian(s) / 256 == FromLittleEndian(s[1..]);
      assert s == [s[0]] + s[1..];
    }
  }

  /** The byte of weight 256^i comes `i`-th. */
  lemma {:induction false} LittleEndianMeans(v: nat, n: nat, i: nat)
    requires i < n
    ensures LittleEndian(v, n)[i] == v / Pow256(i) % 256
    decreases i
  {
    if i > 0 {
      LittleEndianMeans(v / 256, n - 1, i - 1);
      DivideTwice(v, 256, Pow256(i - 1));
    }
  }

  /** `u64::to_le_bytes`. */
  function Put64(v: u64): (s: seq<byte>)
    ensures |s| == 8
  {
    LittleEndian(v, 8)
  }

  /** `u64::from_le_bytes` of the eight bytes at `at`. */
  function Get64(s: seq<byte>, at: nat): (v: u64)
    requires at + 8 <= |s|
  {
    FromLittleEndianBound(s[at..at + 8]);
    Pow256Eight();
    FromLittleEndian(s[at..at + 8])
  }

  lemma Put64Means(v: u64, i: nat)
    requires i < 8
    ensures Put64(v)[i] == v / Pow256(i) % 256
  {
    LittleEndianMeans(v, 8, i);
  }

  lemma GetPut(s: seq<byte>, at: nat, v: u64)
    requires at + 8 <= |s| && s[at..at + 8] == Put64(v)
    ensures Get64(s, at) == v
  {
    Pow256Eight();
    DecodeLittleEndian(v, 8);
  }

  lemma PutGet(s: seq<byte>, at: nat)
    requires at + 8 <= |s|
    ensures Put64(Get64(s, at)) == s[at..at + 8]
  {
    EncodeLittleEndian(s[at..at + 8]);
  }

  /** `put`: patch the eight bytes at `at`. */
  function Patch64(s: seq<byte>, at: nat, v: u64): (t: seq<byte>)
    requires at + 8 <= |s|
    ensures |t| == |s|
  {
    s[..at] + Put64(v) + s[at + 8..]
  }

  method PutAt(buf: array<byte>, at: nat, value: u64)
    requires at + 8 <= buf.Length
    modifies buf
    ensures buf[..] == Patch64(old(buf[..]), at, value)
    ensures buf[..at + 8] == old(buf[..at]) + Put64(value) && buf[at + 8..] == old(buf[at + 8..])
  {
    hide LittleEndian;
    CopyInto(buf, at, Put64(value));
  }

  /** `copy_from_slice` into a buffer. */
  method CopyInto(buf: array<byte>, at: nat, bytes: seq<byte>)
    requires at + |bytes| <= buf.Length
    modifies buf
    ensures buf[..] == old(buf[..])[..at] + bytes + old(buf[..])[at + |bytes|..]
  {
    var i := 0;
    while i < |bytes|
      invariant 0 <= i <= |bytes|
      invariant forall k :: 0 <= k < buf.Length ==>
        buf[k] == if at <= k < at + i then bytes[k - at] else old(buf[k])
    {
      buf[at + i] := bytes[i];
      i := i + 1;
    }
  }

  lemma {:induction false} SubSlice(s: seq<byte>, a: nat, b: nat, i: nat, j: nat)
    requires a <= b <= |s| && i <= j <= b - a
    ensures s[a..b][i..j] == s[a + i..a + j]
  {
    forall k | 0 <= k < j - i ensures s[a..b][i..j][k] == s[a + i..a + j][k] {
      assert s[a..b][i + k] == s[a + i + k];
    }
  }

  lemma {:induction false} JoinSlices(s: seq<byte>, a: nat, b: nat, c: nat)
    requires a <= b <= c <= |s|
    ensures s[a..b] + s[b..c] == s[a..c]
  {
  }

  /** A stretch known as two pieces is those pieces in their places. */
  lemma {:induction false} SplitSlice(s: seq<byte>, a: nat, b: nat, c: nat, x: seq<byte>, y: seq<byte>)
    requires a <= b <= c <= |s| && s[a..c] == x + y && |x| == b - a
    ensures s[a..b] == x && s[b..c] == y
  {
    SubSlice(s, a, c, 0, b - a);
    SubSlice(s, a, c, b - a, c - a);
    assert (x + y)[0..|x|] == x && (x + y)[|x|..|x + y|] == y;
  }

  lemma {:induction false} ConcatAssociative<T>(a: seq<T>, b: seq<T>, c: seq<T>)
    ensures (a + b) + c == a + (b + c)
  {
  }
}
