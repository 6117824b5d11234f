/** Commit descriptors: their layout, the in-place codec, and its two round trips. */
module Manifests {
  import opened Bytes
  import opened Fnv

  const MAGIC: seq<byte> := [0x4a, 0x45, 0x44, 0x43, 0x4f, 0x57, 0x30, 0x31]
  const HEADER: nat := 56
  const ENTRY: nat := 24
  const CHECKSUM_AT: nat := 48

  datatype Extent = Extent(offset: u64, len: u64, checksum: u64)

  datatype Manifest = Manifest(seqno: u64, meta: Write, body: seq<Extent>)

  /** `end` does not overflow for the meta or any extent. */
  predicate Representable(m: Manifest) {
    && End(m.meta) < U64_LIMIT
    && forall i :: 0 <= i < |m.body| ==> m.body[i].offset + m.body[i].len < U64_LIMIT
  }

  function EncodedLength(m: Manifest): nat {
    HEADER + ENTRY * |m.body| + |m.meta.bytes|
  }

  function Entries(body: seq<Extent>): (s: seq<byte>)
    ensures |s| == ENTRY * |body|
  {
    if |body| == 0 then []
    else Entries(body[..|body| - 1]) + Entry(body[|body| - 1])
  }

  function Entry(e: Extent): (s: seq<byte>)
    ensures |s| == ENTRY
  {
    Put64(e.offset) + Put64(e.len) + Put64(e.checksum)
  }

  function Fields(m: Manifest): (s: seq<byte>)
    requires EncodedLength(m) < U64_LIMIT
    ensures |s| == 48
  {
    MAGIC + Put64(EncodedLength(m)) + Put64(m.seqno) + Put64(m.meta.offset)
      + Put64(|m.meta.bytes|) + Put64(|m.body|)
  }

  /** The descriptor's bytes around a given digest word. */
  function Layout(m: Manifest, digest: u64): (s: seq<byte>)
    requires EncodedLength(m) < U64_LIMIT
    ensures |s| == EncodedLength(m)
  {
    Fields(m) + Put64(digest) + Entries(m.body) + m.meta.bytes
  }

  function Encoded(m: Manifest): (s: seq<byte>)
    requires EncodedLength(m) < U64_LIMIT
    ensures |s| == EncodedLength(m)
  {
    Layout(m, Digest(Layout(m, 0)))
  }

  /** The extents at `b[HEADER..]`, or nothing when one of them overflows. */
  function ParseEntries(b: seq<byte>, count: nat): (r: Option<seq<Extent>>)
    requires HEADER + ENTRY * count <= |b|
    ensures r.Some? ==> |r.value| == count
  {
    if count == 0 then Some([])
    else
      var at := HEADER + ENTRY * (count - 1);
      var before := ParseEntries(b, count - 1);
      if before.None? || Get64(b, at) + Get64(b, at + 8) >= U64_LIMIT then None
      else Some(before.value + [Extent(Get64(b, at), Get64(b, at + 8), Get64(b, at + 16))])
  }

  /** `Manifest::decode` as a function of the slot image. */
  function Decoded(b: seq<byte>): Option<Manifest> {
    if |b| < HEADER || b[..8] != MAGIC then None else
    var len := Get64(b, 8);
    if len < HEADER || len > |b| then None else
    if Get64(b, CHECKSUM_AT) != Digest(Patch64(b, CHECKSUM_AT, 0)[..len]) then None else
    var count, metaLen, metaOffset := Get64(b, 40), Get64(b, 32), Get64(b, 24);
    var bodyEnd := HEADER + ENTRY * count;
    if bodyEnd + metaLen != len || metaOffset + metaLen >= U64_LIMIT then None else
    var body := ParseEntries(b, count);
    if body.None? then None
    else Some(Manifest(Get64(b, 16), Write(metaOffset, b[bodyEnd..len]), body.value))
  }

  method Encode(m: Manifest, slotBytes: u64) returns (r: Result<seq<byte>>)
    ensures r == if EncodedLength(m) > slotBytes then Err(InvalidData) else Ok(Encoded(m))
  {
    hide LittleEndian;
    hide Digest;
    hide Entries;
    hide Fields;
    hide Patch64;
    var len := HEADER + ENTRY * |m.body| + |m.meta.bytes|;
    if len > slotBytes {
      return Err(InvalidData);
    }
    var bytes := new byte[len](_ => 0);
    CopyInto(bytes, 0, MAGIC);
    assert bytes[..8] == MAGIC;
    EncodeHeader(bytes, m);
    PutAt(bytes, CHECKSUM_AT, 0);
    EncodeEntries(bytes, m.body);
    ghost var before := bytes[..];
    var bodyEnd := HEADER + ENTRY * |m.body|;
    CopyInto(bytes, bodyEnd, m.meta.bytes);
    assert bytes[..] == Layout(m, 0) by {
      assert bytes[..] == before[..bodyEnd] + m.meta.bytes + before[len..] == before[..bodyEnd] + m.meta.bytes;
      assert before[..bodyEnd] == Fields(m) + Put64(0) + Entries(m.body);
    }
    var digest := Checksum(bytes[..]);
    PutAt(bytes, CHECKSUM_AT, digest);
    LayoutPatched(m, 0, digest);
    return Ok(bytes[..]);
  }

  lemma {:induction false} LayoutPatched(m: Manifest, before: u64, after: u64)
    requires EncodedLength(m) < U64_LIMIT
    ensures Patch64(Layout(m, before), CHECKSUM_AT, after) == Layout(m, after)
  {
    hide LittleEndian;
    hide Fields;
    hide Entries;
  }

  method EncodeHeader(bytes: array<byte>, m: Manifest)
    requires bytes.Length == EncodedLength(m) < U64_LIMIT && bytes[..8] == MAGIC
    modifies bytes
    ensures bytes[..48] == Fields(m)
  {
    hide Patch64;
    hide LittleEndian;
    PutAt(bytes, 8, bytes.Length);
    PutAt(bytes, 16, m.seqno);
    PutAt(bytes, 24, m.meta.offset);
    PutAt(bytes, 32, |m.meta.bytes|);
    PutAt(bytes, 40, |m.body|);
  }

  /** The loop that writes one 24-byte entry per extent. */
  method EncodeEntries(bytes: array<byte>, body: seq<Extent>)
    requires HEADER + ENTRY * |body| <= bytes.Length
    modifies bytes
    ensures bytes[..HEADER + ENTRY * |body|] == old(bytes[..HEADER]) + Entries(body)
  {
    hide LittleEndian;
    hide Patch64;
    ghost var was := bytes[..HEADER];
    for i := 0 to |body|
      invariant bytes[..HEADER + ENTRY * i] == was + Entries(body[..i])
    {
      var at := HEADER + i * ENTRY;
      PutAt(bytes, at, body[i].offset);
      PutAt(bytes, at + 8, body[i].len);
      PutAt(bytes, at + 16, body[i].checksum);
      assert bytes[..at + ENTRY] == was + Entries(body[..i]) + Entry(body[i]);
      assert body[..i + 1][..i] == body[..i];
      assert bytes[..at + ENTRY] == was + Entries(body[..i + 1]);
    }
    assert body[..|body|] == body;
  }

  /** The decoder zeroes the digest word to recompute the checksum, and always puts it back. */
  method Decode(bytes: array<byte>) returns (r: Option<Manifest>)
    modifies bytes
    ensures bytes[..] == old(bytes[..])
    ensures r == Decoded(bytes[..])
  {
    hide LittleEndian;
    hide FromLittleEndian;
    hide Digest;
    ghost var b := bytes[..];
    if bytes.Length < HEADER || bytes[..8] != MAGIC {
      return None;
    }
    var len := Get64(bytes[..], 8);
    if len < HEADER || len > bytes.Length {
      return None;
    }
    var expected := Get64(bytes[..], CHECKSUM_AT);
    PutAt(bytes, CHECKSUM_AT, 0);
    var actual := Checksum(bytes[..len]);
    assert bytes[..len] == Patch64(b, CHECKSUM_AT, 0)[..len];
    PutAt(bytes, CHECKSUM_AT, expected);
    PutGet(b, CHECKSUM_AT);
    assert bytes[..] == b;
    if expected != actual {
      return None;
    }
    var count := Get64(bytes[..], 40);
    var metaLen := Get64(bytes[..], 32);
    var bodyEnd := HEADER + count * ENTRY;
    if bodyEnd + metaLen != len {
      return None;
    }
    var metaOffset := Get64(bytes[..], 24);
    if metaOffset + metaLen >= U64_LIMIT {
      return None;
    }
    var body := DecodeEntries(bytes, count);
    if body.None? {
      return None;
    }
    return Some(Manifest(Get64(bytes[..], 16), Write(metaOffset, bytes[bodyEnd..len]), body.value));
  }

  method DecodeEntries(bytes: array<byte>, count: nat) returns (r: Option<seq<Extent>>)
    requires HEADER + ENTRY * count <= bytes.Length
    ensures r == ParseEntries(bytes[..], count)
  {
    hide FromLittleEndian;
    var body := [];
    for i := 0 to count
      invariant ParseEntries(bytes[..], i) == Some(body)
    {
      var at := HEADER + i * ENTRY;
      var offset, len := Get64(bytes[..], at), Get64(bytes[..], at + 8);
      if offset + len >= U64_LIMIT {
        ParseEntriesNone(bytes[..], i + 1, count);
        return None;
      }
      body := body + [Extent(offset, len, Get64(bytes[..], at + 16))];
    }
    return Some(body);
  }

  lemma {:induction false} ParseEntriesNone(b: seq<byte>, i: nat, count: nat)
    requires i <= count && HEADER + ENTRY * count <= |b|
    requires ParseEntries(b, i).None?
    ensures ParseEntries(b, count).None?
  {
    if i < count {
      ParseEntriesNone(b, i, count - 1);
    }
  }

  /** Parsing finds exactly the extents whose entries the buffer holds. */
  lemma {:induction false} ParseEntriesOfEntries(b: seq<byte>, body: seq<Extent>)
    requires HEADER + ENTRY * |body| <= |b|
    requires b[HEADER..HEADER + ENTRY * |body|] == Entries(body)
    requires forall i :: 0 <= i < |body| ==> body[i].offset + body[i].len < U64_LIMIT
    ensures ParseEntries(b, |body|) == Some(body)
  {
    hide Entry;
    hide Entries;
    hide Get64;
    hide ParseEntries;
    if |body| == 0 {
      ParseNothing(b);
    } else {
      var n := |body| - 1;
      var at := HEADER + ENTRY * n;
      EntriesLast(body);
      SplitSlice(b, HEADER, at, at + ENTRY, Entries(body[..n]), Entry(body[n]));
      ParseEntriesOfEntries(b, body[..n]);
      EntryAt(b, at, body[n]);
      ParseLast(b, body[..n], body[n], n, at);
      assert body == body[..n] + [body[n]];
    }
  }

  lemma ParseNothing(b: seq<byte>)
    requires HEADER <= |b|
    ensures ParseEntries(b, 0) == Some([])
  {
  }

  lemma EntriesLast(body: seq<Extent>)
    requires |body| > 0
    ensures Entries(body) == Entries(body[..|body| - 1]) + Entry(body[|body| - 1])
  {
    hide Entry;
  }

  lemma {:induction false} ParseLast(b: seq<byte>, before: seq<Extent>, e: Extent, n: nat, at: nat)
    requires at == HEADER + ENTRY * n && at + ENTRY <= |b| && ParseEntries(b, n) == Some(before)
    requires e.offset + e.len < U64_LIMIT
    requires Get64(b, at) == e.offset && Get64(b, at + 8) == e.len && Get64(b, at + 16) == e.checksum
    ensures ParseEntries(b, n + 1) == Some(before + [e])
  {
    hide Get64;
  }

  lemma {:induction false} EntryAt(b: seq<byte>, at: nat, e: Extent)
    requires at + ENTRY <= |b| && b[at..at + ENTRY] == Entry(e)
    ensures Get64(b, at) == e.offset && Get64(b, at + 8) == e.len && Get64(b, at + 16) == e.checksum
  {
    hide LittleEndian;
    hide FromLittleEndian;
    hide Get64;
    SubSlice(b, at, at + ENTRY, 0, 8);
    SubSlice(b, at, at + ENTRY, 8, 16);
    SubSlice(b, at, at + ENTRY, 16, 24);
    assert Entry(e)[0..8] == Put64(e.offset) && Entry(e)[8..16] == Put64(e.len) && Entry(e)[16..24] == Put64(e.checksum);
    GetPut(b, at, e.offset);
    GetPut(b, at + 8, e.len);
    GetPut(b, at + 16, e.checksum);
  }

  lemma {:induction false} EntriesOfParseEntries(b: seq<byte>, count: nat)
    requires HEADER + ENTRY * count <= |b|
    requires ParseEntries(b, count).Some?
    ensures Entries(ParseEntries(b, count).value) == b[HEADER..HEADER + ENTRY * count]
    ensures forall i :: 0 <= i < count ==>
      ParseEntries(b, count).value[i].offset + ParseEntries(b, count).value[i].len < U64_LIMIT
  {
    hide LittleEndian;
    hide FromLittleEndian;
    hide Get64;
    hide Entry;
    if count > 0 {
      var at := HEADER + ENTRY * (count - 1);
      EntriesOfParseEntries(b, count - 1);
      var body := ParseEntries(b, count).value;
      assert body[..count - 1] == ParseEntries(b, count - 1).value;
      EntryOf(b, at);
      JoinSlices(b, HEADER, at, at + ENTRY);
    }
  }

  lemma {:induction false} EntryOf(b: seq<byte>, at: nat)
    requires at + ENTRY <= |b|
    ensures Entry(Extent(Get64(b, at), Get64(b, at + 8), Get64(b, at + 16))) == b[at..at + ENTRY]
  {
    hide LittleEndian;
    hide FromLittleEndian;
    hide Get64;
    hide Put64;
    PutGet(b, at);
    PutGet(b, at + 8);
    PutGet(b, at + 16);
    JoinSlices(b, at, at + 8, at + 16);
    JoinSlices(b, at, at + 16, at + 24);
  }

  /** Where each header word of an encoded descriptor sits. */
  lemma {:induction false} FieldsAt(b: seq<byte>, m: Manifest)
    requires EncodedLength(m) < U64_LIMIT && Fields(m) <= b
    ensures b[..8] == MAGIC && Get64(b, 8) == EncodedLength(m) && Get64(b, 16) == m.seqno
    ensures Get64(b, 24) == m.meta.offset && Get64(b, 32) == |m.meta.bytes| && Get64(b, 40) == |m.body|
  {
    hide LittleEndian;
    hide FromLittleEndian;
    var f := Fields(m);
    assert b[..48] == f;
    assert b[..8] == f[..8];
    assert b[8..16] == f[8..16] == Put64(EncodedLength(m));
    assert b[16..24] == f[16..24] == Put64(m.seqno);
    assert b[24..32] == f[24..32] == Put64(m.meta.offset);
    assert b[32..40] == f[32..40] == Put64(|m.meta.bytes|);
    assert b[40..48] == f[40..48] == Put64(|m.body|);
    GetPut(b, 8, EncodedLength(m));
    GetPut(b, 16, m.seqno);
    GetPut(b, 24, m.meta.offset);
    GetPut(b, 32, |m.meta.bytes|);
    GetPut(b, 40, |m.body|);
  }

  /** A descriptor is read back from its slot whatever older bytes follow it. */
  lemma {:induction false} DecodeEncoded(m: Manifest, leftover: seq<byte>)
    requires Representable(m) && EncodedLength(m) < U64_LIMIT
    ensures Decoded(Encoded(m) + leftover) == Some(m)
  {
    hide LittleEndian;
    hide FromLittleEndian;
    hide Digest;
    var digest := Digest(Layout(m, 0));
    var b := Encoded(m) + leftover;
    var len := EncodedLength(m);
    var bodyEnd := HEADER + ENTRY * |m.body|;
    FieldsAt(b, m);
    assert b[48..56] == Put64(digest);
    GetPut(b, CHECKSUM_AT, digest);
    assert Patch64(b, CHECKSUM_AT, 0)[..len] == Layout(m, 0);
    assert b[HEADER..bodyEnd] == Entries(m.body);
    ParseEntriesOfEntries(b, m.body);
    assert b[bodyEnd..len] == m.meta.bytes;
  }

  /** Every accepted slot image begins with the encoding of what was decoded, and no extent overflows. */
  lemma {:induction false} EncodeDecoded(b: seq<byte>)
    requires Decoded(b).Some?
    ensures var m := Decoded(b).value;
      && Representable(m)
      && EncodedLength(m) == Get64(b, 8) <= |b|
      && Encoded(m) == b[..Get64(b, 8)]
  {
    hide Decoded;
    hide Fields;
    hide Entries;
    hide ParseEntries;
    hide Layout;
    hide Patch64;
    hide Get64;
    hide Put64;
    hide Digest;
    var m := Decoded(b).value;
    DecodedIs(b, m);
    EntriesOfParseEntries(b, Get64(b, 40));
    HeaderOfFields(b, m);
    PutGet(b, CHECKSUM_AT);
    LayoutOfParts(b, m, Get64(b, CHECKSUM_AT));
  }

  /** What acceptance means, word by word. */
  lemma {:induction false} DecodedIs(b: seq<byte>, m: Manifest)
    requires Decoded(b) == Some(m)
    ensures HEADER <= |b| && b[..8] == MAGIC && EncodedLength(m) == Get64(b, 8) <= |b|
    ensures Get64(b, 16) == m.seqno && Get64(b, 24) == m.meta.offset
    ensures Get64(b, 32) == |m.meta.bytes| && Get64(b, 40) == |m.body| && End(m.meta) < U64_LIMIT
    ensures Get64(b, CHECKSUM_AT) == Digest(Patch64(b, CHECKSUM_AT, 0)[..EncodedLength(m)])
    ensures HEADER + ENTRY * |m.body| <= |b| && ParseEntries(b, |m.body|) == Some(m.body)
    ensures m.meta.bytes == b[HEADER + ENTRY * |m.body|..EncodedLength(m)]
  {
    hide ParseEntries;
    hide Patch64;
    hide Get64;
    hide Digest;
  }

  lemma {:induction false} LayoutOfParts(b: seq<byte>, m: Manifest, digest: u64)
    requires EncodedLength(m) < U64_LIMIT && EncodedLength(m) <= |b|
    requires Fields(m) == b[..48] && Put64(digest) == b[48..56]
    requires Entries(m.body) == b[HEADER..HEADER + ENTRY * |m.body|]
    requires m.meta.bytes == b[HEADER + ENTRY * |m.body|..EncodedLength(m)]
    ensures Layout(m, digest) == b[..EncodedLength(m)]
    ensures Layout(m, 0) == Patch64(b, CHECKSUM_AT, 0)[..EncodedLength(m)]
  {
    hide LittleEndian;
    hide Fields;
    hide Entries;
    var len, bodyEnd := EncodedLength(m), HEADER + ENTRY * |m.body|;
    assert b[..len] == b[..48] + b[48..56] + b[HEADER..bodyEnd] + b[bodyEnd..len];
    LayoutPatched(m, digest, 0);
    assert Patch64(b, CHECKSUM_AT, 0)[..len] == Patch64(b[..len], CHECKSUM_AT, 0);
  }

  lemma {:induction false} HeaderOfFields(b: seq<byte>, m: Manifest)
    requires |b| >= HEADER && b[..8] == MAGIC && EncodedLength(m) < U64_LIMIT
    requires Get64(b, 8) == EncodedLength(m) && Get64(b, 16) == m.seqno && Get64(b, 24) == m.meta.offset
    requires Get64(b, 32) == |m.meta.bytes| && Get64(b, 40) == |m.body|
    ensures Fields(m) == b[..48]
  {
    hide LittleEndian;
    hide FromLittleEndian;
    PutGet(b, 8);
    PutGet(b, 16);
    PutGet(b, 24);
    PutGet(b, 32);
    PutGet(b, 40);
    assert b[..48] == b[..8] + b[8..16] + b[16..24] + b[24..32] + b[32..40] + b[40..48];
  }
}
