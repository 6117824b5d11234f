/** Journal frames: layout, in-place codec, round trips, and recovery of the longest valid prefix. */
module Wal {
  import opened Bytes
  import opened Devices
  import opened Disks
  import opened OctetCodes
  import Crc64

  const ALIGNMENT: nat := 4096
  const MAX_FRAME: nat := 0x400_0000
  const HEADER: nat := 48
  const FOOTER: nat := 8
  const MAGIC: seq<byte> := [0x4a, 0x57, 0x41, 0x4c, 0x30, 0x30, 0x30, 0x31]

  /** The frame checksum: CRC-64/ECMA-182 of the bytes. */
  function Sum(bytes: seq<byte>): u64 {
    Crc64.Reference(Octets(bytes)).bits as u64
  }

  lemma NumberInjective(p: bv64, q: bv64)
    requires p as u64 == q as u64
    ensures p == q
  {
    assert (p as int) as bv64 == p;
    assert (q as int) as bv64 == q;
  }

  /** Byte strings of equal length that differ only inside eight consecutive bytes have different checksums. */
  lemma {:induction false} SumDetects(a: seq<byte>, b: seq<byte>, lo: nat, hi: nat)
    requires |a| == |b| && lo <= hi <= |a| && hi <= lo + 8
    requires a[..lo] == b[..lo] && a[hi..] == b[hi..] && a != b
    ensures Sum(a) != Sum(b)
  {
    hide Crc64.Reference;
    var x, y := Octets(a), Octets(b);
    OctetsDiffer(a, b);
    OctetsSlice(a, b, 0, lo);
    OctetsSlice(a, b, hi, |a|);
    assert a[..lo] == a[0..lo] && b[..lo] == b[0..lo] && a[hi..] == a[hi..|a|] && b[hi..] == b[hi..|b|];
    assert x[..lo] == x[0..lo] && y[..lo] == y[0..lo] && x[hi..] == x[hi..|x|] && y[hi..] == y[hi..|y|];
    Crc64.BurstDetected(x, y, lo, hi);
    if Sum(a) == Sum(b) {
      NumberInjective(Crc64.Reference(x).bits, Crc64.Reference(y).bits);
      assert false;
    }
  }

  method Checksum(bytes: seq<byte>) returns (sum: u64)
    ensures sum == Sum(bytes)
  {
    hide Octets;
    var crc := Crc64.Checksum(Octets(bytes));
    return crc as u64;
  }

  function Zeros(n: nat): (s: seq<byte>)
    ensures |s| == n
  {
    seq(n, _ => 0)
  }

  function Put32(v: nat): (s: seq<byte>)
    requires v < 0x1_0000_0000
    ensures |s| == 4
  {
    LittleEndian(v, 4)
  }

  function Get32(s: seq<byte>, at: nat): (v: nat)
    requires at + 4 <= |s|
    ensures v < 0x1_0000_0000
  {
    FromLittleEndianBound(s[at..at + 4]);
    Pow256Four();
    FromLittleEndian(s[at..at + 4])
  }

  lemma {:induction false} Pow256Four()
    ensures Pow256(4) == 0x1_0000_0000
  {
    assert Pow256(2) == 0x1_0000;
  }

  lemma {:induction false} Get32Put32(s: seq<byte>, at: nat, v: nat)
    requires v < 0x1_0000_0000 && at + 4 <= |s| && s[at..at + 4] == Put32(v)
    ensures Get32(s, at) == v
  {
    Pow256Four();
    DecodeLittleEndian(v, 4);
  }

  lemma {:induction false} Put32Get32(s: seq<byte>, at: nat)
    requires at + 4 <= |s|
    ensures Put32(Get32(s, at)) == s[at..at + 4]
  {
    EncodeLittleEndian(s[at..at + 4]);
  }

  lemma {:induction false} ZerosAre(n: nat)
    ensures LittleEndian(0, n) == Zeros(n)
  {
    if n > 0 {
      ZerosAre(n - 1);
    }
  }

  // ---- Layout ----

  predicate Bounded(ws: seq<Write>) {
    forall i :: 0 <= i < |ws| ==> End(ws[i]) < U64_LIMIT
  }

  function Record(w: Write): (s: seq<byte>)
    requires End(w) < U64_LIMIT
    ensures |s| == 16 + |w.bytes|
  {
    Put64(w.offset) + Put64(|w.bytes|) + w.bytes
  }

  function RecordsLength(ws: seq<Write>): nat {
    if |ws| == 0 then 0 else 16 + |ws[0].bytes| + RecordsLength(ws[1..])
  }

  function Records(ws: seq<Write>): (s: seq<byte>)
    requires Bounded(ws)
    ensures |s| == RecordsLength(ws)
  {
    if |ws| == 0 then [] else Record(ws[0]) + Records(ws[1..])
  }

  function RoundUp(n: nat): (r: nat)
    ensures r % ALIGNMENT == 0 && n <= r < n + ALIGNMENT
  {
    (n + ALIGNMENT - 1) / ALIGNMENT * ALIGNMENT
  }

  /** What `encoded_len` accepts: a 32-bit count, no overflowing write, and at most 64 MiB. */
  predicate Encodable(ws: seq<Write>) {
    |ws| < 0x1_0000_0000 && Bounded(ws) && FrameLength(ws) <= MAX_FRAME
  }

  function FrameLength(ws: seq<Write>): nat {
    RoundUp(HEADER + FOOTER + RecordsLength(ws))
  }

  /** The least multiple of 4096 that holds the header, the records and the footer. */
  lemma {:induction false} FrameLengthLeast(ws: seq<Write>, length: nat)
    requires length % ALIGNMENT == 0 && HEADER + RecordsLength(ws) + FOOTER <= length
    ensures FrameLength(ws) <= length && FrameLength(ws) % ALIGNMENT == 0
    ensures HEADER + RecordsLength(ws) + FOOTER <= FrameLength(ws)
  {
    var need := HEADER + FOOTER + RecordsLength(ws);
    assert (need + ALIGNMENT - 1) / ALIGNMENT <= length / ALIGNMENT;
  }

  /** Encodable lists in numbers: a 32-bit count, no write past 2^64, and room in 64 MiB with 56 bytes of frame and 16 a record. */
  lemma EncodableMeans(ws: seq<Write>)
    ensures Encodable(ws) <==>
      && |ws| < 0x1_0000_0000 && (forall i :: 0 <= i < |ws| ==> End(ws[i]) < 0x1_0000_0000_0000_0000)
      && 56 + RecordsLength(ws) <= 0x400_0000
  {
    hide RecordsLength;
    FrameLengthLeast(ws, FrameLength(ws));
    if 56 + RecordsLength(ws) <= 0x400_0000 {
      FrameLengthLeast(ws, 0x400_0000);
    }
  }


  function Header(txid: u64, count: nat, payloadEnd: u64, length: u64): (s: seq<byte>)
    requires txid > 0 && count < 0x1_0000_0000
    ensures |s| == HEADER
  {
    MAGIC + Put64(length) + Put64(txid) + Put64(txid - 1) + Put64(payloadEnd) + Put32(count) + Zeros(4)
  }

  /** Everything before the checksum in a frame of the given length. */
  function Contents(txid: u64, ws: seq<Write>, length: nat): (s: seq<byte>)
    requires txid > 0 && Bounded(ws) && |ws| < 0x1_0000_0000
    requires HEADER + RecordsLength(ws) + FOOTER <= length <= MAX_FRAME
    ensures |s| == length - FOOTER
  {
    Header(txid, |ws|, HEADER + RecordsLength(ws), length) + Records(ws)
      + Zeros(length - FOOTER - HEADER - RecordsLength(ws))
  }

  function FrameOf(txid: u64, ws: seq<Write>, length: nat): (s: seq<byte>)
    requires txid > 0 && Bounded(ws) && |ws| < 0x1_0000_0000
    requires HEADER + RecordsLength(ws) + FOOTER <= length <= MAX_FRAME
    ensures |s| == length
  {
    Contents(txid, ws, length) + Put64(Sum(Contents(txid, ws, length)))
  }

  function Frame(txid: u64, ws: seq<Write>): (s: seq<byte>)
    requires txid > 0 && Encodable(ws)
    ensures |s| == FrameLength(ws)
  {
    FrameOf(txid, ws, FrameLength(ws))
  }

  // ---- Decoding, as functions of the bytes ----

  /** `frame_length`: the length a header announces, if it is plausible. */
  function AnnouncedLength(header: seq<byte>, remaining: nat): (r: Option<nat>)
    ensures r.Some? ==> ALIGNMENT <= r.value <= remaining && r.value <= MAX_FRAME && r.value % ALIGNMENT == 0
  {
    if |header| < HEADER || header[..8] != MAGIC then None else
    var length := Get64(header, 8);
    if ALIGNMENT <= length <= MAX_FRAME && length <= remaining && length % ALIGNMENT == 0 then Some(length) else None
  }

  function ParseRecords(frame: seq<byte>, cursor: nat, end: nat, count: nat): (r: Option<seq<Write>>)
    requires cursor <= end <= |frame|
    ensures r.Some? ==> |r.value| == count && Bounded(r.value)
    decreases count
  {
    if count == 0 then if cursor == end then Some([]) else None
    else if cursor + 16 > end then None
    else
      var offset, n := Get64(frame, cursor), Get64(frame, cursor + 8);
      if cursor + 16 + n > end || offset + n >= U64_LIMIT then None
      else
        var rest := ParseRecords(frame, cursor + 16 + n, end, count - 1);
        if rest.None? then None
        else Some([Write(offset, frame[cursor + 16..cursor + 16 + n])] + rest.value)
  }

  /** `decode_frame`. */
  function Decoded(frame: seq<byte>, previous: u64): Option<(u64, seq<Write>)> {
    if AnnouncedLength(frame, |frame|) != Some(|frame|) || frame[44..48] != Zeros(4) then None else
    if previous + 1 >= U64_LIMIT || Get64(frame, 16) != previous + 1 || Get64(frame, 24) != previous then None else
    var footer := |frame| - FOOTER;
    if Sum(frame[..footer]) != Get64(frame, footer) then None else
    var payloadEnd, count := Get64(frame, 32), Get32(frame, 40);
    if !(HEADER <= payloadEnd <= footer) || count > (payloadEnd - HEADER) / 16 then None else
    var ws := ParseRecords(frame, HEADER, payloadEnd, count);
    if ws.None? || frame[payloadEnd..footer] != Zeros(footer - payloadEnd) then None
    else Some((previous + 1, ws.value))
  }

  // ---- Round trips ----

  lemma {:induction false} RecordsAppend(ws: seq<Write>, w: Write)
    requires Bounded(ws) && End(w) < U64_LIMIT
    ensures RecordsLength(ws + [w]) == RecordsLength(ws) + 16 + |w.bytes|
    ensures Bounded(ws + [w]) && Records(ws + [w]) == Records(ws) + Record(w)
  {
    hide Record;
    if |ws| == 0 {
      assert ws + [w] == [w];
      assert Records([w]) == Record(w) + Records([]);
    } else {
      assert (ws + [w])[1..] == ws[1..] + [w];
      RecordsAppend(ws[1..], w);
    }
  }

  lemma {:induction false} RecordsAtLeast(ws: seq<Write>)
    ensures 16 * |ws| <= RecordsLength(ws)
  {
    if |ws| > 0 {
      RecordsAtLeast(ws[1..]);
    }
  }

  lemma {:induction false} ZerosSplit(m: nat, n: nat)
    ensures Zeros(m + n) == Zeros(m) + Zeros(n)
  {
  }

  lemma {:induction false} FourParts(s: seq<byte>, x: seq<byte>, y: seq<byte>, z: seq<byte>, tail: seq<byte>, a: nat, b: nat, c: nat)
    requires s == x + y + z + tail && a == |x| && b == a + |y| && c == b + |z|
    ensures s[..c] == x + y + z && s[c..c + |tail|] == tail
    ensures x <= s && s[a..b] == y && s[b..c] == z
  {
  }

  lemma {:induction false} RecordParts(w: Write)
    requires End(w) < U64_LIMIT
    ensures Record(w)[0..8] == Put64(w.offset) && Record(w)[8..16] == Put64(|w.bytes|)
    ensures Record(w)[16..16 + |w.bytes|] == w.bytes
  {
    hide LittleEndian;
  }

  /** One record at `at` is read back. */
  lemma {:induction false} RecordFields(frame: seq<byte>, at: nat, w: Write)
    requires End(w) < U64_LIMIT && at + 16 + |w.bytes| <= |frame|
    requires frame[at..at + 16 + |w.bytes|] == Record(w)
    ensures Get64(frame, at) == w.offset && Get64(frame, at + 8) == |w.bytes|
    ensures frame[at + 16..at + 16 + |w.bytes|] == w.bytes
  {
    hide LittleEndian;
    hide FromLittleEndian;
    hide Record;
    var end := at + 16 + |w.bytes|;
    RecordParts(w);
    SubSlice(frame, at, end, 0, 8);
    SubSlice(frame, at, end, 8, 16);
    SubSlice(frame, at, end, 16, 16 + |w.bytes|);
    GetPut(frame, at, w.offset);
    GetPut(frame, at + 8, |w.bytes|);
  }

  lemma {:induction false} ParseOfRecords(frame: seq<byte>, cursor: nat, ws: seq<Write>)
    requires Bounded(ws) && cursor + RecordsLength(ws) <= |frame|
    requires frame[cursor..cursor + RecordsLength(ws)] == Records(ws)
    ensures ParseRecords(frame, cursor, cursor + RecordsLength(ws), |ws|) == Some(ws)
    decreases |ws|
  {
    hide Get64;
    hide Record;
    if |ws| > 0 {
      var w, rest := ws[0], ws[1..];
      var n, end := 16 + |w.bytes|, cursor + RecordsLength(ws);
      SplitSlice(frame, cursor, cursor + n, end, Record(w), Records(rest));
      RecordFields(frame, cursor, w);
      ParseOfRecords(frame, cursor + n, rest);
      ParseOne(frame, cursor, end, w, rest);
    }
  }

  lemma {:induction false} ParseOne(frame: seq<byte>, cursor: nat, end: nat, w: Write, rest: seq<Write>)
    requires End(w) < U64_LIMIT && cursor + 16 + |w.bytes| <= end <= |frame|
    requires Get64(frame, cursor) == w.offset && Get64(frame, cursor + 8) == |w.bytes|
    requires frame[cursor + 16..cursor + 16 + |w.bytes|] == w.bytes
    requires ParseRecords(frame, cursor + 16 + |w.bytes|, end, |rest|) == Some(rest)
    ensures forall ws :: |ws| > 0 && ws[0] == w && ws[1..] == rest ==> ParseRecords(frame, cursor, end, |ws|) == Some(ws)
  {
    hide Get64;
    forall ws | |ws| > 0 && ws[0] == w && ws[1..] == rest
      ensures ParseRecords(frame, cursor, end, |ws|) == Some(ws)
    {
      assert ws == [w] + rest;
    }
  }

  lemma {:induction false} RecordsOfParse(frame: seq<byte>, cursor: nat, end: nat, count: nat)
    requires cursor <= end <= |frame| && ParseRecords(frame, cursor, end, count).Some?
    ensures var ws := ParseRecords(frame, cursor, end, count).value;
      RecordsLength(ws) == end - cursor && Records(ws) == frame[cursor..end]
    decreases count
  {
    hide Get64;
    hide Record;
    if count > 0 {
      var n := Get64(frame, cursor + 8);
      var first := Write(Get64(frame, cursor), frame[cursor + 16..cursor + 16 + n]);
      var rest := ParseRecords(frame, cursor + 16 + n, end, count - 1).value;
      assert ParseRecords(frame, cursor, end, count) == Some([first] + rest);
      RecordsOfParse(frame, cursor + 16 + n, end, count - 1);
      RecordOfFields(frame, cursor, n);
      RecordsHead(first, rest);
      JoinSlices(frame, cursor, cursor + 16 + n, end);
    }
  }

  lemma {:induction false} RecordsHead(w: Write, rest: seq<Write>)
    requires End(w) < U64_LIMIT && Bounded(rest)
    ensures Bounded([w] + rest) && Records([w] + rest) == Record(w) + Records(rest)
    ensures RecordsLength([w] + rest) == 16 + |w.bytes| + RecordsLength(rest)
  {
    hide Record;
    assert ([w] + rest)[1..] == rest;
  }

  lemma {:induction false} RecordOfFields(frame: seq<byte>, at: nat, n: nat)
    requires at + 16 + n <= |frame| && n == Get64(frame, at + 8) && Get64(frame, at) + n < U64_LIMIT
    ensures Record(Write(Get64(frame, at), frame[at + 16..at + 16 + n])) == frame[at..at + 16 + n]
  {
    hide LittleEndian;
    hide FromLittleEndian;
    PutGet(frame, at);
    PutGet(frame, at + 8);
    JoinSlices(frame, at, at + 8, at + 16);
    JoinSlices(frame, at, at + 16, at + 16 + n);
  }

  lemma {:induction false} HeaderFields(b: seq<byte>, txid: u64, count: nat, payloadEnd: u64, length: u64)
    requires txid > 0 && count < 0x1_0000_0000
    requires Header(txid, count, payloadEnd, length) <= b
    ensures b[..8] == MAGIC && Get64(b, 8) == length && Get64(b, 16) == txid && Get64(b, 24) == txid - 1
    ensures Get64(b, 32) == payloadEnd && Get32(b, 40) == count && b[44..48] == Zeros(4)
  {
    hide LittleEndian;
    hide FromLittleEndian;
    var f := Header(txid, count, payloadEnd, length);
    assert b[..48] == f;
    assert b[..8] == f[..8];
    assert b[8..16] == f[8..16] == Put64(length);
    assert b[16..24] == f[16..24] == Put64(txid);
    assert b[24..32] == f[24..32] == Put64(txid - 1);
    assert b[32..40] == f[32..40] == Put64(payloadEnd);
    assert b[40..44] == f[40..44] == Put32(count);
    assert b[44..48] == f[44..48];
    GetPut(b, 8, length);
    GetPut(b, 16, txid);
    GetPut(b, 24, txid - 1);
    GetPut(b, 32, payloadEnd);
    Get32Put32(b, 40, count);
  }

  lemma {:induction false} FieldsHeader(b: seq<byte>, txid: u64)
    requires |b| >= HEADER && txid > 0 && b[..8] == MAGIC && b[44..48] == Zeros(4)
    requires Get64(b, 16) == txid && Get64(b, 24) == txid - 1
    ensures Header(txid, Get32(b, 40), Get64(b, 32), Get64(b, 8)) == b[..48]
  {
    hide LittleEndian;
    hide FromLittleEndian;
    PutGet(b, 8);
    PutGet(b, 16);
    PutGet(b, 24);
    PutGet(b, 32);
    Put32Get32(b, 40);
    hide Put64;
    hide Put32;
    hide Get64;
    hide Get32;
    JoinSlices(b, 0, 8, 16);
    JoinSlices(b, 0, 16, 24);
    JoinSlices(b, 0, 24, 32);
    JoinSlices(b, 0, 32, 40);
    JoinSlices(b, 0, 40, 44);
    JoinSlices(b, 0, 44, 48);
  }

  /** A frame is read back, and only after the transaction it follows. */
  lemma {:induction false} DecodeFrame(txid: u64, ws: seq<Write>, length: nat)
    requires txid > 0 && Bounded(ws) && |ws| < 0x1_0000_0000 && length % ALIGNMENT == 0
    requires HEADER + RecordsLength(ws) + FOOTER <= length <= MAX_FRAME
    ensures AnnouncedLength(FrameOf(txid, ws, length), length) == Some(length)
    ensures Decoded(FrameOf(txid, ws, length), txid - 1) == Some((txid, ws))
    ensures forall previous :: previous != txid - 1 ==> Decoded(FrameOf(txid, ws, length), previous).None?
  {
    hide Get64;
    hide Get32;
    hide Sum;
    hide Header;
    hide Records;
    hide RecordsLength;
    hide ParseRecords;
    hide Decoded;
    hide FrameOf;
    hide Contents;
    hide Put64;
    hide Zeros;
    hide AnnouncedLength;
    var f, c, footer, end := FrameOf(txid, ws, length), Contents(txid, ws, length), length - FOOTER, HEADER + RecordsLength(ws);
    var x, y, z, tail := Header(txid, |ws|, end, length), Records(ws), Zeros(footer - end), Put64(Sum(c));
    FrameIsParts(txid, ws, length);
    FourParts(f, x, y, z, tail, HEADER, end, footer);
    HeaderFields(f, txid, |ws|, end, length);
    GetPut(f, footer, Sum(c));
    ParseOfRecords(f, HEADER, ws);
    RecordsAtLeast(ws);
    DecodedParts(f, txid, ws, length);
  }

  lemma {:induction false} FrameIsParts(txid: u64, ws: seq<Write>, length: nat)
    requires txid > 0 && Bounded(ws) && |ws| < 0x1_0000_0000
    requires HEADER + RecordsLength(ws) + FOOTER <= length <= MAX_FRAME
    ensures Contents(txid, ws, length) == Header(txid, |ws|, HEADER + RecordsLength(ws), length) + Records(ws)
      + Zeros(length - FOOTER - HEADER - RecordsLength(ws))
    ensures FrameOf(txid, ws, length) == Contents(txid, ws, length) + Put64(Sum(Contents(txid, ws, length)))
  {
    hide Sum;
    hide Header;
    hide Records;
    hide RecordsLength;
    hide Put64;
    hide Zeros;
  }

  lemma {:induction false} DecodedParts(f: seq<byte>, txid: u64, ws: seq<Write>, length: nat)
    requires txid > 0 && |f| == length <= MAX_FRAME && length % ALIGNMENT == 0 && |ws| < 0x1_0000_0000
    requires HEADER + RecordsLength(ws) + FOOTER <= length && 16 * |ws| <= RecordsLength(ws)
    requires f[..8] == MAGIC && Get64(f, 8) == length && Get64(f, 16) == txid && Get64(f, 24) == txid - 1
    requires Get64(f, 32) == HEADER + RecordsLength(ws) && Get32(f, 40) == |ws| && f[44..48] == Zeros(4)
    requires Sum(f[..length - FOOTER]) == Get64(f, length - FOOTER)
    requires ParseRecords(f, HEADER, HEADER + RecordsLength(ws), |ws|) == Some(ws)
    requires f[HEADER + RecordsLength(ws)..length - FOOTER] == Zeros(length - FOOTER - HEADER - RecordsLength(ws))
    ensures AnnouncedLength(f, length) == Some(length)
    ensures Decoded(f, txid - 1) == Some((txid, ws))
    ensures forall previous :: previous != txid - 1 ==> Decoded(f, previous).None?
  {
    hide Get64;
    hide Get32;
    hide Sum;
    hide ParseRecords;
    hide RecordsLength;
  }

  /**
   * An accepted frame is exactly the layout of what was decoded, at its own length. It is the encoder's
   * own output just when that length is the least one that fits: the decoder also accepts extra pages of zeros.
   */
  lemma {:induction false} AcceptedIsLayout(frame: seq<byte>, previous: u64)
    requires Decoded(frame, previous).Some?
    ensures var (txid, ws) := Decoded(frame, previous).value;
      && txid == previous + 1 && Bounded(ws) && |ws| < 0x1_0000_0000
      && HEADER + RecordsLength(ws) + FOOTER <= |frame| <= MAX_FRAME && |frame| % ALIGNMENT == 0
      && frame == FrameOf(txid, ws, |frame|)
      && (Encodable(ws) && frame == Frame(txid, ws) <==> |frame| == FrameLength(ws))
  {
    hide LittleEndian;
    hide FromLittleEndian;
    hide Sum;
    hide Header;
    hide Records;
    hide ParseRecords;
    var (txid, ws) := Decoded(frame, previous).value;
    var footer, end := |frame| - FOOTER, Get64(frame, 32);
    RecordsOfParse(frame, HEADER, end, Get32(frame, 40));
    FieldsHeader(frame, txid);
    assert frame[..footer] == frame[..48] + frame[48..end] + frame[end..footer];
    assert frame[..footer] == Contents(txid, ws, |frame|);
    PutGet(frame, footer);
    assert frame == frame[..footer] + frame[footer..footer + 8];
  }

  // ---- The codec's loops ----

  /** An accepted frame that is altered only inside eight consecutive bytes before its footer is rejected. */
  lemma {:induction false} AlteredFrameRejected(frame: seq<byte>, altered: seq<byte>, previous: u64, previous': u64, lo: nat, hi: nat)
    requires Decoded(frame, previous).Some? && |altered| == |frame| && altered != frame
    requires lo <= hi <= |frame| - FOOTER && hi <= lo + 8
    requires altered[..lo] == frame[..lo] && altered[hi..] == frame[hi..]
    ensures Decoded(altered, previous').None?
  {
    hide Sum;
    hide Get64;
    hide ParseRecords;
    var footer := |frame| - FOOTER;
    assert frame[hi..][footer - hi..] == frame[footer..] && altered[hi..][footer - hi..] == altered[footer..];
    FooterSame(frame, altered, footer);
    var a, b := frame[..footer], altered[..footer];
    assert frame == a + frame[footer..] && altered == b + altered[footer..];
    assert a[..lo] == frame[..lo] && b[..lo] == altered[..lo];
    assert a[hi..] == frame[hi..][..footer - hi] && b[hi..] == altered[hi..][..footer - hi];
    SumDetects(a, b, lo, hi);
  }

  lemma {:induction false} FooterSame(frame: seq<byte>, altered: seq<byte>, footer: nat)
    requires |altered| == |frame| == footer + 8 && frame[footer..] == altered[footer..]
    ensures Get64(frame, footer) == Get64(altered, footer)
  {
    assert frame[footer..footer + 8] == frame[footer..] && altered[footer..footer + 8] == altered[footer..];
  }


  method EncodedLen(ws: seq<Write>) returns (r: Result<nat>)
    ensures r == if Encodable(ws) then Ok(FrameLength(ws)) else Err(InvalidInput)
  {
    if |ws| >= 0x1_0000_0000 {
      return Err(InvalidInput);
    }
    var length := HEADER + FOOTER;
    for i := 0 to |ws|
      invariant Bounded(ws[..i])
      invariant length == HEADER + FOOTER + RecordsLength(ws[..i])
    {
      if ws[i].offset + |ws[i].bytes| >= U64_LIMIT {
        return Err(InvalidInput);
      }
      assert ws[..i + 1] == ws[..i] + [ws[i]];
      RecordsAppend(ws[..i], ws[i]);
      length := length + 16 + |ws[i].bytes|;
    }
    assert ws[..|ws|] == ws;
    length := (length + ALIGNMENT - 1) / ALIGNMENT * ALIGNMENT;
    if length > MAX_FRAME {
      return Err(InvalidInput);
    }
    return Ok(length);
  }

  method PutRecord(frame: array<byte>, cursor: nat, w: Write)
    requires End(w) < U64_LIMIT && cursor + 16 + |w.bytes| <= frame.Length
    modifies frame
    ensures frame[..cursor + 16 + |w.bytes|] == old(frame[..cursor]) + Record(w)
    ensures frame[cursor + 16 + |w.bytes|..] == old(frame[cursor + 16 + |w.bytes|..])
  {
    hide LittleEndian;
    hide Patch64;
    ghost var was := frame[..];
    PutAt(frame, cursor, w.offset);
    ghost var one := frame[..];
    PutAt(frame, cursor + 8, |w.bytes|);
    ghost var two := frame[..];
    CopyInto(frame, cursor + 16, w.bytes);
    RecordPut(was, one, two, frame[..], cursor, w);
  }

  lemma {:induction false} RecordPut(was: seq<byte>, one: seq<byte>, two: seq<byte>, now: seq<byte>, cursor: nat, w: Write)
    requires End(w) < U64_LIMIT && cursor + 16 + |w.bytes| <= |was| == |one| == |two| == |now|
    requires one[..cursor + 8] == was[..cursor] + Put64(w.offset) && one[cursor + 8..] == was[cursor + 8..]
    requires two[..cursor + 16] == one[..cursor + 8] + Put64(|w.bytes|) && two[cursor + 16..] == one[cursor + 16..]
    requires now[..cursor + 16 + |w.bytes|] == two[..cursor + 16] + w.bytes
    requires now[cursor + 16 + |w.bytes|..] == two[cursor + 16 + |w.bytes|..]
    ensures now[..cursor + 16 + |w.bytes|] == was[..cursor] + Record(w)
    ensures now[cursor + 16 + |w.bytes|..] == was[cursor + 16 + |w.bytes|..]
  {
    hide Put64;
    var a, b, c := was[..cursor], Put64(w.offset), Put64(|w.bytes|);
    ConcatAssociative(a, b, c);
    ConcatAssociative(a, b + c, w.bytes);
    TailOf(was, one, cursor + 8, cursor + 16);
    TailOf(one, two, cursor + 16, cursor + 16 + |w.bytes|);
    TailOf(was, one, cursor + 8, cursor + 16 + |w.bytes|);
  }

  lemma {:induction false} TailOf(s: seq<byte>, t: seq<byte>, at: nat, later: nat)
    requires at <= later <= |s| == |t| && s[at..] == t[at..]
    ensures s[later..] == t[later..]
  {
    assert s[later..] == s[at..][later - at..] && t[later..] == t[at..][later - at..];
  }

  /** The header before the payload's end is known; `Put64(0)` stands in its place. */
  method PutHeader(frame: array<byte>, txid: u64, count: nat)
    requires txid > 0 && count < 0x1_0000_0000 && HEADER <= frame.Length < U64_LIMIT
    requires frame[..] == Zeros(frame.Length)
    modifies frame
    ensures frame[..HEADER] == Header(txid, count, 0, frame.Length)
    ensures frame[HEADER..] == Zeros(frame.Length - HEADER)
  {
    hide Patch64;
    hide LittleEndian;
    var n := frame.Length;
    CopyInto(frame, 0, MAGIC);
    ghost var b1 := frame[..];
    assert b1[..8] == MAGIC && b1[8..] == Zeros(n - 8);
    PutAt(frame, 8, n);
    ghost var b2 := frame[..];
    assert b2[16..] == b1[8..][8..] == Zeros(n - 16);
    PutAt(frame, 16, txid);
    ghost var b3 := frame[..];
    assert b3[24..] == b2[16..][8..] == Zeros(n - 24);
    PutAt(frame, 24, txid - 1);
    ghost var b4 := frame[..];
    assert b4[32..] == b3[24..][8..] == Zeros(n - 32);
    CountPart(b4, n, count);
    CopyInto(frame, 40, Put32(count));
  }

  lemma {:induction false} CountPart(b: seq<byte>, n: nat, count: nat)
    requires n == |b| >= HEADER && count < 0x1_0000_0000 && b[32..] == Zeros(n - 32)
    ensures (b[..40] + Put32(count) + b[44..])[..HEADER] == b[..32] + Put64(0) + Put32(count) + Zeros(4)
    ensures (b[..40] + Put32(count) + b[44..])[HEADER..] == Zeros(n - HEADER)
  {
    ZerosAre(8);
    hide LittleEndian;
    assert b[32..40] == b[32..][..8] == Zeros(8);
    assert b[..40] == b[..32] + b[32..40];
    assert b[44..] == b[32..][12..] == Zeros(n - 44);
    ZerosSplit(4, n - HEADER);
  }

  lemma {:induction false} HeaderPatched(txid: u64, count: nat, payloadEnd: u64, length: u64, rest: seq<byte>)
    requires txid > 0 && count < 0x1_0000_0000
    ensures Patch64(Header(txid, count, 0, length) + rest, 32, payloadEnd) == Header(txid, count, payloadEnd, length) + rest
  {
    hide LittleEndian;
  }

  /** The loop over the records. */
  method PutRecords(frame: array<byte>, ws: seq<Write>) returns (cursor: nat)
    requires Bounded(ws) && HEADER + RecordsLength(ws) + FOOTER <= frame.Length
    requires frame[HEADER..] == Zeros(frame.Length - HEADER)
    modifies frame
    ensures cursor == HEADER + RecordsLength(ws)
    ensures frame[..] == old(frame[..HEADER]) + (Records(ws) + Zeros(frame.Length - cursor))
  {
    hide Records;
    hide Record;
    hide RecordsLength;
    ghost var header := frame[..HEADER];
    cursor := HEADER;
    NoRecords();
    assert ws[..0] == [];
    for i := 0 to |ws|
      invariant cursor == HEADER + RecordsLength(ws[..i]) <= frame.Length - FOOTER
      invariant frame[..cursor] == header + Records(ws[..i])
      invariant frame[cursor..] == Zeros(frame.Length - cursor)
    {
      assert ws[..i + 1] == ws[..i] + [ws[i]];
      RecordsAppend(ws[..i], ws[i]);
      RecordsPrefix(ws, i + 1);
      ghost var before := frame[..];
      var next := cursor + 16 + |ws[i].bytes|;
      PutRecord(frame, cursor, ws[i]);
      ZerosLeft(before, frame[..], cursor, next);
      ConcatAssociative(header, Records(ws[..i]), Record(ws[i]));
      cursor := next;
    }
    assert ws[..|ws|] == ws;
    assert frame[..] == frame[..cursor] + frame[cursor..];
  }

  lemma ZerosLeft(before: seq<byte>, now: seq<byte>, cursor: nat, next: nat)
    requires cursor <= next <= |before| == |now| && before[cursor..] == Zeros(|before| - cursor) && now[next..] == before[next..]
    ensures now[next..] == Zeros(|now| - next)
  {
    assert before[next..] == before[cursor..][next - cursor..];
  }

  method EncodeFrame(txid: u64, ws: seq<Write>) returns (r: seq<byte>)
    requires txid > 0 && Encodable(ws)
    ensures r == Frame(txid, ws)
  {
    hide LittleEndian;
    hide Sum;
    hide Patch64;
    hide Header;
    hide Records;
    hide RecordsLength;
    var len := EncodedLen(ws);
    var length := len.value;
    var footer := length - FOOTER;
    var frame := new byte[length](_ => 0);
    assert frame[..] == Zeros(length);
    PutHeader(frame, txid, |ws|);
    var cursor := PutRecords(frame, ws);
    HeaderPatched(txid, |ws|, cursor, length, Records(ws) + Zeros(length - cursor));
    PutAt(frame, 32, cursor);
    PaddingSplits(txid, ws, length, cursor);
    var crc := Checksum(frame[..footer]);
    PutAt(frame, footer, crc);
    assert frame[..footer + 8] == frame[..];
    return frame[..];
  }

  lemma {:induction false} PaddingSplits(txid: u64, ws: seq<Write>, length: nat, end: nat)
    requires txid > 0 && Bounded(ws) && |ws| < 0x1_0000_0000 && end == HEADER + RecordsLength(ws)
    requires end + FOOTER <= length <= MAX_FRAME
    ensures (Header(txid, |ws|, end, length) + (Records(ws) + Zeros(length - end)))[..length - FOOTER] == Contents(txid, ws, length)
  {
    hide Header;
    hide Records;
    hide RecordsLength;
    hide Zeros;
    var h, r, z, tail := Header(txid, |ws|, end, length), Records(ws), Zeros(length - FOOTER - end), Zeros(FOOTER);
    ZerosSplit(length - FOOTER - end, FOOTER);
    Reassociate(h, r, z, tail);
    FourParts(h + r + z + tail, h, r, z, tail, HEADER, end, length - FOOTER);
  }

  lemma {:induction false} Reassociate(h: seq<byte>, r: seq<byte>, z: seq<byte>, tail: seq<byte>)
    ensures h + (r + (z + tail)) == h + r + z + tail
  {
  }

  lemma {:induction false} NoRecords()
    ensures RecordsLength([]) == 0 && Records([]) == []
  {
  }

  lemma {:induction false} RecordsPrefix(ws: seq<Write>, i: nat)
    requires i <= |ws| && Bounded(ws)
    ensures RecordsLength(ws[..i]) <= RecordsLength(ws)
    decreases |ws| - i
  {
    if i < |ws| {
      assert ws[..i + 1] == ws[..i] + [ws[i]];
      RecordsAppend(ws[..i], ws[i]);
      RecordsPrefix(ws, i + 1);
    } else {
      assert ws[..i] == ws;
    }
  }

  method DecodeRecords(frame: seq<byte>, payloadEnd: nat, count: nat) returns (r: Option<seq<Write>>)
    requires HEADER <= payloadEnd <= |frame|
    ensures r == ParseRecords(frame, HEADER, payloadEnd, count)
  {
    hide FromLittleEndian;
    var ws := [];
    var cursor := HEADER;
    ghost var goal := ParseRecords(frame, HEADER, payloadEnd, count);
    assert goal.Some? ==> [] + goal.value == goal.value;
    for i := 0 to count
      invariant HEADER <= cursor <= payloadEnd && |ws| == i
      invariant var rest := ParseRecords(frame, cursor, payloadEnd, count - i);
        goal == if rest.None? then None else Some(ws + rest.value)
    {
      if cursor + 16 > payloadEnd {
        return None;
      }
      var offset, n := Get64(frame, cursor), Get64(frame, cursor + 8);
      if cursor + 16 + n > payloadEnd || offset + n >= U64_LIMIT {
        return None;
      }
      ghost var rest := ParseRecords(frame, cursor + 16 + n, payloadEnd, count - i - 1);
      var w := Write(offset, frame[cursor + 16..cursor + 16 + n]);
      assert rest.Some? ==> ws + ([w] + rest.value) == (ws + [w]) + rest.value;
      ws := ws + [w];
      cursor := cursor + 16 + n;
    }
    if cursor != payloadEnd {
      return None;
    }
    assert ws + [] == ws;
    return Some(ws);
  }

  method Decode(frame: seq<byte>, previous: u64) returns (r: Option<(u64, seq<Write>)>)
    ensures r == Decoded(frame, previous)
  {
    hide FromLittleEndian;
    hide Sum;
    hide ParseRecords;
    var length := AnnouncedLength(frame, |frame|);
    if length.None? || length.value != |frame| || frame[44..48] != Zeros(4) {
      return None;
    }
    if previous + 1 >= U64_LIMIT || Get64(frame, 16) != previous + 1 || Get64(frame, 24) != previous {
      return None;
    }
    var footer := |frame| - FOOTER;
    var sum := Checksum(frame[..footer]);
    if sum != Get64(frame, footer) {
      return None;
    }
    var payloadEnd, count := Get64(frame, 32), Get32(frame, 40);
    if !(HEADER <= payloadEnd <= footer) || count > (payloadEnd - HEADER) / 16 {
      return None;
    }
    var ws := DecodeRecords(frame, payloadEnd, count);
    if ws.None? {
      return None;
    }
    for i := payloadEnd to footer
      invariant forall k :: payloadEnd <= k < i ==> frame[k] == 0
    {
      if frame[i] != 0 {
        assert frame[payloadEnd..footer][i - payloadEnd] != 0;
        return None;
      }
    }
    assert frame[payloadEnd..footer] == Zeros(footer - payloadEnd);
    return Some((previous + 1, ws.value));
  }

  // ---- Recovery ----

  datatype Recovery = Recovery(frames: seq<(u64, seq<Write>)>, validBytes: nat)

  /** The frame that recovery would take at `at`, and its length. */
  function FrameAt(bytes: seq<byte>, at: nat, previous: u64): (r: Option<(u64, seq<Write>)>)
    requires at <= |bytes|
    ensures r.Some? ==> AnnouncedLength(bytes[at..], |bytes| - at).Some?
  {
    var length := AnnouncedLength(bytes[at..], |bytes| - at);
    if length.None? then None else Decoded(bytes[at..at + length.value], previous)
  }

  function LengthAt(bytes: seq<byte>, at: nat): nat
    requires at <= |bytes| && AnnouncedLength(bytes[at..], |bytes| - at).Some?
  {
    AnnouncedLength(bytes[at..], |bytes| - at).value
  }

  function RecoverFrom(bytes: seq<byte>, at: nat, previous: u64): (r: Recovery)
    requires at <= |bytes|
    ensures at <= r.validBytes <= |bytes|
    decreases |bytes| - at
  {
    var frame := FrameAt(bytes, at, previous);
    if frame.None? then Recovery([], at)
    else
      var rest := RecoverFrom(bytes, at + LengthAt(bytes, at), frame.value.0);
      Recovery([frame.value] + rest.frames, rest.validBytes)
  }

  /** Consecutive frames from `at`, of the given lengths, each following the one before. */
  ghost predicate Chain(bytes: seq<byte>, at: nat, previous: u64, frames: seq<(u64, seq<Write>)>, lengths: seq<nat>)
    decreases |frames|
  {
    && |lengths| == |frames|
    && (|frames| > 0 ==>
          && at + lengths[0] <= |bytes|
          && Decoded(bytes[at..at + lengths[0]], previous) == Some(frames[0])
          && Chain(bytes, at + lengths[0], frames[0].0, frames[1..], lengths[1..]))
  }

  function Total(lengths: seq<nat>): nat {
    if |lengths| == 0 then 0 else lengths[0] + Total(lengths[1..])
  }

  lemma {:induction false} RecoveredIsChain(bytes: seq<byte>, at: nat, previous: u64) returns (lengths: seq<nat>)
    requires at <= |bytes|
    ensures var r := RecoverFrom(bytes, at, previous);
      Chain(bytes, at, previous, r.frames, lengths) && r.validBytes == at + Total(lengths)
    decreases |bytes| - at
  {
    hide Decoded;
    hide AnnouncedLength;
    hide Chain;
    hide Total;
    var frame := FrameAt(bytes, at, previous);
    if frame.None? {
      lengths := [];
      ChainNothing(bytes, at, previous);
    } else {
      var n := LengthAt(bytes, at);
      var rest := RecoveredIsChain(bytes, at + n, frame.value.0);
      lengths := [n] + rest;
      ChainOnto(bytes, at, previous, frame.value, n, RecoverFrom(bytes, at + n, frame.value.0).frames, rest);
    }
  }

  lemma ChainNothing(bytes: seq<byte>, at: nat, previous: u64)
    ensures Chain(bytes, at, previous, [], []) && Total([]) == 0
  {
  }

  lemma ChainOnto(bytes: seq<byte>, at: nat, previous: u64, first: (u64, seq<Write>), n: nat,
                  frames: seq<(u64, seq<Write>)>, lengths: seq<nat>)
    requires at + n <= |bytes| && Decoded(bytes[at..at + n], previous) == Some(first)
    requires Chain(bytes, at + n, first.0, frames, lengths)
    ensures Chain(bytes, at, previous, [first] + frames, [n] + lengths) && Total([n] + lengths) == n + Total(lengths)
  {
    hide Decoded;
    assert ([first] + frames)[1..] == frames && ([n] + lengths)[1..] == lengths;
  }

  /** The announced length is the only one at which bytes can decode. */
  lemma {:induction false} DecodedLength(bytes: seq<byte>, at: nat, previous: u64, n: nat)
    requires at + n <= |bytes| && Decoded(bytes[at..at + n], previous).Some?
    ensures AnnouncedLength(bytes[at..], |bytes| - at) == Some(n)
    ensures FrameAt(bytes, at, previous) == Decoded(bytes[at..at + n], previous)
  {
    hide FromLittleEndian;
    hide Sum;
    var frame := bytes[at..at + n];
    assert AnnouncedLength(frame, n) == Some(n);
    assert n >= ALIGNMENT;
    SubSlice(bytes, at, at + n, 0, 8);
    SubSlice(bytes, at, at + n, 8, 16);
    SubSlice(bytes, at, |bytes|, 0, 8);
    SubSlice(bytes, at, |bytes|, 8, 16);
    assert bytes[at..] == bytes[at..|bytes|];
  }

  /** Recovery returns the longest chain: every chain of valid frames is a prefix of what it returns. */
  lemma {:induction false} RecoveredIsLongest(
    bytes: seq<byte>, at: nat, previous: u64, frames: seq<(u64, seq<Write>)>, lengths: seq<nat>)
    requires at <= |bytes| && Chain(bytes, at, previous, frames, lengths)
    ensures frames <= RecoverFrom(bytes, at, previous).frames
    ensures at + Total(lengths) <= RecoverFrom(bytes, at, previous).validBytes
    decreases |frames|
  {
    hide Decoded;
    if |frames| > 0 {
      DecodedLength(bytes, at, previous, lengths[0]);
      RecoveredIsLongest(bytes, at + lengths[0], frames[0].0, frames[1..], lengths[1..]);
    }
  }

  method Recover(bytes: seq<byte>, checkpointTxid: u64) returns (r: Recovery)
    ensures r == RecoverFrom(bytes, 0, checkpointTxid)
  {
    hide Decoded;
    hide AnnouncedLength;
    r := Recovery([], 0);
    var previous := checkpointTxid;
    ghost var goal := RecoverFrom(bytes, 0, checkpointTxid);
    while true
      invariant r.validBytes <= |bytes|
      invariant var rest := RecoverFrom(bytes, r.validBytes, previous);
        goal == Recovery(r.frames + rest.frames, rest.validBytes)
      decreases |bytes| - r.validBytes
    {
      var length := AnnouncedLength(bytes[r.validBytes..], |bytes| - r.validBytes);
      if length.None? {
        break;
      }
      var frame := Decode(bytes[r.validBytes..r.validBytes + length.value], previous);
      if frame.None? {
        break;
      }
      ghost var rest := RecoverFrom(bytes, r.validBytes + length.value, frame.value.0);
      assert r.frames + ([frame.value] + rest.frames) == (r.frames + [frame.value]) + rest.frames;
      previous := frame.value.0;
      r := Recovery(r.frames + [frame.value], r.validBytes + length.value);
    }
    assert r.frames + [] == r.frames;
  }

  /** The part of a journal region that the device can return. */
  function Readable(img: seq<byte>, base: nat, capacity: nat): seq<byte> {
    if base > |img| then []
    else if base + capacity <= |img| then img[base..base + capacity]
    else img[base..]
  }

  lemma {:induction false} ReadableSlice(img: seq<byte>, base: nat, capacity: nat, at: nat, n: nat)
    requires base + at + n <= |img| && at + n <= capacity
    ensures at + n <= |Readable(img, base, capacity)|
    ensures Readable(img, base, capacity)[at..at + n] == img[base + at..base + at + n]
  {
    if base + capacity <= |img| {
      SubSlice(img, base, base + capacity, at, at + n);
    } else {
      SubSlice(img, base, |img|, at, at + n);
      assert img[base..] == img[base..|img|];
    }
  }

  /** One frame of streaming recovery: its header first, then the whole frame. */
  method ReadFrame(device: Device, base: nat, capacity: nat, at: nat, previous: u64)
    returns (r: Result<Option<((u64, seq<Write>), nat)>>)
    requires device.Valid()
    requires at <= |Readable(View(device.Content()), base, capacity)| && at + HEADER <= capacity
    modifies device`failures
    ensures r.Ok? ==> device.failures == old(device.failures)
    ensures r.Err? ==> device.failures > old(device.failures)
    ensures r.Ok? ==>
      var region := Readable(View(device.Content()), base, capacity);
      match r.value
      case None => FrameAt(region, at, previous).None?
      case Some((frame, n)) => FrameAt(region, at, previous) == Some(frame) && n == LengthAt(region, at)
  {
    hide Decoded;
    hide ApplyAll;
    ghost var region := Readable(View(device.Content()), base, capacity);
    var header := device.Read(base + at, HEADER);
    if header.Err? {
      if header.kind == UnexpectedEof {
        assert |region| - at < HEADER;
        return Ok(None);
      }
      return Err(header.kind);
    }
    ReadableSlice(View(device.Content()), base, capacity, at, HEADER);
    assert region[at..][..HEADER] == region[at..at + HEADER];
    HeaderDecides(region[at..], |region| - at);
    HeaderDecides(region[at..], capacity - at);
    hide Get64;
    var length := AnnouncedLength(header.value, capacity - at);
    if length.None? {
      return Ok(None);
    }
    var frame := device.Read(base + at, length.value);
    if frame.Err? {
      if frame.kind == UnexpectedEof {
        assert length.value > |region| - at;
        return Ok(None);
      }
      return Err(frame.kind);
    }
    ReadableSlice(View(device.Content()), base, capacity, at, length.value);
    var decoded := Decode(frame.value, previous);
    if decoded.None? {
      return Ok(None);
    }
    return Ok(Some((decoded.value, length.value)));
  }

  /** Streaming recovery finds the frames that `recover` finds in the readable part of the region. */
  method ReadRecovery(device: Device, base: u64, capacity: nat, checkpointTxid: u64) returns (r: Result<Recovery>)
    requires device.Valid()
    modifies device`failures
    ensures base + capacity >= U64_LIMIT ==> r.Err?
    ensures r.Err? ==> base + capacity >= U64_LIMIT || device.failures > old(device.failures)
    ensures r.Ok? ==> device.failures == old(device.failures)
    ensures r.Ok? ==> r.value == RecoverFrom(Readable(View(device.Content()), base, capacity), 0, checkpointTxid)
  {
    hide Decoded;
    hide View;
    hide Readable;
    hide AnnouncedLength;
    if base + capacity >= U64_LIMIT {
      return Err(InvalidInput);
    }
    ghost var region := Readable(View(device.Content()), base, capacity);
    var recovery := Recovery([], 0);
    var previous := checkpointTxid;
    ghost var goal := RecoverFrom(region, 0, checkpointTxid);
    while capacity - recovery.validBytes >= HEADER
      invariant recovery.validBytes <= |region| && device.failures == old(device.failures)
      invariant var rest := RecoverFrom(region, recovery.validBytes, previous);
        goal == Recovery(recovery.frames + rest.frames, rest.validBytes)
      decreases |region| - recovery.validBytes
    {
      var at := recovery.validBytes;
      var next :- ReadFrame(device, base, capacity, at, previous);
      if next.None? {
        assert recovery.frames + [] == recovery.frames;
        return Ok(recovery);
      }
      var (frame, n) := next.value;
      ghost var rest := RecoverFrom(region, at + n, frame.0);
      assert recovery.frames + ([frame] + rest.frames) == (recovery.frames + [frame]) + rest.frames;
      previous := frame.0;
      recovery := Recovery(recovery.frames + [frame], at + n);
    }
    ShortRegion(View(device.Content()), base, capacity, recovery.validBytes, previous);
    assert recovery.frames + [] == recovery.frames;
    return Ok(recovery);
  }

  lemma {:induction false} ShortRegion(img: seq<byte>, base: nat, capacity: nat, at: nat, previous: u64)
    requires at <= |Readable(img, base, capacity)| && capacity - at < HEADER
    ensures FrameAt(Readable(img, base, capacity), at, previous).None?
  {
  }

  lemma {:induction false} HeaderDecides(bytes: seq<byte>, remaining: nat)
    requires |bytes| >= HEADER
    ensures AnnouncedLength(bytes, remaining) == AnnouncedLength(bytes[..HEADER], remaining)
  {
    hide FromLittleEndian;
    var h := bytes[..HEADER];
    assert h[..8] == bytes[..8];
    forall k | 0 <= k < 8 ensures h[8..16][k] == bytes[8..16][k] {
      assert h[8 + k] == bytes[8 + k];
    }
    assert h[8..16] == bytes[8..16];
  }
}
