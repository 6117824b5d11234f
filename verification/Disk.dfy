/**
 * What a device with a volatile cache may hold. Writes sit in `pending` until a sync folds them into
 * `stable`; a power loss keeps, for every byte independently, the stable value or the value of any
 * pending write that covers it.
 */
module Disks {
  import opened Bytes

  datatype Disk = Disk(stable: seq<byte>, pending: seq<Write>)

  predicate Fits(size: nat, ws: seq<Write>) {
    forall i :: 0 <= i < |ws| ==> End(ws[i]) <= size
  }

  predicate Sound(d: Disk) {
    Fits(|d.stable|, d.pending)
  }

  function Apply(img: seq<byte>, w: Write): (r: seq<byte>)
    requires End(w) <= |img|
    ensures |r| == |img|
    ensures forall a :: 0 <= a < |img| ==> r[a] == if Covers(w, a) then w.bytes[a - w.offset] else img[a]
  {
    img[..w.offset] + w.bytes + img[End(w)..]
  }

  function ApplyAll(img: seq<byte>, ws: seq<Write>): (r: seq<byte>)
    requires Fits(|img|, ws)
    ensures |r| == |img|
  {
    if |ws| == 0 then img else Apply(ApplyAll(img, ws[..|ws| - 1]), ws[|ws| - 1])
  }

  /** What reads return, and what a successful sync makes durable. */
  function View(d: Disk): (r: seq<byte>)
    requires Sound(d)
    ensures |r| == |d.stable|
  {
    ApplyAll(d.stable, d.pending)
  }

  ghost predicate CrashByte(d: Disk, a: nat, v: byte)
    requires a < |d.stable|
  {
    || v == d.stable[a]
    || exists i :: 0 <= i < |d.pending| && Covers(d.pending[i], a) && d.pending[i].bytes[a - d.pending[i].offset] == v
  }

  /** An image a power loss may leave behind. */
  ghost predicate CrashImage(d: Disk, img: seq<byte>) {
    |img| == |d.stable| && forall a :: 0 <= a < |img| ==> CrashByte(d, a, img[a])
  }

  predicate Quiet(ws: seq<Write>, a: int) {
    forall i :: 0 <= i < |ws| ==> !Covers(ws[i], a)
  }

  /** The byte at `a` is durable and no write is in flight over it. */
  predicate Holds(d: Disk, a: int, v: byte) {
    0 <= a < |d.stable| && d.stable[a] == v && Quiet(d.pending, a)
  }

  predicate HoldsAll(d: Disk, at: int, bytes: seq<byte>) {
    forall i :: 0 <= i < |bytes| ==> Holds(d, at + i, bytes[i])
  }

  /** A write that the device accepted. */
  function Issued(d: Disk, w: Write): Disk {
    Disk(d.stable, d.pending + [w])
  }

  /** A stretch of the bytes of `w` at their place. */
  predicate Piece(v: Write, w: Write) {
    w.offset <= v.offset && End(v) <= End(w) && v.bytes == w.bytes[v.offset - w.offset..End(v) - w.offset]
  }

  /** A write that failed after the device had accepted any parts of it. */
  predicate Torn(d: Disk, w: Write, d': Disk) {
    && d'.stable == d.stable && d.pending <= d'.pending
    && forall i :: |d.pending| <= i < |d'.pending| ==> Piece(d'.pending[i], w)
  }

  function Flushed(d: Disk): Disk
    requires Sound(d)
  {
    Disk(View(d), [])
  }

  /** A sync that failed after some writeback; the cache still holds everything. */
  ghost predicate HalfFlushed(d: Disk, d': Disk) {
    d'.pending == d.pending && CrashImage(d, d'.stable)
  }

  /** A write call on `d`: accepted whole, or failed in any part, and then the caller stops. */
  ghost predicate Sent(d: Disk, w: Write, d': Disk, stopped': bool) {
    if stopped' then Torn(d, w, d') else d' == Issued(d, w)
  }

  /** A barrier on `d`: complete, or failed after any writeback. */
  ghost predicate Synced(d: Disk, d': Disk, stopped': bool) {
    Sound(d) && if stopped' then HalfFlushed(d, d') else d' == Flushed(d)
  }

  lemma {:induction false} ApplyAllByte(img: seq<byte>, ws: seq<Write>, a: nat)
    requires Fits(|img|, ws) && a < |img|
    ensures Quiet(ws, a) ==> ApplyAll(img, ws)[a] == img[a]
    ensures CrashByte(Disk(img, ws), a, ApplyAll(img, ws)[a])
  {
    if |ws| > 0 {
      var n := |ws| - 1;
      ApplyAllByte(img, ws[..n], a);
      if Covers(ws[n], a) {
        assert ApplyAll(img, ws)[a] == ws[n].bytes[a - ws[n].offset];
      } else if ApplyAll(img, ws[..n])[a] != img[a] {
        var i :| 0 <= i < n && Covers(ws[..n][i], a) && ws[..n][i].bytes[a - ws[..n][i].offset] == ApplyAll(img, ws[..n])[a];
        assert ws[i] == ws[..n][i];
      }
    }
  }

  /** The last write over an address decides its byte. */
  lemma {:induction false} ApplyAllLast(img: seq<byte>, ws: seq<Write>, k: nat, a: nat)
    requires Fits(|img|, ws) && a < |img|
    requires k < |ws| && Covers(ws[k], a)
    requires forall j :: k < j < |ws| ==> !Covers(ws[j], a)
    ensures ApplyAll(img, ws)[a] == ws[k].bytes[a - ws[k].offset]
  {
    if k < |ws| - 1 {
      ApplyAllLast(img, ws[..|ws| - 1], k, a);
    }
  }

  lemma {:induction false} ViewIsCrashImage(d: Disk)
    requires Sound(d)
    ensures CrashImage(d, View(d))
  {
    forall a | 0 <= a < |d.stable| ensures CrashByte(d, a, View(d)[a]) {
      ApplyAllByte(d.stable, d.pending, a);
    }
  }

  /** Durable bytes survive every crash image, and stay durable on the device that restarts from it. */
  lemma {:induction false} HeldInImage(d: Disk, img: seq<byte>, at: nat, bytes: seq<byte>)
    requires CrashImage(d, img) && HoldsAll(d, at, bytes) && at + |bytes| <= |img|
    ensures img[at..at + |bytes|] == bytes
    ensures HoldsAll(Disk(img, []), at, bytes)
    ensures HoldsAll(Disk(img, d.pending), at, bytes)
  {
    forall i | 0 <= i < |bytes|
      ensures img[at + i] == bytes[i] && Holds(d, at + i, bytes[i])
    {
      assert Holds(d, at + i, bytes[i]);
      assert CrashByte(d, at + i, img[at + i]);
    }
  }

  lemma {:induction false} HeldByteInImage(d: Disk, img: seq<byte>, a: nat, v: byte)
    requires CrashImage(d, img) && Holds(d, a, v)
    ensures img[a] == v
  {
    assert CrashByte(d, a, img[a]);
  }

  predicate Apart(w: Write, at: int, len: int) {
    End(w) <= at || at + len <= w.offset
  }

  /** A further write, whole or torn, leaves durable bytes alone when it is apart from them. */
  lemma {:induction false} HeldUnderWrite(d: Disk, w: Write, d': Disk, at: int, bytes: seq<byte>)
    requires HoldsAll(d, at, bytes) && Apart(w, at, |bytes|)
    requires d' == Issued(d, w) || Torn(d, w, d')
    ensures HoldsAll(d', at, bytes)
  {
    forall i | 0 <= i < |bytes| ensures Holds(d', at + i, bytes[i]) {
      assert Holds(d, at + i, bytes[i]);
      HeldByteUnderWrite(d, w, d', at + i, bytes[i]);
    }
  }

  lemma {:induction false} HeldByteUnderWrite(d: Disk, w: Write, d': Disk, a: int, v: byte)
    requires Holds(d, a, v) && !Covers(w, a)
    requires d' == Issued(d, w) || Torn(d, w, d')
    ensures Holds(d', a, v)
  {
    forall i | 0 <= i < |d'.pending| ensures !Covers(d'.pending[i], a) {
      if i < |d.pending| {
        assert d'.pending[i] == d.pending[i];
      }
    }
  }

  lemma {:induction false} SoundUnderWrite(d: Disk, w: Write, d': Disk)
    requires Sound(d) && End(w) <= |d.stable|
    requires d' == Issued(d, w) || Torn(d, w, d')
    ensures Sound(d')
  {
    forall i | 0 <= i < |d'.pending| ensures End(d'.pending[i]) <= |d.stable| {
      if i < |d.pending| {
        assert d'.pending[i] == d.pending[i];
      }
    }
  }

  /** A write that nothing later in the cache covers is durable after a sync. */
  lemma {:induction false} FlushedWrite(d: Disk, k: nat)
    requires Sound(d) && k < |d.pending|
    requires forall j :: k < j < |d.pending| ==> Apart(d.pending[j], d.pending[k].offset, |d.pending[k].bytes|)
    ensures HoldsAll(Flushed(d), d.pending[k].offset, d.pending[k].bytes)
  {
    var w := d.pending[k];
    forall i | 0 <= i < |w.bytes| ensures Holds(Flushed(d), w.offset + i, w.bytes[i]) {
      ApplyAllLast(d.stable, d.pending, k, w.offset + i);
    }
  }

  lemma {:induction false} HeldJoin(d: Disk, at: int, a: seq<byte>, b: seq<byte>)
    requires HoldsAll(d, at, a) && HoldsAll(d, at + |a|, b)
    ensures HoldsAll(d, at, a + b)
  {
    forall i | 0 <= i < |a + b| ensures Holds(d, at + i, (a + b)[i]) {
      if i >= |a| {
        assert Holds(d, at + |a| + (i - |a|), b[i - |a|]);
      }
    }
  }

  /** Writeback, complete or not, keeps what is durable. */
  lemma {:induction false} HeldAfterFlush(d: Disk, d': Disk, at: nat, bytes: seq<byte>)
    requires Sound(d) && (d' == Flushed(d) || HalfFlushed(d, d')) && HoldsAll(d, at, bytes) && at + |bytes| <= |d.stable|
    ensures HoldsAll(d', at, bytes)
  {
    if d' == Flushed(d) {
      ViewIsCrashImage(d);
    }
    HeldInImage(d, d'.stable, at, bytes);
    assert d' == Disk(d'.stable, []) || d' == Disk(d'.stable, d.pending);
  }

  lemma {:induction false} HeldByteAfterFlush(d: Disk, d': Disk, a: nat, v: byte)
    requires Sound(d) && (d' == Flushed(d) || HalfFlushed(d, d')) && Holds(d, a, v)
    ensures Holds(d', a, v)
  {
    if d' == Flushed(d) {
      ViewIsCrashImage(d);
    }
    HeldByteInImage(d, d'.stable, a, v);
  }

  lemma {:induction false} SoundAfterFlush(d: Disk, d': Disk)
    requires Sound(d) && (d' == Flushed(d) || HalfFlushed(d, d'))
    ensures Sound(d') && |d'.stable| == |d.stable|
  {
  }

  // ---- The crash model is not too kind ----

  /** The writes of the chosen indices, in order. */
  function Chosen(ws: seq<Write>, keep: set<nat>): seq<Write> {
    if |ws| == 0 then []
    else Chosen(ws[..|ws| - 1], keep) + if |ws| - 1 in keep then [ws[|ws| - 1]] else []
  }

  lemma {:induction false} ChosenAmong(ws: seq<Write>, keep: set<nat>, i: nat) returns (k: nat)
    requires i < |Chosen(ws, keep)|
    ensures k < |ws| && ws[k] == Chosen(ws, keep)[i]
  {
    var n := |ws| - 1;
    if i < |Chosen(ws[..n], keep)| {
      k := ChosenAmong(ws[..n], keep, i);
    } else {
      k := n;
    }
  }

  /** A power loss may keep any of the writes in flight and lose the others. */
  lemma {:induction false} AnySubsetMayLand(d: Disk, keep: set<nat>)
    requires Sound(d)
    ensures Fits(|d.stable|, Chosen(d.pending, keep))
    ensures CrashImage(d, ApplyAll(d.stable, Chosen(d.pending, keep)))
  {
    var ws := Chosen(d.pending, keep);
    forall i | 0 <= i < |ws|
      ensures exists k :: 0 <= k < |d.pending| && d.pending[k] == ws[i]
    {
      var k := ChosenAmong(d.pending, keep, i);
    }
    forall a | 0 <= a < |d.stable|
      ensures CrashByte(d, a, ApplyAll(d.stable, ws)[a])
    {
      ApplyAllByte(d.stable, ws, a);
      var v := ApplyAll(d.stable, ws)[a];
      if v != d.stable[a] {
        var i :| 0 <= i < |ws| && Covers(ws[i], a) && ws[i].bytes[a - ws[i].offset] == v;
        var k :| 0 <= k < |d.pending| && d.pending[k] == ws[i];
      }
    }
  }

  /** And any two crash images may mix, byte by byte: there is no order between the writes and no smallest piece. */
  lemma {:induction false} CrashImagesMix(d: Disk, x: seq<byte>, y: seq<byte>, img: seq<byte>)
    requires CrashImage(d, x) && CrashImage(d, y) && |img| == |d.stable|
    requires forall a :: 0 <= a < |img| ==> img[a] == x[a] || img[a] == y[a]
    ensures CrashImage(d, img)
  {
  }
}
