/**
 * The one-barrier validated copy-on-write protocol as a state machine. Every step is one device call
 * (or one crash), so a run visits every intermediate device state of every commit, checkpoint and
 * resume. The history variables record what was submitted; no step reads them.
 */
module Cow {
  import opened Bytes
  import opened Disks
  import opened Runs
  import opened Fnv
  import opened Manifests
  import opened MetaPages

  /**
   * `data` is the end of the data region, where two descriptor slots of `slot` bytes begin; the two
   * conventional meta pages are at its start.
   */
  datatype Geometry = Geometry(data: u64, slot: u64, meta: Format)

  predicate GeometryOk(g: Geometry) {
    && g.slot >= HEADER && g.slot % 512 == 0 && g.data % 512 == 0
    && g.data + 2 * g.slot < U64_LIMIT
    && 2 * g.meta.page <= g.data
  }

  function SaturatingAdd(a: u64, b: u64): u64 {
    if a + b >= U64_LIMIT then U64_LIMIT - 1 else a + b
  }

  predicate Overlaps(a: u64, alen: u64, b: u64, blen: u64) {
    a < SaturatingAdd(b, blen) && b < SaturatingAdd(a, alen)
  }

  ghost predicate Inside(x: int, at: int, len: int) {
    at <= x < at + len
  }

  /** Nonempty ranges overlap exactly when they share an address, an empty one exactly strictly inside another. */
  lemma OverlapsMeans(a: u64, alen: u64, b: u64, blen: u64)
    requires a + alen < U64_LIMIT && b + blen < U64_LIMIT
    ensures alen > 0 && blen > 0 ==> (Overlaps(a, alen, b, blen) <==> exists x :: Inside(x, a, alen) && Inside(x, b, blen))
    ensures alen == 0 ==> (Overlaps(a, alen, b, blen) <==> b < a < b + blen)
    ensures blen == 0 ==> (Overlaps(a, alen, b, blen) <==> a < b < a + alen)
  {
    if alen > 0 && blen > 0 && Overlaps(a, alen, b, blen) {
      var x := if a < b then b else a;
      assert Inside(x, a, alen) && Inside(x, b, blen);
    }
  }

  /**
   * One submitted transaction: what `commit` is given, and `live`, the bytes of the database snapshot
   * that its meta page is the root of.
   */
  datatype Txn = Txn(seqno: u64, body: seq<Write>, meta: Write, live: map<int, byte>)

  predicate Small(t: Txn) {
    End(t.meta) < U64_LIMIT && forall i :: 0 <= i < |t.body| ==> End(t.body[i]) < U64_LIMIT
  }

  function ExtentOf(w: Write): Extent
    requires End(w) < U64_LIMIT
  {
    Extent(w.offset, |w.bytes|, Digest(w.bytes))
  }

  function ManifestOf(t: Txn): (m: Manifest)
    requires Small(t)
    ensures Representable(m) && |m.body| == |t.body| && m.seqno == t.seqno && m.meta == t.meta
  {
    Manifest(t.seqno, t.meta, seq(|t.body|, i requires 0 <= i < |t.body| => ExtentOf(t.body[i])))
  }

  predicate WritesOverlap(a: Write, b: Write)
    requires End(a) < U64_LIMIT && End(b) < U64_LIMIT
  {
    Overlaps(a.offset, |a.bytes|, b.offset, |b.bytes|)
  }

  /** The checks `commit` makes on its arguments, apart from the sequence number. */
  predicate Accepted(g: Geometry, t: Txn) {
    && Small(t)
    && End(t.meta) <= g.data
    && (forall i :: 0 <= i < |t.body| ==> End(t.body[i]) <= g.data)
    && (forall i :: 0 <= i < |t.body| ==> !WritesOverlap(t.body[i], t.meta))
    && (forall i, j :: 0 <= j < i < |t.body| ==> !WritesOverlap(t.body[i], t.body[j]))
    && EncodedLength(ManifestOf(t)) <= g.slot
  }

  /** Two writes share a byte, or one is empty and strictly inside the other. */
  ghost predicate Touch(v: Write, w: Write) {
    || (exists x :: Covers(v, x) && Covers(w, x))
    || (|v.bytes| == 0 && w.offset < v.offset < End(w))
    || (|w.bytes| == 0 && v.offset < w.offset < End(v))
  }

  lemma WritesOverlapMeans(v: Write, w: Write)
    requires End(v) < U64_LIMIT && End(w) < U64_LIMIT
    ensures WritesOverlap(v, w) <==> Touch(v, w)
  {
    OverlapsMeans(v.offset, |v.bytes|, w.offset, |w.bytes|);
    if WritesOverlap(v, w) && |v.bytes| > 0 && |w.bytes| > 0 {
      var x :| Inside(x, v.offset, |v.bytes|) && Inside(x, w.offset, |w.bytes|);
      assert Covers(v, x) && Covers(w, x);
    }
    if x :| Covers(v, x) && Covers(w, x) {
      assert Inside(x, v.offset, |v.bytes|) && Inside(x, w.offset, |w.bytes|);
    }
  }

  /** What `commit` accepts, in addresses: writes in the region that do not touch, and a descriptor that fits its slot. */
  lemma AcceptedMeans(g: Geometry, t: Txn)
    ensures Accepted(g, t) <==>
      && End(t.meta) <= g.data && (forall i :: 0 <= i < |t.body| ==> End(t.body[i]) <= g.data)
      && (forall i :: 0 <= i < |t.body| ==> !Touch(t.body[i], t.meta))
      && (forall i, j :: 0 <= j < i < |t.body| ==> !Touch(t.body[i], t.body[j]))
      && HEADER + ENTRY * |t.body| + |t.meta.bytes| <= g.slot
  {
    hide Overlaps;
    hide WritesOverlap;
    hide Touch;
    hide Digest;
    if End(t.meta) <= g.data && forall i :: 0 <= i < |t.body| ==> End(t.body[i]) <= g.data {
      forall i | 0 <= i < |t.body|
        ensures WritesOverlap(t.body[i], t.meta) <==> Touch(t.body[i], t.meta)
      {
        WritesOverlapMeans(t.body[i], t.meta);
      }
      forall i, j | 0 <= j < i < |t.body|
        ensures WritesOverlap(t.body[i], t.body[j]) <==> Touch(t.body[i], t.body[j])
      {
        WritesOverlapMeans(t.body[i], t.body[j]);
      }
    }
  }

  /** The caller's side: the meta is a valid page of this transaction for one conventional slot. */
  predicate MetaOk(g: Geometry, t: Txn) {
    && (t.meta.offset == 0 || t.meta.offset == g.meta.page)
    && |t.meta.bytes| == g.meta.page
    && g.meta.txid(t.meta.bytes) == Some(t.seqno)
  }

  /** The caller's side: body and snapshot stay out of the two conventional meta pages. */
  predicate OutsideMeta(g: Geometry, t: Txn) {
    && (forall i :: 0 <= i < |t.body| ==> 2 * g.meta.page <= t.body[i].offset)
    && (forall a :: a in t.live ==> 2 * g.meta.page <= a < g.data)
  }

  predicate TxnOk(g: Geometry, t: Txn) {
    Accepted(g, t) && MetaOk(g, t) && OutsideMeta(g, t)
  }

  /**
   * The allocator's promise: the transaction overwrites nothing that the previous snapshot reaches, and
   * its own snapshot is made of its body writes and of inherited bytes.
   */
  predicate BuiltOn(t: Txn, previous: Txn) {
    && t.seqno == previous.seqno + 1
    && (forall a, i :: a in previous.live && 0 <= i < |t.body| ==> !Covers(t.body[i], a))
    && (forall a, i :: a in t.live && 0 <= i < |t.body| && Covers(t.body[i], a) ==>
          t.live[a] == t.body[i].bytes[a - t.body[i].offset])
    && (forall a :: a in t.live && Quiet(t.body, a) ==> a in previous.live && previous.live[a] == t.live[a])
  }

  /** No body write overlaps an extent of the previous descriptor: no checkpoint is needed. */
  predicate NoReuse(t: Txn, previous: Txn)
    requires Small(t) && Small(previous)
  {
    forall i, j :: 0 <= i < |t.body| && 0 <= j < |previous.body| ==> !WritesOverlap(t.body[i], previous.body[j])
  }

  function SlotStart(g: Geometry, k: nat): nat {
    if k == 0 then g.data else g.data + g.slot
  }

  function SlotAt(g: Geometry, seqno: u64): nat {
    SlotStart(g, seqno % 2)
  }

  function Descriptor(g: Geometry, t: Txn): Write
    requires GeometryOk(g) && Accepted(g, t)
  {
    Write(SlotAt(g, t.seqno), Encoded(ManifestOf(t)))
  }

  // ---- Recovery, as a function of the image it reads ----

  function SlotImage(g: Geometry, img: seq<byte>, k: nat): (s: seq<byte>)
    requires k < 2 && g.data + 2 * g.slot <= |img|
    ensures |s| == g.slot
  {
    img[SlotStart(g, k)..SlotStart(g, k) + g.slot]
  }

  /** `Manifest::validate`. An extent beyond the image does not validate. */
  predicate Validates(g: Geometry, img: seq<byte>, m: Manifest)
    requires Representable(m)
  {
    && End(m.meta) <= g.data
    && forall i :: 0 <= i < |m.body| ==> ExtentValidates(g, img, m, i)
  }

  predicate ExtentValidates(g: Geometry, img: seq<byte>, m: Manifest, i: nat)
    requires Representable(m) && i < |m.body|
  {
    var e := m.body[i];
    && e.offset + e.len <= g.data && e.offset + e.len <= |img|
    && !Overlaps(e.offset, e.len, m.meta.offset, |m.meta.bytes|)
    && Digest(img[e.offset..e.offset + e.len]) == e.checksum
  }

  /** In addresses: the extent lies in the region and on the device, does not touch the meta, and has the recorded digest. */
  ghost predicate ExtentStands(g: Geometry, img: seq<byte>, e: Extent, meta: Write) {
    && e.offset + e.len <= g.data && e.offset + e.len <= |img|
    && !(exists x :: Inside(x, e.offset, e.len) && Covers(meta, x))
    && !(e.len == 0 && meta.offset < e.offset < End(meta))
    && !(|meta.bytes| == 0 && e.offset < meta.offset < e.offset + e.len)
    && Digest(img[e.offset..e.offset + e.len]) == e.checksum
  }

  /** What validation checks: the meta lies in the data region, and every extent stands. */
  lemma ValidatesMeans(g: Geometry, img: seq<byte>, m: Manifest)
    requires Representable(m)
    ensures Validates(g, img, m) <==>
      End(m.meta) <= g.data && forall i :: 0 <= i < |m.body| ==> ExtentStands(g, img, m.body[i], m.meta)
  {
    hide ExtentValidates;
    hide ExtentStands;
    forall i | 0 <= i < |m.body|
      ensures ExtentValidates(g, img, m, i) <==> ExtentStands(g, img, m.body[i], m.meta)
    {
      ExtentMeans(g, img, m, i);
    }
  }

  lemma ExtentMeans(g: Geometry, img: seq<byte>, m: Manifest, i: nat)
    requires Representable(m) && i < |m.body|
    ensures ExtentValidates(g, img, m, i) <==> ExtentStands(g, img, m.body[i], m.meta)
  {
    hide Digest;
    hide Overlaps;
    ExtentMetaMeans(m.body[i], m.meta);
  }

  lemma ExtentMetaMeans(e: Extent, w: Write)
    requires e.offset + e.len < U64_LIMIT && End(w) < U64_LIMIT
    ensures Overlaps(e.offset, e.len, w.offset, |w.bytes|) <==>
      || (exists x :: Inside(x, e.offset, e.len) && Covers(w, x))
      || (e.len == 0 && w.offset < e.offset < End(w))
      || (|w.bytes| == 0 && e.offset < w.offset < e.offset + e.len)
  {
    OverlapsMeans(e.offset, e.len, w.offset, |w.bytes|);
    if Overlaps(e.offset, e.len, w.offset, |w.bytes|) && e.len > 0 && |w.bytes| > 0 {
      var x :| Inside(x, e.offset, e.len) && Inside(x, w.offset, |w.bytes|);
      assert Covers(w, x);
    }
    if x :| Inside(x, e.offset, e.len) && Covers(w, x) {
      assert Inside(x, w.offset, |w.bytes|);
    }
  }

  function Candidate(g: Geometry, img: seq<byte>, k: nat, base: u64): (r: Option<Manifest>)
    requires k < 2 && g.data + 2 * g.slot <= |img|
    ensures r.Some? ==> Decoded(SlotImage(g, img, k)) == r && Representable(r.value)
    ensures r.Some? ==> r.value.seqno > base && r.value.seqno % 2 == k
  {
    var d := Decoded(SlotImage(g, img, k));
    if d.Some? && d.value.seqno > base && d.value.seqno % 2 == k
    then EncodeDecoded(SlotImage(g, img, k)); d
    else None
  }

  function FirstValid(g: Geometry, img: seq<byte>, newer: Option<Manifest>, older: Option<Manifest>): Option<Manifest>
    requires newer.Some? ==> Representable(newer.value)
    requires older.Some? ==> Representable(older.value)
  {
    if newer.Some? && Validates(g, img, newer.value) then newer
    else if older.Some? && Validates(g, img, older.value) then older
    else None
  }

  /** The newest descriptor above `base` whose extents all validate. */
  function Scanned(g: Geometry, img: seq<byte>, base: u64): Option<Manifest>
    requires g.data + 2 * g.slot <= |img|
  {
    var even, odd := Candidate(g, img, 0, base), Candidate(g, img, 1, base);
    if even.Some? && odd.Some? && odd.value.seqno > even.value.seqno
    then FirstValid(g, img, odd, even)
    else FirstValid(g, img, even, odd)
  }

  /** Slot `k` holds this descriptor, newer than the base and in its own slot, and everything it lists validates. */
  ghost predicate Eligible(g: Geometry, img: seq<byte>, base: u64, k: nat, m: Manifest)
    requires g.data + 2 * g.slot <= |img|
  {
    && k < 2 && Decoded(SlotImage(g, img, k)) == Some(m)
    && base < m.seqno && m.seqno % 2 == k && Representable(m) && Validates(g, img, m)
  }

  /** The scan finds the eligible descriptor with the highest number, and nothing only if there is none. */
  lemma ScannedMeans(g: Geometry, img: seq<byte>, base: u64)
    requires g.data + 2 * g.slot <= |img|
    ensures forall m :: Scanned(g, img, base) == Some(m) ==>
      Eligible(g, img, base, m.seqno % 2, m) && forall k, m' :: Eligible(g, img, base, k, m') ==> m'.seqno <= m.seqno
    ensures Scanned(g, img, base) == None <==> forall k, m :: !Eligible(g, img, base, k, m)
  {
    hide Decoded;
    hide Validates;
    hide SlotImage;
    var found := Scanned(g, img, base);
    var even, odd := Candidate(g, img, 0, base), Candidate(g, img, 1, base);
    assert even.Some? ==> (Eligible(g, img, base, 0, even.value) <==> Validates(g, img, even.value));
    assert odd.Some? ==> (Eligible(g, img, base, 1, odd.value) <==> Validates(g, img, odd.value));
    forall k, m | Eligible(g, img, base, k, m)
      ensures found.Some? && m.seqno <= found.value.seqno
    {
      assert k == 0 ==> even == Some(m);
      assert k == 1 ==> odd == Some(m);
    }
    if found.Some? {
      assert Eligible(g, img, base, found.value.seqno % 2, found.value);
    }
  }

  function Recovery(g: Geometry, img: seq<byte>, base: Recovered): Recovered
    requires g.data + 2 * g.slot <= |img|
  {
    match Scanned(g, img, base.seqno)
    case Some(m) => Recovered(m.seqno, m.meta)
    case None => base
  }

  // ---- The state machine ----

  /** `Closed`: no usable writer (crashed, poisoned by an I/O error, or not yet resumed). */
  datatype Phase =
    | Closed
    | Idle
    | Checkpointing
    | Committing(txn: Txn, issued: nat)
    | Publishing(txn: Txn)

  /**
   * `head` is the transaction last acknowledged or resumed, so the writer's sequence number is
   * `head.seqno`; `linked` says that the writer's `latest` is its manifest rather than nothing.
   * `submitted` and `anchored` are history: every transaction whose commit was begun, and every one
   * whose meta was ever sent to a conventional page.
   */
  datatype State = State(
    disk: Disk, phase: Phase, head: Txn, linked: bool, submitted: set<Txn>, anchored: set<Txn>)

  ghost predicate LiveHeld(d: Disk, t: Txn) {
    forall a :: a in t.live ==> Holds(d, a, t.live[a])
  }

  ghost predicate BodyHeld(d: Disk, t: Txn) {
    forall i :: 0 <= i < |t.body| ==> HoldsAll(d, t.body[i].offset, t.body[i].bytes)
  }

  /** The descriptor of `t` and everything it lists are durable and untouched. */
  ghost predicate DescriptorHeld(g: Geometry, d: Disk, t: Txn)
    requires GeometryOk(g)
  {
    && TxnOk(g, t)
    && HoldsAll(d, Descriptor(g, t).offset, Descriptor(g, t).bytes)
    && BodyHeld(d, t)
  }

  /** The conventional page of `t` is durable and untouched. */
  ghost predicate AnchorHeld(d: Disk, t: Txn) {
    HoldsAll(d, t.meta.offset, t.meta.bytes)
  }

  ghost predicate Anchored(g: Geometry, anchored: set<Txn>, head: Txn) {
    forall t :: t in anchored ==> MetaOk(g, t) && t.seqno <= head.seqno && (t.seqno == head.seqno ==> t == head)
  }

  ghost predicate Submitted(g: Geometry, submitted: set<Txn>, head: Txn) {
    forall t :: t in submitted ==>
      && TxnOk(g, t)
      && t.seqno <= head.seqno + 1
      && (t.seqno == head.seqno + 1 ==> BuiltOn(t, head))
  }

  ghost predicate Init(g: Geometry, s: State) {
    && GeometryOk(g)
    && |s.disk.stable| >= g.data + 2 * g.slot
    && s.disk.pending == []
    && s.phase.Idle? && !s.linked
    && MetaOk(g, s.head) && OutsideMeta(g, s.head)
    && AnchorHeld(s.disk, s.head) && LiveHeld(s.disk, s.head)
    && s.submitted == {} && Anchored(g, s.anchored, s.head)
  }

  /** The fallback the writer relies on: the descriptor while linked, the conventional page otherwise. */
  ghost predicate Fallback(g: Geometry, s: State)
    requires GeometryOk(g)
  {
    if s.linked then DescriptorHeld(g, s.disk, s.head) else AnchorHeld(s.disk, s.head)
  }

  ghost predicate Begun(g: Geometry, s: State, t: Txn) {
    && t in s.submitted && TxnOk(g, t) && BuiltOn(t, s.head)
    && (s.linked ==> Small(s.head) && NoReuse(t, s.head))
  }

  ghost predicate PhaseOk(g: Geometry, s: State)
    requires GeometryOk(g)
  {
    match s.phase
    case Closed => DescriptorHeld(g, s.disk, s.head) || AnchorHeld(s.disk, s.head)
    case Idle => Fallback(g, s) && s.disk.pending == []
    case Checkpointing => Fallback(g, s) && s.linked && s.disk.pending == [s.head.meta]
    case Committing(t, k) =>
      Fallback(g, s) && Begun(g, s, t) && k <= |t.body| && s.disk.pending == t.body[..k]
    case Publishing(t) =>
      Fallback(g, s) && Begun(g, s, t) && s.disk.pending == t.body + [Descriptor(g, t)]
  }

  ghost predicate Inv(g: Geometry, s: State) {
    && GeometryOk(g)
    && Sound(s.disk) && |s.disk.stable| >= g.data + 2 * g.slot
    && MetaOk(g, s.head) && OutsideMeta(g, s.head)
    && LiveHeld(s.disk, s.head)
    && Submitted(g, s.submitted, s.head)
    && Anchored(g, s.anchored, s.head)
    && PhaseOk(g, s)
  }

  ghost predicate Wrote(s: State, w: Write, s': State, next: Phase) {
    || (s'.disk == Issued(s.disk, w) && s'.phase == next)
    || (Torn(s.disk, w, s'.disk) && s'.phase == Closed)
  }

  ghost predicate CheckpointWrite(g: Geometry, s: State, s': State) {
    && s.phase.Idle? && s.linked
    && Wrote(s, s.head.meta, s', Checkpointing)
    && s' == s.(disk := s'.disk, phase := s'.phase, anchored := s.anchored + {s.head})
  }

  ghost predicate CheckpointSync(g: Geometry, s: State, s': State) {
    && s.phase.Checkpointing? && Sound(s.disk)
    && ((s'.disk == Flushed(s.disk) && s' == s.(disk := s'.disk, phase := Idle, linked := false))
        || (HalfFlushed(s.disk, s'.disk) && s' == s.(disk := s'.disk, phase := Closed)))
  }

  ghost predicate Begin(g: Geometry, s: State, s': State) {
    && s.phase.Idle? && s'.phase.Committing? && s'.phase.issued == 0
    && var t := s'.phase.txn;
    && TxnOk(g, t) && BuiltOn(t, s.head)
    && (s.linked ==> Small(s.head) && NoReuse(t, s.head))
    && s' == s.(phase := Committing(t, 0), submitted := s.submitted + {t})
  }

  ghost predicate BodyWrite(g: Geometry, s: State, s': State) {
    && s.phase.Committing? && s.phase.issued < |s.phase.txn.body|
    && Wrote(s, s.phase.txn.body[s.phase.issued], s', Committing(s.phase.txn, s.phase.issued + 1))
    && s' == s.(disk := s'.disk, phase := s'.phase)
  }

  ghost predicate DescriptorWrite(g: Geometry, s: State, s': State) {
    && s.phase.Committing? && s.phase.issued == |s.phase.txn.body|
    && GeometryOk(g) && Accepted(g, s.phase.txn)
    && Wrote(s, Descriptor(g, s.phase.txn), s', Publishing(s.phase.txn))
    && s' == s.(disk := s'.disk, phase := s'.phase)
  }

  ghost predicate CommitSync(g: Geometry, s: State, s': State) {
    && s.phase.Publishing? && Sound(s.disk)
    && ((s'.disk == Flushed(s.disk)
         && s' == s.(disk := s'.disk, phase := Idle, head := s.phase.txn, linked := true))
        || (HalfFlushed(s.disk, s'.disk) && s' == s.(disk := s'.disk, phase := Closed)))
  }

  ghost predicate ProcessCrash(s: State, s': State) {
    s' == s.(phase := Closed)
  }

  ghost predicate PowerLoss(s: State, s': State) {
    && s'.disk.pending == [] && CrashImage(s.disk, s'.disk.stable)
    && s' == s.(disk := s'.disk, phase := Closed)
  }

  /** Reopening for writes: scan what the device shows, then sync before anything else is written. */
  ghost predicate Resume(g: Geometry, s: State, s': State) {
    && s.phase.Closed?
    && GeometryOk(g) && Sound(s.disk) && |s.disk.stable| >= g.data + 2 * g.slot
    && var img := View(s.disk);
    && NoForgery(g, s, img)
    && Baseline(g.meta, img).Some?
    && var base := Baseline(g.meta, img).value;
    && ((HalfFlushed(s.disk, s'.disk) && s' == s.(disk := s'.disk))
        || (&& Returned(g, s, img, base, s'.head)
            && s' == s.(disk := Flushed(s.disk), phase := Idle, head := s'.head,
                        linked := Scanned(g, img, base.seqno).Some?)))
  }

  ghost predicate Next(g: Geometry, s: State, s': State) {
    || CheckpointWrite(g, s, s')
    || CheckpointSync(g, s, s')
    || Begin(g, s, s')
    || BodyWrite(g, s, s')
    || DescriptorWrite(g, s, s')
    || CommitSync(g, s, s')
    || ProcessCrash(s, s')
    || PowerLoss(s, s')
    || Resume(g, s, s')
  }

  ghost function Step(g: Geometry): (State, State) -> bool {
    (s, s') => Next(g, s, s')
  }

  /** A stretch of a run. */
  ghost predicate Steps(g: Geometry, run: seq<State>) {
    Linked(run, Step(g))
  }

  // ---- What recovery is trusted with, and what it must deliver ----

  ghost predicate DescriptorIn(g: Geometry, img: seq<byte>, k: nat, t: Txn)
    requires k < 2 && g.data + 2 * g.slot <= |img|
  {
    TxnOk(g, t) && Encoded(ManifestOf(t)) <= SlotImage(g, img, k)
  }

  /**
   * The checksums detect every accident in this image: a slot that decodes holds a descriptor some
   * commit really sent, an extent that matches its checksum holds the submitted bytes, and a
   * checksum-valid conventional page was really written there.
   */
  ghost predicate NoForgery(g: Geometry, s: State, img: seq<byte>)
    requires GeometryOk(g) && g.data + 2 * g.slot <= |img|
  {
    && (forall k :: 0 <= k < 2 && Decoded(SlotImage(g, img, k)).Some? ==>
          exists t :: t in s.submitted && DescriptorIn(g, img, k, t))
    && (forall t, i :: t in s.submitted && TxnOk(g, t) && 0 <= i < |t.body| ==> NoCollision(img, t.body[i]))
    && (forall j :: 0 <= j < 2 && g.meta.txid(MetaPage(g.meta, img, j).bytes).Some? ==>
          exists t :: t in s.anchored && t.meta == MetaPage(g.meta, img, j))
  }

  ghost predicate NoCollision(img: seq<byte>, w: Write) {
    End(w) <= |img| && Digest(img[w.offset..End(w)]) == Digest(w.bytes) ==> img[w.offset..End(w)] == w.bytes
  }

  ghost predicate LiveIn(img: seq<byte>, t: Txn) {
    forall a :: a in t.live ==> 0 <= a < |img| && img[a] == t.live[a]
  }

  ghost predicate BodyIn(img: seq<byte>, t: Txn) {
    forall i :: 0 <= i < |t.body| ==> End(t.body[i]) <= |img| && img[t.body[i].offset..End(t.body[i])] == t.body[i].bytes
  }

  /**
   * Recovering `img` yields the transaction `t`: the acknowledged head or a later submission, whole,
   * with its whole snapshot in the image and, if a descriptor was used, every listed extent intact.
   */
  ghost predicate Returned(g: Geometry, s: State, img: seq<byte>, base: Recovered, t: Txn)
    requires GeometryOk(g) && g.data + 2 * g.slot <= |img|
  {
    && Recovery(g, img, base) == Recovered(t.seqno, t.meta)
    && (t == s.head || (t in s.submitted && t.seqno == s.head.seqno + 1))
    && LiveIn(img, t)
    && match Scanned(g, img, base.seqno)
       case Some(m) => DescriptorIn(g, img, t.seqno % 2, t) && m == ManifestOf(t) && BodyIn(img, t)
       case None => t.meta == base.meta && t == s.head
  }
}
