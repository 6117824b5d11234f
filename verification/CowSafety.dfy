/** Crash safety of the copy-on-write protocol over every run and every crash image. */
module CowSafety {
  import opened Bytes
  import opened Disks
  import opened Runs
  import opened Fnv
  import opened Manifests
  import opened MetaPages
  import opened Cow

  // ---- One recovery ----

  lemma SlotDecodes(g: Geometry, img: seq<byte>, k: nat, t: Txn)
    requires GeometryOk(g) && k < 2 && g.data + 2 * g.slot <= |img|
    requires DescriptorIn(g, img, k, t)
    ensures Decoded(SlotImage(g, img, k)) == Some(ManifestOf(t))
  {
    hide Encoded;
    hide Decoded;
    hide Digest;
    var e, b := Encoded(ManifestOf(t)), SlotImage(g, img, k);
    assert b == e + b[|e|..];
    DecodeEncoded(ManifestOf(t), b[|e|..]);
  }

  /** A durable descriptor is found, and validates, in every crash image. */
  lemma HeldDescriptorValidates(g: Geometry, d: Disk, img: seq<byte>, t: Txn)
    requires GeometryOk(g) && g.data + 2 * g.slot <= |img| && CrashImage(d, img)
    requires DescriptorHeld(g, d, t)
    ensures DescriptorIn(g, img, t.seqno % 2, t) && BodyIn(img, t)
    ensures Validates(g, img, ManifestOf(t))
  {
    hide Encoded;
    hide Digest;
    var w, k := Descriptor(g, t), t.seqno % 2;
    HeldInImage(d, img, w.offset, w.bytes);
    assert w.bytes == SlotImage(g, img, k)[..|w.bytes|];
    forall i | 0 <= i < |t.body|
      ensures img[t.body[i].offset..End(t.body[i])] == t.body[i].bytes
    {
      HeldInImage(d, img, t.body[i].offset, t.body[i].bytes);
    }
    IntactBodyValidates(g, img, t);
  }

  lemma IntactBodyValidates(g: Geometry, img: seq<byte>, t: Txn)
    requires GeometryOk(g) && g.data <= |img| && Accepted(g, t) && BodyIn(img, t)
    ensures Validates(g, img, ManifestOf(t))
  {
    hide Digest;
    forall i | 0 <= i < |t.body| ensures ExtentValidates(g, img, ManifestOf(t), i) {
      assert ManifestOf(t).body[i] == ExtentOf(t.body[i]);
      assert !WritesOverlap(t.body[i], t.meta);
    }
  }

  lemma ValidatedBody(g: Geometry, s: State, img: seq<byte>, t: Txn)
    requires GeometryOk(g) && g.data + 2 * g.slot <= |img| && NoForgery(g, s, img)
    requires t in s.submitted && TxnOk(g, t) && Validates(g, img, ManifestOf(t))
    ensures BodyIn(img, t)
  {
    hide Digest;
    hide Decoded;
    forall i | 0 <= i < |t.body|
      ensures End(t.body[i]) <= |img| && img[t.body[i].offset..End(t.body[i])] == t.body[i].bytes
    {
      assert ManifestOf(t).body[i] == ExtentOf(t.body[i]);
      assert ExtentValidates(g, img, ManifestOf(t), i);
      assert NoCollision(img, t.body[i]);
    }
  }

  /** A validated successor's snapshot is in the image: its own bytes, and what it inherits from the head. */
  lemma SuccessorSnapshot(g: Geometry, s: State, img: seq<byte>, t: Txn)
    requires Inv(g, s) && CrashImage(s.disk, img) && BuiltOn(t, s.head) && BodyIn(img, t) && OutsideMeta(g, t)
    ensures LiveIn(img, t)
  {
    forall a | a in t.live ensures 0 <= a < |img| && img[a] == t.live[a] {
      if Quiet(t.body, a) {
        HeldByteInImage(s.disk, img, a, t.live[a]);
      } else {
        var i :| 0 <= i < |t.body| && Covers(t.body[i], a);
        assert img[t.body[i].offset..End(t.body[i])][a - t.body[i].offset] == img[a];
      }
    }
  }

  lemma HeadSnapshot(g: Geometry, s: State, img: seq<byte>)
    requires Inv(g, s) && CrashImage(s.disk, img)
    ensures LiveIn(img, s.head)
  {
    forall a | a in s.head.live ensures 0 <= a < |img| && img[a] == s.head.live[a] {
      HeldByteInImage(s.disk, img, a, s.head.live[a]);
    }
  }

  /** What a slot offers recovery was submitted by one commit. */
  lemma CandidateSubmitted(g: Geometry, s: State, img: seq<byte>, k: nat, base: u64) returns (t: Txn)
    requires Inv(g, s) && CrashImage(s.disk, img) && NoForgery(g, s, img)
    requires k < 2 && Candidate(g, img, k, base).Some?
    ensures t in s.submitted && DescriptorIn(g, img, k, t)
    ensures Candidate(g, img, k, base).value == ManifestOf(t) && t.seqno % 2 == k
  {
    hide Encoded;
    hide Decoded;
    hide Digest;
    t :| t in s.submitted && DescriptorIn(g, img, k, t);
    SlotDecodes(g, img, k, t);
  }

  /** The baseline page is one that was really checkpointed, so it is never newer than the head. */
  lemma BaselineAnchored(g: Geometry, s: State, img: seq<byte>) returns (t: Txn)
    requires Inv(g, s) && CrashImage(s.disk, img) && NoForgery(g, s, img)
    requires Baseline(g.meta, img).Some?
    ensures t in s.anchored && Baseline(g.meta, img).value == Recovered(t.seqno, t.meta)
  {
    hide Decoded;
    hide Digest;
    var base := Baseline(g.meta, img).value;
    var j := if base.meta == MetaPage(g.meta, img, 0) && g.meta.txid(MetaPage(g.meta, img, 0).bytes).Some? then 0 else 1;
    t :| t in s.anchored && t.meta == MetaPage(g.meta, img, j);
  }

  /** A durable conventional page makes the head itself the baseline. */
  lemma AnchorIsBaseline(g: Geometry, s: State, img: seq<byte>)
    requires Inv(g, s) && CrashImage(s.disk, img) && NoForgery(g, s, img)
    requires AnchorHeld(s.disk, s.head)
    ensures Baseline(g.meta, img) == Some(Recovered(s.head.seqno, s.head.meta))
  {
    hide Decoded;
    hide Digest;
    var h := s.head;
    var j := if h.meta.offset == 0 then 0 else 1;
    assert h.meta.offset + |h.meta.bytes| <= g.data;
    HeldInImage(s.disk, img, h.meta.offset, h.meta.bytes);
    if g.meta.page > 0 || j == 0 {
      assert h.meta == MetaPage(g.meta, img, j);
    }
    var t := BaselineAnchored(g, s, img);
  }

  /** Above the head's own number only its direct successors are ever on offer. */
  lemma ScanAboveHead(g: Geometry, s: State, img: seq<byte>) returns (t: Txn)
    requires Inv(g, s) && CrashImage(s.disk, img) && NoForgery(g, s, img)
    ensures match Scanned(g, img, s.head.seqno)
      case None => t == s.head
      case Some(m) =>
        && t in s.submitted && t.seqno == s.head.seqno + 1
        && m == ManifestOf(t) && DescriptorIn(g, img, t.seqno % 2, t)
        && BodyIn(img, t) && LiveIn(img, t)
  {
    hide Encoded;
    hide Decoded;
    hide Digest;
    hide Validates;
    t := s.head;
    var scan := Scanned(g, img, s.head.seqno);
    if scan.Some? {
      var k := scan.value.seqno % 2;
      assert Candidate(g, img, k, s.head.seqno) == scan;
      t := CandidateSubmitted(g, s, img, k, s.head.seqno);
      ValidatedBody(g, s, img, t);
      SuccessorSnapshot(g, s, img, t);
    }
  }

  /** Below the head's number its durable descriptor is always chosen, unless a whole successor is. */
  lemma ScanWithDescriptor(g: Geometry, s: State, img: seq<byte>, base: u64) returns (t: Txn)
    requires Inv(g, s) && CrashImage(s.disk, img) && NoForgery(g, s, img)
    requires DescriptorHeld(g, s.disk, s.head) && base < s.head.seqno
    ensures t == s.head || (t in s.submitted && t.seqno == s.head.seqno + 1)
    ensures TxnOk(g, t) && Scanned(g, img, base) == Some(ManifestOf(t))
    ensures DescriptorIn(g, img, t.seqno % 2, t) && BodyIn(img, t) && LiveIn(img, t)
  {
    hide Encoded;
    hide Decoded;
    hide Digest;
    hide Validates;
    var h := s.head;
    var k := h.seqno % 2;
    HeldDescriptorValidates(g, s.disk, img, h);
    HeadSnapshot(g, s, img);
    SlotDecodes(g, img, k, h);
    assert Candidate(g, img, k, base) == Some(ManifestOf(h));
    var other := Candidate(g, img, 1 - k, base);
    t := h;
    if other.Some? {
      var c := CandidateSubmitted(g, s, img, 1 - k, base);
      if c.seqno == h.seqno + 1 && Validates(g, img, ManifestOf(c)) {
        t := c;
        ValidatedBody(g, s, img, t);
        SuccessorSnapshot(g, s, img, t);
      }
    }
  }

  /**
   * Crash safety of one image: recovery returns the acknowledged head or one of its submitted
   * successors, exactly as one commit submitted it, with that snapshot whole in the image.
   */
  lemma CrashSafety(g: Geometry, s: State, img: seq<byte>, base: Recovered) returns (t: Txn)
    requires Inv(g, s) && CrashImage(s.disk, img) && NoForgery(g, s, img)
    requires Baseline(g.meta, img) == Some(base)
    ensures Returned(g, s, img, base, t)
  {
    hide Encoded;
    hide Decoded;
    hide Digest;
    hide Validates;
    hide Scanned;
    var b := BaselineAnchored(g, s, img);
    HeadSnapshot(g, s, img);
    if AnchorHeld(s.disk, s.head) {
      AnchorIsBaseline(g, s, img);
    }
    if base.seqno == s.head.seqno {
      assert b == s.head;
      t := ScanAboveHead(g, s, img);
    } else {
      t := ScanWithDescriptor(g, s, img, base.seqno);
    }
  }

  /**
   * Even with both conventional pages torn (so that `baseline` has nothing to return), a scan from any
   * number below the head finds the head or a successor: the descriptor is then the durable fallback.
   */
  lemma RecoveryWithoutBaseline(g: Geometry, s: State, img: seq<byte>, floor: u64) returns (t: Txn)
    requires Inv(g, s) && CrashImage(s.disk, img) && NoForgery(g, s, img)
    requires Baseline(g.meta, img) == None && floor < s.head.seqno
    ensures t == s.head || (t in s.submitted && t.seqno == s.head.seqno + 1)
    ensures TxnOk(g, t) && Scanned(g, img, floor) == Some(ManifestOf(t))
    ensures BodyIn(img, t) && LiveIn(img, t)
  {
    if AnchorHeld(s.disk, s.head) {
      AnchorIsBaseline(g, s, img);
      assert false;
    }
    t := ScanWithDescriptor(g, s, img, floor);
  }

  // ---- Every step keeps the invariant ----

  lemma InitInv(g: Geometry, s: State)
    requires Init(g, s)
    ensures Inv(g, s)
  {
  }

  /** Bytes that survive in an image stay held on the device that restarts from it. */
  lemma HeldAfterCrash(g: Geometry, d: Disk, d': Disk, t: Txn)
    requires GeometryOk(g) && |d.stable| >= g.data + 2 * g.slot
    requires CrashImage(d, d'.stable) && (d'.pending == [] || d'.pending == d.pending)
    requires MetaOk(g, t)
    ensures LiveHeld(d, t) ==> LiveHeld(d', t)
    ensures AnchorHeld(d, t) ==> AnchorHeld(d', t)
    ensures DescriptorHeld(g, d, t) ==> DescriptorHeld(g, d', t)
  {
    hide Encoded;
    hide Digest;
    if LiveHeld(d, t) {
      forall a | a in t.live ensures Holds(d', a, t.live[a]) {
        assert Holds(d, a, t.live[a]);
        HeldByteInImage(d, d'.stable, a, t.live[a]);
      }
    }
    assert d' == Disk(d'.stable, []) || d' == Disk(d'.stable, d.pending);
    if AnchorHeld(d, t) {
      HeldInImage(d, d'.stable, t.meta.offset, t.meta.bytes);
    }
    if DescriptorHeld(g, d, t) {
      var w := Descriptor(g, t);
      assert w.offset + |w.bytes| <= g.data + 2 * g.slot;
      HeldInImage(d, d'.stable, w.offset, w.bytes);
      forall i | 0 <= i < |t.body| ensures HoldsAll(d', t.body[i].offset, t.body[i].bytes) {
        HeldInImage(d, d'.stable, t.body[i].offset, t.body[i].bytes);
      }
    }
  }

  lemma SoundAfterCrash(d: Disk, d': Disk)
    requires Sound(d) && CrashImage(d, d'.stable) && (d'.pending == [] || d'.pending == d.pending)
    ensures Sound(d')
  {
  }

  lemma CrashKeepsInv(g: Geometry, s: State, s': State)
    requires Inv(g, s)
    requires CrashImage(s.disk, s'.disk.stable) && (s'.disk.pending == [] || s'.disk.pending == s.disk.pending)
    requires s' == s.(disk := s'.disk, phase := Closed)
    ensures Inv(g, s')
  {
    hide Encoded;
    hide Digest;
    HeldAfterCrash(g, s.disk, s'.disk, s.head);
    SoundAfterCrash(s.disk, s'.disk);
  }

  lemma FlushKeepsHeld(g: Geometry, d: Disk, t: Txn)
    requires GeometryOk(g) && Sound(d) && |d.stable| >= g.data + 2 * g.slot && MetaOk(g, t)
    ensures LiveHeld(d, t) ==> LiveHeld(Flushed(d), t)
    ensures AnchorHeld(d, t) ==> AnchorHeld(Flushed(d), t)
    ensures DescriptorHeld(g, d, t) ==> DescriptorHeld(g, Flushed(d), t)
  {
    hide Encoded;
    hide Digest;
    ViewIsCrashImage(d);
    HeldAfterCrash(g, d, Flushed(d), t);
  }

  /** The write misses the descriptor of `t` and every extent it lists. */
  ghost predicate ApartFromDescriptor(g: Geometry, w: Write, t: Txn)
    requires GeometryOk(g) && Accepted(g, t)
  {
    && Apart(w, Descriptor(g, t).offset, |Descriptor(g, t).bytes|)
    && forall i :: 0 <= i < |t.body| ==> Apart(w, t.body[i].offset, |t.body[i].bytes|)
  }

  /** A write apart from the head's snapshot and from its fallback leaves both intact, whole or torn. */
  lemma WriteKeepsHeld(g: Geometry, d: Disk, w: Write, d': Disk, t: Txn)
    requires GeometryOk(g) && (d' == Issued(d, w) || Torn(d, w, d'))
    ensures LiveHeld(d, t) && (forall a :: a in t.live ==> !Covers(w, a)) ==> LiveHeld(d', t)
    ensures AnchorHeld(d, t) && Apart(w, t.meta.offset, |t.meta.bytes|) ==> AnchorHeld(d', t)
    ensures DescriptorHeld(g, d, t) && ApartFromDescriptor(g, w, t) ==> DescriptorHeld(g, d', t)
  {
    hide Encoded;
    hide Digest;
    if LiveHeld(d, t) && (forall a :: a in t.live ==> !Covers(w, a)) {
      forall a | a in t.live ensures Holds(d', a, t.live[a]) {
        HeldByteUnderWrite(d, w, d', a, t.live[a]);
      }
    }
    if AnchorHeld(d, t) && Apart(w, t.meta.offset, |t.meta.bytes|) {
      HeldUnderWrite(d, w, d', t.meta.offset, t.meta.bytes);
    }
    if DescriptorHeld(g, d, t) && ApartFromDescriptor(g, w, t) {
      HeldUnderWrite(d, w, d', Descriptor(g, t).offset, Descriptor(g, t).bytes);
      forall i | 0 <= i < |t.body| ensures HoldsAll(d', t.body[i].offset, t.body[i].bytes) {
        HeldUnderWrite(d, w, d', t.body[i].offset, t.body[i].bytes);
      }
    }
  }

  /** Closing after a torn write needs less than continuing after a whole one. */
  lemma WriteKeepsInv(g: Geometry, s: State, w: Write, s': State)
    requires Inv(g, s) && Fallback(g, s) && End(w) <= |s.disk.stable|
    requires s'.disk == Issued(s.disk, w) || Torn(s.disk, w, s'.disk)
    requires s'.head == s.head && s'.linked == s.linked && s'.submitted == s.submitted
    requires Anchored(g, s'.anchored, s.head)
    requires forall a :: a in s.head.live ==> !Covers(w, a)
    requires !s.linked ==> Apart(w, s.head.meta.offset, |s.head.meta.bytes|)
    requires s.linked ==> ApartFromDescriptor(g, w, s.head)
    ensures Fallback(g, s')
    ensures s'.phase == Closed || PhaseOk(g, s') ==> Inv(g, s')
  {
    hide Encoded;
    hide Digest;
    WriteKeepsHeld(g, s.disk, w, s'.disk, s.head);
    SoundUnderWrite(s.disk, w, s'.disk);
  }

  lemma CheckpointWriteInv(g: Geometry, s: State, s': State)
    requires Inv(g, s) && CheckpointWrite(g, s, s')
    ensures Inv(g, s')
  {
    hide Encoded;
    hide Digest;
    var h := s.head;
    forall i | 0 <= i < |h.body| ensures Apart(h.meta, h.body[i].offset, |h.body[i].bytes|) {
      assert 2 * g.meta.page <= h.body[i].offset;
    }
    WriteKeepsInv(g, s, h.meta, s');
  }

  lemma CheckpointSyncInv(g: Geometry, s: State, s': State)
    requires Inv(g, s) && CheckpointSync(g, s, s')
    ensures Inv(g, s')
  {
    hide Encoded;
    hide Digest;
    if s'.phase.Closed? {
      CrashKeepsInv(g, s, s');
    } else {
      FlushKeepsHeld(g, s.disk, s.head);
      FlushedWrite(s.disk, 0);
    }
  }

  lemma BeginInv(g: Geometry, s: State, s': State)
    requires Inv(g, s) && Begin(g, s, s')
    ensures Inv(g, s')
  {
    hide Encoded;
    hide Digest;
  }

  lemma NoOverlapApart(a: Write, b: Write)
    requires End(a) < U64_LIMIT && End(b) < U64_LIMIT && !WritesOverlap(a, b)
    ensures Apart(a, b.offset, |b.bytes|)
  {
  }

  lemma BodyWriteInv(g: Geometry, s: State, s': State)
    requires Inv(g, s) && BodyWrite(g, s, s')
    ensures Inv(g, s')
  {
    hide Encoded;
    hide Digest;
    var t, k, h := s.phase.txn, s.phase.issued, s.head;
    var w := t.body[k];
    if s.linked {
      forall i | 0 <= i < |h.body| ensures Apart(w, h.body[i].offset, |h.body[i].bytes|) {
        NoOverlapApart(w, h.body[i]);
      }
    }
    WriteKeepsInv(g, s, w, s');
    assert t.body[..k] + [w] == t.body[..k + 1];
  }

  lemma DescriptorWriteInv(g: Geometry, s: State, s': State)
    requires Inv(g, s) && DescriptorWrite(g, s, s')
    ensures Inv(g, s')
  {
    hide Encoded;
    hide Digest;
    var t, h := s.phase.txn, s.head;
    var w := Descriptor(g, t);
    assert t.seqno % 2 != h.seqno % 2;
    WriteKeepsInv(g, s, w, s');
    assert t.body[..|t.body|] == t.body;
  }

  lemma CommitSyncInv(g: Geometry, s: State, s': State)
    requires Inv(g, s) && CommitSync(g, s, s')
    ensures Inv(g, s')
  {
    hide Encoded;
    hide Digest;
    if s'.phase.Closed? {
      CrashKeepsInv(g, s, s');
    } else {
      var t, d := s.phase.txn, s.disk;
      PublishedHeld(g, d, t);
      FlushKeepsHeld(g, d, s.head);
      SnapshotHeld(s'.disk, t, s.head);
    }
  }

  /** After the barrier the body and the descriptor are durable: their ranges are disjoint. */
  lemma PublishedHeld(g: Geometry, d: Disk, t: Txn)
    requires GeometryOk(g) && Sound(d) && TxnOk(g, t) && d.pending == t.body + [Descriptor(g, t)]
    ensures DescriptorHeld(g, Flushed(d), t)
  {
    hide Encoded;
    hide Digest;
    var n := |t.body|;
    FlushedWrite(d, n);
    forall i | 0 <= i < n ensures HoldsAll(Flushed(d), t.body[i].offset, t.body[i].bytes) {
      forall j | i < j < |d.pending| ensures Apart(d.pending[j], t.body[i].offset, |t.body[i].bytes|) {
        if j < n {
          NoOverlapApart(t.body[j], t.body[i]);
        }
      }
      FlushedWrite(d, i);
    }
  }

  lemma SnapshotHeld(d: Disk, t: Txn, previous: Txn)
    requires BuiltOn(t, previous) && BodyHeld(d, t) && LiveHeld(d, previous)
    ensures LiveHeld(d, t)
  {
    forall a | a in t.live ensures Holds(d, a, t.live[a]) {
      if Quiet(t.body, a) {
        assert Holds(d, a, previous.live[a]);
      } else {
        var i :| 0 <= i < |t.body| && Covers(t.body[i], a);
        assert HoldsAll(d, t.body[i].offset, t.body[i].bytes);
        assert Holds(d, t.body[i].offset + (a - t.body[i].offset), t.body[i].bytes[a - t.body[i].offset]);
      }
    }
  }

  lemma ResumeInv(g: Geometry, s: State, s': State)
    requires Inv(g, s) && Resume(g, s, s')
    ensures Inv(g, s')
  {
    hide Encoded;
    hide Decoded;
    hide Digest;
    hide Scanned;
    hide NoForgery;
    var img := View(s.disk);
    ViewIsCrashImage(s.disk);
    if s'.phase.Closed? {
      CrashKeepsInv(g, s, s');
    } else {
      var t, base := s'.head, Baseline(g.meta, img).value;
      FlushKeepsHeld(g, s.disk, s.head);
      forall a | a in t.live ensures Holds(s'.disk, a, t.live[a]) {
      }
      if s'.linked {
        RecoveredDescriptorHeld(g, img, t);
      } else {
        var j := if base.meta == MetaPage(g.meta, img, 0) then 0 else 1;
        assert t.meta == MetaPage(g.meta, img, j);
        HeldSlice(img, t.meta.offset, t.meta.bytes);
      }
    }
  }

  lemma RecoveredDescriptorHeld(g: Geometry, img: seq<byte>, t: Txn)
    requires GeometryOk(g) && g.data + 2 * g.slot <= |img|
    requires DescriptorIn(g, img, t.seqno % 2, t) && BodyIn(img, t)
    ensures DescriptorHeld(g, Disk(img, []), t)
  {
    hide Encoded;
    hide Digest;
    var w, k := Descriptor(g, t), t.seqno % 2;
    assert w.bytes == SlotImage(g, img, k)[..|w.bytes|] == img[w.offset..w.offset + |w.bytes|];
    HeldSlice(img, w.offset, w.bytes);
    forall i | 0 <= i < |t.body| ensures HoldsAll(Disk(img, []), t.body[i].offset, t.body[i].bytes) {
      HeldSlice(img, t.body[i].offset, t.body[i].bytes);
    }
  }

  lemma HeldSlice(img: seq<byte>, at: nat, bytes: seq<byte>)
    requires at + |bytes| <= |img| && img[at..at + |bytes|] == bytes
    ensures HoldsAll(Disk(img, []), at, bytes)
  {
    forall i | 0 <= i < |bytes| ensures Holds(Disk(img, []), at + i, bytes[i]) {
      assert img[at..at + |bytes|][i] == img[at + i];
    }
  }

  lemma NextInv(g: Geometry, s: State, s': State)
    requires Inv(g, s) && Next(g, s, s')
    ensures Inv(g, s')
    ensures s.head.seqno <= s'.head.seqno
    ensures s.head.seqno == s'.head.seqno ==> s'.head == s.head
    ensures s.submitted <= s'.submitted
  {
    hide Encoded;
    hide Decoded;
    hide Digest;
    hide PhaseOk;
    hide NoForgery;
    if CheckpointWrite(g, s, s') {
      CheckpointWriteInv(g, s, s');
    } else if CheckpointSync(g, s, s') {
      CheckpointSyncInv(g, s, s');
    } else if Begin(g, s, s') {
      BeginInv(g, s, s');
    } else if BodyWrite(g, s, s') {
      BodyWriteInv(g, s, s');
    } else if DescriptorWrite(g, s, s') {
      DescriptorWriteInv(g, s, s');
    } else if CommitSync(g, s, s') {
      CommitSyncInv(g, s, s');
      CommitSyncHead(g, s, s');
    } else if ProcessCrash(s, s') {
      ProcessCrashInv(g, s, s');
    } else if PowerLoss(s, s') {
      CrashKeepsInv(g, s, s');
    } else {
      ResumeInv(g, s, s');
    }
  }

  lemma CommitSyncHead(g: Geometry, s: State, s': State)
    requires Inv(g, s) && CommitSync(g, s, s')
    ensures s'.head == s.head || s'.head.seqno == s.head.seqno + 1
  {
    hide Encoded;
    hide Digest;
  }

  lemma ProcessCrashInv(g: Geometry, s: State, s': State)
    requires Inv(g, s) && ProcessCrash(s, s')
    ensures Inv(g, s')
  {
    hide Encoded;
    hide Digest;
  }

  // ---- Runs ----

  /** Any number of commits, checkpoints, failures, crashes and resumes, one device call at a time. */
  ghost predicate Run(g: Geometry, run: seq<State>) {
    Steps(g, run) && Init(g, run[0])
  }

  lemma {:induction false} RunInv(g: Geometry, run: seq<State>, i: nat)
    requires Run(g, run) && i < |run|
    ensures Inv(g, run[i])
  {
    if i == 0 {
      InitInv(g, run[0]);
    } else {
      RunInv(g, run, i - 1);
      NextInv(g, run[i - 1], run[i]);
    }
  }

  lemma {:induction false} HeadsNeverGoBack(g: Geometry, run: seq<State>, i: nat, j: nat)
    requires Run(g, run) && i <= j < |run|
    ensures run[i].head.seqno <= run[j].head.seqno
    ensures run[i].head.seqno == run[j].head.seqno ==> run[i].head == run[j].head
    decreases j - i
  {
    if i < j {
      RunInv(g, run, i);
      NextInv(g, run[i], run[i + 1]);
      HeadsNeverGoBack(g, run, i + 1, j);
    }
  }

  /** The head is the transaction the run started with or one that a commit submitted. */
  lemma {:induction false} HeadWasSubmitted(g: Geometry, run: seq<State>, j: nat)
    requires Run(g, run) && j < |run|
    ensures run[j].head == run[0].head || run[j].head in run[j].submitted
  {
    if j > 0 {
      RunInv(g, run, j - 1);
      HeadWasSubmitted(g, run, j - 1);
      NextInv(g, run[j - 1], run[j]);
      StepSubmitted(g, run[j - 1], run[j]);
    }
  }

  lemma StepSubmitted(g: Geometry, s: State, s': State)
    requires Inv(g, s) && Next(g, s, s')
    ensures s'.head == s.head || s'.head in s'.submitted
  {
    hide Encoded;
    hide Decoded;
    hide Digest;
    hide Scanned;
    hide NoForgery;
  }

  /**
   * The main theorem. At any point `j` of any run, a power loss (or a restart that reads the cache) that
   * leaves `img` recovers the transaction the run started with or one that one commit submitted whole,
   * no older than anything acknowledged or resumed at any earlier point `i`, with its snapshot whole in
   * the image. If it has the number of an earlier head it is that head.
   */
  lemma EveryCrashRecovers(g: Geometry, run: seq<State>, i: nat, j: nat, img: seq<byte>, base: Recovered)
    returns (t: Txn)
    requires Run(g, run) && i <= j < |run|
    requires CrashImage(run[j].disk, img) && g.data + 2 * g.slot <= |img|
    requires NoForgery(g, run[j], img) && Baseline(g.meta, img) == Some(base)
    ensures Returned(g, run[j], img, base, t)
    ensures t == run[0].head || t in run[j].submitted
    ensures run[i].head.seqno <= Recovery(g, img, base).seqno <= run[j].head.seqno + 1
    ensures Recovery(g, img, base).seqno == run[i].head.seqno ==> t == run[i].head
  {
    hide Next;
    hide Inv;
    hide NoForgery;
    RunInv(g, run, j);
    HeadsNeverGoBack(g, run, i, j);
    HeadWasSubmitted(g, run, j);
    t := CrashSafety(g, run[j], img, base);
  }

  /**
   * Reuse safety: at every point of every run, including every point of a commit that overwrites an
   * extent of the previous descriptor, every crash image still validates that descriptor or already has
   * its meta in a conventional page. Nothing is assumed about which page a torn checkpoint targets.
   */
  lemma DescriptorOrMetaSurvives(g: Geometry, run: seq<State>, j: nat, img: seq<byte>)
    requires Run(g, run) && j < |run|
    requires CrashImage(run[j].disk, img) && g.data + 2 * g.slot <= |img|
    ensures var h := run[j].head;
      || (TxnOk(g, h) && DescriptorIn(g, img, h.seqno % 2, h) && Validates(g, img, ManifestOf(h)))
      || h.meta == MetaPage(g.meta, img, 0)
      || h.meta == MetaPage(g.meta, img, 1)
  {
    hide Encoded;
    hide Digest;
    hide Validates;
    RunInv(g, run, j);
    var s, h := run[j], run[j].head;
    if DescriptorHeld(g, s.disk, h) {
      HeldDescriptorValidates(g, s.disk, img, h);
    } else {
      HeldInImage(s.disk, img, h.meta.offset, h.meta.bytes);
    }
  }
}
