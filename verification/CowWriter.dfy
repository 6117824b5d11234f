/** `ValidatedCow`: the writer object, each call of which performs steps of the protocol of module `Cow`. */
module CowWriter {
  import opened Bytes
  import opened Disks
  import opened Devices
  import opened Runs
  import opened Fnv
  import opened Manifests
  import opened MetaPages
  import opened Cow
  import opened CowSafety

  /** A call's steps prolong the run it was made in, so every theorem about runs covers it. */
  lemma RunsCompose(g: Geometry, run: seq<State>, call: seq<State>)
    requires Run(g, run) && Steps(g, call) && call[0] == Last(run)
    ensures Run(g, run + call[1..])
  {
    hide Next;
    Join(run, call, Step(g));
  }

  /** What the caller owes for a commit the writer would accept. */
  ghost predicate CallerDuties(g: Geometry, s: State, t: Txn) {
    s.phase.Idle? && t.seqno == s.head.seqno + 1 && Accepted(g, t) ==>
      MetaOk(g, t) && OutsideMeta(g, t) && BuiltOn(t, s.head)
  }

  predicate Reuses(w: Write, e: Extent)
    requires End(w) < U64_LIMIT
  {
    Overlaps(w.offset, |w.bytes|, e.offset, e.len)
  }

  /** The adaptive checkpoint's condition, on the previous descriptor. */
  predicate NeedsCheckpoint(latest: Option<Manifest>, body: seq<Write>)
    requires forall i :: 0 <= i < |body| ==> End(body[i]) < U64_LIMIT
  {
    latest.Some? &&
    exists i, j :: 0 <= i < |body| && 0 <= j < |latest.value.body| && Reuses(body[i], latest.value.body[j])
  }

  /** A write and an extent share a byte, or one is empty and strictly inside the other. */
  ghost predicate TouchesExtent(w: Write, e: Extent) {
    || (exists x :: Covers(w, x) && Inside(x, e.offset, e.len))
    || (|w.bytes| == 0 && e.offset < w.offset < e.offset + e.len)
    || (e.len == 0 && w.offset < e.offset < End(w))
  }

  lemma ReusesMeans(w: Write, e: Extent)
    requires End(w) < U64_LIMIT && e.offset + e.len < U64_LIMIT
    ensures Reuses(w, e) <==> TouchesExtent(w, e)
  {
    OverlapsMeans(w.offset, |w.bytes|, e.offset, e.len);
    if Reuses(w, e) && |w.bytes| > 0 && e.len > 0 {
      var x :| Inside(x, w.offset, |w.bytes|) && Inside(x, e.offset, e.len);
      assert Covers(w, x);
    }
    if x :| Covers(w, x) && Inside(x, e.offset, e.len) {
      assert Inside(x, w.offset, |w.bytes|);
    }
  }

  /** In addresses: a checkpoint is needed exactly when a body write touches an extent of the previous descriptor. */
  lemma NeedsCheckpointMeans(latest: Option<Manifest>, body: seq<Write>)
    requires latest.Some? ==> Representable(latest.value)
    requires forall i :: 0 <= i < |body| ==> End(body[i]) < U64_LIMIT
    ensures NeedsCheckpoint(latest, body) <==>
      (latest.Some? && exists i, j :: 0 <= i < |body| && 0 <= j < |latest.value.body| && TouchesExtent(body[i], latest.value.body[j]))
  {
    hide Reuses;
    hide TouchesExtent;
    if latest.Some? {
      forall i, j | 0 <= i < |body| && 0 <= j < |latest.value.body|
        ensures Reuses(body[i], latest.value.body[j]) <==> TouchesExtent(body[i], latest.value.body[j])
      {
        ReusesMeans(body[i], latest.value.body[j]);
      }
    }
  }


  method AnyReuse(latest: Option<Manifest>, body: seq<Write>) returns (r: bool)
    requires forall i :: 0 <= i < |body| ==> End(body[i]) < U64_LIMIT
    ensures r == NeedsCheckpoint(latest, body)
  {
    if latest.None? {
      return false;
    }
    var previous := latest.value.body;
    for i := 0 to |body|
      invariant forall a, b :: 0 <= a < i && 0 <= b < |previous| ==> !Reuses(body[a], previous[b])
    {
      for j := 0 to |previous|
        invariant forall b :: 0 <= b < j ==> !Reuses(body[i], previous[b])
      {
        if Reuses(body[i], previous[j]) {
          return true;
        }
      }
    }
    return false;
  }

  /** Every write lies in the data region. */
  method InRegion(manifestOffset: u64, writes: seq<Write>) returns (ok: bool)
    ensures ok <==> forall i :: 0 <= i < |writes| ==> End(writes[i]) < U64_LIMIT && End(writes[i]) <= manifestOffset
  {
    for i := 0 to |writes|
      invariant forall k :: 0 <= k < i ==> End(writes[k]) < U64_LIMIT && End(writes[k]) <= manifestOffset
    {
      if writes[i].offset + |writes[i].bytes| >= U64_LIMIT {
        return false;
      }
      if writes[i].offset + |writes[i].bytes| > manifestOffset {
        return false;
      }
    }
    return true;
  }

  /** Body writes are disjoint from each other and from the meta. */
  method AllDisjoint(body: seq<Write>, meta: Write) returns (ok: bool)
    requires End(meta) < U64_LIMIT && forall i :: 0 <= i < |body| ==> End(body[i]) < U64_LIMIT
    ensures ok <==>
      && (forall i :: 0 <= i < |body| ==> !WritesOverlap(body[i], meta))
      && (forall i, j :: 0 <= j < i < |body| ==> !WritesOverlap(body[i], body[j]))
  {
    for i := 0 to |body|
      invariant forall k :: 0 <= k < i ==> !WritesOverlap(body[k], meta)
      invariant forall k, j :: 0 <= j < k < i ==> !WritesOverlap(body[k], body[j])
    {
      if WritesOverlap(body[i], meta) {
        return false;
      }
      for j := 0 to i
        invariant forall b :: 0 <= b < j ==> !WritesOverlap(body[i], body[b])
      {
        if WritesOverlap(body[i], body[j]) {
          return false;
        }
      }
    }
    return true;
  }

  method Extents(body: seq<Write>) returns (r: seq<Extent>)
    requires forall i :: 0 <= i < |body| ==> End(body[i]) < U64_LIMIT
    ensures |r| == |body| && forall i :: 0 <= i < |body| ==> r[i] == ExtentOf(body[i])
  {
    hide Digest;
    r := [];
    for i := 0 to |body|
      invariant |r| == i && forall k :: 0 <= k < i ==> r[k] == ExtentOf(body[k])
    {
      var digest := Checksum(body[i].bytes);
      r := r + [Extent(body[i].offset, |body[i].bytes|, digest)];
    }
  }

  predicate SlotsOk(manifestOffset: u64, slotBytes: u64) {
    && slotBytes >= HEADER && slotBytes % 512 == 0 && manifestOffset % 512 == 0
    && manifestOffset + 2 * slotBytes < U64_LIMIT
  }

  /** `Manifest::validate`. */
  method Validate(device: Device, m: Manifest, manifestOffset: u64, ghost g: Geometry) returns (r: Result<bool>)
    requires device.Valid() && manifestOffset == g.data
    modifies device`failures
    ensures End(m.meta) >= U64_LIMIT ==> r.Err?
    ensures r.Ok? ==> device.failures == old(device.failures)
    ensures Representable(m) && r.Err? ==> device.failures > old(device.failures)
    ensures Representable(m) && r.Ok? ==> r.value == Validates(g, View(device.Content()), m)
  {
    hide Digest;
    hide ApplyAll;
    ghost var img := View(device.Content());
    if End(m.meta) >= U64_LIMIT {
      return Err(InvalidData);
    }
    if End(m.meta) > manifestOffset {
      return Ok(false);
    }
    for i := 0 to |m.body|
      invariant device.failures == old(device.failures)
      invariant Representable(m) ==> forall k :: 0 <= k < i ==> ExtentValidates(g, img, m, k)
    {
      var e := m.body[i];
      if e.offset + e.len >= U64_LIMIT {
        return Err(InvalidData);
      }
      if e.offset + e.len > manifestOffset || Overlaps(e.offset, e.len, m.meta.offset, |m.meta.bytes|) {
        assert Representable(m) ==> !ExtentValidates(g, img, m, i);
        return Ok(false);
      }
      var bytes := device.Read(e.offset, e.len);
      if bytes.Err? {
        if bytes.kind == UnexpectedEof {
          assert Representable(m) ==> !ExtentValidates(g, img, m, i);
          return Ok(false);
        }
        return Err(bytes.kind);
      }
      var digest := Checksum(bytes.value);
      if |bytes.value| != e.len || digest != e.checksum {
        assert Representable(m) ==> !ExtentValidates(g, img, m, i);
        return Ok(false);
      }
    }
    return Ok(true);
  }

  /** One slot's descriptor, if it decodes, is newer than the base and sits in its own slot. */
  method ReadCandidate(device: Device, manifestOffset: u64, slotBytes: u64, k: nat, base: u64, ghost g: Geometry)
    returns (r: Result<Option<Manifest>>)
    requires device.Valid() && k < 2 && g.data == manifestOffset && g.slot == slotBytes
    modifies device`failures
    ensures r.Ok? ==> device.failures == old(device.failures)
    ensures r.Err? && g.data + 2 * g.slot <= |device.stable| ==> device.failures > old(device.failures)
    ensures r.Ok? && g.data + 2 * g.slot <= |device.stable| ==>
      r.value == Candidate(g, View(device.Content()), k, base)
    ensures r.Ok? ==> g.data + (if k == 0 then 1 else 2) * g.slot <= |device.stable|
  {
    hide Decoded;
    hide ApplyAll;
    var bytes :- device.Read(manifestOffset + (if k == 0 then 0 else slotBytes), slotBytes);
    var buffer := new byte[|bytes|](i requires 0 <= i < |bytes| => bytes[i]);
    assert buffer[..] == bytes;
    var m := Decode(buffer);
    if m.Some? && m.value.seqno > base && m.value.seqno % 2 == k {
      return Ok(m);
    }
    return Ok(None);
  }

  method Scan(device: Device, manifestOffset: u64, slotBytes: u64, base: u64, ghost g: Geometry)
    returns (r: Result<Option<Manifest>>)
    requires device.Valid() && g.data == manifestOffset && g.slot == slotBytes
    modifies device`failures
    ensures r.Ok? ==> device.failures == old(device.failures)
    ensures r.Err? && SlotsOk(manifestOffset, slotBytes) && g.data + 2 * g.slot <= |device.stable| ==>
      device.failures > old(device.failures)
    ensures !SlotsOk(manifestOffset, slotBytes) ==> r.Err?
    ensures r.Ok? ==> g.data + 2 * g.slot <= |device.stable|
    ensures r.Ok? ==> r.value == Scanned(g, View(device.Content()), base)
  {
    hide Decoded;
    hide ApplyAll;
    hide Validates;
    if !SlotsOk(manifestOffset, slotBytes) {
      return Err(InvalidData);
    }
    ghost var img := View(device.Content());
    var even :- ReadCandidate(device, manifestOffset, slotBytes, 0, base, g);
    var odd :- ReadCandidate(device, manifestOffset, slotBytes, 1, base, g);
    var candidates := (if even.Some? then [even.value] else []) + (if odd.Some? then [odd.value] else []);
    if |candidates| == 2 && candidates[1].seqno > candidates[0].seqno {
      candidates := [candidates[1], candidates[0]];
    }
    ghost var swap := even.Some? && odd.Some? && odd.value.seqno > even.value.seqno;
    ghost var newer, older := if swap then odd else even, if swap then even else odd;
    assert Scanned(g, img, base) == FirstValid(g, img, newer, older);
    assert candidates ==
      (if newer.Some? then [newer.value] else []) + (if older.Some? then [older.value] else []);
    for i := 0 to |candidates|
      invariant device.failures == old(device.failures)
      invariant forall k :: 0 <= k < |candidates| ==> Representable(candidates[k])
      invariant i >= 1 ==> !Validates(g, img, candidates[0])
      invariant i >= 2 ==> !Validates(g, img, candidates[1])
    {
      var good :- Validate(device, candidates[i], manifestOffset, g);
      if good {
        assert candidates[i] == (if i == 0 && newer.Some? then newer.value else older.value);
        return Ok(Some(candidates[i]));
      }
    }
    return Ok(None);
  }

  /** `recover`: read-only recovery from the page the caller selected. */
  method Recover(device: Device, manifestOffset: u64, slotBytes: u64, base: Recovered, ghost g: Geometry)
    returns (r: Result<Recovered>)
    requires device.Valid() && g.data == manifestOffset && g.slot == slotBytes
    modifies device`failures
    ensures r.Ok? ==> device.failures == old(device.failures)
    ensures r.Err? && SlotsOk(manifestOffset, slotBytes) && g.data + 2 * g.slot <= |device.stable| ==>
      device.failures > old(device.failures)
    ensures !SlotsOk(manifestOffset, slotBytes) ==> r.Err?
    ensures r.Ok? ==> g.data + 2 * g.slot <= |device.stable|
    ensures r.Ok? ==> r.value == Recovery(g, View(device.Content()), base)
  {
    hide Scanned;
    hide ApplyAll;
    var latest :- Scan(device, manifestOffset, slotBytes, base.seqno, g);
    match latest
    case Some(m) => return Ok(Recovered(m.seqno, m.meta));
    case None => return Ok(base);
  }

  class ValidatedCow {
    const manifestOffset: u64
    const slotBytes: u64
    var seqno: u64
    var latest: Option<Manifest>
    var poisoned: bool
    var checkpointCount: nat

    /** The writer and its device are in the protocol state `s`, between two calls. */
    ghost predicate Matches(g: Geometry, device: Device, s: State)
      reads this, device
    {
      && manifestOffset == g.data && slotBytes == g.slot
      && device.Content() == s.disk
      && Inv(g, s)
      && if poisoned then s.phase.Closed?
         else
           && s.phase.Idle?
           && seqno == s.head.seqno
           && (s.linked ==> Small(s.head))
           && latest == if s.linked then Some(ManifestOf(s.head)) else None
    }

    constructor (manifestOffset: u64, slotBytes: u64, baseSeq: u64)
      requires SlotsOk(manifestOffset, slotBytes)
      ensures this.manifestOffset == manifestOffset && this.slotBytes == slotBytes
      ensures seqno == baseSeq && latest == None && !poisoned && checkpointCount == 0
    {
      this.manifestOffset := manifestOffset;
      this.slotBytes := slotBytes;
      seqno := baseSeq;
      latest := None;
      poisoned := false;
      checkpointCount := 0;
    }

    /** Materialize the current meta. Every device call is one step of the protocol. */
    method Checkpoint(device: Device, ghost g: Geometry, ghost s: State)
      returns (r: Result<()>, ghost run: seq<State>)
      requires Matches(g, device, s)
      modifies this, device
      ensures Steps(g, run) && run[0] == s && Matches(g, device, Last(run))
      ensures Last(run).head == s.head
      ensures old(poisoned) ==> r.Err? && Last(run) == s
      ensures !old(poisoned) && old(latest).None? ==> r.Ok? && Last(run) == s && checkpointCount == old(checkpointCount)
      ensures !old(poisoned) && r.Ok? ==> !poisoned && latest == None && seqno == old(seqno)
      ensures r.Ok? && old(latest).Some? ==> checkpointCount == old(checkpointCount) + 1
      ensures !old(poisoned) && r.Err? ==> poisoned && device.failures > old(device.failures)
      ensures r.Ok? ==> device.failures == old(device.failures)
    {
      hide Inv;
      hide ManifestOf;
      hide View;
      run := [s];
      if poisoned {
        return Err(InvalidData), run;
      }
      if latest.Some? {
        MatchesBounds(g, s);
        poisoned := true;
        ghost var h := s.head;
        var meta := latest.value.meta;
        var written := device.WriteAt(meta);
        ghost var s1 := s.(disk := device.Content(), phase := if written.Ok? then Checkpointing else Closed,
                           anchored := s.anchored + {s.head});
        assert CheckpointWrite(g, s, s1);
        NextInv(g, s, s1);
        Extend(run, s1, Step(g));
        run := run + [s1];
        if written.Err? {
          return Err(written.kind), run;
        }
        var synced := device.Sync();
        ghost var s2 := if synced.Ok? then s1.(disk := device.Content(), phase := Idle, linked := false)
                        else s1.(disk := device.Content(), phase := Closed);
        assert CheckpointSync(g, s1, s2);
        NextInv(g, s1, s2);
        Extend(run, s2, Step(g));
        run := run + [s2];
        if synced.Err? {
          return Err(synced.kind), run;
        }
        checkpointCount := checkpointCount + 1;
        latest := None;
        poisoned := false;
      }
      return Ok(()), run;
    }

    /** Publish the body and the descriptor with one barrier. */
    method Publish(device: Device, seq_: u64, body: seq<Write>, bytes: seq<byte>, ghost t: Txn, ghost g: Geometry, ghost s: State)
      returns (r: Result<()>, ghost run: seq<State>)
      requires GeometryOk(g) && Inv(g, s) && s.phase == Committing(t, 0) && device.Content() == s.disk
      requires t.seqno == seq_ && t.body == body && Accepted(g, t) && bytes == Encoded(ManifestOf(t))
      requires manifestOffset == g.data && slotBytes == g.slot
      modifies device
      ensures Steps(g, run) && run[0] == s && device.Content() == Last(run).disk && Inv(g, Last(run))
      ensures r.Ok? ==> Last(run).phase.Idle? && Last(run).head == t && Last(run).linked
      ensures r.Err? ==> Last(run).phase.Closed? && Last(run).head == s.head
      ensures r.Ok? ==> device.failures == old(device.failures)
      ensures r.Err? ==> device.failures > old(device.failures)
    {
      hide Inv;
      hide ManifestOf;
      hide Encoded;
      hide View;
      run := [s];
      ghost var now := s;
      for i := 0 to |body|
        invariant Steps(g, run) && run[0] == s && now == Last(run)
        invariant Inv(g, now) && device.Content() == now.disk
        invariant now.phase == Committing(t, i) && now.head == s.head
        invariant device.failures == old(device.failures)
      {
        CommittingBounds(g, now);
        var written := device.WriteAt(body[i]);
        ghost var next := now.(disk := device.Content(),
                               phase := if written.Ok? then Committing(t, i + 1) else Closed);
        assert BodyWrite(g, now, next);
        NextInv(g, now, next);
        Extend(run, next, Step(g));
        run := run + [next];
        now := next;
        if written.Err? {
          return Err(written.kind), run;
        }
      }
      CommittingBounds(g, now);
      var w := Write(manifestOffset + (if seq_ % 2 == 0 then 0 else slotBytes), bytes);
      assert w == Descriptor(g, t);
      var written := device.WriteAt(w);
      ghost var next := now.(disk := device.Content(), phase := if written.Ok? then Publishing(t) else Closed);
      assert DescriptorWrite(g, now, next);
      NextInv(g, now, next);
      Extend(run, next, Step(g));
      run := run + [next];
      now := next;
      if written.Err? {
        return Err(written.kind), run;
      }
      var synced := device.Sync();
      next := if synced.Ok? then now.(disk := device.Content(), phase := Idle, head := t, linked := true)
              else now.(disk := device.Content(), phase := Closed);
      assert CommitSync(g, now, next);
      NextInv(g, now, next);
      Extend(run, next, Step(g));
      run := run + [next];
      if synced.Err? {
        return Err(synced.kind), run;
      }
      return Ok(()), run;
    }

    /** The checks of `commit` before any device call: exactly the acceptable transactions get a descriptor. */
    method Prepare(seq_: u64, body: seq<Write>, meta: Write, ghost live: map<int, byte>, ghost g: Geometry)
      returns (r: Result<(Manifest, seq<byte>)>)
      requires manifestOffset == g.data && slotBytes == g.slot && GeometryOk(g)
      ensures r.Ok? <==> Accepted(g, Txn(seq_, body, meta, live))
      ensures r.Ok? ==> Small(Txn(seq_, body, meta, live))
      ensures r.Ok? ==> r.value == (ManifestOf(Txn(seq_, body, meta, live)), Encoded(ManifestOf(Txn(seq_, body, meta, live))))
    {
      hide Encoded;
      hide Digest;
      ghost var full := Txn(seq_, body, meta, live);
      assert (body + [meta])[|body|] == meta;
      assert forall i :: 0 <= i < |body| ==> (body + [meta])[i] == body[i];
      var inRegion := InRegion(manifestOffset, body + [meta]);
      if !inRegion {
        return Err(InvalidData);
      }
      var disjoint := AllDisjoint(body, meta);
      if !disjoint {
        return Err(InvalidData);
      }
      var extents := Extents(body);
      var manifest := Manifest(seq_, meta, extents);
      assert manifest == ManifestOf(full);
      var encoded := Encode(manifest, slotBytes);
      if encoded.Err? {
        return Err(encoded.kind);
      }
      return Ok((manifest, encoded.value));
    }

    /**
     * `commit`. A rejected call touches nothing; an accepted one performs protocol steps, checkpoints
     * first exactly when it would reuse an extent of the previous descriptor, and on success has made
     * its transaction the head. On an I/O error the writer is poisoned and the head is unchanged.
     */
    method Commit(device: Device, seq_: u64, body: seq<Write>, meta: Write, ghost live: map<int, byte>,
                  ghost g: Geometry, ghost s: State)
      returns (r: Result<()>, ghost run: seq<State>)
      requires Matches(g, device, s)
      requires CallerDuties(g, s, Txn(seq_, body, meta, live))
      modifies this, device
      ensures Steps(g, run) && run[0] == s && Matches(g, device, Last(run))
      ensures old(poisoned) || seq_ != old(seqno) + 1 || !Accepted(g, Txn(seq_, body, meta, live)) ==>
        r.Err? && Last(run) == s && poisoned == old(poisoned) && checkpointCount == old(checkpointCount)
      ensures r.Ok? ==>
        && Last(run).head == Txn(seq_, body, meta, live)
        && !poisoned && seqno == seq_
        && Small(Last(run).head) && latest == Some(ManifestOf(Last(run).head))
        && checkpointCount == old(checkpointCount) + (if NeedsCheckpoint(old(latest), body) then 1 else 0)
      ensures r.Err? ==> Last(run).head == s.head
      ensures !old(poisoned) && seq_ == old(seqno) + 1 && Accepted(g, Txn(seq_, body, meta, live)) && r.Err? ==>
        poisoned && device.failures > old(device.failures)
      ensures r.Ok? ==> device.failures == old(device.failures)
    {
      hide Inv;
      hide Encoded;
      hide Digest;
      hide View;
      hide MetaOk;
      hide OutsideMeta;
      hide BuiltOn;
      hide Accepted;
      hide ManifestOf;
      run := [s];
      MatchesBounds(g, s);
      ghost var full := Txn(seq_, body, meta, live);
      if poisoned {
        return Err(InvalidData), run;
      }
      if seqno + 1 != seq_ {
        return Err(InvalidData), run;
      }
      var prepared := Prepare(seq_, body, meta, live, g);
      if prepared.Err? {
        return Err(prepared.kind), run;
      }
      var (manifest, encoded) := prepared.value;
      var reuse := AnyReuse(latest, body);
      ghost var now := s;
      ReuseMeans(g, s, full, latest);
      if reuse {
        var checkpointed;
        checkpointed, run := Checkpoint(device, g, s);
        now := Last(run);
        if checkpointed.Err? {
          return Err(checkpointed.kind), run;
        }
      }
      poisoned := true;
      ghost var begun := now.(phase := Committing(full, 0), submitted := now.submitted + {full});
      assert Begin(g, now, begun);
      NextInv(g, now, begun);
      Extend(run, begun, Step(g));
      run := run + [begun];
      MatchesBounds(g, begun);
      var published;
      ghost var rest;
      published, rest := Publish(device, seq_, body, encoded, full, g, begun);
      Join(run, rest, Step(g));
      run := run + rest[1..];
      if published.Err? {
        return Err(published.kind), run;
      }
      seqno := seq_;
      latest := Some(manifest);
      poisoned := false;
      return Ok(()), run;
    }
  }

  lemma MatchesBounds(g: Geometry, s: State)
    requires Inv(g, s)
    ensures Sound(s.disk) && End(s.head.meta) <= |s.disk.stable| && GeometryOk(g)
  {
    hide Encoded;
    hide Digest;
  }

  lemma CommittingBounds(g: Geometry, s: State)
    requires Inv(g, s) && s.phase.Committing?
    ensures Sound(s.disk) && GeometryOk(g) && Accepted(g, s.phase.txn)
    ensures forall i :: 0 <= i < |s.phase.txn.body| ==> End(s.phase.txn.body[i]) <= |s.disk.stable|
    ensures End(Descriptor(g, s.phase.txn)) <= |s.disk.stable|
  {
    hide Encoded;
    hide Digest;
  }

  /** The writer's overlap test on the previous manifest is the protocol's condition for reuse. */
  lemma ReuseMeans(g: Geometry, s: State, t: Txn, latest: Option<Manifest>)
    requires Small(t) && (s.linked ==> Small(s.head))
    requires latest == if s.linked then Some(ManifestOf(s.head)) else None
    ensures !NeedsCheckpoint(latest, t.body) && s.linked ==> NoReuse(t, s.head)
  {
    hide Digest;
    if !NeedsCheckpoint(latest, t.body) && s.linked {
      forall i, j | 0 <= i < |t.body| && 0 <= j < |s.head.body|
        ensures !WritesOverlap(t.body[i], s.head.body[j])
      {
        assert latest.value.body[j] == ExtentOf(s.head.body[j]);
        assert !Reuses(t.body[i], latest.value.body[j]);
      }
    }
  }

  /** `new`: a writer over the descriptor slots, refused exactly when they are misplaced or do not fit. */
  method New(manifestOffset: u64, slotBytes: u64, baseSeq: u64) returns (r: Result<ValidatedCow>)
    ensures r.Ok? <==> SlotsOk(manifestOffset, slotBytes)
    ensures r.Err? ==> r.kind == InvalidData
    ensures r.Ok? ==>
      && fresh(r.value) && r.value.manifestOffset == manifestOffset && r.value.slotBytes == slotBytes
      && r.value.seqno == baseSeq && r.value.latest == None && !r.value.poisoned && r.value.checkpointCount == 0
  {
    if slotBytes < HEADER || slotBytes % 512 != 0 || manifestOffset % 512 != 0 {
      return Err(InvalidData);
    }
    if 2 * slotBytes >= U64_LIMIT || manifestOffset + 2 * slotBytes >= U64_LIMIT {
      return Err(InvalidData);
    }
    var writer := new ValidatedCow(manifestOffset, slotBytes, baseSeq);
    return Ok(writer);
  }

  /** A new writer over a database at rest is in step with the protocol's initial state. */
  lemma NewMatches(w: ValidatedCow, device: Device, g: Geometry, s: State)
    requires Init(g, s) && device.Content() == s.disk
    requires w.manifestOffset == g.data && w.slotBytes == g.slot
    requires w.seqno == s.head.seqno && w.latest == None && !w.poisoned
    ensures w.Matches(g, device, s)
  {
    hide Encoded;
    hide Digest;
    InitInv(g, s);
  }

  /**
   * `resume`: recover from what the device shows, then sync before any further write. The writer it
   * returns is in step with the protocol, and its head is what recovery selected.
   */
  method Resume(device: Device, manifestOffset: u64, slotBytes: u64, base: Recovered, ghost g: Geometry, ghost s: State)
    returns (r: Result<(ValidatedCow, Recovered)>, ghost s': State)
    requires Inv(g, s) && s.phase.Closed? && device.Content() == s.disk
    requires g.data == manifestOffset && g.slot == slotBytes
    requires NoForgery(g, s, View(s.disk)) && Baseline(g.meta, View(s.disk)) == Some(base)
    modifies device
    ensures s' == s || Next(g, s, s')
    ensures device.Content() == s'.disk && Inv(g, s')
    ensures r.Err? ==> s'.phase.Closed? && s'.head == s.head && device.failures > old(device.failures)
    ensures r.Ok? ==> device.failures == old(device.failures)
    ensures r.Ok? ==>
      && fresh(r.value.0) && r.value.0.Matches(g, device, s')
      && r.value.1 == Recovery(g, old(View(device.Content())), base) == Recovered(s'.head.seqno, s'.head.meta)
      && s.head.seqno <= s'.head.seqno <= s.head.seqno + 1
  {
    hide Scanned;
    hide NoForgery;
    hide Baseline;
    hide Encoded;
    hide Digest;
    hide Decoded;
    hide ApplyAll;
    s' := s;
    ghost var img := View(s.disk);
    ViewIsCrashImage(s.disk);
    var latest :- Scan(device, manifestOffset, slotBytes, base.seqno, g);
    ghost var t := CrashSafety(g, s, img, base);
    var recovered := match latest case Some(m) => Recovered(m.seqno, m.meta) case None => base;
    var synced := device.Sync();
    if synced.Err? {
      s' := s.(disk := device.Content());
      assert Cow.Resume(g, s, s');
      NextInv(g, s, s');
      return Err(synced.kind), s';
    }
    s' := s.(disk := device.Content(), phase := Idle, head := t, linked := latest.Some?);
    assert Cow.Resume(g, s, s');
    NextInv(g, s, s');
    var writer := new ValidatedCow(manifestOffset, slotBytes, recovered.seqno);
    writer.latest := latest;
    return Ok((writer, recovered)), s';
  }
}
