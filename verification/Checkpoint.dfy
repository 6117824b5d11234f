/** The two-barrier checkpoint: body, barrier, meta, barrier, for any body and any meta. */
module Checkpoints {
  import opened Bytes
  import opened Disks
  import opened Devices
  import opened Runs

  /** The `k`-th device call of a checkpoint. */
  ghost predicate Call(body: seq<Write>, meta: Write, k: nat, d: Disk, d': Disk, failed: bool) {
    if k < |body| then Sent(d, body[k], d', failed)
    else if k == |body| then Synced(d, d', failed)
    else if k == |body| + 1 then Sent(d, meta, d', failed)
    else Synced(d, d', failed)
  }

  /** The device before and after each call made: all of them, or up to the first that failed. */
  ghost predicate Calls(body: seq<Write>, meta: Write, disks: seq<Disk>, ok: bool) {
    && 1 <= |disks| <= |body| + 4
    && (forall k :: 0 <= k < |disks| - 1 ==> Call(body, meta, k, disks[k], disks[k + 1], !ok && k == |disks| - 2))
    && if ok then |disks| == |body| + 4 else |disks| > 1
  }

  ghost predicate Calling(body: seq<Write>, meta: Write, disks: seq<Disk>) {
    && |disks| > 0
    && forall k :: 0 <= k < |disks| - 1 ==> Call(body, meta, k, disks[k], disks[k + 1], false)
  }

  lemma Called(body: seq<Write>, meta: Write, disks: seq<Disk>, d: Disk, failed: bool)
    requires Calling(body, meta, disks) && |disks| <= |body| + 3
    requires Call(body, meta, |disks| - 1, Last(disks), d, failed)
    ensures failed ==> Calls(body, meta, disks + [d], false)
    ensures !failed ==> Calling(body, meta, disks + [d])
    ensures !failed && |disks| == |body| + 3 ==> Calls(body, meta, disks + [d], true)
  {
    hide Call;
    var more := disks + [d];
    forall k | 0 <= k < |more| - 1
      ensures Call(body, meta, k, more[k], more[k + 1], failed && k == |more| - 2)
    {
      if k < |disks| - 1 {
        assert Call(body, meta, k, disks[k], disks[k + 1], false);
      }
    }
  }

  method Checkpoint(device: Device, body: seq<Write>, meta: Write) returns (r: Result<()>, ghost disks: seq<Disk>)
    requires device.Valid() && Fits(|device.stable|, body) && End(meta) <= |device.stable|
    modifies device
    ensures Calls(body, meta, disks, r.Ok?) && disks[0] == old(device.Content()) && Last(disks) == device.Content()
    ensures device.Valid() && |device.stable| == old(|device.stable|)
    ensures if r.Ok? then device.failures == old(device.failures) else device.failures > old(device.failures)
  {
    hide View;
    disks := [device.Content()];
    for i := 0 to |body|
      invariant device.Valid() && |device.stable| == old(|device.stable|) && device.failures == old(device.failures)
      invariant Calling(body, meta, disks) && |disks| == i + 1
      invariant disks[0] == old(device.Content()) && Last(disks) == device.Content()
    {
      var written := device.WriteAt(body[i]);
      Called(body, meta, disks, device.Content(), written.Err?);
      disks := disks + [device.Content()];
      if written.Err? {
        return Err(written.kind), disks;
      }
    }
    var synced := device.Sync();
    Called(body, meta, disks, device.Content(), synced.Err?);
    disks := disks + [device.Content()];
    if synced.Err? {
      return Err(synced.kind), disks;
    }
    var written := device.WriteAt(meta);
    Called(body, meta, disks, device.Content(), written.Err?);
    disks := disks + [device.Content()];
    if written.Err? {
      return Err(written.kind), disks;
    }
    synced := device.Sync();
    Called(body, meta, disks, device.Content(), synced.Err?);
    disks := disks + [device.Content()];
    if synced.Err? {
      return Err(synced.kind), disks;
    }
    return Ok(()), disks;
  }

  // ---- What a crash leaves, whatever the body and the meta are ----

  /** The body is not durable yet: bytes it does not cover are as they were, the meta's included. */
  ghost predicate BodyInFlight(d: Disk, was: seq<byte>, body: seq<Write>) {
    Sound(d) && |d.stable| == |was| && forall a :: 0 <= a < |was| && Quiet(body, a) ==> Holds(d, a, was[a])
  }

  /** The body is durable: only bytes of the meta can differ from the old image with the body applied. */
  ghost predicate BodyDurable(d: Disk, was: seq<byte>, body: seq<Write>, meta: Write)
    requires Fits(|was|, body)
  {
    && Sound(d) && |d.stable| == |was|
    && forall a :: 0 <= a < |was| && !Covers(meta, a) ==> Holds(d, a, ApplyAll(was, body)[a])
  }

  /** The `k`-th disk of a checkpoint, before anything has failed. */
  ghost predicate DiskAt(d: Disk, was: seq<byte>, body: seq<Write>, meta: Write, k: nat)
    requires Fits(|was|, body) && End(meta) <= |was|
  {
    if k <= |body| then d == Disk(was, body[..k])
    else if k == |body| + 1 then d == Disk(ApplyAll(was, body), [])
    else if k == |body| + 2 then d == Disk(ApplyAll(was, body), [meta])
    else d == Disk(Apply(ApplyAll(was, body), meta), [])
  }

  lemma DiskStep(d: Disk, d': Disk, was: seq<byte>, body: seq<Write>, meta: Write, k: nat)
    requires Fits(|was|, body) && End(meta) <= |was| && k < |body| + 3
    requires DiskAt(d, was, body, meta, k) && Call(body, meta, k, d, d', false)
    ensures DiskAt(d', was, body, meta, k + 1)
  {
    hide Apply;
    if k < |body| {
      assert body[..k] + [body[k]] == body[..k + 1];
    } else if k == |body| {
      assert body[..k] == body;
    } else if k == |body| + 2 {
      var img := ApplyAll(was, body);
      assert [meta][..0] == [];
      assert ApplyAll(img, []) == img;
      assert ApplyAll(img, [meta]) == Apply(img, meta);
    }
  }

  lemma {:induction false} DiskReached(disks: seq<Disk>, ok: bool, was: seq<byte>, body: seq<Write>, meta: Write, k: nat)
    requires Fits(|was|, body) && End(meta) <= |was| && Calls(body, meta, disks, ok)
    requires disks[0] == Disk(was, []) && k < |disks| && (ok || k < |disks| - 1)
    ensures DiskAt(disks[k], was, body, meta, k)
  {
    hide Call;
    hide ApplyAll;
    hide Apply;
    if k > 0 {
      DiskReached(disks, ok, was, body, meta, k - 1);
      DiskStep(disks[k - 1], disks[k], was, body, meta, k - 1);
    } else {
      assert body[..0] == [];
    }
  }

  lemma AtSettled(d: Disk, was: seq<byte>, body: seq<Write>, meta: Write, k: nat)
    requires Fits(|was|, body) && End(meta) <= |was| && DiskAt(d, was, body, meta, k)
    ensures k <= |body| ==> BodyInFlight(d, was, body)
    ensures k > |body| ==> BodyDurable(d, was, body, meta)
  {
    hide ApplyAll;
    if k <= |body| {
      assert forall i :: 0 <= i < k ==> body[..k][i] == body[i];
    }
  }

  /** A failed call is no worse than the call before it. */
  lemma FailedSettled(d: Disk, d': Disk, was: seq<byte>, body: seq<Write>, meta: Write, k: nat)
    requires Fits(|was|, body) && End(meta) <= |was| && k < |body| + 3
    requires DiskAt(d, was, body, meta, k) && Call(body, meta, k, d, d', true)
    ensures BodyInFlight(d', was, body) || BodyDurable(d', was, body, meta)
  {
    AtSettled(d, was, body, meta, k);
    hide ApplyAll;
    hide DiskAt;
    if k < |body| {
      SoundUnderWrite(d, body[k], d');
      forall a | 0 <= a < |was| && Quiet(body, a) ensures Holds(d', a, was[a]) {
        HeldByteUnderWrite(d, body[k], d', a, was[a]);
      }
    } else if k == |body| {
      SoundAfterFlush(d, d');
      forall a | 0 <= a < |was| && Quiet(body, a) ensures Holds(d', a, was[a]) {
        HeldByteAfterFlush(d, d', a, was[a]);
      }
    } else {
      if k == |body| + 1 {
        SoundUnderWrite(d, meta, d');
      } else {
        SoundAfterFlush(d, d');
      }
      forall a | 0 <= a < |was| && !Covers(meta, a) ensures Holds(d', a, ApplyAll(was, body)[a]) {
        if k == |body| + 1 {
          HeldByteUnderWrite(d, meta, d', a, ApplyAll(was, body)[a]);
        } else {
          HeldByteAfterFlush(d, d', a, ApplyAll(was, body)[a]);
        }
      }
    }
  }

  /**
   * Two barriers suffice, for every body and meta. Before the first barrier has succeeded a crash leaves
   * every byte outside the body as it was; after it, every byte outside the meta as the body makes it. No
   * byte of the meta lands before all of the body. A successful checkpoint is durable whole.
   */
  lemma TwoBarriers(disks: seq<Disk>, ok: bool, was: seq<byte>, body: seq<Write>, meta: Write, k: nat, img: seq<byte>)
    requires Fits(|was|, body) && End(meta) <= |was| && Calls(body, meta, disks, ok)
    requires disks[0] == Disk(was, []) && k < |disks| && CrashImage(disks[k], img)
    ensures |img| == |was|
    ensures || (forall a :: 0 <= a < |img| && Quiet(body, a) ==> img[a] == was[a])
            || (forall a :: 0 <= a < |img| && !Covers(meta, a) ==> img[a] == ApplyAll(was, body)[a])
    ensures ok && k == |disks| - 1 ==> img == Apply(ApplyAll(was, body), meta)
  {
    hide ApplyAll;
    hide Apply;
    hide Call;
    if ok || k < |disks| - 1 {
      DiskReached(disks, ok, was, body, meta, k);
      AtSettled(disks[k], was, body, meta, k);
    } else {
      DiskReached(disks, ok, was, body, meta, k - 1);
      FailedSettled(disks[k - 1], disks[k], was, body, meta, k - 1);
    }
    if ok && k == |disks| - 1 {
      assert img == disks[k].stable;
    }
    hide DiskAt;
    if BodyInFlight(disks[k], was, body) {
      forall a | 0 <= a < |img| && Quiet(body, a) ensures img[a] == was[a] {
        HeldByteInImage(disks[k], img, a, was[a]);
      }
    } else {
      forall a | 0 <= a < |img| && !Covers(meta, a) ensures img[a] == ApplyAll(was, body)[a] {
        HeldByteInImage(disks[k], img, a, ApplyAll(was, body)[a]);
      }
    }
  }
}
