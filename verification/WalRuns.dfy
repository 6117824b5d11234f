/** Every step of the journal keeps its invariant, so every run is durable. */
module WalRuns {
  import opened Bytes
  import opened Disks
  import opened MetaPages
  import opened Coalesce
  import opened Wal
  import opened WalSystem
  import opened WalSafety
  import opened Runs
  import Logs

  lemma {:induction false} InitInv(p: Params, s: State)
    requires Init(p, s)
    ensures Inv(p, s)
  {
  }

  // ---- Appends ----

  /** What an append must leave of the database: the last checkpoint under what the journal rewrites. */
  ghost predicate Kept(p: Params, s: State, d: Disk)
    requires |s.start| == p.size && ParamsOk(p)
  {
    && Sound(d) && |d.stable| == p.size
    && (forall a :: InBody(p, a) && Quiet(Bodies(s.gen), a) ==> Holds(d, a, s.start[a]))
    && HoldsAll(d, s.anchor.offset, s.anchor.bytes)
  }

  /** A frame behind the data in the same file leaves it alone. */
  lemma {:induction false} KeptUnderFrame(p: Params, s: State, w: Write, d': Disk, stopped: bool)
    requires |s.start| == p.size && ParamsOk(p) && AnchorOk(p, s) && Kept(p, s, s.db)
    requires p.data <= w.offset && End(w) <= p.size && Sent(s.db, w, d', stopped)
    ensures Kept(p, s, d')
  {
    hide Bodies;
    SoundUnderWrite(s.db, w, d');
    HeldUnderWrite(s.db, w, d', s.anchor.offset, s.anchor.bytes);
    forall a | InBody(p, a) && Quiet(Bodies(s.gen), a)
      ensures Holds(d', a, s.start[a])
    {
      HeldByteUnderWrite(s.db, w, d', a, s.start[a]);
    }
  }

  lemma {:induction false} KeptUnderSync(p: Params, s: State, d': Disk, stopped: bool)
    requires |s.start| == p.size && ParamsOk(p) && AnchorOk(p, s) && Kept(p, s, s.db) && Synced(s.db, d', stopped)
    ensures Kept(p, s, d')
  {
    hide Bodies;
    SoundAfterFlush(s.db, d');
    HeldAfterFlush(s.db, d', s.anchor.offset, s.anchor.bytes);
    forall a | InBody(p, a) && Quiet(Bodies(s.gen), a)
      ensures Holds(d', a, s.start[a])
    {
      HeldByteAfterFlush(s.db, d', a, s.start[a]);
    }
  }

  lemma {:induction false} AppendWriteInv(p: Params, s: State, s': State)
    requires Inv(p, s) && AppendWrite(p, s, s')
    ensures Inv(p, s')
  {
    hide CommitOk;
    hide CommitsOk;
    hide Bodies;
    hide ApplyAll;
    hide Logs.Inv;
    hide Sent;
    hide Frame;
    hide Fits;
    var y, ws := LayoutOf(p), Writes(s'.phase.commit);
    Logs.AppendWriteInv(y, s.log, s'.log, ws);
    Logs.FrameWriteEnds(y, s.log, ws);
    if p.embedded {
      KeptUnderFrame(p, s, Logs.FrameWrite(y, s.log, ws), s'.db, s'.stopped);
    }
  }

  lemma {:induction false} CommitsExtend(p: Params, previous: nat, cs: seq<Commit>, c: Commit)
    requires CommitsOk(p, previous, cs) && CommitOk(p, c, previous + 1 + |cs|)
    ensures CommitsOk(p, previous, cs + [c])
  {
    hide CommitOk;
  }

  lemma {:induction false} BaseHeldExtends(p: Params, s: State, s': State)
    requires ParamsOk(p) && |s.start| == p.size && BaseHeld(p, s)
    requires s'.db == s.db && s'.start == s.start && |s'.gen| > 0 && s'.gen[..|s'.gen| - 1] == s.gen
    ensures BaseHeld(p, s')
  {
    hide Bodies;
    forall a | InBody(p, a) && Quiet(Bodies(s'.gen), a) ensures Holds(s'.db, a, s'.start[a]) {
      QuietExtends(s.gen, s'.gen, a);
    }
  }

  lemma {:induction false} AppendSyncDb(p: Params, s: State, s': State)
    requires Inv(p, s) && AppendSync(p, s, s') && !s'.stopped
    ensures Fits(p.size, Bodies(s'.gen)) && DbOk(p, s')
  {
    hide Logs.Inv;
    hide CacheOk;
    hide CommitOk;
    hide CommitsOk;
    hide HoldsAll;
    hide Holds;
    hide ApplyAll;
    hide View;
    var c := s.phase.commit;
    BodiesAppend(s.gen, c);
    hide Bodies;
    CommitFits(p, c, LastTxid(s) + 1);
    FitsConcat(p.size, Bodies(s.gen), c.body);
    hide Fits;
    if p.embedded {
      KeptUnderSync(p, s, s'.db, false);
    }
    assert s'.gen[..|s'.gen| - 1] == s.gen;
    BaseHeldExtends(p, s.(db := s'.db), s');
  }

  lemma {:induction false} AppendSyncStopped(p: Params, s: State, s': State)
    requires Inv(p, s) && AppendSync(p, s, s') && s'.stopped
    ensures Inv(p, s')
  {
    hide CommitOk;
    hide CommitsOk;
    hide Bodies;
    hide ApplyAll;
    hide Fits;
    hide View;
    hide HoldsAll;
    hide Holds;
    hide Logs.Inv;
    Logs.AppendSyncInv(LayoutOf(p), s.log, s'.log);
    if p.embedded {
      KeptUnderSync(p, s, s'.db, true);
    }
  }

  lemma {:induction false} AppendSyncDone(p: Params, s: State, s': State)
    requires Inv(p, s) && AppendSync(p, s, s') && !s'.stopped
    ensures Inv(p, s')
  {
    hide CommitOk;
    hide CommitsOk;
    hide Bodies;
    hide ApplyAll;
    hide DbOk;
    hide Fits;
    hide View;
    hide Logs.Inv;
    hide Writes;
    hide FrameLength;
    Logs.AppendSyncInv(LayoutOf(p), s.log, s'.log);
    AppendSyncDb(p, s, s');
    var c := s.phase.commit;
    FramesAppend(s.gen, c);
    CommitsExtend(p, s.first, s.done + s.gen, c);
    CommitsExtend(p, s.log.checkpoint, s.gen, c);
    CommitNumber(p, c, LastTxid(s) + 1);
    assert s.done + (s.gen + [c]) == (s.done + s.gen) + [c];
  }

  lemma CommitNumber(p: Params, c: Commit, txid: nat)
    requires CommitOk(p, c, txid)
    ensures txid < U64_LIMIT
  {
  }

  lemma {:induction false} AppendSyncInv(p: Params, s: State, s': State)
    requires Inv(p, s) && AppendSync(p, s, s')
    ensures Inv(p, s')
  {
    hide *;
    if s'.stopped {
      AppendSyncStopped(p, s, s');
    } else {
      AppendSyncDone(p, s, s');
    }
  }

  // ---- Checkpoints ----

  lemma {:induction false} FoldBeginInv(p: Params, s: State, s': State)
    requires Inv(p, s) && FoldBegin(p, s, s')
    ensures Inv(p, s')
  {
    hide Logs.Inv;
    hide CommitOk;
    hide Bodies;
  }

  /** The coalesced list stays in the body and touches only what the journal rewrites. */
  lemma {:induction false} FoldListOk(p: Params, s: State, body: seq<Write>)
    requires Inv(p, s) && Lists(body, Latest(Bodies(s.gen)))
    ensures PageWrites(Bodies(s.gen), p.meta.page) && Fits(p.data, body) && Fits(p.size, body)
    ensures forall i :: 0 <= i < |body| ==> 2 * p.meta.page <= body[i].offset
    ensures forall a :: Quiet(Bodies(s.gen), a) <==> Quiet(body, a)
  {
    hide LogOk;
    hide DbOk;
    hide CommitOk;
    hide Lists;
    hide Latest;
    BodiesFit(p, s.log.checkpoint, s.gen);
    hide Bodies;
    ListedPages(Bodies(s.gen), body, p.meta.page);
    ListedBeyond(Bodies(s.gen), body, 2 * p.meta.page);
  }

  lemma {:induction false} ListedBeyond(ws: seq<Write>, list: seq<Write>, least: nat)
    requires Lists(list, Latest(ws)) && forall i :: 0 <= i < |ws| ==> least <= ws[i].offset
    ensures forall i :: 0 <= i < |list| ==> least <= list[i].offset
  {
    forall i | 0 <= i < |list| ensures least <= list[i].offset {
      LatestKeys(ws, list[i].offset);
    }
  }

  lemma {:induction false} FoldWriteInv(p: Params, s: State, s': State)
    requires Inv(p, s) && FoldWrite(p, s, s')
    ensures Inv(p, s')
  {
    hide Logs.Inv;
    hide CommitOk;
    hide Bodies;
    hide Latest;
    var body, k := s.phase.body, s.phase.issued;
    FoldListOk(p, s, body);
    var w := body[k];
    forall a | InBody(p, a) && Quiet(Bodies(s.gen), a) ensures Holds(s'.db, a, s.start[a]) {
      assert Quiet(body, a);
      HeldByteUnderWrite(s.db, w, s'.db, a, s.start[a]);
    }
    HeldUnderWrite(s.db, w, s'.db, s.anchor.offset, s.anchor.bytes);
    SoundUnderWrite(s.db, w, s'.db);
    assert body[..k] + [w] == body[..k + 1];
    LogBesideWrite(p, s, w, s'.db, s'.stopped);
  }

  /** A call of the checkpoint is apart from the journal, on its own device or in the same file. */
  lemma {:induction false} LogBesideWrite(p: Params, s: State, w: Write, d': Disk, stopped: bool)
    requires ParamsOk(p) && LogOk(p, s) && !s.phase.Appending? && !s.stopped
    requires End(w) <= p.data && |s.db.stable| == p.size && Sent(s.db, w, d', stopped)
    ensures Logs.Inv(LayoutOf(p), LogBeside(p, s, d', stopped))
  {
    hide Logs.Inv;
    hide Sent;
    hide HalfFlushed;
    assert Apart(w, p.base, p.capacity) || !p.embedded;
    Logs.ElsewhereInv(LayoutOf(p), s.log, LogBeside(p, s, d', stopped));
  }

  lemma {:induction false} LogBesideSync(p: Params, s: State, d': Disk, stopped: bool)
    requires ParamsOk(p) && LogOk(p, s) && !s.phase.Appending? && !s.stopped && Synced(s.db, d', stopped)
    ensures Logs.Inv(LayoutOf(p), LogBeside(p, s, d', stopped))
  {
    hide Logs.Inv;
    hide Synced;
    hide Sent;
    Logs.ElsewhereInv(LayoutOf(p), s.log, LogBeside(p, s, d', stopped));
  }

  /** After the body barrier every body byte is the final one: the torn ones were all rewritten. */
  lemma {:induction false} FoldedFinal(p: Params, s: State, s': State, a: nat)
    requires Inv(p, s) && FoldSync(p, s, s') && !s'.stopped && InBody(p, a)
    ensures Holds(s'.db, a, ApplyAll(s.start, Bodies(s.gen))[a])
  {
    hide Logs.Inv;
    hide CommitOk;
    hide ApplyAll;
    var body := s.phase.body;
    FoldListOk(p, s, body);
    CoalescedIsSequential(s.start, Bodies(s.gen), body, p.meta.page);
    assert body[..|body|] == body;
    ReplayConverges(s.db.stable, s.start, body, a);
  }

  lemma {:induction false} FoldSyncInv(p: Params, s: State, s': State)
    requires Inv(p, s) && FoldSync(p, s, s')
    ensures Inv(p, s')
  {
    hide Logs.Inv;
    hide CommitOk;
    hide Bodies;
    hide Latest;
    hide View;
    LogBesideSync(p, s, s'.db, s'.stopped);
    SoundAfterFlush(s.db, s'.db);
    HeldAfterFlush(s.db, s'.db, s.anchor.offset, s.anchor.bytes);
    if s'.stopped {
      forall a | InBody(p, a) && Quiet(Bodies(s.gen), a) ensures Holds(s'.db, a, s.start[a]) {
        HeldByteAfterFlush(s.db, s'.db, a, s.start[a]);
      }
    } else {
      forall a | InBody(p, a) ensures Holds(s'.db, a, ApplyAll(s.start, Bodies(s.gen))[a]) {
        FoldedFinal(p, s, s', a);
      }
    }
  }

  lemma {:induction false} RootOk(p: Params, s: State)
    requires Inv(p, s) && |s.gen| > 0
    ensures |Root(p, s).bytes| == p.meta.page && p.meta.txid(Root(p, s).bytes) == Some(LastTxid(s))
  {
    hide LogOk;
    hide DbOk;
    assert CommitOk(p, s.gen[|s.gen| - 1], s.log.checkpoint + 1 + (|s.gen| - 1));
  }

  lemma {:induction false} RootWriteInv(p: Params, s: State, s': State)
    requires Inv(p, s) && RootWrite(p, s, s')
    ensures Inv(p, s')
  {
    hide Logs.Inv;
    hide CommitOk;
    hide Bodies;
    hide ApplyAll;
    RootOk(p, s);
    var w := Root(p, s);
    LogBesideWrite(p, s, w, s'.db, s'.stopped);
    HeldUnderWrite(s.db, w, s'.db, s.anchor.offset, s.anchor.bytes);
    SoundUnderWrite(s.db, w, s'.db);
    forall a | InBody(p, a) ensures Holds(s'.db, a, ApplyAll(s.start, Bodies(s.gen))[a]) {
      HeldByteUnderWrite(s.db, w, s'.db, a, ApplyAll(s.start, Bodies(s.gen))[a]);
    }
  }

  lemma {:induction false} RootSyncInv(p: Params, s: State, s': State)
    requires Inv(p, s) && RootSync(p, s, s')
    ensures Inv(p, s')
  {
    hide Logs.Inv;
    hide CommitOk;
    hide Bodies;
    hide ApplyAll;
    LogBesideSync(p, s, s'.db, s'.stopped);
    SoundAfterFlush(s.db, s'.db);
    HeldAfterFlush(s.db, s'.db, s.anchor.offset, s.anchor.bytes);
    forall a | InBody(p, a) ensures Holds(s'.db, a, ApplyAll(s.start, Bodies(s.gen))[a]) {
      HeldByteAfterFlush(s.db, s'.db, a, ApplyAll(s.start, Bodies(s.gen))[a]);
    }
    if !s'.stopped {
      FlushedWrite(s.db, 0);
    }
  }

  lemma {:induction false} ResetInv(p: Params, s: State, s': State)
    requires Inv(p, s) && Reset(p, s, s')
    ensures Inv(p, s')
  {
    hide CommitOk;
    hide CommitsOk;
    hide ApplyAll;
    hide Bodies;
    hide HoldsAll;
    hide Holds;
    hide Fits;
    hide Logs.Inv;
    RootOk(p, s);
    NoCommits(p, LastTxid(s));
    Logs.ResetInv(LayoutOf(p), s.log, s'.log);
    BodiesConcat(s.done, s.gen);
    FitsConcat(p.size, Bodies(s.done), Bodies(s.gen));
    assert s'.done + s'.gen == s.done + s.gen;
    assert s'.log.gen == Frames(s'.gen);
    ResetBody(p, s, s');
    assert s'.done[|s'.done| - 1] == s.gen[|s.gen| - 1];
  }

  lemma NoCommits(p: Params, previous: nat)
    ensures CommitsOk(p, previous, []) && Bodies([]) == [] && Fits(p.size, []) && forall a :: Quiet([], a)
  {
  }

  /** The final body of the old generation is the start of the new one. */
  lemma {:induction false} ResetBody(p: Params, s: State, s': State)
    requires Inv(p, s) && Reset(p, s, s')
    ensures Fits(p.size, Bodies(s'.done)) && BaseHeld(p, s')
    ensures forall a :: InBody(p, a) ==> s'.start[a] == ApplyAll(s'.origin, Bodies(s'.done))[a]
  {
    hide CommitOk;
    hide CommitsOk;
    hide ApplyAll;
    hide Logs.Inv;
    hide Bodies;
    BodiesConcat(s.done, s.gen);
    FitsConcat(p.size, Bodies(s.done), Bodies(s.gen));
    forall a | InBody(p, a) ensures s'.start[a] == ApplyAll(s'.origin, Bodies(s'.done))[a] {
      TotalBody(p, s, s.start, s.gen, a);
    }
  }

  lemma {:induction false} NextInv(p: Params, s: State, s': State)
    requires Inv(p, s) && Next(p, s, s')
    ensures Inv(p, s')
  {
    hide Inv;
    if AppendWrite(p, s, s') {
      AppendWriteInv(p, s, s');
    } else if AppendSync(p, s, s') {
      AppendSyncInv(p, s, s');
    } else if FoldBegin(p, s, s') {
      FoldBeginInv(p, s, s');
    } else if FoldWrite(p, s, s') {
      FoldWriteInv(p, s, s');
    } else if FoldSync(p, s, s') {
      FoldSyncInv(p, s, s');
    } else if RootWrite(p, s, s') {
      RootWriteInv(p, s, s');
    } else if RootSync(p, s, s') {
      RootSyncInv(p, s, s');
    } else {
      ResetInv(p, s, s');
    }
  }

  // ---- Runs ----

  /** Any number of appends and checkpoints, one device call at a time. */
  ghost predicate Run(p: Params, run: seq<State>) {
    Steps(p, run) && Init(p, run[0])
  }

  lemma {:induction false} RunInv(p: Params, run: seq<State>, i: nat)
    requires Run(p, run) && i < |run|
    ensures Inv(p, run[i])
  {
    hide Inv;
    hide Next;
    if i == 0 {
      InitInv(p, run[0]);
    } else {
      RunInv(p, run, i - 1);
      NextInv(p, run[i - 1], run[i]);
    }
  }

  /** What has been acknowledged is only ever extended. */
  lemma {:induction false} AcknowledgedGrows(p: Params, run: seq<State>, i: nat, j: nat)
    requires Run(p, run) && i <= j < |run|
    ensures run[i].done + run[i].gen <= run[j].done + run[j].gen
    ensures run[i].origin == run[j].origin && run[i].first == run[j].first
    decreases j - i
  {
    hide Inv;
    if i < j {
      AcknowledgedGrows(p, run, i + 1, j);
      assert Next(p, run[i], run[i + 1]);
      StepGrows(p, run[i], run[i + 1]);
    }
  }

  lemma {:induction false} StepGrows(p: Params, s: State, s': State)
    requires Next(p, s, s')
    ensures s.done + s.gen <= s'.done + s'.gen && s.origin == s'.origin && s.first == s'.first
  {
    if AppendSync(p, s, s') && !s'.stopped {
      assert s.done + (s.gen + [s.phase.commit]) == (s.done + s.gen) + [s.phase.commit];
    } else if Reset(p, s, s') {
      assert s'.done + s'.gen == s.done + s.gen;
    }
  }

  /**
   * The main theorem. At any point `j` of any run, whatever images a crash leaves on the two devices,
   * recovery restores the original database after a list of commits that extends everything acknowledged
   * at any earlier point `i`, and that adds at most the one commit in flight.
   */
  lemma {:induction false} EveryCrashRestores(p: Params, run: seq<State>, i: nat, j: nat, li: seq<byte>, di: seq<byte>)
    returns (cs: seq<Commit>)
    requires Run(p, run) && i <= j < |run|
    requires CrashImage(run[j].log.disk, li) && CrashImage(run[j].db, di)
    requires |di| == p.size && 2 * p.meta.page <= |di| && NoForgery(p, run[j], li, di)
    ensures Durable(run[j], cs) && run[i].done + run[i].gen <= cs
    ensures Restored(p, li, di).Some? && IsAfter(p, run[0], Restored(p, li, di).value, cs)
  {
    hide Inv;
    hide Next;
    hide NoForgery;
    hide Restored;
    RunInv(p, run, j);
    AcknowledgedGrows(p, run, i, j);
    AcknowledgedGrows(p, run, 0, j);
    cs := CrashRestores(p, run[j], li, di);
  }
}
