/** The journal object, and the replay loop that appends commits and checkpoints them. */
module Journals {
  import opened Arithmetic
  import opened Bytes
  import opened Devices
  import opened Disks
  import opened MetaPages
  import opened Coalesce
  import opened Wal
  import opened Runs
  import opened Checkpoints
  import opened WalSystem
  import opened WalSafety
  import opened WalRuns
  import Logs

  /** The steps of one append: refused, failed in the write or the barrier, or acknowledged. */
  ghost predicate Appends(y: Logs.Layout, run: seq<Logs.Log>, ws: seq<Write>, ok: bool) {
    && 1 <= |run| <= 3
    && (|run| > 1 ==> Logs.AppendWrite(y, run[0], run[1], ws) && (run[1].stopped <==> |run| == 2))
    && (|run| == 3 ==> Logs.AppendSync(y, run[1], run[2]))
    && (ok <==> |run| == 3 && !run[2].stopped)
  }

  class Journal {
    const base: u64
    const capacity: nat
    var nextOffset: nat
    var nextTxid: u64
    var poisoned: bool

    /** Between two calls: the journal is in step with the log's state. */
    ghost predicate Matches(y: Logs.Layout, l: Logs.Log)
      reads this
    {
      && base == y.base && capacity == y.capacity
      && Logs.Inv(y, l)
      && nextOffset == l.nextOffset && nextTxid == Logs.LastTxid(l) + 1
      && (!poisoned ==> !l.stopped && l.flight.None?)
    }

    constructor (base: u64, capacity: nat, checkpointTxid: u64)
      requires base % ALIGNMENT == 0 && capacity % ALIGNMENT == 0 && base + capacity < U64_LIMIT
      requires checkpointTxid + 1 < U64_LIMIT
      ensures this.base == base && this.capacity == capacity
      ensures nextOffset == 0 && nextTxid == checkpointTxid + 1 && !poisoned
    {
      this.base := base;
      this.capacity := capacity;
      nextOffset := 0;
      nextTxid := checkpointTxid + 1;
      poisoned := false;
    }

    /**
     * `append`, of any list of writes: exactly one frame and one sync. A refused call touches nothing and
     * says why; after an I/O failure the journal is poisoned and nothing is acknowledged.
     */
    method Append(device: Device, writes: seq<Write>, ghost y: Logs.Layout, ghost l: Logs.Log)
      returns (r: Result<u64>, ghost run: seq<Logs.Log>)
      requires Matches(y, l) && device.Content() == l.disk
      modifies this, device
      ensures Logs.Steps(y, run) && run[0] == l && Appends(y, run, writes, r.Ok?)
      ensures Matches(y, Last(run)) && device.Content() == Last(run).disk
      ensures old(poisoned) || !Encodable(writes) ==> r == Err(InvalidInput) && run == [l]
      ensures !old(poisoned) && Encodable(writes) && old(nextOffset) + FrameLength(writes) > capacity ==>
        r == Err(StorageFull) && run == [l]
      ensures r.Ok? ==> r.value == old(nextTxid) && !poisoned && nextTxid == old(nextTxid) + 1
      ensures r.Ok? ==> Last(run).gen == l.gen + [writes] && Last(run).checkpoint == l.checkpoint
      ensures r.Ok? ==> nextOffset == old(nextOffset) + FrameLength(writes)
      ensures r.Err? ==> poisoned == (old(poisoned) || |run| > 1)
      ensures device.failures == old(device.failures) + if r.Err? && |run| > 1 then 1 else 0
      ensures r.Err? && |run| == 1 ==>
        old(poisoned) || !Encodable(writes) || old(nextOffset) + FrameLength(writes) > capacity || old(nextTxid) + 1 >= U64_LIMIT
    {
      hide Logs.Inv;
      hide Frame;
      hide Encodable;
      hide View;
      run := [l];
      LogBounds(y, l);
      if poisoned {
        return Err(InvalidInput), run;
      }
      var length :- EncodedLen(writes);
      if nextOffset + length > capacity {
        return Err(StorageFull), run;
      }
      if nextTxid + 1 >= U64_LIMIT {
        return Err(InvalidInput), run;
      }
      Logs.FrameWriteEnds(y, l, writes);
      var frame := EncodeFrame(nextTxid, writes);
      poisoned := true;
      var written := device.WriteAt(Write(base + nextOffset, frame));
      ghost var l1 := l.(disk := device.Content(), flight := Some(writes), stopped := written.Err?,
                         appended := l.appended + {Logs.Entry(l.nextOffset, Logs.LastTxid(l) + 1, writes)});
      assert Logs.AppendWrite(y, l, l1, writes);
      Logs.AppendWriteInv(y, l, l1, writes);
      Extend(run, l1, Logs.Step(y));
      run := run + [l1];
      if written.Err? {
        return Err(written.kind), run;
      }
      var synced := device.Sync();
      ghost var l2 := if synced.Err? then l1.(disk := device.Content(), stopped := true)
                      else l1.(disk := device.Content(), flight := None, gen := l.gen + [writes],
                               nextOffset := l.nextOffset + FrameLength(writes));
      assert Logs.AppendSync(y, l1, l2);
      Logs.AppendSyncInv(y, l1, l2);
      Extend(run, l2, Logs.Step(y));
      run := run + [l2];
      if synced.Err? {
        return Err(synced.kind), run;
      }
      poisoned := false;
      var txid := nextTxid;
      nextTxid := nextTxid + 1;
      nextOffset := nextOffset + length;
      return Ok(txid), run;
    }

    /** `reset`: accepted exactly for the newest transaction; it touches no device. */
    method Reset(checkpointTxid: u64, ghost y: Logs.Layout, ghost l: Logs.Log)
      returns (r: Result<()>, ghost l': Logs.Log)
      requires Matches(y, l)
      modifies this
      ensures Matches(y, l') && poisoned == old(poisoned) && nextTxid == old(nextTxid)
      ensures r.Ok? <==> !old(poisoned) && checkpointTxid + 1 == old(nextTxid)
      ensures r.Ok? ==> Logs.Reset(l, l') && nextOffset == 0
      ensures r.Err? ==> r.kind == InvalidInput && l' == l && nextOffset == old(nextOffset)
    {
      hide Logs.Inv;
      l' := l;
      if poisoned || checkpointTxid + 1 != nextTxid {
        return Err(InvalidInput), l';
      }
      l' := l.(nextOffset := 0, checkpoint := Logs.LastTxid(l), gen := []);
      Logs.ResetInv(y, l, l');
      nextOffset := 0;
      return Ok(()), l';
    }
  }

  lemma LogBounds(y: Logs.Layout, l: Logs.Log)
    requires Logs.Inv(y, l)
    ensures Logs.LayoutOk(y) && Sound(l.disk) && y.base + y.capacity <= |l.disk.stable| && l.nextOffset <= y.capacity
  {
  }

  /** `new`: a journal over a region, refused exactly when the region is misplaced, too long, or out of numbers. */
  method Open(base: u64, capacity: nat, checkpointTxid: u64) returns (r: Result<Journal>)
    ensures r.Ok? <==> base % ALIGNMENT == 0 && capacity % ALIGNMENT == 0 && base + capacity < U64_LIMIT && checkpointTxid + 1 < U64_LIMIT
    ensures r.Err? ==> r.kind == InvalidInput
    ensures r.Ok? ==>
      && fresh(r.value) && r.value.base == base && r.value.capacity == capacity
      && r.value.nextOffset == 0 && r.value.nextTxid == checkpointTxid + 1 && !r.value.poisoned
  {
    if base % ALIGNMENT != 0 || capacity % ALIGNMENT != 0 {
      return Err(InvalidInput);
    }
    if base + capacity >= U64_LIMIT || checkpointTxid + 1 >= U64_LIMIT {
      return Err(InvalidInput);
    }
    var journal := new Journal(base, capacity, checkpointTxid);
    return Ok(journal);
  }

  /** A new journal is in step with the log's initial state. */
  lemma OpenMatches(journal: Journal, y: Logs.Layout, l: Logs.Log)
    requires Logs.Init(y, l) && journal.base == y.base && journal.capacity == y.capacity
    requires journal.nextOffset == 0 && journal.nextTxid == l.checkpoint + 1 && !journal.poisoned
    ensures journal.Matches(y, l)
  {
    Logs.InitInv(y, l);
  }

  // ---- The journal's steps and the checkpoint's calls, in the whole system ----

  /** An append of a commit's list is the commit's steps. */
  lemma LiftAppend(p: Params, s: State, c: Commit, log: seq<Logs.Log>, ok: bool) returns (run: seq<State>)
    requires Inv(p, s) && s.phase.Ready? && !s.stopped && CommitOk(p, c, LastTxid(s) + 1)
    requires Appends(LayoutOf(p), log, Writes(c), ok) && log[0] == s.log
    ensures Steps(p, run) && run[0] == s && Inv(p, Last(run))
    ensures Last(run).log == Last(log) && Last(run).db == Beside(p, Last(log).disk, s.db)
    ensures Last(run).done == s.done && Last(run).anchor == s.anchor
    ensures ok ==> Last(run).phase.Ready? && !Last(run).stopped && Last(run).gen == s.gen + [c]
    ensures !ok ==> Last(run).gen == s.gen && (run == [s] || Last(run).stopped)
    ensures forall i :: 0 <= i < |run| ==> Adding(s, c, run[i])
  {
    hide Inv;
    hide CommitOk;
    hide Logs.AppendWrite;
    hide Logs.AppendSync;
    run := [s];
    BesideItself(p, s);
    if |log| > 1 {
      var s1 := s.(log := log[1], db := Beside(p, log[1].disk, s.db), phase := Appending(c), stopped := log[1].stopped);
      assert AppendWrite(p, s, s1);
      NextInv(p, s, s1);
      Extend(run, s1, Step(p));
      run := run + [s1];
      if |log| == 3 {
        var moved := s1.(log := log[2], db := Beside(p, log[2].disk, s1.db), stopped := log[2].stopped);
        var s2 := if log[2].stopped then moved else moved.(phase := Ready, gen := s.gen + [c]);
        assert AppendSync(p, s1, s2);
        NextInv(p, s1, s2);
        Extend(run, s2, Step(p));
        run := run + [s2];
      }
    }
  }

  /** Between the append of `c` and its acknowledgement. */
  ghost predicate Adding(s: State, c: Commit, x: State) {
    && x.done == s.done
    && if x.phase.Ready? then x.gen == s.gen || x.gen == s.gen + [c] else x.phase.Appending? && x.gen == s.gen
  }

  /** Folding the generation of `s`, before the journal is reset. */
  ghost predicate OfGeneration(s: State, x: State) {
    x.done == s.done && x.gen == s.gen && !x.phase.Appending?
  }

  lemma BesideItself(p: Params, s: State)
    requires Inv(p, s)
    ensures Beside(p, s.log.disk, s.db) == s.db && LogBeside(p, s, s.db, s.stopped) == s.log
    ensures ParamsOk(p) && |s.db.stable| == p.size && Sound(s.db) && LastTxid(s) < U64_LIMIT
    ensures s.anchor.offset == 0 || s.anchor.offset == p.meta.page
  {
    hide Logs.Inv;
    hide Bodies;
    hide ApplyAll;
    hide CommitsOk;
    hide CommitOk;
    assert s.log.stopped == s.stopped;
    assert LogBeside(p, s, s.db, s.stopped).disk == s.log.disk;
  }

  ghost function PhaseAt(body: seq<Write>, k: nat): Phase {
    if k <= |body| then Folding(body, k) else if k == |body| + 1 then Folded else if k == |body| + 2 then Rooting else Rooted
  }

  /** One call of the checkpoint is one step. */
  lemma LiftCall(p: Params, s: State, body: seq<Write>, k: nat, d: Disk, failed: bool) returns (s': State)
    requires Inv(p, s) && !s.stopped && s.phase == PhaseAt(body, k) && k < |body| + 3 && |s.gen| > 0
    requires Call(body, Root(p, s), k, s.db, d, failed)
    ensures Next(p, s, s') && Inv(p, s')
    ensures s'.db == d && s'.stopped == failed && s'.log == LogBeside(p, s, d, failed)
    ensures s' == s.(db := d, stopped := failed, log := s'.log, phase := s'.phase, pages := s'.pages)
    ensures (!failed ==> s'.phase == PhaseAt(body, k + 1)) && !s'.phase.Appending?
  {
    hide Inv;
    hide Sent;
    hide Synced;
    var log := LogBeside(p, s, d, failed);
    s' := s.(db := d, stopped := failed, log := log);
    if k < |body| {
      s' := s'.(phase := if failed then s.phase else Folding(body, k + 1));
      assert FoldWrite(p, s, s');
    } else if k == |body| {
      s' := s'.(phase := if failed then s.phase else Folded);
      assert FoldSync(p, s, s');
    } else if k == |body| + 1 {
      s' := s'.(phase := Rooting, pages := s.pages + {Root(p, s)});
      assert RootWrite(p, s, s');
    } else {
      s' := s'.(phase := if failed then Rooting else Rooted);
      assert RootSync(p, s, s');
    }
    NextInv(p, s, s');
  }

  /** A checkpoint of the coalesced generation, with its meta in the opposite page, is the protocol's steps. */
  lemma LiftCheckpoint(p: Params, s: State, body: seq<Write>, disks: seq<Disk>, ok: bool) returns (run: seq<State>)
    requires Inv(p, s) && s.phase.Ready? && !s.stopped && |s.gen| > 0 && disks != [] && disks[0] == s.db
    requires Lists(body, Latest(Bodies(s.gen))) && Calls(body, Root(p, s), disks, ok)
    ensures Steps(p, run) && run[0] == s && Inv(p, Last(run))
    ensures Last(run).db == Last(disks) && Last(run).log == LogBeside(p, s, Last(disks), !ok)
    ensures Last(run).gen == s.gen && Last(run).done == s.done && Last(run).anchor == s.anchor
    ensures Last(run).start == s.start && Last(run).stopped == !ok && (ok ==> Last(run).phase.Rooted?)
    ensures forall i :: 0 <= i < |run| ==> OfGeneration(s, run[i])
  {
    hide Inv;
    hide Next;
    hide Call;
    hide Lists;
    hide Latest;
    hide Bodies;
    var now := FoldBegins(p, s, body);
    run := [s];
    Extend(run, now, Step(p));
    run := run + [now];
    BesideItself(p, s);
    var k := 0;
    while k < |disks| - 1
      invariant 0 <= k <= |disks| - 1
      invariant Steps(p, run) && run[0] == s && now == Last(run) && Inv(p, now)
      invariant now.db == disks[k] && now.stopped == (!ok && k == |disks| - 1) && now.log == LogBeside(p, s, disks[k], now.stopped)
      invariant now == s.(db := now.db, stopped := now.stopped, log := now.log, phase := now.phase, pages := now.pages)
      invariant !now.stopped ==> now.phase == PhaseAt(body, k)
      invariant forall i :: 0 <= i < |run| ==> OfGeneration(s, run[i])
    {
      now := LiftCall(p, now, body, k, disks[k + 1], !ok && k == |disks| - 2);
      Extend(run, now, Step(p));
      run := run + [now];
      k := k + 1;
    }
  }

  lemma FoldBegins(p: Params, s: State, body: seq<Write>) returns (s': State)
    requires Inv(p, s) && s.phase.Ready? && !s.stopped && |s.gen| > 0 && Lists(body, Latest(Bodies(s.gen)))
    ensures Next(p, s, s') && Inv(p, s') && s' == s.(phase := Folding(body, 0))
  {
    hide Inv;
    hide Lists;
    hide Latest;
    hide Bodies;
    s' := s.(phase := Folding(body, 0));
    assert FoldBegin(p, s, s');
    NextInv(p, s, s');
  }

  /** Behind a finished checkpoint the journal's reset is the protocol's step. */
  lemma LiftReset(p: Params, s: State, log: Logs.Log) returns (s': State)
    requires Inv(p, s) && s.phase.Rooted? && !s.stopped && |s.gen| > 0 && Logs.Reset(s.log, log)
    ensures Next(p, s, s') && Inv(p, s') && s'.log == log && s'.db == s.db && s'.phase.Ready? && !s'.stopped
    ensures s'.gen == [] && s'.done == s.done + s.gen && s'.anchor == Root(p, s)
  {
    ResetFits(p, s);
    hide Inv;
    hide Bodies;
    hide ApplyAll;
    s' := s.(phase := Ready, log := log, anchor := Root(p, s),
             gen := [], done := s.done + s.gen, start := ApplyAll(s.start, Bodies(s.gen)));
    assert WalSystem.Reset(p, s, s');
    NextInv(p, s, s');
  }

  lemma ResetFits(p: Params, s: State)
    requires Inv(p, s)
    ensures |s.start| == p.size && Fits(p.size, Bodies(s.gen))
  {
    hide Bodies;
    hide ApplyAll;
  }

  lemma {:induction false} TailCommits(p: Params, s: State, commits: seq<Commit>, index: nat)
    requires index < |commits| && LastTxid(s) >= index && CommitsOk(p, LastTxid(s) - index, commits)
    ensures CommitOk(p, commits[index], LastTxid(s) + 1)
  {
    hide CommitOk;
    assert CommitOk(p, commits[index], LastTxid(s) - index + 1 + index);
  }

  /** One checkpoint of the replay loop: coalesce, fold, publish in the opposite page, restart the journal. */
  method FoldGeneration(db: Device, journal: Journal, gen: seq<Commit>, page: u64, slot: nat, ghost p: Params, ghost s: State)
    returns (r: Result<()>, ghost run: seq<State>)
    requires slot < 2 && page == p.meta.page && gen == s.gen && |gen| > 0 && Inv(p, s)
    requires journal.Matches(LayoutOf(p), s.log) && !journal.poisoned && db.Content() == s.db
    requires s.phase.Ready? && !s.stopped && s.anchor.offset == if slot == 0 then 0 else page
    modifies db, journal
    ensures Steps(p, run) && run[0] == s && Inv(p, Last(run)) && db.Content() == Last(run).db
    ensures Last(run).log.disk == if p.embedded then Last(run).db else s.log.disk
    ensures r.Ok? ==>
      && journal.Matches(LayoutOf(p), Last(run).log) && !journal.poisoned && journal.nextTxid == old(journal.nextTxid)
      && Last(run).phase.Ready? && !Last(run).stopped
      && Last(run).gen == [] && Last(run).done == s.done + gen
      && journal.nextOffset == 0
      && Last(run).anchor.offset == if slot == 0 then page else 0
    ensures if r.Ok? then db.failures == old(db.failures) else db.failures > old(db.failures)
    ensures forall i :: 0 <= i < |run| ==> OfGeneration(s, run[i]) || (run[i].phase.Ready? && run[i].gen == [])
  {
    hide Inv;
    hide Next;
    hide Latest;
    hide Bodies;
    hide Lists;
    hide Logs.Inv;
    BesideItself(p, s);
    var body := CoalesceWrites(gen);
    var meta := Write(if slot == 0 then page else 0, gen[|gen| - 1].meta.bytes);
    assert meta == Root(p, s);
    RootOk(p, s);
    FoldListOk(p, s, body);
    ghost var disks;
    r, disks := Checkpoint(db, body, meta);
    run := LiftCheckpoint(p, s, body, disks, r.Ok?);
    if r.Err? {
      return r, run;
    }
    ghost var rooted := Last(run);
    BesideLog(p, rooted);
    ghost var log;
    r, log := journal.Reset(journal.nextTxid - 1, LayoutOf(p), rooted.log);
    ghost var next := LiftReset(p, rooted, log);
    Extend(run, next, Step(p));
    run := run + [next];
  }

  lemma BesideLog(p: Params, s: State)
    requires Inv(p, s)
    ensures Logs.Inv(LayoutOf(p), s.log) && s.log.stopped == s.stopped && (!s.phase.Appending? ==> s.log.flight.None?)
    ensures |s.log.gen| == |s.gen|
  {
    hide Logs.Inv;
    hide DbOk;
    hide CommitsFit;
    hide Bodies;
    hide ApplyAll;
  }

  /** What the frames of these commits take. */
  function Used(cs: seq<Commit>): nat {
    if |cs| == 0 then 0 else Used(cs[..|cs| - 1]) + FrameLength(Writes(cs[|cs| - 1]))
  }

  /** Every generation of the replay fits the region, and the numbers suffice. */
  predicate Room(commits: seq<Commit>, interval: nat, capacity: nat, last: nat)
    requires interval > 0
  {
    && last + |commits| + 1 < U64_LIMIT
    && forall i :: 0 <= i < |commits| ==> Used(commits[i - i % interval..i + 1]) <= capacity
  }

  /**
   * The pace of the replay: never more than `interval` commits in the journal, the next append only below
   * that, and a checkpoint only of `interval` commits or of the last ones.
   */
  ghost predicate Paced(x: State, total: seq<Commit>, interval: nat) {
    && |x.gen| <= interval
    && (x.phase.Appending? ==> |x.gen| < interval)
    && (!x.phase.Ready? && !x.phase.Appending? ==> |x.gen| == interval || x.done + x.gen == total)
  }

  lemma NextStart(index: nat, interval: nat)
    requires interval > 0
    ensures (index + 1) % interval == if index % interval + 1 == interval then 0 else index % interval + 1
    ensures index % interval <= index
  {
    var q, r := index / interval, index % interval;
    assert index == q * interval + r;
    if r + 1 == interval {
      assert index + 1 == (q + 1) * interval;
      DivisionUnique(index + 1, interval, q + 1, 0);
    } else {
      assert index + 1 == q * interval + (r + 1);
      DivisionUnique(index + 1, interval, q, r + 1);
    }
  }

  lemma EmptyGeneration(y: Logs.Layout, l: Logs.Log)
    requires Logs.Inv(y, l) && |l.gen| == 0
    ensures l.nextOffset == 0
  {
  }

  lemma {:induction false} UsedAppend(cs: seq<Commit>, c: Commit)
    ensures Used(cs + [c]) == Used(cs) + FrameLength(Writes(c))
  {
    assert (cs + [c])[..|cs|] == cs;
  }

  /** With room for every generation no append is refused. */
  lemma AppendFits(p: Params, commits: seq<Commit>, interval: nat, capacity: nat, last: nat, index: nat)
    requires interval > 0 && index < |commits| && CommitOk(p, commits[index], last + index + 1)
    ensures Encodable(Writes(commits[index])) && index % interval <= index
    ensures Room(commits, interval, capacity, last) ==>
      && last + index + 2 < U64_LIMIT
      && Used(commits[index - index % interval..index]) + FrameLength(Writes(commits[index])) <= capacity
  {
    hide Encodable;
    hide FrameLength;
    NextStart(index, interval);
    var start := index - index % interval;
    assert commits[start..index] + [commits[index]] == commits[start..index + 1];
    UsedAppend(commits[start..index], commits[index]);
    hide Used;
  }

  lemma StartPaced(s: State, total: seq<Commit>, interval: nat)
    requires s.phase.Ready? && s.gen == []
    ensures Paced(s, total, interval) && Used([]) == 0
  {
  }

  lemma PacedAppend(run: seq<State>, more: seq<State>, now: State, c: Commit, total: seq<Commit>, interval: nat)
    requires |run| > 0 && |more| > 0 && |now.gen| < interval
    requires forall i :: 0 <= i < |run| ==> Paced(run[i], total, interval)
    requires forall i :: 0 <= i < |more| ==> Adding(now, c, more[i])
    ensures var whole := run + more[1..]; forall i :: 0 <= i < |whole| ==> Paced(whole[i], total, interval)
  {
  }

  lemma PacedFold(run: seq<State>, more: seq<State>, now: State, total: seq<Commit>, interval: nat)
    requires |run| > 0 && |more| > 0 && (|now.gen| == interval || (|now.gen| <= interval && now.done + now.gen == total))
    requires forall i :: 0 <= i < |run| ==> Paced(run[i], total, interval)
    requires forall i :: 0 <= i < |more| ==> OfGeneration(now, more[i]) || (more[i].phase.Ready? && more[i].gen == [])
    ensures var whole := run + more[1..]; forall i :: 0 <= i < |whole| ==> Paced(whole[i], total, interval)
  {
  }

  lemma {:induction false} Slices<T>(done: seq<T>, xs: seq<T>, start: nat, i: nat)
    requires start <= i < |xs|
    ensures xs[start..i] + [xs[i]] == xs[start..i + 1] && xs[i + 1..i + 1] == []
    ensures done + xs[..start] + xs[start..i + 1] == done + xs[..i + 1]
    ensures i + 1 == |xs| ==> xs[..i + 1] == xs
  {
    assert xs[..start] + xs[start..i + 1] == xs[..i + 1];
  }

  /** One append of the replay loop. */
  method AppendCommit(log: Device, journal: Journal, c: Commit, ghost p: Params, ghost s: State)
    returns (r: Result<u64>, ghost run: seq<State>)
    requires Inv(p, s) && s.phase.Ready? && !s.stopped && CommitOk(p, c, LastTxid(s) + 1)
    requires journal.Matches(LayoutOf(p), s.log) && !journal.poisoned && log.Content() == s.log.disk
    modifies log, journal
    ensures Steps(p, run) && run[0] == s && Inv(p, Last(run)) && log.Content() == Last(run).log.disk
    ensures Last(run).db == Beside(p, Last(run).log.disk, s.db)
    ensures forall i :: 0 <= i < |run| ==> Adding(s, c, run[i])
    ensures r.Ok? ==>
      && journal.Matches(LayoutOf(p), Last(run).log) && !journal.poisoned && journal.nextTxid == old(journal.nextTxid) + 1
      && journal.nextOffset == old(journal.nextOffset) + FrameLength(Writes(c))
      && Last(run).phase.Ready? && !Last(run).stopped && Last(run).anchor == s.anchor
      && Last(run).gen == s.gen + [c] && Last(run).done == s.done && log.failures == old(log.failures)
    ensures r.Err? ==>
      || log.failures > old(log.failures) || !Encodable(Writes(c)) || old(journal.nextTxid) + 1 >= U64_LIMIT
      || old(journal.nextOffset) + FrameLength(Writes(c)) > journal.capacity
  {
    hide Inv;
    hide CommitOk;
    hide Next;
    hide Logs.Inv;
    hide Logs.Step;
    hide Appends;
    hide Encodable;
    hide FrameLength;
    hide Adding;
    BesideLog(p, s);
    ghost var steps;
    r, steps := journal.Append(log, c.body + [c.meta], LayoutOf(p), s.log);
    run := LiftAppend(p, s, c, steps, r.Ok?);
  }

  /**
   * The replay loop of the experiment: append every commit, and after every `interval` of them, and after
   * the last, fold the commits since the previous checkpoint into the database, alternating the meta page by
   * checkpoint rather than by transaction number. The journal has its own device or is embedded in the
   * database's. Either every commit is acknowledged, or a call failed or
   * a generation did not fit.
   */
  method Replay(log: Device, db: Device, journal: Journal, commits: seq<Commit>, interval: nat,
                page: u64, firstSlot: nat, ghost p: Params, ghost s: State)
    returns (r: Result<()>, ghost run: seq<State>)
    requires (log == db <==> p.embedded) && interval > 0 && firstSlot < 2 && page == p.meta.page && Inv(p, s)
    requires journal.Matches(LayoutOf(p), s.log) && !journal.poisoned && log.Content() == s.log.disk && db.Content() == s.db
    requires s.phase.Ready? && !s.stopped && s.gen == [] && CommitsOk(p, LastTxid(s), commits)
    requires s.anchor.offset == if firstSlot == 0 then 0 else page
    modifies log, db, journal
    ensures Steps(p, run) && run[0] == s && Inv(p, Last(run))
    ensures log.Content() == Last(run).log.disk && db.Content() == Last(run).db
    ensures r.Ok? ==> Last(run).done == s.done + commits && Last(run).gen == [] && !Last(run).stopped
    ensures r.Ok? ==> log.failures == old(log.failures) && db.failures == old(db.failures)
    ensures r.Err? ==>
      || log.failures > old(log.failures) || db.failures > old(db.failures)
      || !Room(commits, interval, journal.capacity, LastTxid(s))
    ensures forall i :: 0 <= i < |run| ==> Paced(run[i], s.done + commits, interval)
  {
    hide Inv;
    hide CommitOk;
    hide Next;
    hide Logs.Inv;
    hide Logs.Step;
    hide Appends;
    hide Room;
    hide Used;
    hide Encodable;
    hide FrameLength;
    hide Adding;
    hide OfGeneration;
    hide Paced;
    hide Step;
    hide Root;
    run := [s];
    BesideLog(p, s);
    StartPaced(s, s.done + commits, interval);
    EmptyGeneration(LayoutOf(p), s.log);
    var checkpointStart, checkpointSlot := 0, firstSlot;
    for index := 0 to |commits|
      invariant checkpointStart <= index && checkpointSlot < 2
      invariant Steps(p, run) && run[0] == s && Inv(p, Last(run))
      invariant journal.Matches(LayoutOf(p), Last(run).log) && !journal.poisoned
      invariant log.Content() == Last(run).log.disk && db.Content() == Last(run).db
      invariant Last(run).phase.Ready? && !Last(run).stopped
      invariant Last(run).gen == commits[checkpointStart..index] && Last(run).done == s.done + commits[..checkpointStart]
      invariant journal.nextTxid == LastTxid(s) + index + 1
      invariant Last(run).anchor.offset == if checkpointSlot == 0 then 0 else page
      invariant index == |commits| ==> checkpointStart == index
      invariant index < |commits| ==> checkpointStart == index - index % interval
      invariant log.failures == old(log.failures) && db.failures == old(db.failures)
      invariant journal.nextOffset == Used(commits[checkpointStart..index])
      invariant forall i :: 0 <= i < |run| ==> Paced(run[i], s.done + commits, interval)
    {
      NextStart(index, interval);
      ghost var total := s.done + commits;
      var c := commits[index];
      ghost var now := Last(run);
      BesideLog(p, now);
      BesideItself(p, now);
      TailCommits(p, now, commits, index);
      ghost var more;
      var appended;
      appended, more := AppendCommit(log, journal, c, p, now);
      UsedAppend(commits[checkpointStart..index], c);
      Slices(s.done, commits, checkpointStart, index);
      AppendFits(p, commits, interval, journal.capacity, LastTxid(s), index);
      PacedAppend(run, more, now, c, total, interval);
      Join(run, more, Step(p));
      run := run + more[1..];
      if appended.Err? {
        return Err(appended.kind), run;
      }
      var gen := commits[checkpointStart..index + 1];
      if (index + 1) % interval == 0 || index + 1 == |commits| {
        var folded;
        now := Last(run);
        folded, more := FoldGeneration(db, journal, gen, page, checkpointSlot, p, now);
        PacedFold(run, more, now, total, interval);
        Join(run, more, Step(p));
        run := run + more[1..];
        if folded.Err? {
          return Err(folded.kind), run;
        }
        checkpointSlot := 1 - checkpointSlot;
        checkpointStart := index + 1;
      }
    }
    assert commits[..|commits|] == commits;
    return Ok(()), run;
  }
}
