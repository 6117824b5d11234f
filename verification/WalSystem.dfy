/**
 * The journal and its checkpoints as one state machine: the log, where every commit appends one frame,
 * and the database, where a checkpoint folds the journal in behind two barriers. The two are on separate
 * devices, or the journal is embedded behind the data in the same file. Every step is one device call.
 * A failed call stops the run; a crash may come at any state.
 */
module WalSystem {
  import opened Bytes
  import opened Disks
  import opened MetaPages
  import opened Coalesce
  import opened Wal
  import opened Runs
  import Logs

  /**
   * The journal occupies `capacity` bytes from `base`. The database is the first `data` bytes of a device
   * of `size` bytes, which is the journal's device too when it is `embedded`.
   */
  datatype Params = Params(meta: Format, base: u64, capacity: nat, data: nat, size: nat, embedded: bool)

  function LayoutOf(p: Params): Logs.Layout {
    Logs.Layout(p.base, p.capacity)
  }

  predicate ParamsOk(p: Params) {
    && Logs.LayoutOk(LayoutOf(p))
    && 0 < p.meta.page && 2 * p.meta.page <= p.data <= p.size < U64_LIMIT
    && (p.embedded ==> p.data <= p.base && p.base + p.capacity <= p.size)
  }

  function Writes(c: Commit): seq<Write> {
    c.body + [c.meta]
  }

  /** What a captured commit is: whole body pages beyond the meta pages, and a valid meta of its number. */
  predicate CommitOk(p: Params, c: Commit, txid: nat) {
    && PageWrites(c.body, p.meta.page)
    && (forall i :: 0 <= i < |c.body| ==> 2 * p.meta.page <= c.body[i].offset && End(c.body[i]) <= p.data)
    && (c.meta.offset == 0 || c.meta.offset == p.meta.page)
    && |c.meta.bytes| == p.meta.page
    && txid < U64_LIMIT && p.meta.txid(c.meta.bytes) == Some(txid)
    && Encodable(Writes(c))
  }

  /** Commits numbered consecutively after `previous`. */
  predicate CommitsOk(p: Params, previous: nat, cs: seq<Commit>) {
    forall i :: 0 <= i < |cs| ==> CommitOk(p, cs[i], previous + 1 + i)
  }

  /** The lists that the commits append. */
  function Frames(cs: seq<Commit>): seq<seq<Write>> {
    seq(|cs|, i requires 0 <= i < |cs| => Writes(cs[i]))
  }

  function Logged(previous: nat, cs: seq<Commit>): seq<(u64, seq<Write>)>
    requires previous + |cs| < U64_LIMIT
  {
    Logs.Numbered(previous, Frames(cs))
  }

  /** Every write of the recovered frames, in order. */
  function Replayed(frames: seq<(u64, seq<Write>)>): seq<Write> {
    if |frames| == 0 then [] else frames[0].1 + Replayed(frames[1..])
  }

  datatype Phase =
    | Ready
    | Appending(commit: Commit)
    | Folding(body: seq<Write>, issued: nat)
    | Folded
    | Rooting
    | Rooted

  /**
   * The last complete checkpoint, of transaction `log.checkpoint`, has its meta `anchor` in one of the two
   * pages; `gen` are the commits acknowledged since. History: `origin` is the database before the run, at
   * transaction `first`; `done` are the commits already checkpointed; `start` is the database as of the
   * last checkpoint; `pages` is every meta page ever sent.
   */
  datatype State = State(
    log: Logs.Log, db: Disk, phase: Phase, stopped: bool, anchor: Write, gen: seq<Commit>,
    first: nat, origin: seq<byte>, done: seq<Commit>, start: seq<byte>, pages: set<Write>)

  function LastTxid(s: State): nat {
    s.log.checkpoint + |s.gen|
  }

  /** The checkpoint's meta: the newest commit's, in the page opposite the last checkpoint's. */
  function Root(p: Params, s: State): Write
    requires |s.gen| > 0
  {
    Write(if s.anchor.offset == 0 then p.meta.page else 0, s.gen[|s.gen| - 1].meta.bytes)
  }

  predicate InBody(p: Params, a: int) {
    2 * p.meta.page <= a < p.data
  }

  // ---- Invariant ----

  /** The log is the commits' lists; embedded, its device is the database's. */
  ghost predicate LogOk(p: Params, s: State) {
    && Logs.Inv(LayoutOf(p), s.log)
    && s.log.gen == Frames(s.gen) && s.log.stopped == s.stopped
    && s.log.flight == (if s.phase.Appending? then Some(Writes(s.phase.commit)) else None)
    && (p.embedded ==> s.log.disk == s.db)
  }

  ghost predicate BaseHeld(p: Params, s: State)
    requires p.data <= p.size == |s.start|
  {
    forall a :: InBody(p, a) && Quiet(Bodies(s.gen), a) ==> Holds(s.db, a, s.start[a])
  }

  ghost predicate FinalHeld(p: Params, s: State)
    requires p.data <= p.size == |s.start| && Fits(p.size, Bodies(s.gen))
  {
    forall a :: InBody(p, a) ==> Holds(s.db, a, ApplyAll(s.start, Bodies(s.gen))[a])
  }

  ghost predicate PagesOk(p: Params, s: State) {
    forall w :: w in s.pages && p.meta.txid(w.bytes).Some? ==>
      || p.meta.txid(w.bytes).value < s.log.checkpoint
      || (p.meta.txid(w.bytes).value == s.log.checkpoint && w.bytes == s.anchor.bytes)
      || ((s.phase.Rooting? || s.phase.Rooted?) && |s.gen| > 0 && w == Root(p, s))
  }

  ghost predicate AnchorOk(p: Params, s: State) {
    && (s.anchor.offset == 0 || s.anchor.offset == p.meta.page)
    && |s.anchor.bytes| == p.meta.page && s.log.checkpoint < U64_LIMIT
    && p.meta.txid(s.anchor.bytes) == Some(s.log.checkpoint)
  }

  ghost predicate DbOk(p: Params, s: State)
    requires p.data <= p.size == |s.start| && Fits(p.size, Bodies(s.gen))
  {
    && Sound(s.db) && |s.db.stable| == p.size
    && AnchorOk(p, s) && PagesOk(p, s)
    && match s.phase
       case Ready => BaseHeld(p, s) && HoldsAll(s.db, s.anchor.offset, s.anchor.bytes)
       case Appending(_) => BaseHeld(p, s) && HoldsAll(s.db, s.anchor.offset, s.anchor.bytes)
       case Folding(body, k) =>
         && BaseHeld(p, s) && HoldsAll(s.db, s.anchor.offset, s.anchor.bytes)
         && |s.gen| > 0 && Lists(body, Latest(Bodies(s.gen))) && k <= |body|
       case Folded => FinalHeld(p, s) && HoldsAll(s.db, s.anchor.offset, s.anchor.bytes) && |s.gen| > 0
       case Rooting => FinalHeld(p, s) && HoldsAll(s.db, s.anchor.offset, s.anchor.bytes) && |s.gen| > 0
       case Rooted => |s.gen| > 0 && FinalHeld(p, s) && HoldsAll(s.db, Root(p, s).offset, Root(p, s).bytes)
  }

  /** While nothing has failed, the database's cache holds exactly what the current call sent. */
  ghost predicate CacheOk(p: Params, s: State) {
    match s.phase
    case Ready => s.db.pending == []
    case Appending(_) => p.embedded || s.db.pending == []
    case Folding(body, k) => k <= |body| && s.db.pending == body[..k]
    case Folded => s.db.pending == []
    case Rooting => |s.gen| > 0 && s.db.pending == [Root(p, s)]
    case Rooted => s.db.pending == []
  }

  ghost predicate CommitsFit(p: Params, s: State) {
    && CommitsOk(p, s.first, s.done + s.gen) && CommitsOk(p, s.log.checkpoint, s.gen)
    && LastTxid(s) < U64_LIMIT
    && (s.phase.Appending? ==> CommitOk(p, s.phase.commit, LastTxid(s) + 1))
  }

  ghost predicate Inv(p: Params, s: State) {
    && ParamsOk(p)
    && s.log.checkpoint == s.first + |s.done|
    && CommitsFit(p, s)
    && |s.origin| == p.size == |s.start|
    && Fits(p.size, Bodies(s.done)) && Fits(p.size, Bodies(s.gen))
    && (|s.done| > 0 ==> s.anchor.bytes == s.done[|s.done| - 1].meta.bytes)
    && (forall a :: InBody(p, a) ==> s.start[a] == ApplyAll(s.origin, Bodies(s.done))[a])
    && LogOk(p, s) && DbOk(p, s)
    && (!s.stopped ==> CacheOk(p, s))
  }

  // ---- Steps ----

  ghost predicate Init(p: Params, s: State) {
    && ParamsOk(p)
    && s.phase.Ready? && !s.stopped && s.db.pending == []
    && Logs.Init(LayoutOf(p), s.log) && (p.embedded ==> s.log.disk == s.db)
    && |s.db.stable| == p.size
    && s.gen == [] && s.done == [] && s.log.checkpoint == s.first
    && s.origin == s.db.stable && s.start == s.origin
    && AnchorOk(p, s) && HoldsAll(s.db, s.anchor.offset, s.anchor.bytes)
    && PagesOk(p, s)
  }

  /** What a call on the log's device leaves on the database's. */
  function Beside(p: Params, log: Disk, db: Disk): Disk {
    if p.embedded then log else db
  }

  ghost predicate AppendWrite(p: Params, s: State, s': State) {
    && s.phase.Ready? && !s.stopped && s'.phase.Appending?
    && var c := s'.phase.commit;
    && CommitOk(p, c, LastTxid(s) + 1)
    && Logs.AppendWrite(LayoutOf(p), s.log, s'.log, Writes(c))
    && s' == s.(log := s'.log, db := Beside(p, s'.log.disk, s.db), phase := Appending(c), stopped := s'.log.stopped)
  }

  ghost predicate AppendSync(p: Params, s: State, s': State) {
    && s.phase.Appending? && !s.stopped
    && Logs.AppendSync(LayoutOf(p), s.log, s'.log)
    && var moved := s.(log := s'.log, db := Beside(p, s'.log.disk, s.db), stopped := s'.log.stopped);
    && s' == if s'.log.stopped then moved else moved.(phase := Ready, gen := s.gen + [s.phase.commit])
  }

  /** The log beside a call on the database's device. */
  function LogBeside(p: Params, s: State, db: Disk, stopped: bool): Logs.Log {
    s.log.(disk := if p.embedded then db else s.log.disk, stopped := stopped)
  }

  ghost predicate FoldBegin(p: Params, s: State, s': State) {
    && s.phase.Ready? && !s.stopped && |s.gen| > 0
    && s'.phase.Folding? && s'.phase.issued == 0 && Lists(s'.phase.body, Latest(Bodies(s.gen)))
    && s' == s.(phase := s'.phase)
  }

  ghost predicate FoldWrite(p: Params, s: State, s': State) {
    && s.phase.Folding? && !s.stopped && s.phase.issued < |s.phase.body|
    && Sent(s.db, s.phase.body[s.phase.issued], s'.db, s'.stopped)
    && s' == s.(log := LogBeside(p, s, s'.db, s'.stopped), db := s'.db, stopped := s'.stopped,
                phase := if s'.stopped then s.phase else Folding(s.phase.body, s.phase.issued + 1))
  }

  ghost predicate FoldSync(p: Params, s: State, s': State) {
    && s.phase.Folding? && !s.stopped && s.phase.issued == |s.phase.body|
    && Synced(s.db, s'.db, s'.stopped)
    && s' == s.(log := LogBeside(p, s, s'.db, s'.stopped), db := s'.db, stopped := s'.stopped, phase := if s'.stopped then s.phase else Folded)
  }

  ghost predicate RootWrite(p: Params, s: State, s': State) {
    && s.phase.Folded? && !s.stopped && |s.gen| > 0
    && Sent(s.db, Root(p, s), s'.db, s'.stopped)
    && s' == s.(log := LogBeside(p, s, s'.db, s'.stopped), db := s'.db, stopped := s'.stopped, phase := Rooting, pages := s.pages + {Root(p, s)})
  }

  ghost predicate RootSync(p: Params, s: State, s': State) {
    && s.phase.Rooting? && !s.stopped
    && Synced(s.db, s'.db, s'.stopped)
    && s' == s.(log := LogBeside(p, s, s'.db, s'.stopped), db := s'.db, stopped := s'.stopped, phase := if s'.stopped then Rooting else Rooted)
  }

  /** The journal's next generation starts at offset zero; nothing is written. */
  ghost predicate Reset(p: Params, s: State, s': State) {
    && s.phase.Rooted? && !s.stopped && |s.gen| > 0
    && |s.start| == p.size && Fits(p.size, Bodies(s.gen))
    && Logs.Reset(s.log, s'.log)
    && s' == s.(phase := Ready, log := s'.log, anchor := Root(p, s),
                gen := [], done := s.done + s.gen, start := ApplyAll(s.start, Bodies(s.gen)))
  }

  ghost predicate Next(p: Params, s: State, s': State) {
    || AppendWrite(p, s, s')
    || AppendSync(p, s, s')
    || FoldBegin(p, s, s')
    || FoldWrite(p, s, s')
    || FoldSync(p, s, s')
    || RootWrite(p, s, s')
    || RootSync(p, s, s')
    || Reset(p, s, s')
  }

  ghost function Step(p: Params): (State, State) -> bool {
    (s, s') => Next(p, s, s')
  }

  /** A stretch of a run. */
  ghost predicate Steps(p: Params, run: seq<State>) {
    Linked(run, Step(p))
  }

  // ---- Recovery ----

  function Region(p: Params, li: seq<byte>): seq<byte> {
    Logs.Region(LayoutOf(p), li)
  }

  /** Select the baseline meta, replay the journal after it into a copy of the database image. */
  function Restored(p: Params, li: seq<byte>, di: seq<byte>): Option<seq<byte>>
    requires 2 * p.meta.page <= |di|
  {
    match Baseline(p.meta, di)
    case None => None
    case Some(base) =>
      var ws := Replayed(RecoverFrom(Region(p, li), 0, base.seqno).frames);
      if Fits(|di|, ws) then Some(ApplyAll(di, ws)) else None
  }

  /**
   * The checksums detect every accident in these images: what decodes as a frame was really appended
   * there, and a checksum-valid meta page was really written.
   */
  ghost predicate NoForgery(p: Params, s: State, li: seq<byte>, di: seq<byte>)
    requires 2 * p.meta.page <= |di|
  {
    && Logs.NoForgery(LayoutOf(p), s.log, li)
    && (forall j :: 0 <= j < 2 && p.meta.txid(MetaPage(p.meta, di, j).bytes).Some? ==>
          MetaPage(p.meta, di, j) in s.pages || MetaPage(p.meta, di, j) == s.anchor)
  }
}
