/** Durability of the journal over every run of appends and checkpoints, and every crash image. */
module WalSafety {
  import opened Bytes
  import opened Disks
  import opened MetaPages
  import opened Coalesce
  import opened Wal
  import opened WalSystem
  import Logs

  // ---- Lists of commits, frames and writes ----

  lemma {:induction false} FramesAppend(cs: seq<Commit>, c: Commit)
    ensures Frames(cs + [c]) == Frames(cs) + [Writes(c)]
  {
  }

  lemma {:induction false} LoggedAppend(previous: nat, cs: seq<Commit>, c: Commit)
    requires previous + |cs| + 1 < U64_LIMIT
    ensures Logged(previous, cs + [c]) == Logged(previous, cs) + [(previous + |cs| + 1, Writes(c))]
  {
    hide Writes;
    FramesAppend(cs, c);
    Logs.NumberedConcat(previous, Frames(cs), [Writes(c)]);
    LoggedOne(previous + |cs|, Writes(c));
  }

  lemma {:induction false} LoggedOne(previous: nat, ws: seq<Write>)
    requires previous + 1 < U64_LIMIT
    ensures Logs.Numbered(previous, [ws]) == [(previous + 1, ws)]
  {
    assert Logs.Numbered(previous + 1, [ws][1..]) == [];
  }

  lemma {:induction false} ReplayedAppend(frames: seq<(u64, seq<Write>)>, frame: (u64, seq<Write>))
    ensures Replayed(frames + [frame]) == Replayed(frames) + frame.1
    decreases |frames|
  {
    if |frames| == 0 {
      assert frames + [frame] == [frame];
      assert Replayed([frame][1..]) == [];
    } else {
      assert (frames + [frame])[1..] == frames[1..] + [frame];
      ReplayedAppend(frames[1..], frame);
    }
  }

  lemma {:induction false} BodiesAppend(cs: seq<Commit>, c: Commit)
    ensures Bodies(cs + [c]) == Bodies(cs) + c.body
  {
    assert (cs + [c])[..|cs|] == cs;
  }

  lemma {:induction false} ConcatLast<T>(a: seq<T>, b: seq<T>)
    requires |b| > 0
    ensures a + b == (a + b[..|b| - 1]) + [b[|b| - 1]] && b == b[..|b| - 1] + [b[|b| - 1]]
  {
  }

  lemma {:induction false} BodiesConcat(a: seq<Commit>, b: seq<Commit>)
    ensures Bodies(a + b) == Bodies(a) + Bodies(b)
    decreases |b|
  {
    if |b| == 0 {
      assert a + b == a;
    } else {
      hide Bodies;
      var n := |b| - 1;
      BodiesConcat(a, b[..n]);
      BodiesAppend(a + b[..n], b[n]);
      BodiesAppend(b[..n], b[n]);
      ConcatLast(a, b);
      ConcatAssociative(Bodies(a), Bodies(b[..n]), b[n].body);
    }
  }

  lemma {:induction false} FitsConcat(size: nat, a: seq<Write>, b: seq<Write>)
    requires Fits(size, a) && Fits(size, b)
    ensures Fits(size, a + b)
  {
  }

  lemma {:induction false} ApplyAllAppend(img: seq<byte>, ws: seq<Write>, w: Write)
    requires Fits(|img|, ws) && End(w) <= |img|
    ensures Fits(|img|, ws + [w]) && ApplyAll(img, ws + [w]) == Apply(ApplyAll(img, ws), w)
  {
    hide Apply;
    assert (ws + [w])[..|ws|] == ws;
  }

  lemma {:induction false} ApplyAllConcat(img: seq<byte>, a: seq<Write>, b: seq<Write>)
    requires Fits(|img|, a) && Fits(|img|, b)
    ensures Fits(|img|, a + b) && ApplyAll(img, a + b) == ApplyAll(ApplyAll(img, a), b)
    decreases |b|
  {
    FitsConcat(|img|, a, b);
    if |b| == 0 {
      assert a + b == a;
    } else {
      hide Apply;
      hide ApplyAll;
      var n := |b| - 1;
      ApplyAllConcat(img, a, b[..n]);
      assert b == b[..n] + [b[n]];
      assert a + b == (a + b[..n]) + [b[n]];
      ApplyAllAppend(img, a + b[..n], b[n]);
      ApplyAllAppend(ApplyAll(img, a), b[..n], b[n]);
    }
  }

  lemma {:induction false} BodiesFit(p: Params, previous: nat, cs: seq<Commit>)
    requires ParamsOk(p) && CommitsOk(p, previous, cs)
    ensures Fits(p.data, Bodies(cs)) && Fits(p.size, Bodies(cs)) && PageWrites(Bodies(cs), p.meta.page)
    ensures forall i :: 0 <= i < |Bodies(cs)| ==> 2 * p.meta.page <= Bodies(cs)[i].offset
    decreases |cs|
  {
    hide Encodable;
    if |cs| > 0 {
      var n := |cs| - 1;
      assert CommitsOk(p, previous, cs[..n]);
      BodiesFit(p, previous, cs[..n]);
      assert CommitOk(p, cs[n], previous + 1 + n);
    }
  }

  // ---- The log ----

  /** The log's own theorem, in terms of the commits: exactly this generation, plus possibly the one in flight. */
  lemma {:induction false} CommitsRecover(p: Params, s: State, li: seq<byte>, di: seq<byte>) returns (cs: seq<Commit>)
    requires Inv(p, s) && CrashImage(s.log.disk, li) && 2 * p.meta.page <= |di| && NoForgery(p, s, li, di)
    ensures cs == s.gen || (s.phase.Appending? && cs == s.gen + [s.phase.commit])
    ensures CommitsOk(p, s.log.checkpoint, cs) && s.log.checkpoint + |cs| < U64_LIMIT
    ensures RecoverFrom(Region(p, li), 0, s.log.checkpoint).frames == Logged(s.log.checkpoint, cs)
  {
    hide DbOk;
    hide CommitOk;
    hide RecoverFrom;
    hide Bodies;
    hide ApplyAll;
    hide Logs.Inv;
    hide Logs.NoForgery;
    hide Logs.Region;
    hide Logs.Numbered;
    hide CrashImage;
    hide Writes;
    var wss := Logs.LogRecovers(LayoutOf(p), s.log, li);
    cs := s.gen;
    if wss != s.log.gen {
      cs := s.gen + [s.phase.commit];
      FramesAppend(s.gen, s.phase.commit);
    }
  }

  // ---- Replay ----

  lemma {:induction false} CommitFits(p: Params, c: Commit, txid: nat)
    requires ParamsOk(p) && CommitOk(p, c, txid)
    ensures Fits(p.size, c.body) && End(c.meta) <= p.size && Fits(p.size, Writes(c))
    ensures forall i :: 0 <= i < |c.body| ==> 2 * p.meta.page <= c.body[i].offset
  {
    hide Encodable;
  }

  /** The newest commit's frame comes last in a replay. */
  lemma {:induction false} ReplayedLast(p: Params, previous: nat, cs: seq<Commit>)
    requires CommitsOk(p, previous, cs) && previous + |cs| < U64_LIMIT && |cs| > 0
    ensures CommitsOk(p, previous, cs[..|cs| - 1]) && CommitOk(p, cs[|cs| - 1], previous + |cs|)
    ensures Replayed(Logged(previous, cs)) == Replayed(Logged(previous, cs[..|cs| - 1])) + Writes(cs[|cs| - 1])
  {
    hide CommitOk;
    hide Replayed;
    hide Writes;
    var n := |cs| - 1;
    assert CommitOk(p, cs[n], previous + 1 + n);
    assert cs == cs[..n] + [cs[n]];
    LoggedAppend(previous, cs[..n], cs[n]);
    ReplayedAppend(Logged(previous, cs[..n]), (previous + n + 1, Writes(cs[n])));
  }

  /** A commit's frame is its body, then its meta. */
  lemma {:induction false} ReplayCommit(img: seq<byte>, r: seq<Write>, c: Commit)
    requires Fits(|img|, r) && Fits(|img|, c.body) && End(c.meta) <= |img|
    ensures Fits(|img|, r + Writes(c))
    ensures ApplyAll(img, r + Writes(c)) == Apply(ApplyAll(ApplyAll(img, r), c.body), c.meta)
  {
    hide Apply;
    hide ApplyAll;
    ApplyAllConcat(img, r, c.body);
    assert r + Writes(c) == (r + c.body) + [c.meta];
    ApplyAllAppend(img, r + c.body, c.meta);
  }

  /** Replaying frames over an image acts on the body exactly as the commits' bodies do. */
  lemma {:induction false} BodyReplay(p: Params, previous: nat, cs: seq<Commit>, img: seq<byte>, a: nat)
    requires ParamsOk(p) && CommitsOk(p, previous, cs) && previous + |cs| < U64_LIMIT && |img| == p.size && InBody(p, a)
    ensures Fits(p.size, Replayed(Logged(previous, cs))) && Fits(p.size, Bodies(cs))
    ensures ApplyAll(img, Replayed(Logged(previous, cs)))[a] == ApplyAll(img, Bodies(cs))[a]
    decreases |cs|
  {
    hide Encodable;
    if |cs| > 0 {
      var c, before := cs[|cs| - 1], cs[..|cs| - 1];
      ReplayedLast(p, previous, cs);
      CommitFits(p, c, previous + |cs|);
      BodyReplay(p, previous, before, img, a);
      var r, b := Replayed(Logged(previous, before)), Bodies(before);
      hide Replayed;
      hide Logged;
      ReplayCommit(img, r, c);
      ApplyAllConcat(img, b, c.body);
      assert Bodies(cs) == b + c.body;
      hide Bodies;
      assert !Covers(c.meta, a);
      ReplayConverges(ApplyAll(img, r), ApplyAll(img, b), c.body, a);
    }
  }

  ghost predicate MetaOf(cs: seq<Commit>, bytes: seq<byte>) {
    exists i :: 0 <= i < |cs| && cs[i].meta.bytes == bytes
  }

  /** A meta page after replay is the newest commit's, some other commit's, or what the image had. */
  lemma {:induction false} PagesReplay(p: Params, previous: nat, cs: seq<Commit>, img: seq<byte>, j: nat)
    requires ParamsOk(p) && CommitsOk(p, previous, cs) && previous + |cs| < U64_LIMIT && |img| == p.size && j < 2
    ensures Fits(p.size, Replayed(Logged(previous, cs)))
    ensures var after := ApplyAll(img, Replayed(Logged(previous, cs)));
      MetaPage(p.meta, after, j) == MetaPage(p.meta, img, j) || MetaOf(cs, MetaPage(p.meta, after, j).bytes)
    ensures |cs| > 0 && cs[|cs| - 1].meta.offset == PageStart(p.meta, j) ==>
      MetaPage(p.meta, ApplyAll(img, Replayed(Logged(previous, cs))), j).bytes == cs[|cs| - 1].meta.bytes
    decreases |cs|
  {
    if |cs| > 0 {
      var c, before := cs[|cs| - 1], cs[..|cs| - 1];
      ReplayedLast(p, previous, cs);
      CommitFits(p, c, previous + |cs|);
      PagesReplay(p, previous, before, img, j);
      var r := Replayed(Logged(previous, before));
      hide Replayed;
      hide Logged;
      hide ApplyAll;
      hide Encodable;
      ReplayCommit(img, r, c);
      var y := ApplyAll(img, r);
      var z := ApplyAll(y, c.body);
      PageUntouched(p, y, c.body, j);
      PageWritten(p, z, c.meta, j);
      MetaOfLonger(cs, MetaPage(p.meta, y, j).bytes);
      assert c.meta.bytes == cs[|cs| - 1].meta.bytes;
      hide MetaPage;
      assert MetaOf(cs, c.meta.bytes);
    }
  }

  lemma {:induction false} MetaOfLonger(cs: seq<Commit>, bytes: seq<byte>)
    requires |cs| > 0
    ensures MetaOf(cs[..|cs| - 1], bytes) ==> MetaOf(cs, bytes)
  {
    var before := cs[..|cs| - 1];
    if MetaOf(before, bytes) {
      var i :| 0 <= i < |before| && before[i].meta.bytes == bytes;
      assert cs[i] == before[i];
    }
  }

  lemma {:induction false} PageUntouched(p: Params, img: seq<byte>, ws: seq<Write>, j: nat)
    requires ParamsOk(p) && |img| == p.size && j < 2 && Fits(p.size, ws)
    requires forall i :: 0 <= i < |ws| ==> 2 * p.meta.page <= ws[i].offset
    ensures MetaPage(p.meta, ApplyAll(img, ws), j) == MetaPage(p.meta, img, j)
  {
    var at := PageStart(p.meta, j);
    var now, was := MetaPage(p.meta, ApplyAll(img, ws), j).bytes, MetaPage(p.meta, img, j).bytes;
    forall k | 0 <= k < |now| ensures now[k] == was[k] {
      ApplyAllByte(img, ws, at + k);
      assert Quiet(ws, at + k);
    }
  }

  lemma {:induction false} PageWritten(p: Params, img: seq<byte>, w: Write, j: nat)
    requires ParamsOk(p) && |img| == p.size && j < 2
    requires (w.offset == 0 || w.offset == p.meta.page) && |w.bytes| == p.meta.page
    ensures w.offset == PageStart(p.meta, j) ==> MetaPage(p.meta, Apply(img, w), j).bytes == w.bytes
    ensures w.offset != PageStart(p.meta, j) ==> MetaPage(p.meta, Apply(img, w), j) == MetaPage(p.meta, img, j)
  {
    var at, after := PageStart(p.meta, j), Apply(img, w);
    var now, was := MetaPage(p.meta, after, j).bytes, MetaPage(p.meta, img, j).bytes;
    forall k | 0 <= k < |now| ensures now[k] == if w.offset == at then w.bytes[k] else was[k] {
      assert now[k] == after[at + k];
    }
  }

  // ---- What a crash image of the database holds ----

  /** A checksum-valid page is the last checkpoint's or older, or the new root, which is only ever sent last. */
  lemma {:induction false} PageTxid(p: Params, s: State, li: seq<byte>, di: seq<byte>, j: nat)
    requires Inv(p, s) && |di| == p.size && NoForgery(p, s, li, di) && j < 2
    requires p.meta.txid(MetaPage(p.meta, di, j).bytes).Some?
    ensures var t := p.meta.txid(MetaPage(p.meta, di, j).bytes).value;
      || t < s.log.checkpoint
      || (t == s.log.checkpoint && MetaPage(p.meta, di, j).bytes == s.anchor.bytes)
      || ((s.phase.Rooting? || s.phase.Rooted?) && |s.gen| > 0 && t == LastTxid(s) && MetaPage(p.meta, di, j) == Root(p, s))
  {
    hide LogOk;
    hide FrameAt;
    if |s.gen| > 0 {
      assert CommitOk(p, s.gen[|s.gen| - 1], s.log.checkpoint + 1 + (|s.gen| - 1));
    }
  }

  lemma {:induction false} HeldPage(p: Params, d: Disk, di: seq<byte>, w: Write) returns (j: nat)
    requires ParamsOk(p) && CrashImage(d, di) && |di| == p.size && HoldsAll(d, w.offset, w.bytes)
    requires (w.offset == 0 || w.offset == p.meta.page) && |w.bytes| == p.meta.page
    ensures j < 2 && MetaPage(p.meta, di, j) == w
  {
    HeldInImage(d, di, w.offset, w.bytes);
    j := if w.offset == 0 then 0 else 1;
  }

  /** A page in which every byte is that of `a` or that of `b`. */
  ghost predicate Mixture(mix: seq<byte>, a: seq<byte>, b: seq<byte>) {
    |mix| == |a| == |b| && forall i :: 0 <= i < |mix| ==> mix[i] == a[i] || mix[i] == b[i]
  }

  /** What a write in flight over page `j` may leave: the other page as it was, and any mixture in this one. */
  lemma {:induction false} PageMixture(f: Format, d: Disk, j: nat, root: Write, img: seq<byte>)
    requires j < 2 && 2 * f.page <= |d.stable| && d.pending == [root]
    requires root.offset == PageStart(f, j) && |root.bytes| == f.page && CrashImage(d, img)
    ensures MetaPage(f, img, 1 - j) == MetaPage(f, d.stable, 1 - j)
    ensures Mixture(MetaPage(f, img, j).bytes, MetaPage(f, d.stable, j).bytes, root.bytes)
  {
    hide CrashByte;
    UntouchedPage(f, d, root, 1 - j, img);
    var now, before := MetaPage(f, img, j).bytes, MetaPage(f, d.stable, j).bytes;
    forall k | 0 <= k < |now|
      ensures now[k] == before[k] || now[k] == root.bytes[k]
    {
      OneInFlight(d, root, PageStart(f, j) + k, img[PageStart(f, j) + k]);
    }
  }

  lemma OneInFlight(d: Disk, w: Write, a: nat, v: byte)
    requires d.pending == [w] && a < |d.stable| && CrashByte(d, a, v)
    ensures v == d.stable[a] || (Covers(w, a) && v == w.bytes[a - w.offset])
  {
  }

  lemma {:induction false} UntouchedPage(f: Format, d: Disk, w: Write, j: nat, img: seq<byte>)
    requires j < 2 && 2 * f.page <= |d.stable| && d.pending == [w] && CrashImage(d, img)
    requires Apart(w, PageStart(f, j), f.page)
    ensures MetaPage(f, img, j) == MetaPage(f, d.stable, j)
  {
    hide CrashByte;
    var now, was := MetaPage(f, img, j).bytes, MetaPage(f, d.stable, j).bytes;
    forall k | 0 <= k < |now|
      ensures now[k] == was[k]
    {
      OneInFlight(d, w, PageStart(f, j) + k, img[PageStart(f, j) + k]);
    }
  }

  lemma {:induction false} MixtureHappens(f: Format, d: Disk, j: nat, root: Write, mix: seq<byte>) returns (img: seq<byte>)
    requires j < 2 && 2 * f.page <= |d.stable| && d.pending == [root]
    requires root.offset == PageStart(f, j) && |root.bytes| == f.page
    requires Mixture(mix, MetaPage(f, d.stable, j).bytes, root.bytes)
    ensures CrashImage(d, img) && MetaPage(f, img, j).bytes == mix && MetaPage(f, img, 1 - j) == MetaPage(f, d.stable, 1 - j)
  {
    var w, before := Write(root.offset, mix), MetaPage(f, d.stable, j).bytes;
    img := Apply(d.stable, w);
    forall a | 0 <= a < |img|
      ensures CrashByte(d, a, img[a])
    {
      if Covers(w, a) {
        var i := a - w.offset;
        assert mix[i] == before[i] || mix[i] == root.bytes[i];
        assert before[i] == d.stable[a] && Covers(d.pending[0], a);
      }
    }
    UntouchedPage(f, d, root, 1 - j, img);
    assert MetaPage(f, img, j).bytes == mix;
  }

  /**
   * Why the root goes to the opposite page. Aimed at the page of the last checkpoint, it leaves a baseline in
   * every crash image exactly when the other page is valid, or no mixture of the two roots is invalid.
   */
  lemma {:induction false} SameSlotBaseline(f: Format, d: Disk, j: nat, root: Write)
    requires j < 2 && 2 * f.page <= |d.stable| && d.pending == [root]
    requires root.offset == PageStart(f, j) && |root.bytes| == f.page
    ensures (forall img :: CrashImage(d, img) ==> Baseline(f, img).Some?) <==>
      || f.txid(MetaPage(f, d.stable, 1 - j).bytes).Some?
      || forall mix :: Mixture(mix, MetaPage(f, d.stable, j).bytes, root.bytes) ==> f.txid(mix).Some?
  {
    hide Mixture;
    hide CrashByte;
    hide MetaPage;
    if f.txid(MetaPage(f, d.stable, 1 - j).bytes).Some?
       || forall mix :: Mixture(mix, MetaPage(f, d.stable, j).bytes, root.bytes) ==> f.txid(mix).Some? {
      forall img | CrashImage(d, img)
        ensures Baseline(f, img).Some?
      {
        PageMixture(f, d, j, root, img);
      }
    } else {
      var mix :| Mixture(mix, MetaPage(f, d.stable, j).bytes, root.bytes) && f.txid(mix).None?;
      var img := MixtureHappens(f, d, j, root, mix);
      assert Baseline(f, img).None?;
    }
  }

  /** The baseline is the last checkpoint, or the new root once it has landed whole. */
  lemma {:induction false} BaselineIs(p: Params, s: State, li: seq<byte>, di: seq<byte>)
    requires Inv(p, s) && CrashImage(s.db, di) && |di| == p.size && NoForgery(p, s, li, di)
    ensures Baseline(p.meta, di).Some?
    ensures var t := Baseline(p.meta, di).value.seqno;
      || (t == s.log.checkpoint && !s.phase.Rooted?)
      || ((s.phase.Rooting? || s.phase.Rooted?) && |s.gen| > 0 && t == LastTxid(s)
          && Baseline(p.meta, di).value.meta == Root(p, s))
  {
    hide LogOk;
    hide FrameAt;
    hide NoForgery;
    var j;
    if s.phase.Rooted? {
      assert CommitOk(p, s.gen[|s.gen| - 1], s.log.checkpoint + 1 + (|s.gen| - 1));
      j := HeldPage(p, s.db, di, Root(p, s));
    } else {
      j := HeldPage(p, s.db, di, s.anchor);
    }
    if p.meta.txid(MetaPage(p.meta, di, 0).bytes).Some? {
      PageTxid(p, s, li, di, 0);
    }
    if p.meta.txid(MetaPage(p.meta, di, 1).bytes).Some? {
      PageTxid(p, s, li, di, 1);
    }
  }

  /** Away from the bytes the journal rewrites, the image still has the last checkpoint's contents. */
  lemma {:induction false} BaseInImage(p: Params, s: State, di: seq<byte>, a: nat)
    requires Inv(p, s) && CrashImage(s.db, di) && InBody(p, a) && Quiet(Bodies(s.gen), a)
    ensures di[a] == s.start[a]
  {
    hide LogOk;
    if BaseHeld(p, s) {
      HeldByteInImage(s.db, di, a, s.start[a]);
    } else {
      ApplyAllByte(s.start, Bodies(s.gen), a);
      HeldByteInImage(s.db, di, a, ApplyAll(s.start, Bodies(s.gen))[a]);
    }
  }

  // ---- The durability theorem for one crash ----

  /** What a run has acknowledged, and what may come on top of it. */
  ghost predicate Durable(s: State, cs: seq<Commit>) {
    cs == s.done + s.gen || (s.phase.Appending? && cs == s.done + s.gen + [s.phase.commit])
  }

  /** `img` is the database after exactly the commits `cs`. */
  ghost predicate IsAfter(p: Params, s: State, img: seq<byte>, cs: seq<Commit>) {
    && |img| == p.size == |s.origin| && 2 * p.meta.page <= p.data <= p.size && Fits(p.size, Bodies(cs))
    && (forall a :: InBody(p, a) ==> img[a] == ApplyAll(s.origin, Bodies(cs))[a])
    && Baseline(p.meta, img).Some? && Baseline(p.meta, img).value.seqno == s.first + |cs|
    && (|cs| > 0 ==> Baseline(p.meta, img).value.meta.bytes == cs[|cs| - 1].meta.bytes)
  }

  lemma {:induction false} TotalBody(p: Params, s: State, img: seq<byte>, cs: seq<Commit>, a: nat)
    requires Inv(p, s) && |img| == p.size && InBody(p, a)
    requires CommitsOk(p, s.log.checkpoint, cs)
    requires Fits(p.size, Bodies(cs)) && Fits(p.size, Bodies(s.done + cs))
    requires Quiet(Bodies(cs), a) ==> img[a] == s.start[a]
    ensures ApplyAll(img, Bodies(cs))[a] == ApplyAll(s.origin, Bodies(s.done + cs))[a]
  {
    hide LogOk;
    hide DbOk;
    BodiesConcat(s.done, cs);
    ApplyAllConcat(s.origin, Bodies(s.done), Bodies(cs));
    ReplayConverges(img, ApplyAll(s.origin, Bodies(s.done)), Bodies(cs), a);
  }

  lemma {:induction false} QuietExtends(gen: seq<Commit>, cs: seq<Commit>, a: int)
    requires cs == gen || (|cs| > 0 && cs[..|cs| - 1] == gen)
    requires Quiet(Bodies(cs), a)
    ensures Quiet(Bodies(gen), a)
  {
    if cs != gen {
      assert Bodies(cs) == Bodies(gen) + cs[|cs| - 1].body;
      forall i | 0 <= i < |Bodies(gen)| ensures !Covers(Bodies(gen)[i], a) {
        assert Bodies(cs)[i] == Bodies(gen)[i];
      }
    }
  }

  lemma {:induction false} ReplayedBody(p: Params, s: State, di: seq<byte>, gen: seq<Commit>, a: nat)
    requires Inv(p, s) && CrashImage(s.db, di) && |di| == p.size && InBody(p, a)
    requires CommitsOk(p, s.log.checkpoint, gen) && s.log.checkpoint + |gen| < U64_LIMIT
    requires gen == s.gen || (|gen| > 0 && gen[..|gen| - 1] == s.gen)
    ensures Fits(p.size, Replayed(Logged(s.log.checkpoint, gen))) && Fits(p.size, Bodies(s.done + gen))
    ensures ApplyAll(di, Replayed(Logged(s.log.checkpoint, gen)))[a] == ApplyAll(s.origin, Bodies(s.done + gen))[a]
  {
    hide LogOk;
    hide DbOk;
    hide CacheOk;
    hide CommitOk;
    hide Replayed;
    hide Logged;
    BodyReplay(p, s.log.checkpoint, gen, di, a);
    BodiesConcat(s.done, gen);
    if Quiet(Bodies(gen), a) {
      QuietExtends(s.gen, gen, a);
      BaseInImage(p, s, di, a);
    }
    TotalBody(p, s, di, gen, a);
  }

  /** The journal is replayed over an image in which the root has not landed. */
  lemma {:induction false} ReplayRestores(p: Params, s: State, li: seq<byte>, di: seq<byte>) returns (cs: seq<Commit>)
    requires Inv(p, s) && CrashImage(s.log.disk, li) && CrashImage(s.db, di) && |di| == p.size && NoForgery(p, s, li, di)
    requires Baseline(p.meta, di).Some? && Baseline(p.meta, di).value.seqno == s.log.checkpoint && !s.phase.Rooted?
    ensures Durable(s, cs)
    ensures Restored(p, li, di).Some? && IsAfter(p, s, Restored(p, li, di).value, cs)
  {
    hide LogOk;
    hide DbOk;
    hide CacheOk;
    hide CommitOk;
    hide CommitsOk;
    hide NoForgery;
    hide RecoverFrom;
    hide Baseline;
    hide MetaPage;
    hide Replayed;
    hide Logged;
    hide ApplyAll;
    hide Bodies;
    hide Region;
    var gen := CommitsRecover(p, s, li, di);
    cs := s.done + gen;
    assert s.phase.Appending? ==> s.done + (s.gen + [s.phase.commit]) == (s.done + s.gen) + [s.phase.commit];
    BodiesFit(p, s.log.checkpoint, gen);
    BodiesConcat(s.done, gen);
    FitsConcat(p.size, Bodies(s.done), Bodies(gen));
    PagesReplay(p, s.log.checkpoint, gen, di, 0);
    var img := ApplyAll(di, Replayed(Logged(s.log.checkpoint, gen)));
    assert Restored(p, li, di) == Some(img);
    hide Restored;
    hide Fits;
    forall a | InBody(p, a) ensures img[a] == ApplyAll(s.origin, Bodies(cs))[a] {
      ReplayedBody(p, s, di, gen, a);
    }
    if |gen| == 0 {
      assert gen == [];
      ReplayNothing(s.log.checkpoint, di);
      NoneSinceCheckpoint(p, s, li, di, cs);
    } else {
      LastReplayedPage(p, s, li, di, gen, img);
      assert cs[|cs| - 1] == gen[|gen| - 1];
    }
  }

  lemma {:induction false} ReplayNothing(previous: nat, img: seq<byte>)
    requires previous < U64_LIMIT
    ensures Replayed(Logged(previous, [])) == [] && ApplyAll(img, []) == img
  {
  }

  lemma {:induction false} NoneSinceCheckpoint(p: Params, s: State, li: seq<byte>, di: seq<byte>, cs: seq<Commit>)
    requires Inv(p, s) && |di| == p.size && s.gen == [] && cs == s.done
    requires Baseline(p.meta, di).Some? && Baseline(p.meta, di).value.seqno == s.log.checkpoint
    requires CrashImage(s.db, di) && !s.phase.Rooted?
    requires NoForgery(p, s, li, di)
    ensures |cs| > 0 ==> Baseline(p.meta, di).value.meta.bytes == cs[|cs| - 1].meta.bytes
  {
    hide LogOk;
    hide NoForgery;
    hide DbOk;
    var base := Baseline(p.meta, di).value;
    PageTxid(p, s, li, di, if base.meta == MetaPage(p.meta, di, 0) then 0 else 1);
  }

  lemma {:induction false} LastReplayedPage(p: Params, s: State, li: seq<byte>, di: seq<byte>, gen: seq<Commit>, img: seq<byte>)
    requires Inv(p, s) && |di| == p.size && NoForgery(p, s, li, di)
    requires |gen| > 0 && CommitsOk(p, s.log.checkpoint, gen) && s.log.checkpoint + |gen| < U64_LIMIT
    requires gen == s.gen || |gen| == |s.gen| + 1
    requires Fits(p.size, Replayed(Logged(s.log.checkpoint, gen))) && img == ApplyAll(di, Replayed(Logged(s.log.checkpoint, gen)))
    ensures Baseline(p.meta, img).Some? && Baseline(p.meta, img).value.seqno == s.log.checkpoint + |gen|
    ensures Baseline(p.meta, img).value.meta.bytes == gen[|gen| - 1].meta.bytes
  {
    hide LogOk;
    hide DbOk;
    hide CacheOk;
    hide Encodable;
    hide NoForgery;
    hide Replayed;
    hide Logged;
    hide ApplyAll;
    hide MetaPage;
    var c := gen[|gen| - 1];
    assert CommitOk(p, c, s.log.checkpoint + 1 + (|gen| - 1));
    var j := if c.meta.offset == 0 then 0 else 1;
    forall k | 0 <= k < 2
      ensures p.meta.txid(MetaPage(p.meta, img, k).bytes).Some? ==>
        var t := p.meta.txid(MetaPage(p.meta, img, k).bytes).value;
        t < s.log.checkpoint + |gen| || (t == s.log.checkpoint + |gen| && MetaPage(p.meta, img, k).bytes == c.meta.bytes)
    {
      PagesReplay(p, s.log.checkpoint, gen, di, k);
      if p.meta.txid(MetaPage(p.meta, img, k).bytes).Some? {
        if MetaPage(p.meta, img, k) == MetaPage(p.meta, di, k) {
          PageTxid(p, s, li, di, k);
        } else {
          var i :| 0 <= i < |gen| && gen[i].meta.bytes == MetaPage(p.meta, img, k).bytes;
          assert CommitOk(p, gen[i], s.log.checkpoint + 1 + i);
        }
      }
    }
    PagesReplay(p, s.log.checkpoint, gen, di, j);
    assert MetaPage(p.meta, img, j).bytes == c.meta.bytes;
  }

  /** The new root has landed: nothing is replayed, and the body is already durable behind it. */
  lemma {:induction false} RootRestores(p: Params, s: State, li: seq<byte>, di: seq<byte>)
    requires Inv(p, s) && |di| == p.size && CrashImage(s.db, di) && NoForgery(p, s, li, di)
    requires (s.phase.Rooting? || s.phase.Rooted?) && |s.gen| > 0
    requires Baseline(p.meta, di).Some? && Baseline(p.meta, di).value.seqno == LastTxid(s)
    requires Baseline(p.meta, di).value.meta == Root(p, s)
    ensures Restored(p, li, di).Some? && IsAfter(p, s, Restored(p, li, di).value, s.done + s.gen)
  {
    hide CommitOk;
    hide CommitsOk;
    hide Logs.NoForgery;
    hide RecoverFrom;
    hide Bodies;
    hide ApplyAll;
    hide Baseline;
    var cs := s.done + s.gen;
    Logs.NothingBeyond(LayoutOf(p), s.log, li, 0, LastTxid(s));
    ReplayedNothing(di);
    BodiesConcat(s.done, s.gen);
    forall a | InBody(p, a) ensures di[a] == ApplyAll(s.origin, Bodies(cs))[a] {
      FinalInImage(p, s, di, a);
      TotalBody(p, s, s.start, s.gen, a);
    }
    assert cs[|cs| - 1] == s.gen[|s.gen| - 1];
  }

  lemma ReplayedNothing(img: seq<byte>)
    ensures Replayed([]) == [] && ApplyAll(img, []) == img
  {
  }

  lemma FinalInImage(p: Params, s: State, di: seq<byte>, a: nat)
    requires Inv(p, s) && CrashImage(s.db, di) && (s.phase.Rooting? || s.phase.Rooted?) && InBody(p, a)
    ensures di[a] == ApplyAll(s.start, Bodies(s.gen))[a]
  {
    hide LogOk;
    hide ApplyAll;
    hide Bodies;
    HeldByteInImage(s.db, di, a, ApplyAll(s.start, Bodies(s.gen))[a]);
  }

  /**
   * Checkpoint convergence and commit durability in one statement: from any state, any crash images of the
   * two devices restore the database after every acknowledged commit, plus possibly the one in flight.
   */
  lemma {:induction false} CrashRestores(p: Params, s: State, li: seq<byte>, di: seq<byte>) returns (cs: seq<Commit>)
    requires Inv(p, s) && CrashImage(s.log.disk, li) && CrashImage(s.db, di) && |di| == p.size && NoForgery(p, s, li, di)
    ensures Durable(s, cs)
    ensures Restored(p, li, di).Some? && IsAfter(p, s, Restored(p, li, di).value, cs)
  {
    assert 2 * p.meta.page <= |di|;
    hide Inv;
    hide NoForgery;
    hide IsAfter;
    hide Restored;
    BaselineIs(p, s, li, di);
    if Baseline(p.meta, di).value.seqno == s.log.checkpoint && !s.phase.Rooted? {
      cs := ReplayRestores(p, s, li, di);
    } else {
      RootRestores(p, s, li, di);
      cs := s.done + s.gen;
    }
  }
}
