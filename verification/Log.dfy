/**
 * The journal region on its own: appends of arbitrary write lists, resets that reuse the region without
 * a barrier, and other users of the same device. Every step is one device call.
 */
module Logs {
  import opened Bytes
  import opened Disks
  import opened Runs
  import opened Wal

  /** The region is `capacity` bytes from `base`. */
  datatype Layout = Layout(base: u64, capacity: nat)

  predicate LayoutOk(y: Layout) {
    y.base % ALIGNMENT == 0 && y.capacity % ALIGNMENT == 0 && y.base + y.capacity < U64_LIMIT
  }

  predicate AllEncodable(wss: seq<seq<Write>>) {
    forall i :: 0 <= i < |wss| ==> Encodable(wss[i])
  }

  /** The frames that the lists leave in the region, numbered after `previous`. */
  function Framed(previous: nat, wss: seq<seq<Write>>): seq<byte>
    requires AllEncodable(wss) && previous + |wss| < U64_LIMIT
    decreases |wss|
  {
    if |wss| == 0 then [] else Frame(previous + 1, wss[0]) + Framed(previous + 1, wss[1..])
  }

  /** What recovery is to return for them. */
  function Numbered(previous: nat, wss: seq<seq<Write>>): seq<(u64, seq<Write>)>
    requires previous + |wss| < U64_LIMIT
    decreases |wss|
  {
    if |wss| == 0 then [] else [(previous + 1, wss[0])] + Numbered(previous + 1, wss[1..])
  }

  /** One frame ever sent to the region: its position, its number and its writes. */
  datatype Entry = Entry(at: nat, txid: u64, ws: seq<Write>)

  predicate EntryOk(e: Entry) {
    e.txid > 0 && Encodable(e.ws)
  }

  /**
   * `gen` are the lists acknowledged since the last reset, which was at transaction `checkpoint`;
   * `flight` is the list being appended; `appended` is every frame ever sent.
   */
  datatype Log = Log(
    disk: Disk, flight: Option<seq<Write>>, stopped: bool,
    nextOffset: nat, checkpoint: nat, gen: seq<seq<Write>>, appended: set<Entry>)

  function LastTxid(l: Log): nat {
    l.checkpoint + |l.gen|
  }

  predicate FlightOk(y: Layout, l: Log, ws: seq<Write>) {
    Encodable(ws) && LastTxid(l) + 1 < U64_LIMIT && l.nextOffset + FrameLength(ws) <= y.capacity
  }

  /** The only frame newer than the acknowledged ones is the one being appended. */
  predicate InFlight(l: Log, e: Entry) {
    l.flight == Some(e.ws) && e.at == l.nextOffset && e.txid == LastTxid(l) + 1
  }

  function FrameWrite(y: Layout, l: Log, ws: seq<Write>): Write
    requires LayoutOk(y) && FlightOk(y, l, ws)
  {
    Write(y.base + l.nextOffset, Frame(LastTxid(l) + 1, ws))
  }

  ghost predicate GenHeld(y: Layout, l: Log)
    requires AllEncodable(l.gen) && LastTxid(l) < U64_LIMIT
  {
    && l.nextOffset == |Framed(l.checkpoint, l.gen)| <= y.capacity
    && HoldsAll(l.disk, y.base, Framed(l.checkpoint, l.gen))
  }

  ghost predicate EntriesOk(l: Log) {
    forall e :: e in l.appended ==> EntryOk(e) && (e.txid <= LastTxid(l) || InFlight(l, e))
  }

  ghost predicate Inv(y: Layout, l: Log) {
    && LayoutOk(y) && Sound(l.disk) && y.base + y.capacity <= |l.disk.stable|
    && AllEncodable(l.gen) && LastTxid(l) < U64_LIMIT
    && GenHeld(y, l) && EntriesOk(l)
    && (l.flight.Some? ==> FlightOk(y, l, l.flight.value))
    && (l.flight.Some? && !l.stopped ==>
          |l.disk.pending| > 0 && l.disk.pending[|l.disk.pending| - 1] == FrameWrite(y, l, l.flight.value))
  }

  // ---- Steps ----

  ghost predicate Init(y: Layout, l: Log) {
    && LayoutOk(y) && Sound(l.disk) && y.base + y.capacity <= |l.disk.stable|
    && l.flight == None && !l.stopped && l.nextOffset == 0 && l.gen == [] && l.appended == {}
    && l.checkpoint < U64_LIMIT
  }

  ghost predicate AppendWrite(y: Layout, l: Log, l': Log, ws: seq<Write>) {
    && LayoutOk(y) && l.flight.None? && !l.stopped && FlightOk(y, l, ws) && LastTxid(l) + 2 < U64_LIMIT
    && Sent(l.disk, FrameWrite(y, l, ws), l'.disk, l'.stopped)
    && l' == l.(disk := l'.disk, flight := Some(ws), stopped := l'.stopped,
                appended := l.appended + {Entry(l.nextOffset, LastTxid(l) + 1, ws)})
  }

  ghost predicate AppendSync(y: Layout, l: Log, l': Log) {
    && l.flight.Some? && !l.stopped && Synced(l.disk, l'.disk, l'.stopped)
    && l' == if l'.stopped then l.(disk := l'.disk, stopped := true)
             else l.(disk := l'.disk, flight := None, gen := l.gen + [l.flight.value],
                     nextOffset := l.nextOffset + FrameLength(l.flight.value))
  }

  /** The next generation starts at offset zero; nothing is written. */
  ghost predicate Reset(l: Log, l': Log) {
    && l.flight.None? && !l.stopped
    && l' == l.(nextOffset := 0, checkpoint := LastTxid(l), gen := [])
  }

  /** A call on behalf of someone else: nothing here, or a write apart from the region, or a barrier. */
  ghost predicate Elsewhere(y: Layout, l: Log, l': Log) {
    && l.flight.None? && !l.stopped
    && (l'.disk == l.disk || Synced(l.disk, l'.disk, l'.stopped)
        || exists w :: Apart(w, y.base, y.capacity) && End(w) <= |l.disk.stable| && Sent(l.disk, w, l'.disk, l'.stopped))
    && l' == l.(disk := l'.disk, stopped := l'.stopped)
  }

  ghost predicate Next(y: Layout, l: Log, l': Log) {
    || (exists ws :: AppendWrite(y, l, l', ws))
    || AppendSync(y, l, l')
    || Reset(l, l')
    || Elsewhere(y, l, l')
  }

  // ---- What every step keeps ----

  lemma InitInv(y: Layout, l: Log)
    requires Init(y, l)
    ensures Inv(y, l)
  {
  }

  lemma {:induction false} FramedAppend(previous: nat, wss: seq<seq<Write>>, ws: seq<Write>)
    requires AllEncodable(wss) && Encodable(ws) && previous + |wss| + 1 < U64_LIMIT
    ensures AllEncodable(wss + [ws])
    ensures Framed(previous, wss + [ws]) == Framed(previous, wss) + Frame(previous + |wss| + 1, ws)
    decreases |wss|
  {
    hide Frame;
    hide Encodable;
    if |wss| == 0 {
      assert wss + [ws] == [ws];
      assert Framed(previous + 1, [ws][1..]) == [];
    } else {
      assert (wss + [ws])[1..] == wss[1..] + [ws];
      FramedAppend(previous + 1, wss[1..], ws);
    }
  }

  lemma {:induction false} FramedAligned(previous: nat, wss: seq<seq<Write>>)
    requires AllEncodable(wss) && previous + |wss| < U64_LIMIT
    ensures |Framed(previous, wss)| % ALIGNMENT == 0
    decreases |wss|
  {
    hide Frame;
    hide FrameLength;
    hide Encodable;
    if |wss| > 0 {
      FrameLengthOk(wss[0]);
      FramedAligned(previous + 1, wss[1..]);
      AlignedSum(FrameLength(wss[0]), |Framed(previous + 1, wss[1..])|);
    }
  }

  lemma AlignedSum(a: nat, b: nat)
    requires a % ALIGNMENT == 0 && b % ALIGNMENT == 0
    ensures (a + b) % ALIGNMENT == 0
  {
  }

  lemma {:induction false} FrameLengthOk(ws: seq<Write>)
    ensures FrameLength(ws) % ALIGNMENT == 0 && HEADER + RecordsLength(ws) + FOOTER <= FrameLength(ws)
  {
  }

  lemma FrameWriteEnds(y: Layout, l: Log, ws: seq<Write>)
    requires LayoutOk(y) && FlightOk(y, l, ws)
    ensures FrameWrite(y, l, ws).offset == y.base + l.nextOffset && End(FrameWrite(y, l, ws)) <= y.base + y.capacity
    ensures End(FrameWrite(y, l, ws)) == y.base + l.nextOffset + FrameLength(ws)
  {
    hide FrameOf;
    hide FrameLength;
    hide Encodable;
  }

  lemma AppendWriteInv(y: Layout, l: Log, l': Log, ws: seq<Write>)
    requires Inv(y, l) && AppendWrite(y, l, l', ws)
    ensures Inv(y, l')
  {
    hide Framed;
    hide Encodable;
    hide FrameLength;
    hide Frame;
    hide EntriesOk;
    var w := FrameWrite(y, l, ws);
    FrameWriteEnds(y, l, ws);
    HeldUnderWrite(l.disk, w, l'.disk, y.base, Framed(l.checkpoint, l.gen));
    SoundUnderWrite(l.disk, w, l'.disk);
    EntriesUnderAppend(y, l, l', ws);
    hide HoldsAll;
    hide Sound;
  }

  lemma EntriesUnderAppend(y: Layout, l: Log, l': Log, ws: seq<Write>)
    requires EntriesOk(l) && AppendWrite(y, l, l', ws)
    ensures EntriesOk(l')
  {
    hide FrameWrite;
    hide Sent;
    hide Encodable;
    assert Encodable(ws);
    forall e | e in l'.appended
      ensures EntryOk(e) && (e.txid <= LastTxid(l') || InFlight(l', e))
    {
      if e in l.appended {
        assert !InFlight(l, e);
      }
    }
  }

  lemma AppendedHeld(y: Layout, l: Log, l': Log)
    requires Inv(y, l) && AppendSync(y, l, l') && !l'.stopped
    ensures AllEncodable(l'.gen) && LastTxid(l') < U64_LIMIT && GenHeld(y, l')
  {
    hide Encodable;
    hide FrameLength;
    hide Framed;
    hide Frame;
    hide View;
    var ws, g := l.flight.value, Framed(l.checkpoint, l.gen);
    var w := FrameWrite(y, l, ws);
    FrameWriteEnds(y, l, ws);
    FramedAppend(l.checkpoint, l.gen, ws);
    HeldAfterFlush(l.disk, l'.disk, y.base, g);
    FlushedWrite(l.disk, |l.disk.pending| - 1);
    HeldJoin(l'.disk, y.base, g, w.bytes);
    hide HoldsAll;
  }

  lemma AppendSyncInv(y: Layout, l: Log, l': Log)
    requires Inv(y, l) && AppendSync(y, l, l')
    ensures Inv(y, l')
  {
    hide Framed;
    hide Encodable;
    hide FrameLength;
    hide Frame;
    SoundAfterFlush(l.disk, l'.disk);
    if l'.stopped {
      HeldAfterFlush(l.disk, l'.disk, y.base, Framed(l.checkpoint, l.gen));
    } else {
      AppendedHeld(y, l, l');
    }
    hide HoldsAll;
    hide Sound;
    hide View;
  }

  lemma ResetInv(y: Layout, l: Log, l': Log)
    requires Inv(y, l) && Reset(l, l')
    ensures Inv(y, l')
  {
  }

  lemma ElsewhereInv(y: Layout, l: Log, l': Log)
    requires Inv(y, l) && Elsewhere(y, l, l')
    ensures Inv(y, l')
  {
    hide Framed;
    hide Encodable;
    hide FrameLength;
    hide Frame;
    var g := Framed(l.checkpoint, l.gen);
    if Synced(l.disk, l'.disk, l'.stopped) {
      SoundAfterFlush(l.disk, l'.disk);
      HeldAfterFlush(l.disk, l'.disk, y.base, g);
    } else if l'.disk != l.disk {
      var w :| Apart(w, y.base, y.capacity) && End(w) <= |l.disk.stable| && Sent(l.disk, w, l'.disk, l'.stopped);
      SoundUnderWrite(l.disk, w, l'.disk);
      HeldUnderWrite(l.disk, w, l'.disk, y.base, g);
    }
    hide HoldsAll;
    hide Sound;
    hide View;
  }

  lemma NextInv(y: Layout, l: Log, l': Log)
    requires Inv(y, l) && Next(y, l, l')
    ensures Inv(y, l')
  {
    hide Inv;
    hide AppendWrite;
    hide AppendSync;
    hide Reset;
    hide Elsewhere;
    if ws :| AppendWrite(y, l, l', ws) {
      AppendWriteInv(y, l, l', ws);
    } else if AppendSync(y, l, l') {
      AppendSyncInv(y, l, l');
    } else if Reset(l, l') {
      ResetInv(y, l, l');
    } else {
      ElsewhereInv(y, l, l');
    }
  }

  // ---- Recovery ----

  function Region(y: Layout, li: seq<byte>): seq<byte> {
    Readable(li, y.base, y.capacity)
  }

  ghost predicate EntryIn(region: seq<byte>, e: Entry) {
    && EntryOk(e) && e.at + FrameLength(e.ws) <= |region|
    && region[e.at..e.at + FrameLength(e.ws)] == Frame(e.txid, e.ws)
  }

  ghost predicate Appended(l: Log, region: seq<byte>, at: nat) {
    exists e :: e in l.appended && e.at == at && EntryIn(region, e)
  }

  /**
   * The checksums detect every accident in this image: what decodes as a frame at an aligned position
   * was really appended there. In particular no stored payload decodes as a frame.
   */
  ghost predicate NoForgery(y: Layout, l: Log, li: seq<byte>) {
    forall at: nat, previous: u64 ::
      at <= |Region(y, li)| && at % ALIGNMENT == 0 && FrameAt(Region(y, li), at, previous).Some? ==>
        Appended(l, Region(y, li), at)
  }

  /** One whole frame is recovered where it follows. */
  lemma {:induction false} RecoverOne(region: seq<byte>, at: nat, previous: u64, ws: seq<Write>)
    requires previous + 1 < U64_LIMIT && Encodable(ws) && at + FrameLength(ws) <= |region|
    requires region[at..at + FrameLength(ws)] == Frame(previous + 1, ws)
    ensures RecoverFrom(region, at, previous).frames
         == [(previous + 1, ws)] + RecoverFrom(region, at + FrameLength(ws), previous + 1).frames
  {
    hide Decoded;
    hide FrameOf;
    hide AnnouncedLength;
    hide RoundUp;
    FrameLengthOk(ws);
    hide FrameLength;
    DecodeFrame(previous + 1, ws, FrameLength(ws));
    DecodedLength(region, at, previous, FrameLength(ws));
  }

  /** Whole frames of consecutive numbers are recovered, whatever follows them. */
  lemma {:induction false} RecoverGeneration(region: seq<byte>, at: nat, previous: nat, wss: seq<seq<Write>>)
    requires AllEncodable(wss) && previous + |wss| < U64_LIMIT
    requires at + |Framed(previous, wss)| <= |region|
    requires region[at..at + |Framed(previous, wss)|] == Framed(previous, wss)
    ensures RecoverFrom(region, at, previous).frames
         == Numbered(previous, wss) + RecoverFrom(region, at + |Framed(previous, wss)|, previous + |wss|).frames
    decreases |wss|
  {
    hide RecoverFrom;
    hide Frame;
    hide FrameLength;
    hide Encodable;
    if |wss| > 0 {
      var ws, rest := wss[0], wss[1..];
      var g, more := Framed(previous, wss), Framed(previous + 1, rest);
      var n := FrameLength(ws);
      assert g == Frame(previous + 1, ws) + more;
      assert Numbered(previous, wss) == [(previous + 1, ws)] + Numbered(previous + 1, rest);
      hide Framed;
      hide Numbered;
      SubSlice(region, at, at + |g|, 0, n);
      SubSlice(region, at, at + |g|, n, |g|);
      assert g[0..n] == Frame(previous + 1, ws) && g[n..|g|] == more;
      RecoverOne(region, at, previous, ws);
      RecoverGeneration(region, at + n, previous + 1, rest);
    }
  }

  /** A frame found where an entry was appended is that entry, and only after its predecessor. */
  lemma {:induction false} EntryDecides(region: seq<byte>, e: Entry, previous: u64)
    requires EntryIn(region, e) && FrameAt(region, e.at, previous).Some?
    ensures previous + 1 == e.txid && FrameAt(region, e.at, previous) == Some((e.txid, e.ws))
    ensures LengthAt(region, e.at) == FrameLength(e.ws) && e.at + FrameLength(e.ws) <= |region|
  {
    hide Decoded;
    hide FrameOf;
    hide AnnouncedLength;
    var n := FrameLength(e.ws);
    DecodeFrame(e.txid, e.ws, n);
    DecodedLength(region, e.at, e.txid - 1, n);
  }

  /** No frame follows unless it is the one being appended. */
  lemma {:induction false} NothingBeyond(y: Layout, l: Log, li: seq<byte>, at: nat, previous: u64)
    requires EntriesOk(l) && NoForgery(y, l, li)
    requires at <= |Region(y, li)| && at % ALIGNMENT == 0 && LastTxid(l) <= previous
    requires l.flight.None? || previous != LastTxid(l)
    ensures FrameAt(Region(y, li), at, previous).None?
    ensures RecoverFrom(Region(y, li), at, previous).frames == []
  {
    hide FrameAt;
    hide EntryIn;
    var region := Region(y, li);
    if FrameAt(region, at, previous).Some? {
      assert Appended(l, region, at);
      var e :| e in l.appended && e.at == at && EntryIn(region, e);
      EntryDecides(region, e, previous);
      assert false;
    }
  }

  lemma LoneFrame(region: seq<byte>, at: nat, last: u64)
    requires at <= |region| && FrameAt(region, at, last).Some?
    requires FrameAt(region, at + LengthAt(region, at), FrameAt(region, at, last).value.0).None?
    ensures RecoverFrom(region, at, last).frames == [FrameAt(region, at, last).value]
  {
    hide FrameAt;
    hide LengthAt;
  }

  /** Where the acknowledged frames end there is nothing, or the whole frame in flight and nothing more. */
  lemma {:induction false} TailRecovers(y: Layout, l: Log, li: seq<byte>) returns (more: seq<seq<Write>>)
    requires EntriesOk(l) && NoForgery(y, l, li) && LastTxid(l) < U64_LIMIT
    requires l.nextOffset <= |Region(y, li)| && l.nextOffset % ALIGNMENT == 0
    ensures more == [] || (l.flight.Some? && more == [l.flight.value] && LastTxid(l) + 1 < U64_LIMIT)
    ensures RecoverFrom(Region(y, li), l.nextOffset, LastTxid(l)).frames == Numbered(LastTxid(l), more)
  {
    hide FrameAt;
    hide LengthAt;
    hide EntryIn;
    hide Encodable;
    var region, last := Region(y, li), LastTxid(l);
    more := [];
    if FrameAt(region, l.nextOffset, last).Some? {
      assert Appended(l, region, l.nextOffset);
      var e :| e in l.appended && e.at == l.nextOffset && EntryIn(region, e);
      EntryDecides(region, e, last);
      FrameLengthOk(e.ws);
      hide FrameLength;
      assert InFlight(l, e);
      more := [e.ws];
      assert Numbered(last + 1, more[1..]) == [];
      NothingBeyond(y, l, li, l.nextOffset + FrameLength(e.ws), last + 1);
      hide NoForgery;
      LoneFrame(region, l.nextOffset, last);
    }
  }

  lemma {:induction false} NumberedConcat(previous: nat, wss: seq<seq<Write>>, more: seq<seq<Write>>)
    requires previous + |wss| + |more| < U64_LIMIT
    ensures Numbered(previous, wss + more) == Numbered(previous, wss) + Numbered(previous + |wss|, more)
    decreases |wss|
  {
    if |wss| == 0 {
      assert wss + more == more;
    } else {
      assert (wss + more)[1..] == wss[1..] + more;
      NumberedConcat(previous + 1, wss[1..], more);
    }
  }

  lemma GenInRegion(y: Layout, l: Log, li: seq<byte>)
    requires Inv(y, l) && CrashImage(l.disk, li)
    ensures l.nextOffset == |Framed(l.checkpoint, l.gen)| <= |Region(y, li)| && l.nextOffset % ALIGNMENT == 0
    ensures Region(y, li)[0..l.nextOffset] == Framed(l.checkpoint, l.gen)
  {
    hide Encodable;
    FramedAligned(l.checkpoint, l.gen);
    hide Framed;
    var g := Framed(l.checkpoint, l.gen);
    HeldInImage(l.disk, li, y.base, g);
    ReadableSlice(li, y.base, y.capacity, 0, |g|);
  }

  /** What a crash may make of the journal: the acknowledged lists, or those and the whole one in flight. */
  ghost predicate Surviving(l: Log, wss: seq<seq<Write>>) {
    wss == l.gen || (l.flight.Some? && wss == l.gen + [l.flight.value])
  }

  /**
   * Append atomicity with region reuse, from one state: every crash image yields exactly the acknowledged
   * lists of this generation under consecutive numbers, plus possibly the whole one in flight.
   */
  lemma {:induction false} LogRecovers(y: Layout, l: Log, li: seq<byte>) returns (wss: seq<seq<Write>>)
    requires Inv(y, l) && CrashImage(l.disk, li) && NoForgery(y, l, li)
    ensures Surviving(l, wss) && l.checkpoint + |wss| < U64_LIMIT
    ensures RecoverFrom(Region(y, li), 0, l.checkpoint).frames == Numbered(l.checkpoint, wss)
  {
    hide NoForgery;
    hide Region;
    hide Numbered;
    hide EntriesOk;
    hide Sound;
    hide AllEncodable;
    hide FlightOk;
    hide GenHeld;
    hide Framed;
    hide RecoverFrom;
    hide Encodable;
    hide FrameWrite;
    hide CrashImage;
    GenInRegion(y, l, li);
    RecoverGeneration(Region(y, li), 0, l.checkpoint, l.gen);
    var more := TailRecovers(y, l, li);
    NumberedConcat(l.checkpoint, l.gen, more);
    wss := l.gen + more;
    assert l.gen + [] == l.gen;
  }

  /** Nothing at or below the checkpoint is among them. */
  lemma {:induction false} NumberedFrom(previous: nat, wss: seq<seq<Write>>, i: nat)
    requires previous + |wss| < U64_LIMIT && i < |wss|
    ensures |Numbered(previous, wss)| == |wss| && Numbered(previous, wss)[i] == (previous + 1 + i, wss[i])
    decreases |wss|
  {
    if i > 0 {
      NumberedFrom(previous + 1, wss[1..], i - 1);
    } else if |wss| > 1 {
      NumberedFrom(previous + 1, wss[1..], 0);
    } else {
      assert wss[1..] == [];
    }
  }

  // ---- Runs ----

  ghost function Step(y: Layout): (Log, Log) -> bool {
    (l, l') => Next(y, l, l')
  }

  ghost predicate Steps(y: Layout, run: seq<Log>) {
    Linked(run, Step(y))
  }

  /** Any history of appends and resets, and of other calls on the device. */
  ghost predicate Run(y: Layout, run: seq<Log>) {
    Steps(y, run) && Init(y, run[0])
  }

  lemma {:induction false} RunInv(y: Layout, run: seq<Log>, i: nat)
    requires Run(y, run) && i < |run|
    ensures Inv(y, run[i])
  {
    hide Inv;
    hide Next;
    if i == 0 {
      InitInv(y, run[0]);
    } else {
      RunInv(y, run, i - 1);
      NextInv(y, run[i - 1], run[i]);
    }
  }

  /**
   * Append atomicity with region reuse. At any point of any history of appends and resets of arbitrary
   * encodable lists, every crash image recovers exactly the current generation's acknowledged lists, plus
   * possibly the complete one in flight, numbered consecutively after the checkpoint.
   */
  lemma EveryCrashKeepsAppends(y: Layout, run: seq<Log>, j: nat, li: seq<byte>) returns (wss: seq<seq<Write>>)
    requires Run(y, run) && j < |run| && CrashImage(run[j].disk, li) && NoForgery(y, run[j], li)
    ensures Surviving(run[j], wss) && run[j].checkpoint + |wss| < U64_LIMIT
    ensures var frames := RecoverFrom(Region(y, li), 0, run[j].checkpoint).frames;
      |frames| == |wss| && forall i :: 0 <= i < |wss| ==> frames[i].0 == run[j].checkpoint + 1 + i && frames[i].1 == wss[i]
  {
    hide Inv;
    hide Next;
    hide NoForgery;
    hide RecoverFrom;
    RunInv(y, run, j);
    wss := LogRecovers(y, run[j], li);
    forall i | 0 <= i < |wss|
      ensures |Numbered(run[j].checkpoint, wss)| == |wss|
      ensures Numbered(run[j].checkpoint, wss)[i] == (run[j].checkpoint + 1 + i, wss[i])
    {
      NumberedFrom(run[j].checkpoint, wss, i);
    }
    if |wss| == 0 {
      assert Numbered(run[j].checkpoint, wss) == [];
    }
  }
}
