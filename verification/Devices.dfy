/** A device whose calls may fail at any time, as the crash model of module `Disks` allows. */
module Devices {
  import opened Bytes
  import opened Disks

  class Device {
    var stable: seq<byte>
    var pending: seq<Write>
    /** How many calls have failed, other than reads past the end. */
    ghost var failures: nat

    ghost function Content(): Disk
      reads this`stable, this`pending
    {
      Disk(stable, pending)
    }

    ghost predicate Valid()
      reads this`stable, this`pending
    {
      Sound(Content())
    }

    method Read(offset: nat, len: nat) returns (r: Result<seq<byte>>)
      requires Valid()
      modifies this`failures
      ensures offset + len > |stable| ==> r.Err?
      ensures r == Err(UnexpectedEof) ==> offset + len > |stable|
      ensures failures == old(failures) + if r.Ok? || r.kind == UnexpectedEof then 0 else 1
      ensures r.Ok? ==> r.value == View(Content())[offset..offset + len]
    {
      if * {
        failures := failures + 1;
        return Err(Other);
      }
      if offset + len > |stable| {
        return Err(UnexpectedEof);
      }
      return Ok(ApplyAll(stable, pending)[offset..offset + len]);
    }

    method WriteAt(w: Write) returns (r: Result<()>)
      requires Valid() && End(w) <= |stable|
      modifies this
      ensures Valid() && |stable| == old(|stable|)
      ensures r.Ok? ==> Content() == Issued(old(Content()), w)
      ensures failures == old(failures) + if r.Ok? then 0 else 1
      ensures r.Err? ==> Torn(old(Content()), w, Content())
    {
      SoundUnderWrite(Content(), w, Issued(Content(), w));
      if * {
        ghost var d := Content();
        var parts: int := *;
        for k := 0 to if parts < 0 then 0 else parts
          invariant Valid() && stable == d.stable && Torn(d, w, Content()) && failures == old(failures)
        {
          var from :| 0 <= from <= |w.bytes| && w.offset + from < U64_LIMIT;
          var to :| from <= to <= |w.bytes|;
          pending := pending + [Write(w.offset + from, w.bytes[from..to])];
        }
        failures := failures + 1;
        return Err(Other);
      }
      pending := pending + [w];
      return Ok(());
    }

    method Sync() returns (r: Result<()>)
      requires Valid()
      modifies this
      ensures Valid() && |stable| == old(|stable|)
      ensures r.Ok? ==> Content() == Flushed(old(Content()))
      ensures failures == old(failures) + if r.Ok? then 0 else 1
      ensures r.Err? ==> HalfFlushed(old(Content()), Content())
    {
      ViewIsCrashImage(Content());
      if * {
        if * {
          stable := ApplyAll(stable, pending);
        }
        failures := failures + 1;
        return Err(Other);
      }
      stable := ApplyAll(stable, pending);
      pending := [];
      return Ok(());
    }
  }
}
