/**
 * The two conventional meta pages at the start of a database. The page format belongs to the database:
 * `txid` reads the transaction id of a page whose own checksum is good, and the durability protocols
 * are proved for every such format.
 */
module MetaPages {
  import opened Bytes

  datatype Format = Format(page: u64, txid: seq<byte> -> Option<u64>)

  /** A transaction selected by recovery: its number and its meta page. */
  datatype Recovered = Recovered(seqno: u64, meta: Write)

  function PageStart(f: Format, j: nat): u64 {
    if j == 0 then 0 else f.page
  }

  function MetaPage(f: Format, img: seq<byte>, j: nat): (r: Write)
    requires j < 2 && 2 * f.page <= |img|
    ensures |r.bytes| == f.page
  {
    Write(PageStart(f, j), img[PageStart(f, j)..PageStart(f, j) + f.page])
  }

  /** `baseline`: the checksum-valid page with the highest transaction id, the second one on a tie. */
  function Baseline(f: Format, img: seq<byte>): Option<Recovered>
    requires 2 * f.page <= |img|
  {
    var p0, p1 := MetaPage(f, img, 0), MetaPage(f, img, 1);
    var t0, t1 := f.txid(p0.bytes), f.txid(p1.bytes);
    if t0.Some? && (t1.None? || t1.value < t0.value) then Some(Recovered(t0.value, p0))
    else if t1.Some? then Some(Recovered(t1.value, p1))
    else None
  }

  /** The baseline is a valid page, no valid page has a higher number, and the second page wins a tie. */
  lemma BaselineMeans(f: Format, img: seq<byte>)
    requires 2 * f.page <= |img|
    ensures Baseline(f, img) == None <==> forall j :: 0 <= j < 2 ==> f.txid(MetaPage(f, img, j).bytes) == None
    ensures Baseline(f, img).Some? ==>
      && var base := Baseline(f, img).value;
      && (exists j :: 0 <= j < 2 && base.meta == MetaPage(f, img, j) && f.txid(base.meta.bytes) == Some(base.seqno))
      && (forall j :: 0 <= j < 2 && f.txid(MetaPage(f, img, j).bytes).Some? ==>
            f.txid(MetaPage(f, img, j).bytes).value <= base.seqno)
      && (f.txid(MetaPage(f, img, 1).bytes) == Some(base.seqno) ==> base.meta == MetaPage(f, img, 1))
  {
    hide MetaPage;
  }
}
