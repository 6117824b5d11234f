/** Checkpoint write sets: the last bytes written to each page, in ascending order. */
module Coalesce {
  import opened Bytes
  import opened Disks

  datatype Commit = Commit(body: seq<Write>, meta: Write)

  /** The body writes of several commits, in order. */
  function Bodies(cs: seq<Commit>): seq<Write> {
    if |cs| == 0 then [] else Bodies(cs[..|cs| - 1]) + cs[|cs| - 1].body
  }

  /** The last bytes written at each offset. */
  function Latest(ws: seq<Write>): map<u64, seq<byte>> {
    if |ws| == 0 then map[] else Latest(ws[..|ws| - 1])[ws[|ws| - 1].offset := ws[|ws| - 1].bytes]
  }

  ghost predicate Listed(ws: seq<Write>, o: u64) {
    exists i :: 0 <= i < |ws| && ws[i].offset == o
  }

  lemma {:induction false} ListedAppend(ws: seq<Write>, w: Write, o: u64)
    requires Listed(ws, o) || o == w.offset
    ensures Listed(ws + [w], o)
  {
    if Listed(ws, o) {
      var i :| 0 <= i < |ws| && ws[i].offset == o;
      assert (ws + [w])[i].offset == o;
    } else {
      assert (ws + [w])[|ws|].offset == o;
    }
  }

  /** The entries of a map as writes in ascending order of offset. */
  ghost predicate Lists(ws: seq<Write>, m: map<u64, seq<byte>>) {
    && (forall i, j :: 0 <= i < j < |ws| ==> ws[i].offset < ws[j].offset)
    && (forall i :: 0 <= i < |ws| ==> ws[i].offset in m && m[ws[i].offset] == ws[i].bytes)
    && (forall o :: o in m ==> Listed(ws, o))
  }

  /** Whole pages at page-aligned offsets. */
  predicate PageWrites(ws: seq<Write>, page: nat) {
    page > 0 && forall i :: 0 <= i < |ws| ==> |ws[i].bytes| == page && ws[i].offset % page == 0
  }

  lemma {:induction false} LatestAppend(ws: seq<Write>, more: seq<Write>, w: Write)
    ensures Latest(ws + [w]) == Latest(ws)[w.offset := w.bytes]
    ensures Latest(ws + (more + [w])) == Latest(ws + more)[w.offset := w.bytes]
  {
    assert (ws + [w])[..|ws|] == ws;
    assert ws + (more + [w]) == (ws + more) + [w];
    assert ((ws + more) + [w])[..|ws + more|] == ws + more;
  }

  method CoalesceWrites(commits: seq<Commit>) returns (r: seq<Write>)
    ensures Lists(r, Latest(Bodies(commits)))
  {
    var latest := map[];
    for i := 0 to |commits|
      invariant latest == Latest(Bodies(commits[..i]))
    {
      var c := commits[i];
      ghost var before := Bodies(commits[..i]);
      assert before + c.body[..0] == before;
      for j := 0 to |c.body|
        invariant latest == Latest(before + c.body[..j])
      {
        assert c.body[..j + 1] == c.body[..j] + [c.body[j]];
        LatestAppend(before, c.body[..j], c.body[j]);
        latest := latest[c.body[j].offset := c.body[j].bytes];
      }
      assert c.body[..|c.body|] == c.body;
      assert commits[..i + 1][..i] == commits[..i];
    }
    assert commits[..|commits|] == commits;
    r := Ascending(latest);
  }

  /** `r` lists the entries of `m` outside `left`, all of them below every offset in `left`. */
  ghost predicate Below(m: map<u64, seq<byte>>, r: seq<Write>, left: set<u64>) {
    && left <= m.Keys
    && (forall i, j :: 0 <= i < j < |r| ==> r[i].offset < r[j].offset)
    && (forall i, o :: 0 <= i < |r| && o in left ==> r[i].offset < o)
    && (forall i :: 0 <= i < |r| ==> r[i].offset in m && m[r[i].offset] == r[i].bytes)
    && (forall o :: o in m && o !in left ==> Listed(r, o))
  }

  lemma {:induction false} BelowStep(m: map<u64, seq<byte>>, r: seq<Write>, left: set<u64>, least: u64)
    requires Below(m, r, left) && least in left && forall o :: o in left ==> least <= o
    ensures Below(m, r + [Write(least, m[least])], left - {least})
  {
    var w := Write(least, m[least]);
    var r', left' := r + [w], left - {least};
    forall o | o in m && o !in left' ensures Listed(r', o) {
      ListedAppend(r, w, o);
    }
    assert forall i :: 0 <= i < |r'| ==> r'[i] == if i < |r| then r[i] else w;
  }

  /** In-order iteration of an ordered map. */
  method Ascending(m: map<u64, seq<byte>>) returns (r: seq<Write>)
    ensures Lists(r, m)
  {
    r := [];
    var left := m.Keys;
    while left != {}
      invariant Below(m, r, left)
      decreases |left|
    {
      var least := Least(left);
      assert least in m;
      BelowStep(m, r, left, least);
      r := r + [Write(least, m[least])];
      left := left - {least};
    }
  }

  method Least(s: set<u64>) returns (least: u64)
    requires s != {}
    ensures least in s && forall o :: o in s ==> least <= o
  {
    least :| least in s;
    var left := s - {least};
    while left != {}
      invariant least in s && left <= s
      invariant forall o :: o in s && o !in left ==> least <= o
      decreases |left|
    {
      var o :| o in left;
      if o < least {
        least := o;
      }
      left := left - {o};
    }
  }

  // ---- The coalesced list does what the commits did ----

  lemma {:induction false} PagesApart(a: nat, b: nat, page: nat)
    requires page > 0 && a % page == 0 && b % page == 0 && a < b
    ensures a + page <= b
  {
    var x, y := a / page, b / page;
    assert a == page * x && b == page * y;
    assert x < y;
    assert page * (x + 1) <= page * y;
  }

  /** Two page writes over one address are writes of the same page. */
  lemma {:induction false} SamePage(v: Write, w: Write, page: nat, a: int)
    requires page > 0 && |v.bytes| == page == |w.bytes| && v.offset % page == 0 == w.offset % page
    requires Covers(v, a) && Covers(w, a)
    ensures v.offset == w.offset
  {
    if v.offset < w.offset {
      PagesApart(v.offset, w.offset, page);
    } else if w.offset < v.offset {
      PagesApart(w.offset, v.offset, page);
    }
  }

  lemma {:induction false} LatestKeys(ws: seq<Write>, o: u64)
    ensures o in Latest(ws) <==> exists i :: 0 <= i < |ws| && ws[i].offset == o
  {
    if |ws| > 0 {
      var n := |ws| - 1;
      LatestKeys(ws[..n], o);
      if o in Latest(ws) && o != ws[n].offset {
        var i :| 0 <= i < n && ws[..n][i].offset == o;
        assert ws[i].offset == o;
      }
      if exists i :: 0 <= i < |ws| && ws[i].offset == o {
        var i :| 0 <= i < |ws| && ws[i].offset == o;
        assert i < n ==> ws[..n][i].offset == o;
      }
    }
  }

  lemma {:induction false} ListedPages(ws: seq<Write>, list: seq<Write>, page: nat)
    requires PageWrites(ws, page) && Lists(list, Latest(ws))
    ensures PageWrites(list, page)
    ensures forall size: nat :: Fits(size, ws) ==> Fits(size, list)
    ensures forall a :: Quiet(ws, a) <==> Quiet(list, a)
  {
    forall i | 0 <= i < |list|
      ensures exists k :: 0 <= k < |ws| && ws[k].offset == list[i].offset && |list[i].bytes| == page
    {
      var o := list[i].offset;
      LatestKeys(ws, o);
      var k :| 0 <= k < |ws| && ws[k].offset == o;
      LatestLength(ws, page, o);
    }
    forall a | Quiet(ws, a) ensures Quiet(list, a) {
      forall i | 0 <= i < |list| ensures !Covers(list[i], a) {
        var k :| 0 <= k < |ws| && ws[k].offset == list[i].offset && |list[i].bytes| == page;
        assert !Covers(ws[k], a);
      }
    }
    forall a | Quiet(list, a) ensures Quiet(ws, a) {
      forall k | 0 <= k < |ws| ensures !Covers(ws[k], a) {
        LatestKeys(ws, ws[k].offset);
        var i :| 0 <= i < |list| && list[i].offset == ws[k].offset;
        assert !Covers(list[i], a);
      }
    }
  }

  lemma {:induction false} LatestLength(ws: seq<Write>, page: nat, o: u64)
    requires PageWrites(ws, page) && o in Latest(ws)
    ensures |Latest(ws)[o]| == page
  {
    var n := |ws| - 1;
    if ws[n].offset != o {
      LatestLength(ws[..n], page, o);
    }
  }

  // ---- Exactly when ----

  /** The last write over an address. */
  ghost predicate LastOver(ws: seq<Write>, k: int, a: int) {
    0 <= k < |ws| && Covers(ws[k], a) && forall j :: k < j < |ws| ==> !Covers(ws[j], a)
  }

  /** The last write at its offset: the one coalescing keeps. */
  ghost predicate Kept(ws: seq<Write>, k: int) {
    0 <= k < |ws| && forall j :: k < j < |ws| ==> ws[j].offset != ws[k].offset
  }

  /** Some kept write at a greater offset covers the address, and will be applied later. */
  ghost predicate Overtaken(ws: seq<Write>, k: int, a: int)
    requires 0 <= k < |ws|
  {
    exists j :: Kept(ws, j) && ws[k].offset < ws[j].offset && Covers(ws[j], a)
  }

  /** The last write over each address is kept and not overtaken. A caller sees it from offsets and lengths. */
  ghost predicate Unhidden(ws: seq<Write>) {
    forall k, a :: LastOver(ws, k, a) ==> Kept(ws, k) && !Overtaken(ws, k, a)
  }

  lemma {:induction false} LastOverExists(ws: seq<Write>, i: nat, a: int) returns (k: nat)
    requires i < |ws| && Covers(ws[i], a)
    ensures i <= k && LastOver(ws, k, a)
    decreases |ws| - i
  {
    k := i;
    if j :| i < j < |ws| && Covers(ws[j], a) {
      k := LastOverExists(ws, j, a);
    }
  }

  lemma {:induction false} LatestKept(ws: seq<Write>, k: nat)
    requires Kept(ws, k)
    ensures ws[k].offset in Latest(ws) && Latest(ws)[ws[k].offset] == ws[k].bytes
  {
    if k < |ws| - 1 {
      LatestKept(ws[..|ws| - 1], k);
    }
  }

  lemma {:induction false} KeptExists(ws: seq<Write>, o: u64) returns (k: nat)
    requires o in Latest(ws)
    ensures Kept(ws, k) && ws[k].offset == o
  {
    k := |ws| - 1;
    if ws[k].offset != o {
      k := KeptExists(ws[..|ws| - 1], o);
    }
  }

  /** The list is exactly the kept writes. */
  lemma {:induction false} ListedIsKept(ws: seq<Write>, list: seq<Write>, i: nat) returns (k: nat)
    requires Lists(list, Latest(ws)) && i < |list|
    ensures Kept(ws, k) && ws[k] == list[i]
  {
    k := KeptExists(ws, list[i].offset);
    LatestKept(ws, k);
  }

  lemma {:induction false} KeptIsListed(ws: seq<Write>, list: seq<Write>, k: nat) returns (i: nat)
    requires Lists(list, Latest(ws)) && Kept(ws, k)
    ensures i < |list| && list[i] == ws[k]
  {
    LatestKept(ws, k);
    assert Listed(list, ws[k].offset);
    i :| 0 <= i < |list| && list[i].offset == ws[k].offset;
  }

  lemma {:induction false} ListedFits(ws: seq<Write>, list: seq<Write>, size: nat)
    requires Lists(list, Latest(ws)) && Fits(size, ws)
    ensures Fits(size, list)
  {
    forall i | 0 <= i < |list| ensures End(list[i]) <= size {
      var k := ListedIsKept(ws, list, i);
    }
  }

  lemma {:induction false} UnhiddenByte(img: seq<byte>, ws: seq<Write>, list: seq<Write>, k: nat, a: nat)
    requires Fits(|img|, ws) && Fits(|img|, list) && Lists(list, Latest(ws)) && a < |img|
    requires LastOver(ws, k, a) && Kept(ws, k) && !Overtaken(ws, k, a)
    ensures ApplyAll(img, list)[a] == ApplyAll(img, ws)[a]
  {
    hide ApplyAll;
    hide Latest;
    var i := KeptIsListed(ws, list, k);
    forall j | i < j < |list| ensures !Covers(list[j], a) {
      var m := ListedIsKept(ws, list, j);
    }
    ApplyAllLast(img, list, i, a);
    ApplyAllLast(img, ws, k, a);
  }

  /** Coalescing refines sequential application whenever nothing is hidden. */
  lemma {:induction false} CoalescedWhenUnhidden(img: seq<byte>, ws: seq<Write>, list: seq<Write>)
    requires Fits(|img|, ws) && Lists(list, Latest(ws)) && Unhidden(ws)
    ensures Fits(|img|, list) && ApplyAll(img, list) == ApplyAll(img, ws)
  {
    hide ApplyAll;
    hide Latest;
    ListedFits(ws, list, |img|);
    forall a | 0 <= a < |img| ensures ApplyAll(img, list)[a] == ApplyAll(img, ws)[a] {
      if i :| 0 <= i < |ws| && Covers(ws[i], a) {
        var k := LastOverExists(ws, i, a);
        UnhiddenByte(img, ws, list, k, a);
      } else {
        forall i | 0 <= i < |list| ensures !Covers(list[i], a) {
          var k := ListedIsKept(ws, list, i);
        }
        ApplyAllByte(img, ws, a);
        ApplyAllByte(img, list, a);
      }
    }
  }

  ghost predicate SameShape(ws: seq<Write>, vs: seq<Write>) {
    |ws| == |vs| && forall i :: 0 <= i < |ws| ==> ws[i].offset == vs[i].offset && |ws[i].bytes| == |vs[i].bytes|
  }

  /** Coalescing is right for writes of this shape: for every image and whatever they contain. */
  ghost predicate Coalesces(ws: seq<Write>) {
    forall vs, img, list | SameShape(ws, vs) && Fits(|img|, vs) && Lists(list, Latest(vs)) ::
      Fits(|img|, list) && ApplyAll(img, list) == ApplyAll(img, vs)
  }

  lemma {:induction false} UnhiddenShape(ws: seq<Write>, vs: seq<Write>)
    requires SameShape(ws, vs) && Unhidden(ws)
    ensures Unhidden(vs)
  {
    forall k, a | LastOver(vs, k, a) ensures Kept(vs, k) && !Overtaken(vs, k, a) {
      assert LastOver(ws, k, a);
      if Overtaken(vs, k, a) {
        OvertakenShape(ws, vs, k, a);
        assert false;
      }
    }
  }

  lemma {:induction false} OvertakenShape(ws: seq<Write>, vs: seq<Write>, k: nat, a: int)
    requires SameShape(ws, vs) && k < |ws| && Overtaken(vs, k, a)
    ensures Overtaken(ws, k, a)
  {
    var j :| Kept(vs, j) && vs[k].offset < vs[j].offset && Covers(vs[j], a);
    assert Kept(ws, j);
  }

  function Fill(n: nat, v: byte): (s: seq<byte>)
    ensures |s| == n && forall i :: 0 <= i < n ==> s[i] == v
  {
    seq(n, _ => v)
  }

  /** Writes of the same shape, all zeros except the `k`-th, which is all ones. */
  function Marked(ws: seq<Write>, k: nat): (vs: seq<Write>)
    ensures SameShape(ws, vs)
    ensures forall i, b :: 0 <= i < |vs| && 0 <= b < |vs[i].bytes| ==> vs[i].bytes[b] == if i == k then 1 else 0
  {
    seq(|ws|, i requires 0 <= i < |ws| => Write(ws[i].offset, Fill(|ws[i].bytes|, if i == k then 1 else 0)))
  }

  function Extent(ws: seq<Write>): (n: nat)
    ensures Fits(n, ws)
  {
    if |ws| == 0 then 0 else
    var n, last := Extent(ws[..|ws| - 1]), End(ws[|ws| - 1]);
    assert forall i :: 0 <= i < |ws| - 1 ==> ws[i] == ws[..|ws| - 1][i];
    if n < last then last else n
  }

  lemma {:induction false} SomeList(m: map<u64, seq<byte>>, r: seq<Write>, left: set<u64>) returns (list: seq<Write>)
    requires Below(m, r, left)
    ensures Lists(list, m)
    decreases |left|
  {
    if left == {} {
      list := r;
    } else {
      var least := LeastOf(left);
      BelowStep(m, r, left, least);
      list := SomeList(m, r + [Write(least, m[least])], left - {least});
    }
  }

  lemma {:induction false} LeastOf(s: set<u64>) returns (least: u64)
    requires s != {}
    ensures least in s && forall o :: o in s ==> least <= o
    decreases |s|
  {
    var first :| first in s;
    var rest := s - {first};
    least := first;
    if rest != {} {
      var other := LeastOf(rest);
      least := if other < first then other else first;
    }
    forall o | o in s ensures least <= o {
      assert o == first || o in rest;
    }
  }

  /** The marked byte is lost: the address ends up zero in the coalesced image. */
  lemma {:induction false} MarkLost(img: seq<byte>, ws: seq<Write>, list: seq<Write>, k: nat, a: nat)
    requires Fits(|img|, ws) && Fits(|img|, list) && Lists(list, Latest(ws)) && a < |img| && img[a] == 0
    requires forall i, b :: 0 <= i < |ws| && 0 <= b < |ws[i].bytes| ==> ws[i].bytes[b] == if i == k then 1 else 0
    requires k < |ws| && (!Kept(ws, k) || Overtaken(ws, k, a))
    ensures ApplyAll(img, list)[a] == 0
  {
    hide ApplyAll;
    hide Latest;
    if i :| 0 <= i < |list| && Covers(list[i], a) {
      var over: nat := i;
      if Kept(ws, k) {
        var j :| Kept(ws, j) && ws[k].offset < ws[j].offset && Covers(ws[j], a);
        over := KeptIsListed(ws, list, j);
      }
      var t := LastOverExists(list, over, a);
      ApplyAllLast(img, list, t, a);
      var m := ListedIsKept(ws, list, t);
      assert m != k;
    } else {
      ApplyAllByte(img, list, a);
    }
  }

  lemma {:induction false} HiddenFails(ws: seq<Write>, k: nat, a: nat)
    requires LastOver(ws, k, a) && (!Kept(ws, k) || Overtaken(ws, k, a))
    ensures !Coalesces(ws)
  {
    hide ApplyAll;
    hide Latest;
    var vs := Marked(ws, k);
    var img := Fill(Extent(vs), 0);
    var list := SomeList(Latest(vs), [], Latest(vs).Keys);
    ListedFits(vs, list, |img|);
    assert LastOver(vs, k, a);
    if Kept(ws, k) {
      var j :| Kept(ws, j) && ws[k].offset < ws[j].offset && Covers(ws[j], a);
      assert Kept(vs, j);
      assert Overtaken(vs, k, a);
    } else {
      assert !Kept(vs, k);
    }
    MarkLost(img, vs, list, k, a);
    ApplyAllLast(img, vs, k, a);
  }

  /**
   * Exactly when coalescing is right: for every image and all contents, if and only if the last write over
   * each address is also the last at its offset and no kept write at a greater offset covers the address.
   */
  lemma {:induction false} CoalesceExact(ws: seq<Write>)
    ensures Coalesces(ws) <==> Unhidden(ws)
  {
    hide ApplyAll;
    hide Latest;
    hide Lists;
    if Unhidden(ws) {
      forall vs, img, list | SameShape(ws, vs) && Fits(|img|, vs) && Lists(list, Latest(vs))
        ensures Fits(|img|, list) && ApplyAll(img, list) == ApplyAll(img, vs)
      {
        UnhiddenShape(ws, vs);
        CoalescedWhenUnhidden(img, vs, list);
      }
    } else {
      var k, a :| LastOver(ws, k, a) && !(Kept(ws, k) && !Overtaken(ws, k, a));
      HiddenFails(ws, k, a);
    }
  }

  /** Whole aligned pages hide nothing from each other. */
  lemma {:induction false} PagesUnhidden(ws: seq<Write>, page: nat)
    requires PageWrites(ws, page)
    ensures Unhidden(ws)
  {
    forall k, a | LastOver(ws, k, a) ensures Kept(ws, k) && !Overtaken(ws, k, a) {
      if j :| Kept(ws, j) && ws[k].offset < ws[j].offset && Covers(ws[j], a) {
        SamePage(ws[j], ws[k], page, a);
      }
    }
  }

  /**
   * `coalesce` refines sequential application: for whole aligned pages, applying the coalesced list is
   * applying every commit's body in order.
   */
  lemma {:induction false} CoalescedIsSequential(img: seq<byte>, ws: seq<Write>, list: seq<Write>, page: nat)
    requires Fits(|img|, ws) && PageWrites(ws, page) && Lists(list, Latest(ws))
    ensures Fits(|img|, list) && ApplyAll(img, list) == ApplyAll(img, ws)
  {
    PagesUnhidden(ws, page);
    hide PageWrites;
    hide Unhidden;
    CoalescedWhenUnhidden(img, ws, list);
  }

  /** Replay repairs anything: the result depends on the image only where nothing is replayed. */
  lemma {:induction false} ReplayConverges(x: seq<byte>, y: seq<byte>, ws: seq<Write>, a: nat)
    requires |x| == |y| && Fits(|x|, ws) && a < |x|
    requires Quiet(ws, a) ==> x[a] == y[a]
    ensures ApplyAll(x, ws)[a] == ApplyAll(y, ws)[a]
  {
    if |ws| > 0 && !Covers(ws[|ws| - 1], a) {
      var n := |ws| - 1;
      if Quiet(ws[..n], a) {
        assert Quiet(ws, a);
      }
      ReplayConverges(x, y, ws[..n], a);
    }
  }

  /** A hidden tail: a later shorter write at the same offset makes coalescing lose a byte. */
  lemma {:induction false} ShorterRewriteLosesTail()
    ensures var ws: seq<Write> := [Write(0, [1, 2]), Write(0, [3])];
      && Lists([Write(0, [3])], Latest(ws))
      && ApplyAll([0, 0], ws) == [3, 2]
      && ApplyAll([0, 0], [Write(0, [3])]) == [3, 0]
  {
    var ws: seq<Write> := [Write(0, [1, 2]), Write(0, [3])];
    assert ws[..1] == [Write(0, [1, 2])];
    assert ws[..1][..0] == [];
    assert Latest(ws[..1]) == map[0 := [1, 2]];
    assert Latest(ws) == map[0 := [3]];
    assert ApplyAll([0, 0], ws[..1]) == Apply([0, 0], Write(0, [1, 2]));
    var one: seq<Write> := [Write(0, [3])];
    assert one[..0] == [];
    assert one[0].offset == 0;
    assert Listed(one, 0);
  }
}
