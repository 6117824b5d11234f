/** Ternary-logic partitioning: rebuilding a table and its aggregates from the three parts of a predicate. */
module Tlp {
  import opened Bytes
  import opened Kleene
  import opened Joins
  import Average

  /** A row of the generated table; `a` is also the grouping column. */
  datatype Record = Record(id: int, a: Option<int>, b: Option<int>)

  type RowPredicate = Record -> Truth

  function IsTrue(p: RowPredicate): Record -> bool {
    (r: Record) => p(r) == Some(true)
  }

  function NotTrue(p: RowPredicate): Record -> bool {
    (r: Record) => Not(p(r)) == Some(true)
  }

  function IsUnknown(p: RowPredicate): Record -> bool {
    (r: Record) => p(r) == None
  }

  /** WHERE p, WHERE NOT p, WHERE p IS NULL. */
  function Parts(rows: seq<Record>, p: RowPredicate): seq<seq<Record>> {
    [Select(rows, IsTrue(p)), Select(rows, NotTrue(p)), Select(rows, IsUnknown(p))]
  }

  /** Exactly one of the three filters keeps a row. */
  lemma OneOfThree(p: RowPredicate, r: Record)
    ensures IsTrue(p)(r) ==> !NotTrue(p)(r) && !IsUnknown(p)(r)
    ensures NotTrue(p)(r) ==> !IsUnknown(p)(r)
    ensures IsTrue(p)(r) || NotTrue(p)(r) || IsUnknown(p)(r)
  {
    var v := p(r);
    if v.Some? {
      if v.value {
        assert v == Some(true) && Not(v) == Some(false);
      } else {
        assert v == Some(false) && Not(v) == Some(true);
      }
    }
  }

  /** The first part holds the rows where the predicate is true, the second where it is false, the third where it is unknown. */
  lemma PartsMean(rows: seq<Record>, p: RowPredicate, r: Record)
    ensures multiset(Parts(rows, p)[0])[r] == if p(r) == Some(true) then multiset(rows)[r] else 0
    ensures multiset(Parts(rows, p)[1])[r] == if p(r) == Some(false) then multiset(rows)[r] else 0
    ensures multiset(Parts(rows, p)[2])[r] == if p(r) == None then multiset(rows)[r] else 0
  {
    SelectMeans(rows, IsTrue(p), r);
    SelectMeans(rows, NotTrue(p), r);
    SelectMeans(rows, IsUnknown(p), r);
    Kleene.OneOfThree(p(r));
  }

  /** The three parts together hold the rows of the table, each as often. */
  lemma {:induction false} PartsRebuild(rows: seq<Record>, p: RowPredicate)
    ensures multiset(Parts(rows, p)[0] + Parts(rows, p)[1] + Parts(rows, p)[2]) == multiset(rows)
  {
    if rows != [] {
      PartsRebuild(rows[1..], p);
      OneOfThree(p, rows[0]);
      assert rows == [rows[0]] + rows[1..];
    }
  }

  // ---- Aggregates ----

  datatype Op = Sum | Min | Max

  /** Combining two values; NULL is dropped, as LEAST and GREATEST do and as SUM skips NULLs. */
  function Combine(op: Op, x: Option<int>, y: Option<int>): Option<int> {
    if x.None? then y else if y.None? then x else
    match op
    case Sum => Some(x.value + y.value)
    case Min => Some(if x.value <= y.value then x.value else y.value)
    case Max => Some(if x.value >= y.value then x.value else y.value)
  }

  /** SUM, MIN or MAX over a column: NULLs are skipped, and nothing left gives NULL. */
  function Aggregate(op: Op, xs: seq<Option<int>>): Option<int> {
    if xs == [] then None else Combine(op, xs[0], Aggregate(op, xs[1..]))
  }

  function ColumnB(rows: seq<Record>): seq<Option<int>> {
    if rows == [] then [] else [rows[0].b] + ColumnB(rows[1..])
  }

  function Over(op: Op, rows: seq<Record>): Option<int> {
    Aggregate(op, ColumnB(rows))
  }

  /** count(b): the rows whose `b` is not NULL. */
  function CountB(rows: seq<Record>): nat {
    if rows == [] then 0 else (if rows[0].b.Some? then 1 else 0) + CountB(rows[1..])
  }

  function Coalesce(x: Option<int>): int {
    if x.None? then 0 else x.value
  }

  lemma CombineAssociative(op: Op, x: Option<int>, y: Option<int>, z: Option<int>)
    ensures Combine(op, Combine(op, x, y), z) == Combine(op, x, Combine(op, y, z))
  {
  }

  lemma CombineCommutes(op: Op, x: Option<int>, y: Option<int>)
    ensures Combine(op, x, y) == Combine(op, y, x)
  {
  }

  function Combine3(op: Op, x: Option<int>, y: Option<int>, z: Option<int>): Option<int> {
    Combine(op, x, Combine(op, y, z))
  }

  lemma Combine3Insert(op: Op, v: Option<int>, x: Option<int>, y: Option<int>, z: Option<int>)
    ensures Combine(op, v, Combine3(op, x, y, z)) == Combine3(op, Combine(op, v, x), y, z)
    ensures Combine(op, v, Combine3(op, x, y, z)) == Combine3(op, x, Combine(op, v, y), z)
    ensures Combine(op, v, Combine3(op, x, y, z)) == Combine3(op, x, y, Combine(op, v, z))
  {
    CombineAssociative(op, v, x, Combine(op, y, z));
    CombineAssociative(op, v, y, z);
    CombineAssociative(op, x, v, Combine(op, y, z));
    CombineCommutes(op, v, x);
    CombineAssociative(op, y, v, z);
    CombineCommutes(op, v, y);
  }

  lemma OverFirst(op: Op, r: Record, rows: seq<Record>)
    ensures Over(op, [r] + rows) == Combine(op, r.b, Over(op, rows))
    ensures CountB([r] + rows) == (if r.b.Some? then 1 else 0) + CountB(rows)
  {
    assert ([r] + rows)[1..] == rows;
    assert ([r.b] + ColumnB(rows))[1..] == ColumnB(rows);
  }

  /** SUM, MIN and MAX over the table are the combination of the same aggregate over the three parts. */
  lemma {:induction false} AggregateRebuilds(op: Op, rows: seq<Record>, p: RowPredicate)
    ensures var parts := Parts(rows, p);
      Over(op, rows) == Combine3(op, Over(op, parts[0]), Over(op, parts[1]), Over(op, parts[2]))
  {
    if rows != [] {
      var first, rest := rows[0], rows[1..];
      assert rows == [first] + rest;
      AggregateRebuilds(op, rest, p);
      OneOfThree(p, first);
      var parts := Parts(rest, p);
      OverFirst(op, first, rest);
      OverFirst(op, first, parts[0]);
      OverFirst(op, first, parts[1]);
      OverFirst(op, first, parts[2]);
      Combine3Insert(op, first.b, Over(op, parts[0]), Over(op, parts[1]), Over(op, parts[2]));
      SelectOnto(first, rest, IsTrue(p));
      SelectOnto(first, rest, NotTrue(p));
      SelectOnto(first, rest, IsUnknown(p));
      hide Combine3;
      hide Over;
    }
  }

  lemma SelectOnto<T>(x: T, s: seq<T>, f: T -> bool)
    ensures Select([x] + s, f) == if f(x) then [x] + Select(s, f) else Select(s, f)
  {
    assert ([x] + s)[1..] == s;
  }

  /** COUNT(*) and COUNT(b) are the sums of the parts' counts. */
  lemma {:induction false} CountRebuilds(rows: seq<Record>, p: RowPredicate)
    ensures var parts := Parts(rows, p);
      |rows| == |parts[0]| + |parts[1]| + |parts[2]| && CountB(rows) == CountB(parts[0]) + CountB(parts[1]) + CountB(parts[2])
  {
    if rows != [] {
      var first, rest := rows[0], rows[1..];
      assert rows == [first] + rest;
      CountRebuilds(rest, p);
      OneOfThree(p, first);
      var parts := Parts(rest, p);
      OverFirst(Sum, first, parts[0]);
      OverFirst(Sum, first, parts[1]);
      OverFirst(Sum, first, parts[2]);
      SelectOnto(first, rest, IsTrue(p));
      SelectOnto(first, rest, NotTrue(p));
      SelectOnto(first, rest, IsUnknown(p));
    }
  }

  /** The COALESCEd sum is the sum of the parts' COALESCEd sums, and AVG their quotient. */
  lemma SumAndAvgRebuild(rows: seq<Record>, p: RowPredicate)
    ensures var parts := Parts(rows, p);
      var s := Coalesce(Over(Sum, parts[0])) + Coalesce(Over(Sum, parts[1])) + Coalesce(Over(Sum, parts[2]));
      var c := CountB(parts[0]) + CountB(parts[1]) + CountB(parts[2]);
      && Coalesce(Over(Sum, rows)) == s
      && Average.Avg(Coalesce(Over(Sum, rows)), CountB(rows)) == if c == 0 then "NULL" else Average.Avg(s, c)
  {
    AggregateRebuilds(Sum, rows, p);
    CountRebuilds(rows, p);
  }

  // ---- What the folds mean ----

  /** MIN is the least value that is there, and NULL exactly when none is. */
  lemma {:induction false} MinMeans(xs: seq<Option<int>>)
    ensures Aggregate(Min, xs).None? <==> forall x <- xs :: x.None?
    ensures Aggregate(Min, xs).Some? ==> Aggregate(Min, xs) in xs
    ensures forall x <- xs :: x.Some? ==> Aggregate(Min, xs).Some? && Aggregate(Min, xs).value <= x.value
  {
    if xs != [] {
      MinMeans(xs[1..]);
      assert forall x <- xs :: x == xs[0] || x in xs[1..];
      assert xs[0] in xs && forall x <- xs[1..] :: x in xs;
    }
  }

  /** MAX is the greatest value that is there, and NULL exactly when none is. */
  lemma {:induction false} MaxMeans(xs: seq<Option<int>>)
    ensures Aggregate(Max, xs).None? <==> forall x <- xs :: x.None?
    ensures Aggregate(Max, xs).Some? ==> Aggregate(Max, xs) in xs
    ensures forall x <- xs :: x.Some? ==> Aggregate(Max, xs).Some? && Aggregate(Max, xs).value >= x.value
  {
    if xs != [] {
      MaxMeans(xs[1..]);
      assert forall x <- xs :: x == xs[0] || x in xs[1..];
      assert xs[0] in xs && forall x <- xs[1..] :: x in xs;
    }
  }

  /** SUM is additive from the end, and NULL exactly when no value is there. */
  lemma {:induction false} SumMeans(xs: seq<Option<int>>, x: Option<int>)
    ensures Coalesce(Aggregate(Sum, xs + [x])) == Coalesce(Aggregate(Sum, xs)) + Coalesce(x)
    ensures Aggregate(Sum, xs).None? <==> forall v <- xs :: v.None?
  {
    if xs == [] {
      assert xs + [x] == [x] && [x][1..] == [];
    } else {
      SumMeans(xs[1..], x);
      assert (xs + [x])[1..] == xs[1..] + [x];
      assert xs == [xs[0]] + xs[1..];
    }
  }

  /** The aggregated column is `b`, row by row. */
  lemma {:induction false} ColumnMeans(rows: seq<Record>)
    ensures |ColumnB(rows)| == |rows| && forall i :: 0 <= i < |rows| ==> ColumnB(rows)[i] == rows[i].b
  {
    if rows != [] {
      ColumnMeans(rows[1..]);
    }
  }

  /** count(b) counts one for each row whose `b` is not NULL. */
  lemma {:induction false} CountMeans(rows: seq<Record>, r: Record)
    ensures CountB(rows + [r]) == CountB(rows) + if r.b == None then 0 else 1
    ensures CountB([]) == 0
  {
    if rows == [] {
      assert rows + [r] == [r] && [r][1..] == [];
    } else {
      CountMeans(rows[1..], r);
      assert (rows + [r])[1..] == rows[1..] + [r];
    }
  }

  // ---- Per group ----

  function InGroup(g: Option<int>): Record -> bool {
    (r: Record) => r.a == g
  }

  function Group(rows: seq<Record>, g: Option<int>): seq<Record> {
    Select(rows, InGroup(g))
  }

  /** A group holds the table's rows with that key, each as often, and no other. */
  lemma GroupMeans(rows: seq<Record>, g: Option<int>, r: Record)
    ensures multiset(Group(rows, g))[r] == if r.a == g then multiset(rows)[r] else 0
  {
    SelectMeans(rows, InGroup(g), r);
  }

  function Keys(rows: seq<Record>): set<Option<int>> {
    set r <- rows :: r.a
  }

  /** The keys are those of the rows, and exactly those with a group. */
  lemma KeysMean(rows: seq<Record>, g: Option<int>)
    ensures g in Keys(rows) <==> exists r <- rows :: r.a == g
    ensures g in Keys(rows) <==> Group(rows, g) != []
  {
    if r :| r in rows && r.a == g {
      GroupMeans(rows, g, r);
      assert r in multiset(rows) && r in multiset(Group(rows, g));
    }
    if Group(rows, g) != [] {
      var r := Group(rows, g)[0];
      assert r in multiset(Group(rows, g));
      GroupMeans(rows, g, r);
      assert r in multiset(rows);
    }
  }

  /** The partial aggregates of one group: one row from every part that has the group. */
  function Partials(op: Op, parts: seq<seq<Record>>, g: Option<int>): seq<Option<int>> {
    if parts == [] then [] else
    (if |Group(parts[0], g)| == 0 then [] else [Over(op, Group(parts[0], g))]) + Partials(op, parts[1..], g)
  }

  /** The partial counts of one group, of all rows and of the non-NULL ones. */
  function PartialCounts(parts: seq<seq<Record>>, g: Option<int>): seq<(nat, nat)> {
    if parts == [] then [] else
    (if |Group(parts[0], g)| == 0 then [] else [(|Group(parts[0], g)|, CountB(Group(parts[0], g)))]) + PartialCounts(parts[1..], g)
  }

  function Totals(counts: seq<(nat, nat)>): (nat, nat) {
    if counts == [] then (0, 0) else
    var rest := Totals(counts[1..]);
    (counts[0].0 + rest.0, counts[0].1 + rest.1)
  }

  lemma {:induction false} AggregateConcat(op: Op, xs: seq<Option<int>>, ys: seq<Option<int>>)
    ensures Aggregate(op, xs + ys) == Combine(op, Aggregate(op, xs), Aggregate(op, ys))
  {
    if xs == [] {
      assert xs + ys == ys;
    } else {
      assert (xs + ys)[1..] == xs[1..] + ys;
      AggregateConcat(op, xs[1..], ys);
      CombineAssociative(op, xs[0], Aggregate(op, xs[1..]), Aggregate(op, ys));
    }
  }

  lemma {:induction false} TotalsConcat(xs: seq<(nat, nat)>, ys: seq<(nat, nat)>)
    ensures Totals(xs + ys) == (Totals(xs).0 + Totals(ys).0, Totals(xs).1 + Totals(ys).1)
  {
    if xs == [] {
      assert xs + ys == ys;
    } else {
      assert (xs + ys)[1..] == xs[1..] + ys;
      TotalsConcat(xs[1..], ys);
    }
  }

  lemma {:induction false} PartialsStep(op: Op, parts: seq<seq<Record>>, g: Option<int>)
    requires parts != []
    ensures Aggregate(op, Partials(op, parts, g))
         == Combine(op, Over(op, Group(parts[0], g)), Aggregate(op, Partials(op, parts[1..], g)))
    ensures Totals(PartialCounts(parts, g)).0 == |Group(parts[0], g)| + Totals(PartialCounts(parts[1..], g)).0
    ensures Totals(PartialCounts(parts, g)).1 == CountB(Group(parts[0], g)) + Totals(PartialCounts(parts[1..], g)).1
  {
    var one := Group(parts[0], g);
    var first := if |one| == 0 then [] else [Over(op, one)];
    var counts := if |one| == 0 then [] else [(|one|, CountB(one))];
    AggregateConcat(op, first, Partials(op, parts[1..], g));
    TotalsConcat(counts, PartialCounts(parts[1..], g));
    if |one| != 0 {
      assert first[1..] == [] && counts[1..] == [];
    }
  }

  /** The parts of a group are the group's rows of the parts. */
  lemma PartsOfGroup(rows: seq<Record>, p: RowPredicate, g: Option<int>)
    ensures var parts, inside := Parts(rows, p), Parts(Group(rows, g), p);
      Group(parts[0], g) == inside[0] && Group(parts[1], g) == inside[1] && Group(parts[2], g) == inside[2]
  {
    SelectSwap(rows, IsTrue(p), InGroup(g));
    SelectSwap(rows, NotTrue(p), InGroup(g));
    SelectSwap(rows, IsUnknown(p), InGroup(g));
  }

  /**
   * Per group, aggregating the partials again gives the direct aggregate: sum of sums, least of
   * minima, greatest of maxima, sums of counts.
   */
  lemma {:induction false} GroupsRebuild(op: Op, rows: seq<Record>, p: RowPredicate, g: Option<int>)
    ensures Aggregate(op, Partials(op, Parts(rows, p), g)) == Over(op, Group(rows, g))
    ensures Totals(PartialCounts(Parts(rows, p), g)) == (|Group(rows, g)|, CountB(Group(rows, g)))
  {
    var parts := Parts(rows, p);
    PartsOfGroup(rows, p, g);
    AggregateRebuilds(op, Group(rows, g), p);
    CountRebuilds(Group(rows, g), p);
    ThreePartials(op, parts[0], parts[1], parts[2], g);
  }

  /** What re-aggregating the partials of three parts combines. */
  lemma {:induction false} ThreePartials(op: Op, x: seq<Record>, y: seq<Record>, z: seq<Record>, g: Option<int>)
    ensures Aggregate(op, Partials(op, [x, y, z], g)) == Combine3(op, Over(op, Group(x, g)), Over(op, Group(y, g)), Over(op, Group(z, g)))
    ensures Totals(PartialCounts([x, y, z], g)) ==
      (|Group(x, g)| + |Group(y, g)| + |Group(z, g)|, CountB(Group(x, g)) + CountB(Group(y, g)) + CountB(Group(z, g)))
  {
    hide Group;
    hide Over;
    hide CountB;
    var xyz, yz, last := [x, y, z], [y, z], [z];
    assert xyz[1..] == yz && yz[1..] == last && last[1..] == [];
    PartialsStep(op, xyz, g);
    PartialsStep(op, yz, g);
    PartialsStep(op, last, g);
  }

  /** The re-aggregated query returns the table's groups and no other. */
  lemma KeysRebuild(rows: seq<Record>, p: RowPredicate)
    ensures var parts := Parts(rows, p); Keys(rows) == Keys(parts[0]) + Keys(parts[1]) + Keys(parts[2])
  {
    var parts := Parts(rows, p);
    PartsRebuild(rows, p);
    var all := parts[0] + parts[1] + parts[2];
    forall r: Record
      ensures r in rows <==> r in all
    {
      assert r in rows <==> r in multiset(rows);
      assert r in all <==> r in multiset(all);
    }
  }

  /** Per group, AVG is the quotient of the re-aggregated sums and counts. */
  lemma GroupAvgRebuilds(rows: seq<Record>, p: RowPredicate, g: Option<int>)
    ensures var s, c := Aggregate(Sum, Partials(Sum, Parts(rows, p), g)), Totals(PartialCounts(Parts(rows, p), g)).1;
      Average.Avg(Coalesce(Over(Sum, Group(rows, g))), CountB(Group(rows, g)))
      == if c == 0 then "NULL" else Average.Avg(Coalesce(s), c)
  {
    GroupsRebuild(Sum, rows, p, g);
  }
}
