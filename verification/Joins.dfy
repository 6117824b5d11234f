/** The generator's reference joins, and which conjuncts may be pushed below them. */
module Joins {
  import opened Bytes
  import opened Kleene

  datatype Kind = Inner | LeftOuter | RightOuter | FullOuter

  /** A joined row; a missing side is NULL-extended. */
  datatype Joined<A, B> = Joined(left: Option<A>, right: Option<B>)

  function Select<T>(s: seq<T>, f: T -> bool): seq<T> {
    if s == [] then [] else (if f(s[0]) then [s[0]] else []) + Select(s[1..], f)
  }

  function Pairs<A, B>(x: A, b: seq<B>, on: (A, B) -> bool): seq<Joined<A, B>> {
    if b == [] then [] else (if on(x, b[0]) then [Joined(Some(x), Some(b[0]))] else []) + Pairs(x, b[1..], on)
  }

  function Matched<A, B>(a: seq<A>, b: seq<B>, on: (A, B) -> bool): seq<Joined<A, B>> {
    if a == [] then [] else Pairs(a[0], b, on) + Matched(a[1..], b, on)
  }

  function LeftRow<A, B>(x: A, b: seq<B>, on: (A, B) -> bool): seq<Joined<A, B>> {
    var m := Pairs(x, b, on);
    if |m| == 0 then [Joined(Some(x), None)] else m
  }

  function Left<A, B>(a: seq<A>, b: seq<B>, on: (A, B) -> bool): seq<Joined<A, B>> {
    if a == [] then [] else LeftRow(a[0], b, on) + Left(a[1..], b, on)
  }

  predicate AnyRight<A, B>(x: A, b: seq<B>, on: (A, B) -> bool) {
    b != [] && (on(x, b[0]) || AnyRight(x, b[1..], on))
  }

  predicate AnyLeft<A, B>(a: seq<A>, y: B, on: (A, B) -> bool) {
    a != [] && (on(a[0], y) || AnyLeft(a[1..], y, on))
  }

  function LeftOnly<A, B>(a: seq<A>, b: seq<B>, on: (A, B) -> bool): seq<Joined<A, B>> {
    if a == [] then [] else (if AnyRight(a[0], b, on) then [] else [Joined(Some(a[0]), None)]) + LeftOnly(a[1..], b, on)
  }

  function RightOnly<A, B>(a: seq<A>, b: seq<B>, on: (A, B) -> bool): seq<Joined<A, B>> {
    if b == [] then [] else (if AnyLeft(a, b[0], on) then [] else [Joined(None, Some(b[0]))]) + RightOnly(a, b[1..], on)
  }

  function Join<A, B>(kind: Kind, a: seq<A>, b: seq<B>, on: (A, B) -> bool): seq<Joined<A, B>> {
    match kind
    case Inner => Matched(a, b, on)
    case LeftOuter => Left(a, b, on)
    case RightOuter => Matched(a, b, on) + RightOnly(a, b, on)
    case FullOuter => Matched(a, b, on) + LeftOnly(a, b, on) + RightOnly(a, b, on)
  }

  // ---- Conjuncts ----

  /** A conjunct on the rows of one relation; it also has a value on the NULL-extended row. */
  type Conjunct<!A> = Option<A> -> Truth

  function Holds<A>(p: Conjunct<A>): A -> bool {
    (x: A) => p(Some(x)) == Some(true)
  }

  function HoldsLeft<A, B>(p: Conjunct<A>): Joined<A, B> -> bool {
    (j: Joined<A, B>) => p(j.left) == Some(true)
  }

  function HoldsRight<A, B>(q: Conjunct<B>): Joined<A, B> -> bool {
    (j: Joined<A, B>) => q(j.right) == Some(true)
  }

  function AndLeft<A, B>(on: (A, B) -> bool, p: Conjunct<A>): (A, B) -> bool {
    (x: A, y: B) => on(x, y) && p(Some(x)) == Some(true)
  }

  function AndRight<A, B>(on: (A, B) -> bool, q: Conjunct<B>): (A, B) -> bool {
    (x: A, y: B) => on(x, y) && q(Some(y)) == Some(true)
  }

  // ---- Selection below the pieces of a join ----

  lemma {:induction false} SelectConcat<T>(s: seq<T>, t: seq<T>, f: T -> bool)
    ensures Select(s + t, f) == Select(s, f) + Select(t, f)
  {
    if s == [] {
      assert s + t == t;
    } else {
      hide Select;
      var head, rest := [s[0]], s[1..];
      var first := if f(s[0]) then head else [];
      SelectConcat(rest, t, f);
      SelectHead(s[0], rest, f);
      SelectHead(s[0], rest + t, f);
      ConcatAssociative(head, rest, t);
      ConcatAssociative(first, Select(rest, f), Select(t, f));
      assert s == head + rest;
    }
  }

  lemma {:induction false} SelectHead<T>(x: T, s: seq<T>, f: T -> bool)
    ensures Select([x] + s, f) == (if f(x) then [x] else []) + Select(s, f)
  {
    assert ([x] + s)[1..] == s;
  }

  lemma {:induction false} PairsLeft<A, B>(x: A, b: seq<B>, on: (A, B) -> bool, p: Conjunct<A>)
    ensures Select(Pairs(x, b, on), HoldsLeft(p)) == if p(Some(x)) == Some(true) then Pairs(x, b, on) else []
    ensures Pairs(x, b, AndLeft(on, p)) == if p(Some(x)) == Some(true) then Pairs(x, b, on) else []
  {
    if b != [] {
      PairsLeft(x, b[1..], on, p);
      SelectConcat(if on(x, b[0]) then [Joined(Some(x), Some(b[0]))] else [], Pairs(x, b[1..], on), HoldsLeft(p));
    }
  }

  lemma {:induction false} PairsRight<A, B>(x: A, b: seq<B>, on: (A, B) -> bool, q: Conjunct<B>)
    ensures Select(Pairs(x, b, on), HoldsRight(q)) == Pairs(x, Select(b, Holds(q)), on)
    ensures Pairs(x, b, AndRight(on, q)) == Pairs(x, Select(b, Holds(q)), on)
  {
    if b != [] {
      hide Select;
      var y, rest := b[0], b[1..];
      var first: seq<Joined<A, B>> := if on(x, y) then [Joined(Some(x), Some(y))] else [];
      PairsRight(x, rest, on, q);
      SelectConcat(first, Pairs(x, rest, on), HoldsRight(q));
      SelectOptional(Joined(Some(x), Some(y)), on(x, y), HoldsRight(q));
      SelectFirst(b, Holds(q));
    } else {
      SelectNothing<B>(Holds(q));
      SelectNothing<Joined<A, B>>(HoldsRight(q));
    }
  }

  lemma SelectNothing<T>(f: T -> bool)
    ensures Select([], f) == []
  {
  }

  lemma SelectOptional<T>(x: T, keep: bool, f: T -> bool)
    ensures Select(if keep then [x] else [], f) == if keep && f(x) then [x] else []
  {
    assert [x][1..] == [];
  }

  lemma SelectFirst<T>(s: seq<T>, f: T -> bool)
    requires s != []
    ensures var rest := Select(s[1..], f);
      if f(s[0]) then Select(s, f) != [] && Select(s, f)[0] == s[0] && Select(s, f)[1..] == rest
      else Select(s, f) == rest
  {
    var rest := Select(s[1..], f);
    assert ([s[0]] + rest)[1..] == rest;
  }

  lemma {:induction false} MatchedLeft<A, B>(a: seq<A>, b: seq<B>, on: (A, B) -> bool, p: Conjunct<A>)
    ensures Select(Matched(a, b, on), HoldsLeft(p)) == Matched(Select(a, Holds(p)), b, on)
    ensures Matched(a, b, AndLeft(on, p)) == Matched(Select(a, Holds(p)), b, on)
  {
    if a != [] {
      MatchedLeft(a[1..], b, on, p);
      SelectConcat(Pairs(a[0], b, on), Matched(a[1..], b, on), HoldsLeft(p));
      PairsLeft(a[0], b, on, p);
      SelectFirst(a, Holds(p));
    }
  }

  lemma {:induction false} MatchedRight<A, B>(a: seq<A>, b: seq<B>, on: (A, B) -> bool, q: Conjunct<B>)
    ensures Select(Matched(a, b, on), HoldsRight(q)) == Matched(a, Select(b, Holds(q)), on)
    ensures Matched(a, b, AndRight(on, q)) == Matched(a, Select(b, Holds(q)), on)
  {
    if a != [] {
      MatchedRight(a[1..], b, on, q);
      SelectConcat(Pairs(a[0], b, on), Matched(a[1..], b, on), HoldsRight(q));
      PairsRight(a[0], b, on, q);
    }
  }

  lemma {:induction false} LeftLeft<A, B>(a: seq<A>, b: seq<B>, on: (A, B) -> bool, p: Conjunct<A>)
    ensures Select(Left(a, b, on), HoldsLeft(p)) == Left(Select(a, Holds(p)), b, on)
  {
    if a != [] {
      LeftLeft(a[1..], b, on, p);
      SelectConcat(LeftRow(a[0], b, on), Left(a[1..], b, on), HoldsLeft(p));
      PairsLeft(a[0], b, on, p);
      SelectFirst(a, Holds(p));
    }
  }

  lemma {:induction false} LeftRight<A, B>(a: seq<A>, b: seq<B>, on: (A, B) -> bool, q: Conjunct<B>)
    ensures Left(a, b, AndRight(on, q)) == Left(a, Select(b, Holds(q)), on)
  {
    if a != [] {
      LeftRight(a[1..], b, on, q);
      PairsRight(a[0], b, on, q);
    }
  }

  lemma {:induction false} AnyLeftKept<A, B>(a: seq<A>, y: B, on: (A, B) -> bool, p: Conjunct<A>)
    ensures AnyLeft(a, y, AndLeft(on, p)) == AnyLeft(Select(a, Holds(p)), y, on)
  {
    if a != [] {
      AnyLeftKept(a[1..], y, on, p);
      SelectFirst(a, Holds(p));
    }
  }

  lemma {:induction false} RightOnlyLeft<A, B>(a: seq<A>, b: seq<B>, on: (A, B) -> bool, p: Conjunct<A>)
    ensures RightOnly(a, b, AndLeft(on, p)) == RightOnly(Select(a, Holds(p)), b, on)
  {
    if b != [] {
      RightOnlyLeft(a, b[1..], on, p);
      AnyLeftKept(a, b[0], on, p);
    }
  }

  lemma {:induction false} RightOnlyRight<A, B>(a: seq<A>, b: seq<B>, on: (A, B) -> bool, q: Conjunct<B>)
    ensures Select(RightOnly(a, b, on), HoldsRight(q)) == RightOnly(a, Select(b, Holds(q)), on)
  {
    if b != [] {
      RightOnlyRight(a, b[1..], on, q);
      var first: seq<Joined<A, B>> := if AnyLeft(a, b[0], on) then [] else [Joined(None, Some(b[0]))];
      SelectConcat(first, RightOnly(a, b[1..], on), HoldsRight(q));
      SelectFirst(b, Holds(q));
    }
  }

  // ---- Pushing down ----

  /** A WHERE conjunct on a side the join preserves may be applied as that side is read. */
  lemma WherePushdown<A, B>(kind: Kind, a: seq<A>, b: seq<B>, on: (A, B) -> bool, p: Conjunct<A>, q: Conjunct<B>)
    ensures kind in {Inner, LeftOuter} ==>
      Select(Join(kind, a, b, on), HoldsLeft(p)) == Join(kind, Select(a, Holds(p)), b, on)
    ensures kind in {Inner, RightOuter} ==>
      Select(Join(kind, a, b, on), HoldsRight(q)) == Join(kind, a, Select(b, Holds(q)), on)
  {
    MatchedLeft(a, b, on, p);
    MatchedRight(a, b, on, q);
    LeftLeft(a, b, on, p);
    RightOnlyRight(a, b, on, q);
    SelectConcat(Matched(a, b, on), RightOnly(a, b, on), HoldsRight(q));
  }

  /** Both conjuncts of one WHERE, joined by the three-valued AND. */
  function HoldsBoth<A, B>(p: Conjunct<A>, q: Conjunct<B>): Joined<A, B> -> bool {
    (j: Joined<A, B>) => And(p(j.left), q(j.right)) == Some(true)
  }

  lemma {:induction false} SelectBoth<A, B>(s: seq<Joined<A, B>>, p: Conjunct<A>, q: Conjunct<B>)
    ensures Select(s, HoldsBoth(p, q)) == Select(Select(s, HoldsLeft(p)), HoldsRight(q))
  {
    if s != [] {
      SelectBoth(s[1..], p, q);
      SelectFirst(s, HoldsLeft(p));
      if HoldsLeft(p)(s[0]) {
        SelectFirst(Select(s, HoldsLeft(p)), HoldsRight(q));
      }
      AndTrue(p(s[0].left), q(s[0].right));
    }
  }

  /** A WHERE with a conjunct per side: each goes to its own scan if preserved, and stays a residual filter otherwise. */
  lemma WhereBothPushdown<A, B>(a: seq<A>, b: seq<B>, on: (A, B) -> bool, p: Conjunct<A>, q: Conjunct<B>)
    ensures Select(Join(Inner, a, b, on), HoldsBoth(p, q)) == Join(Inner, Select(a, Holds(p)), Select(b, Holds(q)), on)
    ensures Select(Join(LeftOuter, a, b, on), HoldsBoth(p, q))
         == Select(Join(LeftOuter, Select(a, Holds(p)), b, on), HoldsRight(q))
    ensures Select(Join(RightOuter, a, b, on), HoldsBoth(p, q))
         == Select(Join(RightOuter, a, Select(b, Holds(q)), on), HoldsLeft(p))
  {
    SelectBoth(Join(Inner, a, b, on), p, q);
    SelectBoth(Join(LeftOuter, a, b, on), p, q);
    SelectBoth(Join(RightOuter, a, b, on), p, q);
    SelectSwap(Join(RightOuter, a, b, on), HoldsLeft(p), HoldsRight(q));
    WherePushdown(Inner, a, b, on, p, q);
    WherePushdown(Inner, Select(a, Holds(p)), b, on, p, q);
    WherePushdown(LeftOuter, a, b, on, p, q);
    WherePushdown(RightOuter, a, b, on, p, q);
  }

  lemma {:induction false} SelectSwap<T>(s: seq<T>, f: T -> bool, g: T -> bool)
    ensures Select(Select(s, f), g) == Select(Select(s, g), f)
  {
    if s != [] {
      SelectSwap(s[1..], f, g);
      SelectFirst(s, f);
      SelectFirst(s, g);
    }
  }

  /** An ON conjunct on a side the join NULL-extends, or on either side of INNER, may be applied as that side is read. */
  lemma OnPushdown<A, B>(kind: Kind, a: seq<A>, b: seq<B>, on: (A, B) -> bool, p: Conjunct<A>, q: Conjunct<B>)
    ensures kind in {Inner, RightOuter} ==>
      Join(kind, a, b, AndLeft(on, p)) == Join(kind, Select(a, Holds(p)), b, on)
    ensures kind in {Inner, LeftOuter} ==>
      Join(kind, a, b, AndRight(on, q)) == Join(kind, a, Select(b, Holds(q)), on)
  {
    MatchedLeft(a, b, on, p);
    MatchedRight(a, b, on, q);
    LeftRight(a, b, on, q);
    RightOnlyLeft(a, b, on, p);
  }

  /** Lifts a conjunct on a relation to the rows of a join that carries it on the left. */
  function Through<A, B>(p: Conjunct<A>): Conjunct<Joined<A, B>> {
    (j: Option<Joined<A, B>>) => p(if j.None? then None else j.value.left)
  }

  lemma ThroughHolds<A, B>(s: seq<Joined<A, B>>, p: Conjunct<A>)
    ensures Select(s, Holds(Through<A, B>(p))) == Select(s, HoldsLeft(p))
  {
    if s != [] {
      ThroughHolds(s[1..], p);
    }
  }

  /**
   * Three relations: below an INNER join over a LEFT join, the ON conjuncts on the first and the
   * third relation reach their own scans. The one on the NULL-extended second stays in the ON.
   */
  lemma ThreeRelations<A, B, C>(a: seq<A>, b: seq<B>, c: seq<C>, ab: (A, B) -> bool, abc: (Joined<A, B>, C) -> bool,
                                pa: Conjunct<A>, pb: Conjunct<B>, pc: Conjunct<C>)
    ensures var rest := (j: Joined<A, B>, z: C) => abc(j, z) && pb(j.right) == Some(true);
      Join(Inner, Join(LeftOuter, a, b, ab), c, AndLeft(AndRight(rest, pc), Through(pa)))
      == Join(Inner, Join(LeftOuter, Select(a, Holds(pa)), b, ab), Select(c, Holds(pc)), rest)
  {
    var rest := (j: Joined<A, B>, z: C) => abc(j, z) && pb(j.right) == Some(true);
    var rows := Left(a, b, ab);
    MatchedLeft(rows, c, AndRight(rest, pc), Through(pa));
    ThroughHolds(rows, pa);
    LeftLeft(a, b, ab, pa);
    MatchedRight(Left(Select(a, Holds(pa)), b, ab), c, rest, pc);
  }

  // ---- The generator's tables: exactly which conjuncts may move ----

  datatype Row = Row(id: int, key: int, val: Option<int>)

  function SameKey(): (Row, Row) -> bool {
    (x: Row, y: Row) => x.key == y.key
  }

  /** A predicate on the nullable column; a NULL-extended row reads as NULL. */
  function Column(p: Predicate): Conjunct<Row> {
    (r: Option<Row>) => p(if r == None then None else r.value.val)
  }

  /** On a row the column's value decides, and a NULL-extended row reads as NULL. */
  lemma ColumnMeans(p: Predicate, r: Row, j: Joined<Row, Row>)
    ensures Holds(Column(p))(r) <==> p(r.val) == Some(true)
    ensures HoldsLeft(Column(p))(j) <==> p(if j.left == None then None else j.left.value.val) == Some(true)
    ensures HoldsRight(Column(p))(j) <==> p(if j.right == None then None else j.right.value.val) == Some(true)
  {
  }

  ghost predicate WhereLeftMoves(kind: Kind, p: Predicate) {
    forall a, b :: Select(Join(kind, a, b, SameKey()), HoldsLeft(Column(p))) == Join(kind, Select(a, Holds(Column(p))), b, SameKey())
  }

  ghost predicate WhereRightMoves(kind: Kind, p: Predicate) {
    forall a, b :: Select(Join(kind, a, b, SameKey()), HoldsRight(Column(p))) == Join(kind, a, Select(b, Holds(Column(p))), SameKey())
  }

  ghost predicate OnLeftMoves(kind: Kind, p: Predicate) {
    forall a, b :: Join(kind, a, b, AndLeft(SameKey(), Column(p))) == Join(kind, Select(a, Holds(Column(p))), b, SameKey())
  }

  ghost predicate OnRightMoves(kind: Kind, p: Predicate) {
    forall a, b :: Join(kind, a, b, AndRight(SameKey(), Column(p))) == Join(kind, a, Select(b, Holds(Column(p))), SameKey())
  }

  // Each sufficient direction is the general rule; the other comes from two one-row tables.

  lemma {:induction false} SelectAll<T>(s: seq<T>, f: T -> bool)
    requires forall x :: f(x)
    ensures Select(s, f) == s
  {
    if s != [] {
      SelectAll(s[1..], f);
    }
  }

  lemma {:induction false} SameOn<A, B>(a: seq<A>, b: seq<B>, on: (A, B) -> bool, on': (A, B) -> bool)
    requires forall x, y :: on(x, y) == on'(x, y)
    ensures Matched(a, b, on) == Matched(a, b, on') && Left(a, b, on) == Left(a, b, on')
    ensures LeftOnly(a, b, on) == LeftOnly(a, b, on')
  {
    if a != [] {
      SameOn(a[1..], b, on, on');
      SamePairs(a[0], b, on, on');
    }
  }

  lemma {:induction false} SamePairs<A, B>(x: A, b: seq<B>, on: (A, B) -> bool, on': (A, B) -> bool)
    requires forall x, y :: on(x, y) == on'(x, y)
    ensures Pairs(x, b, on) == Pairs(x, b, on') && AnyRight(x, b, on) == AnyRight(x, b, on')
  {
    if b != [] {
      SamePairs(x, b[1..], on, on');
    }
  }

  lemma {:induction false} SameAnyLeft<A, B>(a: seq<A>, y: B, on: (A, B) -> bool, on': (A, B) -> bool)
    requires forall x, y :: on(x, y) == on'(x, y)
    ensures AnyLeft(a, y, on) == AnyLeft(a, y, on')
  {
    if a != [] {
      SameAnyLeft(a[1..], y, on, on');
    }
  }

  lemma {:induction false} SameRightOnly<A, B>(a: seq<A>, b: seq<B>, on: (A, B) -> bool, on': (A, B) -> bool)
    requires forall x, y :: on(x, y) == on'(x, y)
    ensures RightOnly(a, b, on) == RightOnly(a, b, on')
  {
    if b != [] {
      SameRightOnly(a, b[1..], on, on');
      SameAnyLeft(a, b[0], on, on');
    }
  }

  lemma SameJoin<A, B>(kind: Kind, a: seq<A>, b: seq<B>, on: (A, B) -> bool, on': (A, B) -> bool)
    requires forall x, y :: on(x, y) == on'(x, y)
    ensures Join(kind, a, b, on) == Join(kind, a, b, on')
  {
    SameOn(a, b, on, on');
    SameRightOnly(a, b, on, on');
  }

  /** What the joins of at most one row a side return. */
  lemma SmallJoins<A, B>(kind: Kind, x: A, y: B, on: (A, B) -> bool)
    ensures on(x, y) ==> Join(kind, [x], [y], on) == [Joined(Some(x), Some(y))]
    ensures Join(kind, [x], [], on) == if kind in {LeftOuter, FullOuter} then [Joined(Some(x), None)] else []
    ensures Join(kind, [], [y], on) == if kind in {RightOuter, FullOuter} then [Joined(None, Some(y))] else []
    ensures Join(kind, [], [], on) == []
  {
    var xs, ys := [x], [y];
    var none, nobody := ys[1..], xs[1..];
    assert none == [] && nobody == [];
    assert Pairs(x, none, on) == [];
    assert Pairs(x, ys, on) == if on(x, y) then [Joined(Some(x), Some(y))] else [];
    assert Matched(nobody, ys, on) == Matched(nobody, none, on) == [];
    assert Matched(xs, ys, on) == Pairs(x, ys, on) && Matched(xs, none, on) == [];
    assert Left(nobody, ys, on) == Left(nobody, none, on) == [];
    assert Left(xs, ys, on) == LeftRow(x, ys, on) && Left(xs, none, on) == LeftRow(x, none, on);
    assert AnyRight(x, ys, on) == on(x, y) && AnyLeft(xs, y, on) == on(x, y);
    assert LeftOnly(xs, none, on) == [Joined(Some(x), None)] && LeftOnly(nobody, none, on) == [];
    assert RightOnly(nobody, ys, on) == [Joined(None, Some(y))] && RightOnly(nobody, none, on) == [];
    assert LeftOnly(xs, ys, on) == if on(x, y) then [] else [Joined(Some(x), None)];
    assert RightOnly(xs, ys, on) == if on(x, y) then [] else [Joined(None, Some(y))];
  }

  lemma SelectOne<T>(x: T, f: T -> bool)
    ensures Select([x], f) == if f(x) then [x] else []
  {
    assert [x][1..] == [];
  }

  /** On two one-row tables with equal keys, the left row rejected by `p`: what each spelling returns. */
  lemma RejectedLeft(kind: Kind, x: Row, y: Row, p: Predicate)
    requires x.key == y.key && p(x.val) != Some(true)
    ensures Select([x], Holds(Column(p))) == []
    ensures Select(Join(kind, [x], [y], SameKey()), HoldsLeft(Column(p))) == []
    ensures kind in {RightOuter, FullOuter} ==> Join(kind, [], [y], SameKey()) != []
    ensures kind in {LeftOuter, FullOuter} ==> Join(kind, [x], [], AndLeft(SameKey(), Column(p))) != []
    ensures Join(kind, [], [], SameKey()) == []
  {
    SmallJoins(kind, x, y, SameKey());
    SmallJoins(kind, x, y, AndLeft(SameKey(), Column(p)));
    SelectOne(x, Holds(Column(p)));
    SelectOne(Joined(Some(x), Some(y)), HoldsLeft(Column(p)));
  }

  lemma RejectedRight(kind: Kind, x: Row, y: Row, p: Predicate)
    requires x.key == y.key && p(y.val) != Some(true)
    ensures Select([y], Holds(Column(p))) == []
    ensures Select(Join(kind, [x], [y], SameKey()), HoldsRight(Column(p))) == []
    ensures kind in {LeftOuter, FullOuter} ==> Join(kind, [x], [], SameKey()) != []
    ensures kind in {RightOuter, FullOuter} ==> Join(kind, [], [y], AndRight(SameKey(), Column(p))) != []
    ensures Join(kind, [], [], SameKey()) == []
  {
    SmallJoins(kind, x, y, SameKey());
    SmallJoins(kind, x, y, AndRight(SameKey(), Column(p)));
    SelectOne(y, Holds(Column(p)));
    SelectOne(Joined(Some(x), Some(y)), HoldsRight(Column(p)));
  }

  lemma NothingRejected(p: Predicate)
    requires AlwaysTrue(p)
    ensures forall x :: Holds(Column(p))(x)
    ensures forall j: Joined<Row, Row> :: HoldsLeft(Column(p))(j) && HoldsRight(Column(p))(j)
    ensures forall x, y :: AndLeft(SameKey(), Column(p))(x, y) == SameKey()(x, y)
    ensures forall x, y :: AndRight(SameKey(), Column(p))(x, y) == SameKey()(x, y)
  {
    forall r: Option<Row>
      ensures Column(p)(r) == Some(true)
    {
      assert p(if r == None then None else r.value.val) == Some(true);
    }
    forall x: Row
      ensures Holds(Column(p))(x)
    {
      assert Column(p)(Some(x)) == Some(true);
    }
    forall j: Joined<Row, Row>
      ensures HoldsLeft(Column(p))(j) && HoldsRight(Column(p))(j)
    {
      assert Column(p)(j.left) == Some(true) && Column(p)(j.right) == Some(true);
    }
  }

  /** A WHERE conjunct moves below the left side exactly when the join preserves it, or nothing is ever rejected. */
  lemma WhereLeftExact(kind: Kind, p: Predicate)
    ensures WhereLeftMoves(kind, p) <==> kind in {Inner, LeftOuter} || AlwaysTrue(p)
  {
    if kind in {Inner, LeftOuter} || AlwaysTrue(p) {
      forall a, b
        ensures Select(Join(kind, a, b, SameKey()), HoldsLeft(Column(p))) == Join(kind, Select(a, Holds(Column(p))), b, SameKey())
      {
        if AlwaysTrue(p) {
          NothingRejected(p);
          SelectAll(a, Holds(Column(p)));
          SelectAll(Join(kind, a, b, SameKey()), HoldsLeft(Column(p)));
        } else {
          WherePushdown(kind, a, b, SameKey(), Column(p), Column(p));
        }
      }
    } else {
      var v :| p(v) != Some(true);
      RejectedLeft(kind, Row(1, 0, v), Row(2, 0, None), p);
      assert !WhereLeftMoves(kind, p);
    }
  }

  /** The same on the right side. */
  lemma WhereRightExact(kind: Kind, p: Predicate)
    ensures WhereRightMoves(kind, p) <==> kind in {Inner, RightOuter} || AlwaysTrue(p)
  {
    if kind in {Inner, RightOuter} || AlwaysTrue(p) {
      forall a, b
        ensures Select(Join(kind, a, b, SameKey()), HoldsRight(Column(p))) == Join(kind, a, Select(b, Holds(Column(p))), SameKey())
      {
        if AlwaysTrue(p) {
          NothingRejected(p);
          SelectAll(b, Holds(Column(p)));
          SelectAll(Join(kind, a, b, SameKey()), HoldsRight(Column(p)));
        } else {
          WherePushdown(kind, a, b, SameKey(), Column(p), Column(p));
        }
      }
    } else {
      var v :| p(v) != Some(true);
      RejectedRight(kind, Row(1, 0, None), Row(2, 0, v), p);
      assert !WhereRightMoves(kind, p);
    }
  }

  /** An ON conjunct moves below the left side exactly when the join may drop or NULL-extend that side's rows. */
  lemma OnLeftExact(kind: Kind, p: Predicate)
    ensures OnLeftMoves(kind, p) <==> kind in {Inner, RightOuter} || AlwaysTrue(p)
  {
    if kind in {Inner, RightOuter} || AlwaysTrue(p) {
      forall a, b
        ensures Join(kind, a, b, AndLeft(SameKey(), Column(p))) == Join(kind, Select(a, Holds(Column(p))), b, SameKey())
      {
        if AlwaysTrue(p) {
          NothingRejected(p);
          SelectAll(a, Holds(Column(p)));
          SameJoin(kind, a, b, AndLeft(SameKey(), Column(p)), SameKey());
        } else {
          OnPushdown(kind, a, b, SameKey(), Column(p), Column(p));
        }
      }
    } else {
      var v :| p(v) != Some(true);
      RejectedLeft(kind, Row(1, 0, v), Row(2, 0, None), p);
      assert !OnLeftMoves(kind, p);
    }
  }

  /** The same on the right side. */
  lemma OnRightExact(kind: Kind, p: Predicate)
    ensures OnRightMoves(kind, p) <==> kind in {Inner, LeftOuter} || AlwaysTrue(p)
  {
    if kind in {Inner, LeftOuter} || AlwaysTrue(p) {
      forall a, b
        ensures Join(kind, a, b, AndRight(SameKey(), Column(p))) == Join(kind, a, Select(b, Holds(Column(p))), SameKey())
      {
        if AlwaysTrue(p) {
          NothingRejected(p);
          SelectAll(b, Holds(Column(p)));
          SameJoin(kind, a, b, AndRight(SameKey(), Column(p)), SameKey());
        } else {
          OnPushdown(kind, a, b, SameKey(), Column(p), Column(p));
        }
      }
    } else {
      var v :| p(v) != Some(true);
      RejectedRight(kind, Row(1, 0, None), Row(2, 0, v), p);
      assert !OnRightMoves(kind, p);
    }
  }

  /** Every template of the generator moves exactly below the sides the join kind allows. */
  lemma TemplatesMove(kind: Kind, t: Template)
    ensures WhereLeftMoves(kind, Evaluator(t)) <==> kind in {Inner, LeftOuter}
    ensures WhereRightMoves(kind, Evaluator(t)) <==> kind in {Inner, RightOuter}
    ensures OnLeftMoves(kind, Evaluator(t)) <==> kind in {Inner, RightOuter}
    ensures OnRightMoves(kind, Evaluator(t)) <==> kind in {Inner, LeftOuter}
  {
    hide WhereLeftMoves;
    hide WhereRightMoves;
    hide OnLeftMoves;
    hide OnRightMoves;
    TemplatesReject(t);
    WhereLeftExact(kind, Evaluator(t));
    WhereRightExact(kind, Evaluator(t));
    OnLeftExact(kind, Evaluator(t));
    OnRightExact(kind, Evaluator(t));
  }

  // ---- The two scripts build an outer join differently ----

  lemma {:induction false} NoPairs<A, B>(x: A, b: seq<B>, on: (A, B) -> bool)
    ensures Pairs(x, b, on) == [] <==> !AnyRight(x, b, on)
  {
    if b != [] {
      NoPairs(x, b[1..], on);
    }
  }

  /** The nested LEFT join and the matched rows followed by the unmatched ones hold the same rows. */
  lemma {:induction false} LeftIsMatchedAndUnmatched<A, B>(a: seq<A>, b: seq<B>, on: (A, B) -> bool)
    ensures multiset(Left(a, b, on)) == multiset(Matched(a, b, on) + LeftOnly(a, b, on))
  {
    if a != [] {
      LeftIsMatchedAndUnmatched(a[1..], b, on);
      NoPairs(a[0], b, on);
    }
  }

  // ---- What a join holds ----

  lemma {:induction false} SelectMeans<T>(s: seq<T>, f: T -> bool, x: T)
    ensures multiset(Select(s, f))[x] == if f(x) then multiset(s)[x] else 0
  {
    if s != [] {
      SelectMeans(s[1..], f, x);
      assert s == [s[0]] + s[1..];
    }
  }

  lemma {:induction false} AnyRightMeans<A, B>(x: A, b: seq<B>, on: (A, B) -> bool)
    ensures AnyRight(x, b, on) <==> exists y <- b :: on(x, y)
  {
    if b != [] {
      AnyRightMeans(x, b[1..], on);
      assert b == [b[0]] + b[1..];
    }
  }

  lemma {:induction false} AnyLeftMeans<A, B>(a: seq<A>, y: B, on: (A, B) -> bool)
    ensures AnyLeft(a, y, on) <==> exists x <- a :: on(x, y)
  {
    if a != [] {
      AnyLeftMeans(a[1..], y, on);
      assert a == [a[0]] + a[1..];
    }
  }

  lemma {:induction false} PairsMean<A, B>(x: A, b: seq<B>, on: (A, B) -> bool, j: Joined<A, B>)
    ensures multiset(Pairs(x, b, on))[j] ==
      if j.left == Some(x) && j.right.Some? && on(x, j.right.value) then multiset(b)[j.right.value] else 0
  {
    if b != [] {
      PairsMean(x, b[1..], on, j);
      assert b == [b[0]] + b[1..];
    }
  }

  lemma {:induction false} MatchedMeans<A, B>(a: seq<A>, b: seq<B>, on: (A, B) -> bool, j: Joined<A, B>)
    ensures multiset(Matched(a, b, on))[j] ==
      if j.left.Some? && j.right.Some? && on(j.left.value, j.right.value)
      then multiset(a)[j.left.value] * multiset(b)[j.right.value] else 0
  {
    hide Matched;
    hide Pairs;
    if a == [] {
      MatchedNothing(b, on);
    } else {
      var x, rest := a[0], a[1..];
      MatchedMeans(rest, b, on, j);
      PairsMean(x, b, on, j);
      MatchedHead(x, rest, b, on);
      assert a == [x] + rest;
      if j.left.Some? && j.right.Some? && on(j.left.value, j.right.value) {
        HeadCount(x, rest, j.left.value);
        OneMore(multiset(rest)[j.left.value], multiset(b)[j.right.value]);
      }
    }
  }

  lemma MatchedNothing<A, B>(b: seq<B>, on: (A, B) -> bool)
    ensures Matched([], b, on) == []
  {
  }

  lemma {:induction false} HeadCount<T>(x: T, rest: seq<T>, v: T)
    ensures multiset([x] + rest)[v] == multiset(rest)[v] + if x == v then 1 else 0
  {
  }

  lemma {:induction false} MatchedHead<A, B>(x: A, rest: seq<A>, b: seq<B>, on: (A, B) -> bool)
    ensures multiset(Matched([x] + rest, b, on)) == multiset(Pairs(x, b, on)) + multiset(Matched(rest, b, on))
  {
    assert ([x] + rest)[1..] == rest;
  }

  lemma OneMore(m: nat, n: nat)
    ensures (m + 1) * n == m * n + n
  {
  }

  lemma {:induction false} LeftOnlyMeans<A, B>(a: seq<A>, b: seq<B>, on: (A, B) -> bool, j: Joined<A, B>)
    ensures multiset(LeftOnly(a, b, on))[j] ==
      if j.left.Some? && j.right.None? && !AnyRight(j.left.value, b, on) then multiset(a)[j.left.value] else 0
  {
    if a != [] {
      LeftOnlyMeans(a[1..], b, on, j);
      assert a == [a[0]] + a[1..];
    }
  }

  lemma {:induction false} RightOnlyMeans<A, B>(a: seq<A>, b: seq<B>, on: (A, B) -> bool, j: Joined<A, B>)
    ensures multiset(RightOnly(a, b, on))[j] ==
      if j.left.None? && j.right.Some? && !AnyLeft(a, j.right.value, on) then multiset(b)[j.right.value] else 0
  {
    if b != [] {
      RightOnlyMeans(a, b[1..], on, j);
      assert b == [b[0]] + b[1..];
    }
  }

  /**
   * How often each kind of join holds a row: a pair that meets the ON condition as often as its sides
   * together, and a row without any partner NULL-extended as often as it occurs, if its side is preserved.
   */
  ghost function Multiplicity<A, B>(kind: Kind, a: seq<A>, b: seq<B>, on: (A, B) -> bool, j: Joined<A, B>): nat {
    match j
    case Joined(Some(x), Some(y)) => if on(x, y) then multiset(a)[x] * multiset(b)[y] else 0
    case Joined(Some(x), None) => if kind in {LeftOuter, FullOuter} && forall y <- b :: !on(x, y) then multiset(a)[x] else 0
    case Joined(None, Some(y)) => if kind in {RightOuter, FullOuter} && forall x <- a :: !on(x, y) then multiset(b)[y] else 0
    case Joined(None, None) => 0
  }

  /** Every reference join holds exactly those rows. */
  lemma {:induction false} JoinMeans<A, B>(kind: Kind, a: seq<A>, b: seq<B>, on: (A, B) -> bool, j: Joined<A, B>)
    ensures multiset(Join(kind, a, b, on))[j] == Multiplicity(kind, a, b, on, j)
  {
    hide Matched;
    hide LeftOnly;
    hide RightOnly;
    hide AnyLeft;
    hide AnyRight;
    JoinCounts(kind, a, b, on, j);
    hide Join;
    MatchedMeans(a, b, on, j);
    LeftOnlyMeans(a, b, on, j);
    RightOnlyMeans(a, b, on, j);
    if j.left.Some? {
      AnyRightMeans(j.left.value, b, on);
    }
    if j.right.Some? {
      AnyLeftMeans(a, j.right.value, on);
    }
  }

  lemma {:induction false} JoinCounts<A, B>(kind: Kind, a: seq<A>, b: seq<B>, on: (A, B) -> bool, j: Joined<A, B>)
    ensures multiset(Join(kind, a, b, on))[j] == multiset(Matched(a, b, on))[j]
      + (if kind in {LeftOuter, FullOuter} then multiset(LeftOnly(a, b, on))[j] else 0)
      + (if kind in {RightOuter, FullOuter} then multiset(RightOnly(a, b, on))[j] else 0)
  {
    hide Matched;
    hide LeftOnly;
    hide RightOnly;
    hide Left;
    LeftIsMatchedAndUnmatched(a, b, on);
  }
}
