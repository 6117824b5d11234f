/**
 * The reference model of jsonb containment, and the promise that lets an inverted index over a
 * document's terms gather the candidates of a containment query.
 */
module Jsonb {
  import opened Bytes

  datatype Json =
    | Null
    | Bool(b: bool)
    | Num(n: int)
    | Str(s: string)
    | Arr(elems: seq<Json>)
    | Obj(fields: map<string, Json>)

  predicate Container(v: Json) {
    v.Arr? || v.Obj?
  }

  predicate SameKind(a: Json, b: Json) {
    a.Arr? == b.Arr? && a.Obj? == b.Obj?
  }

  /** Some element of the array matches `e`: containers by containment within the same kind, scalars by equality. */
  predicate HasElement(xs: seq<Json>, e: Json)
    decreases e, 1
  {
    if Container(e) then
      exists i :: 0 <= i < |xs| && SameKind(xs[i], e) && Deep(xs[i], e)
    else
      exists i :: 0 <= i < |xs| && xs[i] == e
  }

  /** Containment below the top level. */
  predicate Deep(a: Json, b: Json)
    decreases b, 0
  {
    match b
    case Obj(fields) => a.Obj? && forall k <- fields :: k in a.fields && Deep(a.fields[k], fields[k])
    case Arr(elems) => a.Arr? && forall j :: 0 <= j < |elems| ==> HasElement(a.elems, elems[j])
    case _ => a == b
  }

  /** Containment: only a top-level array also contains a bare scalar. */
  predicate Contains(a: Json, b: Json) {
    if a.Arr? && !Container(b) then HasElement(a.elems, b) else Deep(a, b)
  }

  // ---- A preorder ----

  lemma {:induction false} DeepReflexive(a: Json)
    ensures Deep(a, a)
  {
    match a
    case Obj(fields) =>
      forall k <- fields
        ensures Deep(fields[k], fields[k])
      {
        DeepReflexive(fields[k]);
      }
    case Arr(elems) =>
      forall j | 0 <= j < |elems|
        ensures HasElement(elems, elems[j])
      {
        DeepReflexive(elems[j]);
        assert SameKind(elems[j], elems[j]);
      }
    case _ =>
  }

  /** An element of a contained array is matched by the containing one. */
  lemma {:induction false} ElementTransitive(xs: seq<Json>, ys: seq<Json>, e: Json)
    requires forall j :: 0 <= j < |ys| ==> HasElement(xs, ys[j])
    requires HasElement(ys, e)
    ensures HasElement(xs, e)
    decreases e, 1
  {
    if Container(e) {
      var j :| 0 <= j < |ys| && SameKind(ys[j], e) && Deep(ys[j], e);
      assert HasElement(xs, ys[j]);
      var i :| 0 <= i < |xs| && SameKind(xs[i], ys[j]) && Deep(xs[i], ys[j]);
      DeepTransitive(xs[i], ys[j], e);
    } else {
      var j :| 0 <= j < |ys| && ys[j] == e;
      assert HasElement(xs, ys[j]);
    }
  }

  lemma {:induction false} DeepTransitive(a: Json, b: Json, c: Json)
    requires Deep(a, b) && Deep(b, c)
    ensures Deep(a, c)
    decreases c, 0
  {
    match c
    case Obj(fields) =>
      forall k <- fields
        ensures k in a.fields && Deep(a.fields[k], fields[k])
      {
        DeepTransitive(a.fields[k], b.fields[k], fields[k]);
      }
    case Arr(elems) =>
      forall j | 0 <= j < |elems|
        ensures HasElement(a.elems, elems[j])
      {
        ElementTransitive(a.elems, b.elems, elems[j]);
      }
    case _ =>
  }

  /** Every value contains itself. */
  lemma ContainsReflexive(a: Json)
    ensures Contains(a, a)
  {
    DeepReflexive(a);
  }

  /** Containment chains, the top-level scalar rule included. */
  lemma ContainsTransitive(a: Json, b: Json, c: Json)
    requires Contains(a, b) && Contains(b, c)
    ensures Contains(a, c)
  {
    if a.Arr? && !Container(b) {
      assert b == c;
    } else if b.Arr? && !Container(c) {
      ElementTransitive(a.elems, b.elems, c);
    } else {
      DeepTransitive(a, b, c);
    }
  }

  /** It is not an order: repeated elements do not count. */
  lemma ContainsNotAntisymmetric()
    ensures var a, b := Arr([Num(1), Num(1)]), Arr([Num(1)]);
      Contains(a, b) && Contains(b, a) && a != b
  {
    var a, b := Arr([Num(1), Num(1)]), Arr([Num(1)]);
    assert a.elems[0] == Num(1) && b.elems[0] == Num(1);
  }

  /** The scalar rule is the only difference between the top level and below it. */
  lemma TopLevelRule(a: Json, b: Json)
    ensures Contains(a, b) <==> Deep(a, b) || (a.Arr? && !Container(b) && b in a.elems)
  {
  }

  // ---- What is contained ----

  /** An object contains exactly the objects each of whose members it has with a contained value. */
  lemma ObjectContains(m: map<string, Json>, b: Json)
    ensures Contains(Obj(m), b) <==> b.Obj? && forall k <- b.fields :: k in m && Deep(m[k], b.fields[k])
  {
  }

  /**
   * An array contains exactly the arrays each of whose elements it matches, a container by an element of
   * its kind that contains it and a scalar by an equal one, and the bare scalars among its elements.
   */
  lemma ArrayContains(xs: seq<Json>, b: Json)
    ensures b.Arr? ==> (Contains(Arr(xs), b) <==>
      forall e <- b.elems :: e in xs || (Container(e) && exists x <- xs :: x.Arr? == e.Arr? && x.Obj? == e.Obj? && Deep(x, e)))
    ensures !b.Arr? ==> (Contains(Arr(xs), b) <==> !b.Obj? && b in xs)
  {
    if b.Arr? {
      forall e <- b.elems
        ensures HasElement(xs, e) <==>
          (e in xs || (Container(e) && exists x <- xs :: x.Arr? == e.Arr? && x.Obj? == e.Obj? && Deep(x, e)))
      {
        ElementMeans(xs, e);
      }
      assert (forall e <- b.elems :: HasElement(xs, e)) ==> forall j :: 0 <= j < |b.elems| ==> b.elems[j] in b.elems && HasElement(xs, b.elems[j]);
      assert Deep(Arr(xs), b) <==> forall e <- b.elems :: HasElement(xs, e);
    }
  }

  lemma ElementMeans(xs: seq<Json>, e: Json)
    ensures HasElement(xs, e) <==>
      (e in xs || (Container(e) && exists x <- xs :: x.Arr? == e.Arr? && x.Obj? == e.Obj? && Deep(x, e)))
  {
    if e in xs {
      var i :| 0 <= i < |xs| && xs[i] == e;
      DeepReflexive(e);
      assert SameKind(xs[i], e) && Deep(xs[i], e);
    }
    if x :| x in xs && Container(e) && x.Arr? == e.Arr? && x.Obj? == e.Obj? && Deep(x, e) {
      var i :| 0 <= i < |xs| && xs[i] == x;
      assert SameKind(xs[i], e);
    }
  }

  /** A scalar contains only itself. */
  lemma ScalarContains(a: Json, b: Json)
    requires !Container(a)
    ensures Contains(a, b) <==> a == b
  {
  }

  // ---- Growing a document ----

  datatype Step = Member(k: string) | Element(i: nat)

  /** The value at a path. */
  function At(doc: Json, path: seq<Step>): Option<Json>
    decreases |path|
  {
    if path == [] then Some(doc) else
    match path[0]
    case Member(k) => if doc.Obj? && k in doc.fields then At(doc.fields[k], path[1..]) else None
    case Element(i) => if doc.Arr? && i < |doc.elems| then At(doc.elems[i], path[1..]) else None
  }

  /** The document with the value at a path replaced. */
  function Replaced(doc: Json, path: seq<Step>, v: Json): Json
    requires At(doc, path).Some?
    decreases |path|
  {
    if path == [] then v else
    match path[0]
    case Member(k) => Obj(doc.fields[k := Replaced(doc.fields[k], path[1..], v)])
    case Element(i) => Arr(doc.elems[i := Replaced(doc.elems[i], path[1..], v)])
  }

  lemma {:induction false} ReplacedContains(doc: Json, path: seq<Step>, v: Json)
    requires At(doc, path).Some? && Deep(v, At(doc, path).value)
    ensures Deep(Replaced(doc, path, v), doc)
    decreases |path|
  {
    if path != [] {
      match path[0]
      case Member(k) =>
        ReplacedContains(doc.fields[k], path[1..], v);
        var grown := Replaced(doc.fields[k], path[1..], v);
        var fields := doc.fields[k := grown];
        forall n <- doc.fields
          ensures n in fields && Deep(fields[n], doc.fields[n])
        {
          DeepReflexive(doc.fields[n]);
        }
        assert Replaced(doc, path, v) == Obj(fields);
      case Element(i) =>
        ReplacedContains(doc.elems[i], path[1..], v);
        var grown := Replaced(doc.elems[i], path[1..], v);
        var elems := doc.elems[i := grown];
        forall j | 0 <= j < |doc.elems|
          ensures HasElement(elems, doc.elems[j])
        {
          DeepReflexive(doc.elems[j]);
          DeepSameKind(grown, doc.elems[i]);
          assert elems[j] == if j == i then grown else doc.elems[j];
          assert SameKind(elems[j], doc.elems[j]) && Deep(elems[j], doc.elems[j]);
        }
    }
  }

  lemma DeepSameKind(a: Json, b: Json)
    requires Deep(a, b)
    ensures SameKind(a, b) && (!Container(b) ==> a == b)
  {
  }

  lemma DeepContains(a: Json, b: Json)
    requires Deep(a, b)
    ensures Contains(a, b)
  {
  }

  /** Adding a member to any object of a document, at any depth, keeps what the document contains. */
  lemma AddingMemberKeeps(doc: Json, path: seq<Step>, k: string, v: Json, b: Json)
    requires Contains(doc, b)
    requires At(doc, path).Some? && At(doc, path).value.Obj? && k !in At(doc, path).value.fields
    ensures Contains(Replaced(doc, path, Obj(At(doc, path).value.fields[k := v])), b)
  {
    var fields := At(doc, path).value.fields;
    var grown := Obj(fields[k := v]);
    forall n <- fields
      ensures Deep(grown.fields[n], fields[n])
    {
      DeepReflexive(fields[n]);
    }
    ReplacedContains(doc, path, grown);
    DeepContains(Replaced(doc, path, grown), doc);
    ContainsTransitive(Replaced(doc, path, grown), doc, b);
  }

  /** Adding an element anywhere in any array of a document, at any depth, keeps what the document contains. */
  lemma AddingElementKeeps(doc: Json, path: seq<Step>, i: nat, v: Json, b: Json)
    requires Contains(doc, b)
    requires At(doc, path).Some? && At(doc, path).value.Arr? && i <= |At(doc, path).value.elems|
    ensures var xs := At(doc, path).value.elems; Contains(Replaced(doc, path, Arr(xs[..i] + [v] + xs[i..])), b)
  {
    var xs := At(doc, path).value.elems;
    var more := xs[..i] + [v] + xs[i..];
    forall j | 0 <= j < |xs|
      ensures HasElement(more, xs[j])
    {
      assert more[if j < i then j else j + 1] == xs[j];
      ElementMeans(more, xs[j]);
    }
    ReplacedContains(doc, path, Arr(more));
    DeepContains(Replaced(doc, path, Arr(more)), doc);
    ContainsTransitive(Replaced(doc, path, Arr(more)), doc, b);
  }

  // ---- Index terms ----

  datatype Term = Key(k: string) | Value(v: Json)

  /** The term of a scalar that is an array element or a whole document. */
  function ElementTerm(v: Json): Term {
    if v.Str? then Key(v.s) else Value(v)
  }

  /** `t` is a term of the value `v`; `member` says that `v` is an object member's value. */
  predicate HasTerm(v: Json, t: Term, member: bool)
    decreases v
  {
    match v
    case Obj(fields) => exists k <- fields :: t == Key(k) || HasTerm(fields[k], t, true)
    case Arr(elems) => exists i :: 0 <= i < |elems| && HasTerm(elems[i], t, false)
    case _ => t == if member then Value(v) else ElementTerm(v)
  }

  /** The value at the path is an object with the key, or a scalar with the term its last step gives it. */
  ghost predicate Carries(doc: Json, path: seq<Step>, t: Term, member: bool) {
    match At(doc, path)
    case None => false
    case Some(v) =>
      if Container(v) then v.Obj? && t.Key? && t.k in v.fields
      else t == if (if path == [] then member else path[|path| - 1].Member?) then Value(v) else ElementTerm(v)
  }

  lemma {:induction false} CarriedBelow(doc: Json, step: Step, rest: seq<Step>, t: Term, member: bool)
    requires At(doc, [step]).Some?
    ensures Carries(doc, [step] + rest, t, member) == Carries(At(doc, [step]).value, rest, t, step.Member?)
  {
    assert ([step] + rest)[1..] == rest && [step][1..] == [];
  }

  lemma {:induction false} TermFromPath(doc: Json, path: seq<Step>, t: Term, member: bool)
    requires Carries(doc, path, t, member)
    ensures HasTerm(doc, t, member)
    decreases |path|
  {
    if path != [] {
      var step, rest := path[0], path[1..];
      assert path == [step] + rest && [step][1..] == [];
      CarriedBelow(doc, step, rest, t, member);
      TermFromPath(At(doc, [step]).value, rest, t, step.Member?);
      match step
      case Member(k) => assert doc.fields[k] == At(doc, [step]).value;
      case Element(i) => assert doc.elems[i] == At(doc, [step]).value;
    }
  }

  lemma {:induction false} PathFromTerm(doc: Json, t: Term, member: bool) returns (path: seq<Step>)
    requires HasTerm(doc, t, member)
    ensures Carries(doc, path, t, member)
    decreases doc
  {
    path := [];
    match doc
    case Obj(fields) =>
      var k :| k in fields && (t == Key(k) || HasTerm(fields[k], t, true));
      if t != Key(k) {
        var rest := PathFromTerm(fields[k], t, true);
        path := [Member(k)] + rest;
        assert [Member(k)][1..] == [];
        CarriedBelow(doc, Member(k), rest, t, member);
      }
    case Arr(elems) =>
      var i :| 0 <= i < |elems| && HasTerm(elems[i], t, false);
      var rest := PathFromTerm(elems[i], t, false);
      path := [Element(i)] + rest;
      assert [Element(i)][1..] == [];
      CarriedBelow(doc, Element(i), rest, t, member);
    case _ =>
  }

  /**
   * The terms of a document: a key term for every member's key and for every string that is an array
   * element or the whole document, and a value term for every other scalar, at every depth.
   */
  lemma TermsArePaths(doc: Json, t: Term)
    ensures HasTerm(doc, t, false) <==> exists path :: Carries(doc, path, t, false)
  {
    if HasTerm(doc, t, false) {
      var path := PathFromTerm(doc, t, false);
    }
    if path :| Carries(doc, path, t, false) {
      TermFromPath(doc, path, t, false);
    }
  }

  lemma {:induction false} DeepTerms(a: Json, b: Json, t: Term, member: bool)
    requires Deep(a, b) && HasTerm(b, t, member)
    ensures HasTerm(a, t, member)
    decreases b
  {
    match b
    case Obj(fields) =>
      var k :| k in fields && (t == Key(k) || HasTerm(fields[k], t, true));
      assert k in a.fields;
      if t != Key(k) {
        DeepTerms(a.fields[k], fields[k], t, true);
      }
    case Arr(elems) =>
      var j :| 0 <= j < |elems| && HasTerm(elems[j], t, false);
      assert HasElement(a.elems, elems[j]);
      if Container(elems[j]) {
        var i :| 0 <= i < |a.elems| && SameKind(a.elems[i], elems[j]) && Deep(a.elems[i], elems[j]);
        DeepTerms(a.elems[i], elems[j], t, false);
      } else {
        var i :| 0 <= i < |a.elems| && a.elems[i] == elems[j];
        assert HasTerm(a.elems[i], t, false);
      }
    case _ =>
  }

  /** Every term of a contained value is a term of the document: the index never misses a match. */
  lemma GatherIsSuperset(doc: Json, query: Json, t: Term)
    requires Contains(doc, query) && HasTerm(query, t, false)
    ensures HasTerm(doc, t, false)
  {
    if doc.Arr? && !Container(query) {
      var i :| 0 <= i < |doc.elems| && doc.elems[i] == query;
      assert HasTerm(doc.elems[i], t, false);
    } else {
      DeepTerms(doc, query, t, false);
    }
  }

  /** The gather is lossy: all terms present does not mean contained. */
  lemma GatherIsLossy()
    ensures var doc, query := Arr([Obj(map["a" := Num(1)])]), Obj(map["a" := Num(1)]);
      !Contains(doc, query) && forall t :: HasTerm(query, t, false) ==> HasTerm(doc, t, false)
  {
    var doc, query := Arr([Obj(map["a" := Num(1)])]), Obj(map["a" := Num(1)]);
    forall t | HasTerm(query, t, false)
      ensures HasTerm(doc, t, false)
    {
      assert doc.elems[0] == query;
    }
  }

  // ---- Key existence ----

  predicate HasKey(doc: Json, k: string) {
    match doc
    case Obj(fields) => k in fields
    case Arr(elems) => Str(k) in elems
    case Str(s) => s == k
    case _ => false
  }

  /** The key of an object is in an object it contains, that of anything else is a string it contains. */
  lemma KeyIsContainment(doc: Json, k: string)
    ensures HasKey(doc, k) <==> if doc.Obj? then exists v :: Contains(doc, Obj(map[k := v])) else Contains(doc, Str(k))
  {
    if doc.Obj? {
      if k in doc.fields {
        DeepReflexive(doc.fields[k]);
        assert Contains(doc, Obj(map[k := doc.fields[k]]));
      }
      forall v | Contains(doc, Obj(map[k := v]))
        ensures k in doc.fields
      {
        assert k in map[k := v];
      }
    } else if doc.Arr? {
      ArrayContains(doc.elems, Str(k));
    }
  }

  /** A document with the key carries its key term. */
  lemma KeyHasTerm(doc: Json, k: string)
    requires HasKey(doc, k)
    ensures HasTerm(doc, Key(k), false)
  {
    if doc.Arr? {
      var i :| 0 <= i < |doc.elems| && doc.elems[i] == Str(k);
      assert HasTerm(doc.elems[i], Key(k), false);
    }
  }

  /** Containment keeps key existence. */
  lemma KeysKept(a: Json, b: Json, k: string)
    requires Contains(a, b) && HasKey(b, k)
    ensures HasKey(a, k)
  {
    if b.Arr? {
      var j :| 0 <= j < |b.elems| && b.elems[j] == Str(k);
      assert HasElement(a.elems, b.elems[j]);
    }
  }
}
