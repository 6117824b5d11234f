/** Three-valued predicates as the query generator evaluates them: `None` is UNKNOWN, or a NULL operand. */
module Kleene {
  import opened Bytes

  type Truth = Option<bool>

  /** A predicate over one nullable column. */
  type Predicate = Option<int> -> Truth

  function And(p: Truth, q: Truth): Truth {
    if p == Some(false) || q == Some(false) then Some(false) else
    if p == None || q == None then None else Some(true)
  }

  lemma AndTrue(p: Truth, q: Truth)
    ensures And(p, q) == Some(true) <==> p == Some(true) && q == Some(true)
  {
    if p.Some? && q.Some? {
      if p.value && q.value {
        assert And(p, q) == Some(true);
      } else if p.value {
        assert q == Some(false);
      } else {
        assert p == Some(false);
      }
    }
  }

  function Or(p: Truth, q: Truth): Truth {
    if p == Some(true) || q == Some(true) then Some(true) else
    if p == None || q == None then None else Some(false)
  }

  function Not(p: Truth): Truth {
    if p == None then None else Some(!p.value)
  }

  /** False is below unknown, and unknown below true. */
  function Rank(p: Truth): nat {
    match p
    case Some(b) => if b then 2 else 0
    case None => 1
  }

  lemma OneOfThree(p: Truth)
    ensures p == None || p == Some(true) || p == Some(false)
  {
    if p.Some? {
      if p.value {
        assert p == Some(true);
      } else {
        assert p == Some(false);
      }
    }
  }

  /** AND is the least and OR the greatest in that order, and NOT turns it round. */
  lemma OrderLaws(p: Truth, q: Truth)
    ensures Rank(And(p, q)) == if Rank(p) <= Rank(q) then Rank(p) else Rank(q)
    ensures Rank(Or(p, q)) == if Rank(p) <= Rank(q) then Rank(q) else Rank(p)
    ensures Rank(Not(p)) == 2 - Rank(p)
    ensures Rank(p) == Rank(q) ==> p == q
  {
    OneOfThree(p);
    OneOfThree(q);
  }

  lemma DeMorgan(p: Truth, q: Truth)
    ensures Not(And(p, q)) == Or(Not(p), Not(q)) && Not(Or(p, q)) == And(Not(p), Not(q))
  {
    OrderLaws(p, q);
    OrderLaws(Not(p), Not(q));
    OrderLaws(And(p, q), Or(p, q));
    OrderLaws(Not(And(p, q)), Or(Not(p), Not(q)));
    OrderLaws(Not(Or(p, q)), And(Not(p), Not(q)));
  }

  function IsNull(x: Option<int>): Truth {
    Some(x == None)
  }

  function Less(x: Option<int>, k: int): Truth {
    if x == None then None else Some(x.value < k)
  }

  function Equal(x: Option<int>, y: Option<int>): Truth {
    if x == None || y == None then None else Some(x.value == y.value)
  }

  /** The generator's single-column predicate templates. */
  datatype Template =
    | Above(k: int) | AtMost(k: int) | Null | NotNull | EqualOrNull(k: int) | NotEqual(k: int)
    | Distinct(k: int) | NotDistinct(k: int) | Between(lo: int, hi: int) | OneOf(k1: int, k2: int)

  /** The evaluator each template carries. */
  function Eval(t: Template, x: Option<int>): Truth {
    match t
    case Above(k) => if x == None then None else Some(x.value > k)
    case AtMost(k) => if x == None then None else Some(x.value <= k)
    case Null => Some(x == None)
    case NotNull => Some(x != None)
    case EqualOrNull(k) => Some(x == None || x.value == k)
    case NotEqual(k) => if x == None then None else Some(x.value != k)
    case Distinct(k) => Some(x == None || x.value != k)
    case NotDistinct(k) => Some(x == Some(k))
    case Between(lo, hi) => if x == None then None else Some(lo <= x.value <= hi)
    case OneOf(k1, k2) => if x == None then None else Some(x.value == k1 || x.value == k2)
  }

  /** What the SQL text beside each evaluator means in Kleene's logic. */
  function Meaning(t: Template, x: Option<int>): Truth {
    match t
    case Above(k) => Not(Or(Less(x, k), Equal(x, Some(k))))
    case AtMost(k) => Or(Less(x, k), Equal(x, Some(k)))
    case Null => IsNull(x)
    case NotNull => Not(IsNull(x))
    case EqualOrNull(k) => Or(Equal(x, Some(k)), IsNull(x))
    case NotEqual(k) => Not(Equal(x, Some(k)))
    case Distinct(k) => Or(IsNull(x), Not(Equal(x, Some(k))))
    case NotDistinct(k) => And(Not(IsNull(x)), Equal(x, Some(k)))
    case Between(lo, hi) => And(Not(Less(x, lo)), Or(Less(x, hi), Equal(x, Some(hi))))
    case OneOf(k1, k2) => Or(Equal(x, Some(k1)), Equal(x, Some(k2)))
  }

  lemma EvaluatorsAreKleene(t: Template, x: Option<int>)
    ensures Eval(t, x) == Meaning(t, x)
  {
    match t
    case _ =>
  }

  ghost predicate AlwaysTrue(p: Predicate) {
    forall x :: p(x) == Some(true)
  }

  function Evaluator(t: Template): Predicate {
    (x: Option<int>) => Eval(t, x)
  }

  /** Every template rejects something. */
  lemma TemplatesReject(t: Template)
    ensures !AlwaysTrue(Evaluator(t))
  {
    var x := match t
      case Above(k) => Some(k)
      case AtMost(k) => Some(k + 1)
      case Null => Some(0)
      case NotNull => None
      case EqualOrNull(k) => Some(k + 1)
      case NotEqual(k) => Some(k)
      case Distinct(k) => Some(k)
      case NotDistinct(k) => None
      case Between(lo, hi) => None
      case OneOf(k1, k2) => None;
    assert Evaluator(t)(x) != Some(true);
  }
}
