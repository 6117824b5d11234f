/** Finite runs of a state machine. */
module Runs {

  /** Each state follows from the one before by one step. */
  ghost predicate Linked<S(!new)>(run: seq<S>, step: (S, S) -> bool) {
    |run| > 0 && forall i :: 0 <= i < |run| - 1 ==> step(run[i], run[i + 1])
  }

  ghost function Last<S>(run: seq<S>): S
    requires |run| > 0
  {
    run[|run| - 1]
  }

  lemma Extend<S(!new)>(run: seq<S>, s: S, step: (S, S) -> bool)
    requires Linked(run, step) && step(Last(run), s)
    ensures Linked(run + [s], step) && Last(run + [s]) == s && (run + [s])[0] == run[0]
  {
  }

  /** Two stretches that meet in a state form one. */
  lemma Join<S(!new)>(a: seq<S>, b: seq<S>, step: (S, S) -> bool)
    requires Linked(a, step) && Linked(b, step) && b[0] == Last(a)
    ensures Linked(a + b[1..], step) && Last(a + b[1..]) == Last(b) && (a + b[1..])[0] == a[0]
  {
    var whole := a + b[1..];
    forall i | 0 <= i < |whole| - 1
      ensures step(whole[i], whole[i + 1])
    {
      if i >= |a| - 1 {
        assert whole[i] == b[i - (|a| - 1)];
        assert step(b[i - (|a| - 1)], b[i - (|a| - 1) + 1]);
      }
    }
  }
}
