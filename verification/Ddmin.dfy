/** The two delta-debugging minimisers: both return a failing, 1-minimal, order-preserving sublist. */
module Ddmin {
  /** `a` is `b` with some elements left out. */
  ghost predicate Sublist<T>(a: seq<T>, b: seq<T>) {
    |a| == 0 || (|b| > 0 && ((a[0] == b[0] && Sublist(a[1..], b[1..])) || Sublist(a, b[1..])))
  }

  lemma {:induction false} SublistRefl<T>(a: seq<T>)
    ensures Sublist(a, a)
  {
    if |a| > 0 {
      SublistRefl(a[1..]);
    }
  }

  lemma {:induction false} SublistTransitive<T>(a: seq<T>, b: seq<T>, c: seq<T>)
    requires Sublist(a, b) && Sublist(b, c)
    ensures Sublist(a, c)
    decreases |b| + |c|
  {
    if |a| > 0 {
      if b[0] == c[0] && Sublist(b[1..], c[1..]) {
        if a[0] == b[0] && Sublist(a[1..], b[1..]) {
          SublistTransitive(a[1..], b[1..], c[1..]);
        } else {
          SublistTransitive(a, b[1..], c[1..]);
        }
      } else {
        SublistTransitive(a, b, c[1..]);
      }
    }
  }

  lemma {:induction false} SublistSkip<T>(a: seq<T>, prefix: seq<T>, b: seq<T>)
    requires Sublist(a, b)
    ensures Sublist(a, prefix + b)
  {
    if |prefix| == 0 {
      assert prefix + b == b;
    } else {
      SublistSkip(a, prefix[1..], b);
      assert (prefix + b)[1..] == prefix[1..] + b;
    }
  }

  /** Leaving out a stretch keeps a sublist. */
  lemma {:induction false} SublistWithout<T>(c: seq<T>, lo: nat, hi: nat)
    requires lo <= hi <= |c|
    ensures Sublist(c[..lo] + c[hi..], c)
    decreases lo
  {
    if lo == 0 {
      SublistRefl(c[hi..]);
      SublistSkip(c[hi..], c[..hi], c[hi..]);
      assert c[..0] + c[hi..] == c[hi..] && c[..hi] + c[hi..] == c;
    } else {
      SublistWithout(c[1..], lo - 1, hi - 1);
      assert (c[..lo] + c[hi..])[1..] == c[1..][..lo - 1] + c[1..][hi - 1..];
    }
  }

  lemma {:induction false} SublistSlice<T>(c: seq<T>, lo: nat, hi: nat)
    requires lo <= hi <= |c|
    ensures Sublist(c[lo..hi], c)
  {
    SublistWithout(c, hi, |c|);
    assert c[..hi] + c[|c|..] == c[..hi];
    SublistWithout(c[..hi], 0, lo);
    assert c[..hi][..0] + c[..hi][lo..] == c[lo..hi];
    SublistTransitive(c[lo..hi], c[..hi], c);
  }

  /** Ruby's array difference: drop every element that occurs in `s`. */
  function Minus<T(==)>(c: seq<T>, s: seq<T>): (r: seq<T>)
    ensures |r| <= |c|
    ensures (exists x :: x in c && x in s) ==> |r| < |c|
  {
    if |c| == 0 then [] else if c[0] in s then Minus(c[1..], s) else [c[0]] + Minus(c[1..], s)
  }

  lemma {:induction false} MinusSublist<T>(c: seq<T>, s: seq<T>)
    ensures Sublist(Minus(c, s), c)
  {
    if |c| > 0 {
      MinusSublist(c[1..], s);
    }
  }

  lemma {:induction false} MinusNothing<T>(c: seq<T>, s: seq<T>)
    requires forall x :: x in c ==> x !in s
    ensures Minus(c, s) == c
  {
    if |c| > 0 {
      MinusNothing(c[1..], s);
    }
  }

  /** Among distinct elements the difference with one of them removes just its position. */
  lemma {:induction false} MinusOne<T>(c: seq<T>, i: nat)
    requires i < |c| && forall j, k :: 0 <= j < k < |c| ==> c[j] != c[k]
    ensures Minus(c, [c[i]]) == c[..i] + c[i + 1..]
  {
    if i == 0 {
      MinusNothing(c[1..], [c[0]]);
    } else {
      MinusOne(c[1..], i - 1);
      assert c[..i] + c[i + 1..] == [c[0]] + (c[1..][..i - 1] + c[1..][i..]);
    }
  }

  function CeilDiv(a: nat, n: nat): nat
    requires n > 0
  {
    (a + n - 1) / n
  }

  lemma Product(x: nat, y: nat, z: nat)
    requires x <= y
    ensures z * x <= z * y
  {
  }

  lemma QuotientBounds(x: nat, n: nat, k: nat)
    requires n > 0 && k == x / n
    ensures n * k <= x < n * k + n
  {
  }

  /** `(size.to_f / n).ceil`: at least one element, fewer than all, and one exactly when `n` covers the list. */
  lemma ChunkSize(a: nat, n: nat)
    requires a >= 2 && n >= 2
    ensures 1 <= CeilDiv(a, n) < a
    ensures n >= a ==> CeilDiv(a, n) == 1
  {
    var k := CeilDiv(a, n);
    QuotientBounds(a + n - 1, n, k);
    hide CeilDiv;
    Product(2, n, a - 2);
    assert n * a == 2 * n + (a - 2) * n;
    if k >= a {
      Product(a, k, n);
      assert false;
    }
    if k >= 2 {
      Product(2, k, n);
    }
  }

  /** `each_slice`. */
  function Slices<T>(c: seq<T>, size: nat): (r: seq<seq<T>>)
    requires size > 0
    ensures |c| > 0 ==> |r| > 0
  {
    if |c| == 0 then [] else if |c| <= size then [c] else [c[..size]] + Slices(c[size..], size)
  }

  /** The i-th slice is a stretch of at most `size` elements. */
  lemma {:induction false} SliceAt<T>(c: seq<T>, size: nat, i: nat) returns (lo: nat, hi: nat)
    requires size > 0 && i < |Slices(c, size)|
    ensures lo < hi <= |c| && hi <= lo + size && Slices(c, size)[i] == c[lo..hi]
    decreases i
  {
    if i == 0 {
      lo, hi := 0, if |c| <= size then |c| else size;
      assert c[0..|c|] == c;
    } else {
      lo, hi := SliceAt(c[size..], size, i - 1);
      assert c[size..][lo..hi] == c[lo + size..hi + size];
      lo, hi := lo + size, hi + size;
    }
  }

  lemma {:induction false} SingletonSlices<T>(c: seq<T>)
    ensures |Slices(c, 1)| == |c|
    ensures forall i :: 0 <= i < |c| ==> Slices(c, 1)[i] == [c[i]]
  {
    if |c| > 1 {
      SingletonSlices(c[1..]);
      forall i | 0 <= i < |c| ensures Slices(c, 1)[i] == [c[i]] {
        if i > 0 {
          assert Slices(c, 1)[i] == Slices(c[1..], 1)[i - 1];
        }
      }
    }
  }

  lemma {:induction false} SliceBounds<T>(c: seq<T>, size: nat, i: nat)
    requires 0 < size < |c| && i < |Slices(c, size)|
    ensures 0 < |Slices(c, size)[i]| < |c| && Sublist(Slices(c, size)[i], c)
    ensures forall x :: x in Slices(c, size)[i] ==> x in c
  {
    var lo, hi := SliceAt(c, size, i);
    SublistSlice(c, lo, hi);
  }

  /** No element can be dropped (by value, as the source does) without losing the failure. */
  ghost predicate MinimalByValue<T(!new)>(c: seq<T>, test: seq<T> -> bool) {
    forall x :: x in c && Minus(c, [x]) != [] ==> !test(Minus(c, [x]))
  }

  /** No element can be dropped by position without losing the failure. */
  ghost predicate OneMinimal<T>(c: seq<T>, test: seq<T> -> bool) {
    forall i :: 0 <= i < |c| && |c| > 1 ==> !test(c[..i] + c[i + 1..])
  }

  ghost predicate Distinct<T>(c: seq<T>) {
    forall j, k :: 0 <= j < k < |c| ==> c[j] != c[k]
  }

  /** For an index list, whose elements are distinct, minimality by value is minimality by position. */
  lemma DistinctMinimal<T(!new)>(c: seq<T>, test: seq<T> -> bool)
    requires MinimalByValue(c, test) && Distinct(c)
    ensures OneMinimal(c, test)
  {
    forall i | 0 <= i < |c| && |c| > 1 ensures !test(c[..i] + c[i + 1..]) {
      MinusOne(c, i);
      assert c[i] in c;
    }
  }

  lemma {:induction false} SublistMember<T>(a: seq<T>, b: seq<T>, i: nat)
    requires Sublist(a, b) && i < |a|
    ensures a[i] in b
    decreases |b|
  {
    if a[0] == b[0] && Sublist(a[1..], b[1..]) {
      if i > 0 {
        SublistMember(a[1..], b[1..], i - 1);
      }
    } else {
      SublistMember(a, b[1..], i);
    }
  }

  lemma {:induction false} DistinctSublist<T>(a: seq<T>, b: seq<T>)
    requires Sublist(a, b) && Distinct(b)
    ensures Distinct(a)
    decreases |b|
  {
    if |a| > 0 {
      if a[0] == b[0] && Sublist(a[1..], b[1..]) {
        DistinctSublist(a[1..], b[1..]);
        forall k | 0 < k < |a| ensures a[k] != a[0] {
          SublistMember(a[1..], b[1..], k - 1);
        }
        assert forall j, k :: 0 < j < k < |a| ==> a[j] == a[1..][j - 1] && a[k] == a[1..][k - 1];
      } else {
        DistinctSublist(a, b[1..]);
      }
    }
  }

  /** With repetitions the two differ: dropping one of two equal elements is never tried. */
  lemma ValueIsNotPosition()
    ensures var c, test := [1, 1, 2], (s: seq<int>) => s == [1, 1, 2] || s == [1, 2];
      test(c) && MinimalByValue(c, test) && !OneMinimal(c, test)
  {
    var c, test := [1, 1, 2], (s: seq<int>) => s == [1, 1, 2] || s == [1, 2];
    assert c[1..] == [1, 2] && [1, 2][1..] == [2] && [2][1..] == [];
    assert Minus(c, [1]) == [2] && Minus(c, [2]) == [1, 1];
    assert [1, 1][1] != [1, 2][1];
    assert c[..0] + c[0 + 1..] == [1, 2];
  }

  method FindFailing<T>(candidates: seq<seq<T>>, test: seq<T> -> bool) returns (found: bool, k: nat)
    ensures found ==> k < |candidates| && test(candidates[k])
    ensures !found ==> forall i :: 0 <= i < |candidates| ==> !test(candidates[i])
  {
    for i := 0 to |candidates|
      invariant forall j :: 0 <= j < i ==> !test(candidates[j])
    {
      if test(candidates[i]) {
        return true, i;
      }
    }
    return false, 0;
  }

  /** The non-empty complements of the slices, found failing or not. */
  method FindComplement<T(==)>(c: seq<T>, subsets: seq<seq<T>>, test: seq<T> -> bool) returns (found: bool, comp: seq<T>)
    ensures found ==> test(comp) && comp != [] && exists i :: 0 <= i < |subsets| && comp == Minus(c, subsets[i])
    ensures !found ==> forall i :: 0 <= i < |subsets| && Minus(c, subsets[i]) != [] ==> !test(Minus(c, subsets[i]))
  {
    comp := [];
    for i := 0 to |subsets|
      invariant forall j :: 0 <= j < i && Minus(c, subsets[j]) != [] ==> !test(Minus(c, subsets[j]))
    {
      var candidate := Minus(c, subsets[i]);
      if candidate != [] && test(candidate) {
        return true, candidate;
      }
    }
    return false, comp;
  }

  /**
   * The record reducer: try each slice, then each complement, then refine. It terminates, keeps a failing
   * input failing, and stops only at a list from which no element can be dropped.
   */
  method Reduce<T(==,!new)>(input: seq<T>, test: seq<T> -> bool) returns (c: seq<T>)
    ensures Sublist(c, input)
    ensures test(input) ==> test(c)
    ensures MinimalByValue(c, test)
  {
    c := input;
    SublistRefl(input);
    var n := 2;
    while |c| >= 2
      invariant n >= 2 && Sublist(c, input) && (test(input) ==> test(c))
      decreases |c|, if n < |c| then |c| - n else 0
    {
      ChunkSize(|c|, n);
      var size := CeilDiv(|c|, n);
      var subsets := Slices(c, size);
      var hit, k := FindFailing(subsets, test);
      if hit {
        SliceBounds(c, size, k);
        SublistTransitive(subsets[k], c, input);
        c := subsets[k];
        n := 2;
        continue;
      }
      var found, comp := FindComplement(c, subsets, test);
      if found {
        ghost var i :| 0 <= i < |subsets| && comp == Minus(c, subsets[i]);
        SliceBounds(c, size, i);
        assert subsets[i][0] in c;
        MinusSublist(c, subsets[i]);
        SublistTransitive(comp, c, input);
        c := comp;
        n := if n - 1 > 2 then n - 1 else 2;
        continue;
      }
      if n >= |c| {
        SingletonSlices(c);
        assert forall i :: 0 <= i < |c| ==> subsets[i] == [c[i]];
        return;
      }
      n := if n * 2 < |c| then n * 2 else |c|;
    }
    if |c| == 1 {
      assert forall x :: x in c ==> Minus(c, [x]) == [];
    }
  }

  /** The same, on the script's own input: a list without repetitions is reduced to one minimal by position. */
  method ReduceRecords<T(==,!new)>(input: seq<T>, test: seq<T> -> bool) returns (c: seq<T>)
    ensures Sublist(c, input) && (test(input) ==> test(c)) && MinimalByValue(c, test)
    ensures Distinct(input) ==> Distinct(c) && OneMinimal(c, test)
  {
    c := Reduce(input, test);
    if Distinct(input) {
      DistinctSublist(c, input);
      DistinctMinimal(c, test);
    }
  }

  function Join<T>(subsets: seq<seq<T>>): seq<T> {
    if |subsets| == 0 then [] else subsets[0] + Join(subsets[1..])
  }

  /** All slices but the i-th, joined. */
  function JoinOthers<T>(subsets: seq<seq<T>>, i: nat): seq<T> {
    if |subsets| == 0 then []
    else if i == 0 then Join(subsets[1..])
    else subsets[0] + JoinOthers(subsets[1..], i - 1)
  }

  lemma {:induction false} JoinSlices<T>(c: seq<T>, size: nat)
    requires size > 0
    ensures Join(Slices(c, size)) == c
  {
    if |c| > size {
      JoinSlices(c[size..], size);
    } else if |c| > 0 {
      assert Join(Slices(c, size)[1..]) == [];
    }
  }

  /** A complement leaves out exactly one stretch. */
  lemma {:induction false} OthersAt<T>(c: seq<T>, size: nat, i: nat) returns (lo: nat, hi: nat)
    requires size > 0 && i < |Slices(c, size)|
    ensures lo < hi <= |c| && hi <= lo + size && JoinOthers(Slices(c, size), i) == c[..lo] + c[hi..]
    ensures size == 1 ==> lo == i
    decreases i
  {
    var subsets := Slices(c, size);
    if i == 0 {
      lo, hi := 0, if |c| <= size then |c| else size;
      JoinSlices(c[hi..], size);
      assert subsets[1..] == Slices(c[hi..], size);
      assert c[..0] + c[hi..] == c[hi..];
    } else {
      lo, hi := OthersAt(c[size..], size, i - 1);
      assert subsets[1..] == Slices(c[size..], size);
      assert c[..size] + (c[size..][..lo] + c[size..][hi..]) == c[..lo + size] + c[hi + size..];
      lo, hi := lo + size, hi + size;
    }
  }

  /** A complement is a shorter, non-empty sublist. */
  lemma ComplementBounds<T>(c: seq<T>, size: nat, i: nat)
    requires 0 < size < |c| && i < |Slices(c, size)|
    ensures 0 < |JoinOthers(Slices(c, size), i)| < |c| && Sublist(JoinOthers(Slices(c, size), i), c)
    ensures size == 1 ==> i < |c| && JoinOthers(Slices(c, size), i) == c[..i] + c[i + 1..]
  {
    var lo, hi := OthersAt(c, size, i);
    SublistWithout(c, lo, hi);
  }

  /** The trace shrinker: complements only, restarting after the first that still fails. */
  method ShrinkTrace<T>(input: seq<T>, fails: seq<T> -> bool) returns (items: seq<T>)
    ensures Sublist(items, input)
    ensures fails(input) ==> fails(items)
    ensures OneMinimal(items, fails)
  {
    items := input;
    SublistRefl(input);
    var n := 2;
    while |items| >= 2
      invariant n >= 2 && Sublist(items, input) && (fails(input) ==> fails(items))
      decreases |items|, if n < |items| then |items| - n else 0
    {
      ChunkSize(|items|, n);
      var chunk := CeilDiv(|items|, n);
      var subsets := Slices(items, chunk);
      var reduced := false;
      ghost var before, granularity := items, n;
      var i := 0;
      while i < |subsets| && !reduced
        invariant 0 <= i <= |subsets| && subsets == Slices(before, chunk)
        invariant !reduced ==> items == before && n >= 2 && forall k :: 0 <= k < i ==> !fails(JoinOthers(subsets, k))
        invariant !reduced ==> n == granularity
        invariant reduced ==> |items| < |before| && n >= 2 && Sublist(items, input) && fails(items)
        decreases |subsets| - i, !reduced
      {
        var complement := JoinOthers(subsets, i);
        if fails(complement) {
          ComplementBounds(items, chunk, i);
          SublistTransitive(complement, items, input);
          items := complement;
          n := if n - 1 > 2 then n - 1 else 2;
          reduced := true;
        } else {
          i := i + 1;
        }
      }
      if reduced {
        continue;
      }
      if n >= |items| {
        SingletonSlices(items);
        forall k | 0 <= k < |items| ensures !fails(items[..k] + items[k + 1..]) {
          ComplementBounds(items, 1, k);
        }
        return;
      }
      n := if n * 2 < |items| then n * 2 else |items|;
    }
  }
}
