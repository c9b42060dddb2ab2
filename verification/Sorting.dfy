/** Python's `sorted(xs, key=...)`: a stable sort by a total preorder. */
module Sorting {
  ghost predicate TotalPreorder<T(!new)>(leq: (T, T) -> bool) {
    && (forall x, y :: leq(x, y) || leq(y, x))
    && (forall x, y, z :: leq(x, y) && leq(y, z) ==> leq(x, z))
  }

  ghost predicate SortedBy<T>(xs: seq<T>, leq: (T, T) -> bool) {
    forall i, j | 0 <= i < j < |xs| :: leq(xs[i], xs[j])
  }

  /** Code point order, from position i on. */
  predicate StringLeq(a: string, b: string, i: nat)
    requires i <= |a| && i <= |b|
    decreases |a| - i
  {
    i == |a| || (i < |b| && (a[i] < b[i] || (a[i] == b[i] && StringLeq(a, b, i + 1))))
  }

  /** a comes strictly before b: it is a proper beginning of b, or has the smaller character where the two first differ. */
  ghost predicate SortsBefore(a: string, b: string) {
    exists k: nat {:trigger a[..k]} | k <= |a| && k <= |b| ::
      a[..k] == b[..k] && k < |b| && (k == |a| || a[k] < b[k])
  }

  /** That is the order of texts. */
  lemma StringLeqIff(a: string, b: string)
    ensures StringLeq(a, b, 0) <==> a == b || SortsBefore(a, b)
  {
    StringLeqFrom(a, b, 0);
    if StringLeq(a, b, 0) && a != b {
      var k := FirstDifference(a, b, 0);
      assert a[..k] == b[..k];
    }
    if SortsBefore(a, b) {
      var k: nat :| k <= |a| && k <= |b| && a[..k] == b[..k] && k < |b| && (k == |a| || a[k] < b[k]);
      forall j | 0 <= j < k
        ensures a[j] == b[j]
      {
        assert a[..k][j] == b[..k][j];
      }
      FirstDifferenceIs(a, b, 0, k);
    }
  }

  /** How far two texts agree from position i on. */
  function FirstDifference(a: string, b: string, i: nat): (k: nat)
    requires i <= |a| && i <= |b|
    ensures i <= k <= |a| && k <= |b| && (k < |a| && k < |b| ==> a[k] != b[k]) && forall j | i <= j < k :: a[j] == b[j]
    decreases |a| - i
  {
    if i == |a| || i == |b| || a[i] != b[i] then i else FirstDifference(a, b, i + 1)
  }

  lemma FirstDifferenceIs(a: string, b: string, i: nat, k: nat)
    requires i <= k <= |a| && k <= |b| && (k < |a| && k < |b| ==> a[k] != b[k]) && forall j | i <= j < k :: a[j] == b[j]
    ensures FirstDifference(a, b, i) == k
  {
  }

  lemma {:induction false} StringLeqFrom(a: string, b: string, i: nat)
    requires i <= |a| && i <= |b|
    ensures var k := FirstDifference(a, b, i);
            StringLeq(a, b, i) <==> k == |a| || (k < |b| && a[k] < b[k])
    decreases |a| - i
  {
    if i < |a| && i < |b| && a[i] == b[i] {
      StringLeqFrom(a, b, i + 1);
    }
  }

  /** Texts are totally ordered. */
  lemma StringOrder(a: string, b: string, c: string)
    ensures StringLeq(a, b, 0) || StringLeq(b, a, 0)
    ensures StringLeq(a, b, 0) && StringLeq(b, a, 0) ==> a == b
    ensures StringLeq(a, b, 0) && StringLeq(b, c, 0) ==> StringLeq(a, c, 0)
  {
    StringLeqFrom(a, b, 0);
    StringLeqFrom(b, a, 0);
    StringLeqFrom(b, c, 0);
    StringLeqFrom(a, c, 0);
    var d := FirstDifference(a, b, 0);
    FirstDifferenceIs(b, a, 0, d);
    if d == |a| == |b| {
      assert a == b;
    }
  }

  /** x goes behind everything it does not precede. */
  function Insert<T>(xs: seq<T>, x: T, leq: (T, T) -> bool): (ys: seq<T>)
    ensures multiset(ys) == multiset(xs) + multiset{x}
    ensures |ys| == |xs| + 1
  {
    if xs == [] || leq(xs[|xs| - 1], x) then xs + [x]
    else
      assert xs == xs[..|xs| - 1] + [xs[|xs| - 1]];
      Insert(xs[..|xs| - 1], x, leq) + [xs[|xs| - 1]]
  }

  /** The first n elements of xs, sorted. */
  function SortPrefix<T>(xs: seq<T>, n: nat, leq: (T, T) -> bool): (ys: seq<T>)
    requires n <= |xs|
    ensures multiset(ys) == multiset(xs[..n]) && |ys| == n
  {
    if n == 0 then []
    else
      assert xs[..n] == xs[..n - 1] + [xs[n - 1]];
      Insert(SortPrefix(xs, n - 1, leq), xs[n - 1], leq)
  }

  /** `sorted(xs)` is a permutation of xs. */
  function Sort<T>(xs: seq<T>, leq: (T, T) -> bool): (ys: seq<T>)
    ensures multiset(ys) == multiset(xs) && |ys| == |xs|
  {
    assert xs[..|xs|] == xs;
    SortPrefix(xs, |xs|, leq)
  }

  lemma {:induction false} InsertSorted<T(!new)>(xs: seq<T>, x: T, leq: (T, T) -> bool)
    requires TotalPreorder(leq) && SortedBy(xs, leq)
    ensures SortedBy(Insert(xs, x, leq), leq)
  {
    if xs != [] && !leq(xs[|xs| - 1], x) {
      var front, last := xs[..|xs| - 1], xs[|xs| - 1];
      InsertSorted(front, x, leq);
      var ys := Insert(front, x, leq);
      forall i | 0 <= i < |ys|
        ensures leq(ys[i], last)
      {
        assert ys[i] in multiset(ys);
        assert ys[i] in multiset(front) || ys[i] == x;
      }
    }
  }

  lemma {:induction false} SortPrefixSorted<T(!new)>(xs: seq<T>, n: nat, leq: (T, T) -> bool)
    requires TotalPreorder(leq) && n <= |xs|
    ensures SortedBy(SortPrefix(xs, n, leq), leq)
  {
    if n != 0 {
      SortPrefixSorted(xs, n - 1, leq);
      InsertSorted(SortPrefix(xs, n - 1, leq), xs[n - 1], leq);
    }
  }

  /** `sorted(xs)` is in order, and holds exactly the elements of xs. */
  lemma SortIsSorted<T(!new)>(xs: seq<T>, leq: (T, T) -> bool)
    requires TotalPreorder(leq)
    ensures SortedBy(Sort(xs, leq), leq)
    ensures forall x :: x in Sort(xs, leq) <==> x in xs
  {
    SortPrefixSorted(xs, |xs|, leq);
    SortMembers(xs, leq);
  }

  lemma SortMembers<T(!new)>(xs: seq<T>, leq: (T, T) -> bool)
    ensures forall x :: x in Sort(xs, leq) <==> x in xs
  {
    forall x
      ensures x in Sort(xs, leq) <==> x in xs
    {
      assert x in Sort(xs, leq) <==> x in multiset(Sort(xs, leq));
      assert x in xs <==> x in multiset(xs);
    }
  }

  /** The elements of one class among the first n, in order. */
  function Kept<T>(xs: seq<T>, p: T -> bool, n: nat): seq<T>
    requires n <= |xs|
  {
    if n == 0 then [] else Kept(xs, p, n - 1) + if p(xs[n - 1]) then [xs[n - 1]] else []
  }

  /** The sort is stable: elements that tie with each other stay in the order they came in. */
  lemma SortIsStable<T(!new)>(xs: seq<T>, leq: (T, T) -> bool, p: T -> bool)
    requires TotalPreorder(leq) && forall x, y | p(x) && p(y) :: leq(x, y)
    ensures Kept(Sort(xs, leq), p, |xs|) == Kept(xs, p, |xs|)
  {
    SortPrefixStable(xs, |xs|, leq, p);
  }

  lemma {:induction false} SortPrefixStable<T(!new)>(xs: seq<T>, n: nat, leq: (T, T) -> bool, p: T -> bool)
    requires TotalPreorder(leq) && (forall x, y | p(x) && p(y) :: leq(x, y)) && n <= |xs|
    ensures Kept(SortPrefix(xs, n, leq), p, n) == Kept(xs, p, n)
  {
    if n != 0 {
      SortPrefixStable(xs, n - 1, leq, p);
      SortPrefixSorted(xs, n - 1, leq);
      InsertStable(SortPrefix(xs, n - 1, leq), xs[n - 1], leq, p);
    }
  }

  lemma {:induction false} KeptPrefix<T>(xs: seq<T>, ys: seq<T>, p: T -> bool, n: nat)
    requires n <= |xs| && n <= |ys| && xs[..n] == ys[..n]
    ensures Kept(xs, p, n) == Kept(ys, p, n)
  {
    if n != 0 {
      assert xs[..n][n - 1] == ys[..n][n - 1];
      assert xs[..n - 1] == xs[..n][..n - 1] == ys[..n - 1];
      KeptPrefix(xs, ys, p, n - 1);
    }
  }

  lemma KeptAppend<T>(xs: seq<T>, x: T, p: T -> bool)
    ensures Kept(xs + [x], p, |xs| + 1) == if p(x) then Kept(xs, p, |xs|) + [x] else Kept(xs, p, |xs|)
  {
    KeptPrefix(xs, xs + [x], p, |xs|);
  }

  lemma {:induction false} InsertStable<T(!new)>(xs: seq<T>, x: T, leq: (T, T) -> bool, p: T -> bool)
    requires TotalPreorder(leq) && SortedBy(xs, leq) && forall y, z | p(y) && p(z) :: leq(y, z)
    ensures Kept(Insert(xs, x, leq), p, |xs| + 1) == if p(x) then Kept(xs, p, |xs|) + [x] else Kept(xs, p, |xs|)
  {
    if xs == [] || leq(xs[|xs| - 1], x) {
      KeptAppend(xs, x, p);
    } else {
      var front, last := xs[..|xs| - 1], xs[|xs| - 1];
      assert xs == front + [last] && !(p(x) && p(last));
      InsertStable(front, x, leq, p);
      KeptAppend(front, last, p);
      KeptAppend(Insert(front, x, leq), last, p);
    }
  }

  ghost predicate NoRepeats<T>(xs: seq<T>) {
    forall i, j | 0 <= i < j < |xs| :: xs[i] != xs[j]
  }

  predicate HasRepeats<T(==)>(xs: seq<T>) {
    exists i, j | 0 <= i < j < |xs| :: xs[i] == xs[j]
  }

  /** Sorting a list without repetitions introduces none. */
  lemma SortNoRepeats<T(!new)>(xs: seq<T>, leq: (T, T) -> bool)
    requires NoRepeats(xs)
    ensures NoRepeats(Sort(xs, leq))
  {
    var ys := Sort(xs, leq);
    forall i, j | 0 <= i < j < |ys|
      ensures ys[i] != ys[j]
    {
      CountIfTwice(ys, i, j);
      CountIfDistinct(xs, |xs|, ys[i]);
      assert xs[..|xs|] == xs;
    }
  }

  lemma CountIfTwice<T>(xs: seq<T>, i: nat, j: nat)
    requires i < j < |xs|
    ensures xs[i] == xs[j] ==> multiset(xs)[xs[i]] >= 2
  {
    var left, right := xs[..j], xs[j..];
    assert xs == left + right && left[i] in multiset(left) && right[0] in multiset(right);
  }

  lemma {:induction false} CountIfDistinct<T>(xs: seq<T>, n: nat, x: T)
    requires NoRepeats(xs) && n <= |xs|
    ensures multiset(xs[..n])[x] <= 1
    ensures multiset(xs[..n])[x] == 1 ==> exists k | 0 <= k < n :: xs[k] == x
  {
    if n != 0 {
      CountIfDistinct(xs, n - 1, x);
      assert xs[..n] == xs[..n - 1] + [xs[n - 1]];
    }
  }
}
