/** Python's `defaultdict(list)` filled in a loop: groups under their keys, keys in order of first appearance. */
module Grouping {
  import opened Options

  datatype Groups<K, T> = Groups(keys: seq<K>, members: map<K, seq<T>>) {
    /** `groups[key].append(x)`. */
    function Append(key: K, x: T): Groups<K, T> {
      if key in members then this.(members := members[key := members[key] + [x]])
      else Groups(keys + [key], members[key := [x]])
    }
  }

  /** The first n elements grouped; elements without a key are skipped. */
  function GroupBy<K(==), T>(xs: seq<T>, key: T -> Option<K>, n: nat): Groups<K, T>
    requires n <= |xs|
  {
    if n == 0 then Groups([], map[])
    else
      var g := GroupBy(xs, key, n - 1);
      var k := key(xs[n - 1]);
      if k.Some? then g.Append(k.value, xs[n - 1]) else g
  }

  /** The elements among the first n that have this key, in order. */
  function Select<K(==), T>(xs: seq<T>, key: T -> Option<K>, k: K, n: nat): seq<T>
    requires n <= |xs|
  {
    if n == 0 then []
    else Select(xs, key, k, n - 1) + (if key(xs[n - 1]) == Some(k) then [xs[n - 1]] else [])
  }

  /** A group is exactly the elements with its key, never empty; every key has one group. */
  lemma {:induction false} GroupsAreSelections<K(!new), T>(xs: seq<T>, key: T -> Option<K>, n: nat)
    requires n <= |xs|
    ensures var g := GroupBy(xs, key, n);
            && (forall k :: k in g.members <==> Select(xs, key, k, n) != [])
            && (forall k | k in g.members :: g.members[k] == Select(xs, key, k, n))
  {
    if n != 0 {
      GroupsAreSelections(xs, key, n - 1);
    }
  }

  /** The key list names every group once, and nothing else. */
  ghost predicate WellKeyed<K, T>(g: Groups<K, T>) {
    && (forall i, j | 0 <= i < j < |g.keys| :: g.keys[i] != g.keys[j])
    && (forall i | 0 <= i < |g.keys| :: g.keys[i] in g.members)
    && (forall k | k in g.members :: exists i :: 0 <= i < |g.keys| && g.keys[i] == k)
  }

  lemma AppendWellKeyed<K, T>(g: Groups<K, T>, key: K, x: T)
    requires WellKeyed(g)
    ensures WellKeyed(g.Append(key, x))
  {
    var h := g.Append(key, x);
    forall k | k in h.members
      ensures exists i :: 0 <= i < |h.keys| && h.keys[i] == k
    {
      if k in g.members {
        var i :| 0 <= i < |g.keys| && g.keys[i] == k;
        assert h.keys[i] == k;
      } else {
        assert h.keys[|g.keys|] == k;
      }
    }
  }

  lemma {:induction false} KeysNameGroups<K, T>(xs: seq<T>, key: T -> Option<K>, n: nat)
    requires n <= |xs|
    ensures WellKeyed(GroupBy(xs, key, n))
  {
    if n != 0 {
      KeysNameGroups(xs, key, n - 1);
      var k := key(xs[n - 1]);
      if k.Some? {
        AppendWellKeyed(GroupBy(xs, key, n - 1), k.value, xs[n - 1]);
      }
    }
  }

  /** The elements of a selection are the elements with that key. */
  lemma {:induction false} SelectMembers<K, T(!new)>(xs: seq<T>, key: T -> Option<K>, k: K, n: nat)
    requires n <= |xs|
    ensures forall x :: x in Select(xs, key, k, n) <==> x in xs[..n] && key(x) == Some(k)
  {
    if n != 0 {
      SelectMembers(xs, key, k, n - 1);
      assert xs[..n] == xs[..n - 1] + [xs[n - 1]];
    }
  }

  /** Among the first n elements k occurs before m does, if m does. */
  ghost predicate OccursBefore<K, T>(xs: seq<T>, key: T -> Option<K>, n: nat, k: K, m: K)
    requires n <= |xs|
  {
    exists p: nat :: p < n && key(xs[p]) == Some(k) && forall q: nat | q <= p :: key(xs[q]) != Some(m)
  }

  lemma {:induction false} OccursIff<K(!new), T>(xs: seq<T>, key: T -> Option<K>, n: nat, k: K)
    requires n <= |xs|
    ensures k in GroupBy(xs, key, n).members <==> exists p: nat :: p < n && key(xs[p]) == Some(k)
  {
    if n != 0 {
      OccursIff(xs, key, n - 1, k);
    }
  }

  /** Keys are listed in the order in which they first occur. */
  lemma {:induction false} KeysInOrder<K(!new), T>(xs: seq<T>, key: T -> Option<K>, n: nat, i: nat, j: nat)
    requires n <= |xs| && i < j < |GroupBy(xs, key, n).keys|
    ensures OccursBefore(xs, key, n, GroupBy(xs, key, n).keys[i], GroupBy(xs, key, n).keys[j])
  {
    var before, after := GroupBy(xs, key, n - 1), GroupBy(xs, key, n);
    KeysNameGroups(xs, key, n - 1);
    if j < |before.keys| {
      KeysInOrder(xs, key, n - 1, i, j);
    } else {
      OccursIff(xs, key, n - 1, before.keys[i]);
      OccursIff(xs, key, n - 1, after.keys[j]);
      assert before.keys[i] in before.members && after.keys[j] !in before.members;
    }
  }
}
