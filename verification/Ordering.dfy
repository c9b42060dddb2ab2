/**
 The `ORDER BY <time> ASC, <id> ASC` used by the retention deletes, the push dedupe and the promo sync: the rows of a
 table, seen as the strictly increasing sequence of their (time, id) keys.
 */
module Ordering {
  import opened Options

  /** The sort key of one row: a timestamp and the primary key that breaks ties. */
  datatype Key = Key(time: int, id: int)

  predicate Before(a: Key, b: Key) {
    a.time < b.time || (a.time == b.time && a.id < b.id)
  }

  ghost predicate Sorted(keys: seq<Key>) {
    forall i, j | 0 <= i < j < |keys| :: Before(keys[i], keys[j])
  }

  predicate IsFirst(s: set<Key>, first: Key) {
    first in s && forall k | k in s && k != first :: Before(first, k)
  }

  lemma {:induction false} FirstExists(s: set<Key>)
    requires s != {}
    ensures exists first :: IsFirst(s, first)
  {
    var x :| x in s;
    var rest := s - {x};
    if rest == {} {
      assert s == {x};
      assert IsFirst(s, x);
    } else {
      FirstExists(rest);
      var y :| IsFirst(rest, y);
      assert forall k | k in s :: k == x || k in rest;
      assert IsFirst(s, if Before(x, y) then x else y);
    }
  }

  /** The row a query ordered by (time, id) returns first. */
  function First(s: set<Key>): (first: Key)
    requires s != {}
    ensures IsFirst(s, first)
  {
    FirstExists(s);
    var first :| IsFirst(s, first);
    first
  }

  /** The rows of `s` in query order. */
  function Order(s: set<Key>): seq<Key> {
    if s == {} then [] else [First(s)] + Order(s - {First(s)})
  }

  /** The query returns every row exactly once, in increasing order. */
  lemma {:induction false} OrderIsSorted(s: set<Key>)
    ensures Sorted(Order(s))
    ensures forall k :: k in Order(s) <==> k in s
    ensures |Order(s)| == |s|
  {
    if s != {} {
      OrderIsSorted(s - {First(s)});
    }
  }

  /** Increasing order determines the sequence: two sorted sequences of the same keys are equal. */
  lemma {:induction false} SortedUnique(a: seq<Key>, b: seq<Key>)
    requires Sorted(a) && Sorted(b)
    requires forall k :: k in a <==> k in b
    ensures a == b
  {
    if a != [] || b != [] {
      assert forall i | 0 <= i < |a| :: a[i] in b;
      assert forall i | 0 <= i < |b| :: b[i] in a;
      assert a[0] == b[0];
      forall k
        ensures k in a[1..] <==> k in b[1..]
      {
        assert k in a[1..] <==> k in a && k != a[0];
        assert k in b[1..] <==> k in b && k != b[0];
      }
      SortedUnique(a[1..], b[1..]);
    }
  }

  /** Removing rows from the table removes them from the ordered result and moves nothing else. */
  lemma OrderWithoutPrefix(s: set<Key>, n: nat)
    requires n <= |Order(s)|
    ensures Order(s - set k | k in Order(s)[..n]) == Order(s)[n..]
  {
    var gone := set k | k in Order(s)[..n];
    OrderIsSorted(s);
    OrderIsSorted(s - gone);
    forall k
      ensures k in Order(s)[n..] <==> k in s - gone
    {
      if k in s {
        var i :| 0 <= i < |Order(s)| && Order(s)[i] == k;
        if i < n {
          assert Order(s)[..n][i] == k;
        } else {
          assert Order(s)[n..][i - n] == k;
        }
      }
    }
    SortedUnique(Order(s)[n..], Order(s - gone));
  }

  /** The keys of a table whose rows carry one timestamp column. */
  function KeysOf<R>(rows: map<int, R>, time: R -> int): set<Key> {
    set id | id in rows :: Key(time(rows[id]), id)
  }

  /** The rows of a table in query order. */
  function View<R>(rows: map<int, R>, time: R -> int): seq<Key> {
    Order(KeysOf(rows, time))
  }

  /** `DELETE ... WHERE id IN (...)`. */
  function Without<R>(rows: map<int, R>, gone: seq<Key>): map<int, R> {
    rows - set k | k in gone :: k.id
  }

  /** Deleting the first n rows of a table drops them from its view. */
  lemma ViewWithoutPrefix<R>(rows: map<int, R>, time: R -> int, n: nat)
    requires n <= |View(rows, time)|
    ensures View(Without(rows, View(rows, time)[..n]), time) == View(rows, time)[n..]
  {
    var s := KeysOf(rows, time);
    var gone := View(rows, time)[..n];
    var after := Without(rows, gone);
    OrderIsSorted(s);
    OrderWithoutPrefix(s, n);
    forall k | k in s && k !in gone
      ensures k in KeysOf(after, time)
    {
      forall g | g in gone
        ensures g.id != k.id
      {
        assert g in View(rows, time);
        assert g == Key(time(rows[g.id]), g.id) && k == Key(time(rows[k.id]), k.id);
      }
      assert k.id in after && after[k.id] == rows[k.id];
    }
    assert KeysOf(after, time) == s - set k | k in gone;
  }
}
