/**
 Batched retention: the DELETE of the oldest expired rows shared by processed_updates, outbox_events and
 analytics_events, and the cleanup loop that repeats it. A table is seen as its rows in (timestamp, id) order.
 */
module Retention {
  import opened Options
  import opened Ordering

  /** How many rows a cutoff makes eligible: in (timestamp, id) order they come first. */
  function Expired(keys: seq<Key>, cutoff: int): (n: nat)
    ensures n <= |keys|
  {
    ExpiredFrom(keys, cutoff, 0)
  }

  /** The length of the run of expired rows that starts at position i. */
  function ExpiredFrom(keys: seq<Key>, cutoff: int, i: nat): (n: nat)
    requires i <= |keys|
    ensures n <= |keys| - i
    decreases |keys| - i
  {
    if i == |keys| || cutoff <= keys[i].time then 0 else 1 + ExpiredFrom(keys, cutoff, i + 1)
  }

  /** The eligible rows are exactly the first Expired(keys, cutoff) rows. */
  lemma ExpiredIsPrefix(keys: seq<Key>, cutoff: int, i: nat)
    requires Sorted(keys) && i < |keys|
    ensures keys[i].time < cutoff <==> i < Expired(keys, cutoff)
  {
    ExpiredRun(keys, cutoff, 0);
  }

  lemma {:induction false} ExpiredRun(keys: seq<Key>, cutoff: int, i: nat)
    requires i <= |keys|
    ensures var n := ExpiredFrom(keys, cutoff, i);
            && (forall j | i <= j < i + n :: keys[j].time < cutoff)
            && (i + n < |keys| ==> cutoff <= keys[i + n].time)
    decreases |keys| - i
  {
    if i < |keys| && keys[i].time < cutoff {
      ExpiredRun(keys, cutoff, i + 1);
    }
  }

  /** `DELETE ... WHERE id IN (SELECT id ... WHERE time < cutoff ORDER BY time, id LIMIT max(1, limit))`. */
  function DeleteBatch(keys: seq<Key>, cutoff: int, limit: int): seq<Key> {
    keys[BatchSize(keys, cutoff, limit)..]
  }

  function BatchSize(keys: seq<Key>, cutoff: int, limit: int): nat {
    Min(Max(1, limit), Expired(keys, cutoff))
  }

  /** The rows a retention policy is meant to keep. */
  function Live(keys: seq<Key>, cutoff: int): seq<Key> {
    keys[Expired(keys, cutoff)..]
  }

  /** Deleting n of the k expired rows leaves k - n, and touches no live row. */
  lemma ExpiredAfter(keys: seq<Key>, cutoff: int, n: nat)
    requires n <= Expired(keys, cutoff)
    ensures Expired(keys[n..], cutoff) == Expired(keys, cutoff) - n
    ensures Live(keys[n..], cutoff) == Live(keys, cutoff)
  {
    ExpiredRun(keys, cutoff, 0);
    ExpiredRun(keys[n..], cutoff, 0);
    assert forall j | n <= j < |keys| :: keys[j] == keys[n..][j - n];
  }

  /** The table after `calls` deletes with the same cutoff and limit. */
  function AfterCalls(keys: seq<Key>, cutoff: int, limit: int, calls: nat): seq<Key> {
    if calls == 0 then keys else DeleteBatch(AfterCalls(keys, cutoff, limit, calls - 1), cutoff, limit)
  }

  /** How many rows a number of full batches covers. */
  function Capacity(batches: nat, size: nat): nat {
    if batches == 0 then 0 else Capacity(batches - 1, size) + size
  }

  lemma {:induction false} CapacityIsProduct(batches: nat, size: nat)
    ensures Capacity(batches, size) == batches * size
  {
    if batches != 0 {
      CapacityIsProduct(batches - 1, size);
    }
  }

  /** Several small batches delete what one batch of their summed size would have deleted. */
  lemma {:induction false} CallsAdd(keys: seq<Key>, cutoff: int, limit: int, calls: nat)
    ensures AfterCalls(keys, cutoff, limit, calls)
         == keys[Min(Expired(keys, cutoff), Capacity(calls, Max(1, limit)))..]
  {
    if calls != 0 {
      var a := Min(Expired(keys, cutoff), Capacity(calls - 1, Max(1, limit)));
      CallsAdd(keys, cutoff, limit, calls - 1);
      ExpiredAfter(keys, cutoff, a);
    }
  }

  /**
   Convergence: after `calls` deletes exactly the rows at or after the cutoff are left if and only if the calls cover
   all expired rows; so ceil(k / max(1, limit)) calls are enough and one fewer is not.
   */
  lemma CallsConverge(keys: seq<Key>, cutoff: int, limit: int, calls: nat)
    ensures AfterCalls(keys, cutoff, limit, calls) == Live(keys, cutoff)
       <==> Expired(keys, cutoff) <= calls * Max(1, limit)
  {
    CallsAdd(keys, cutoff, limit, calls);
    CapacityIsProduct(calls, Max(1, limit));
    assert |AfterCalls(keys, cutoff, limit, calls)| == |keys| - Min(Expired(keys, cutoff), calls * Max(1, limit));
  }

  /** `WHERE time < cutoff ORDER BY time, id LIMIT max(1, limit)`, in the columns of the rows gone and of the rows kept. */
  ghost predicate OldestGone<R(!new)>(rows: map<int, R>, rows': map<int, R>, time: R -> int, cutoff: int, limit: int, deleted: nat) {
    && rows'.Keys <= rows.Keys && (forall id | id in rows' :: rows'[id] == rows[id])
    && (forall gone | gone in rows && gone !in rows' :: time(rows[gone]) < cutoff)
    && (forall gone, kept | gone in rows && gone !in rows' && kept in rows' ::
          time(rows[gone]) < time(rows[kept]) || (time(rows[gone]) == time(rows[kept]) && gone < kept))
    && |rows'.Keys| + deleted == |rows.Keys|
    && deleted <= (if limit < 1 then 1 else limit)
    && (deleted < (if limit < 1 then 1 else limit) ==> forall kept | kept in rows' :: cutoff <= time(rows[kept]))
  }

  lemma ViewSize<R(!new)>(rows: map<int, R>, time: R -> int)
    ensures |View(rows, time)| == |rows.Keys|
  {
    var keys := KeysOf(rows, time);
    OrderIsSorted(keys);
    IdsNumber(keys);
    forall id | id in rows
      ensures id in Ids(keys)
    {
      assert Key(time(rows[id]), id) in keys;
    }
    assert Ids(keys) == rows.Keys;
  }

  function Ids(keys: set<Key>): set<int> {
    set k | k in keys :: k.id
  }

  lemma {:induction false} IdsNumber(keys: set<Key>)
    requires forall j, k | j in keys && k in keys && j.id == k.id :: j == k
    ensures |Ids(keys)| == |keys|
  {
    if keys != {} {
      var k :| k in keys;
      IdsNumber(keys - {k});
      assert Ids(keys) == Ids(keys - {k}) + {k.id};
    }
  }

  /** A deleted batch is that. */
  lemma BatchIsOldest<R(!new)>(rows: map<int, R>, time: R -> int, cutoff: int, limit: int)
    ensures var n := BatchSize(View(rows, time), cutoff, limit);
            OldestGone(rows, Without(rows, View(rows, time)[..n]), time, cutoff, limit, n)
  {
    var view := View(rows, time);
    var n := BatchSize(view, cutoff, limit);
    var rows' := Without(rows, view[..n]);
    OrderIsSorted(KeysOf(rows, time));
    ViewWithoutPrefix(rows, time, n);
    ViewSize(rows, time);
    ViewSize(rows', time);
    SplitByPrefix(rows, time, n);
    PrefixIsOldest(view, cutoff, n);
  }

  /** The rows gone are the first n of the view, the rows kept the others. */
  lemma SplitByPrefix<R(!new)>(rows: map<int, R>, time: R -> int, n: nat)
    requires n <= |View(rows, time)|
    ensures var view := View(rows, time);
            var rows' := Without(rows, view[..n]);
            && (forall gone | gone in rows && gone !in rows' :: Key(time(rows[gone]), gone) in view[..n])
            && (forall kept | kept in rows' :: Key(time(rows[kept]), kept) in view[n..])
  {
    var view := View(rows, time);
    var rows' := Without(rows, view[..n]);
    OrderIsSorted(KeysOf(rows, time));
    ViewWithoutPrefix(rows, time, n);
    OrderIsSorted(KeysOf(rows', time));
    forall gone | gone in rows && gone !in rows'
      ensures Key(time(rows[gone]), gone) in view[..n]
    {
      var k :| k in view[..n] && k.id == gone;
      assert k in view;
    }
    forall kept | kept in rows'
      ensures Key(time(rows[kept]), kept) in view[n..]
    {
      assert Key(time(rows'[kept]), kept) in KeysOf(rows', time);
    }
  }

  lemma PrefixIsOldest(view: seq<Key>, cutoff: int, n: nat)
    requires Sorted(view) && n <= Expired(view, cutoff)
    ensures forall gone, kept | gone in view[..n] && kept in view[n..] ::
              gone.time < kept.time || (gone.time == kept.time && gone.id < kept.id)
    ensures forall gone | gone in view[..n] :: gone.time < cutoff
    ensures n == Expired(view, cutoff) ==> forall kept | kept in view[n..] :: cutoff <= kept.time
  {
    forall i | 0 <= i < |view|
      ensures view[i].time < cutoff <==> i < Expired(view, cutoff)
    {
      ExpiredIsPrefix(view, cutoff, i);
    }
  }

  /** A table under retention: the rows by primary key, aged by one timestamp column. */
  class Table<R(!new)> {
    var rows: map<int, R>
    const time: R -> int

    constructor (rows: map<int, R>, time: R -> int)
      ensures this.rows == rows && this.time == time
    {
      this.rows := rows;
      this.time := time;
    }

    method DeleteBefore(cutoff: int, limit: int) returns (deleted: nat)
      modifies this
      ensures OldestGone(old(rows), rows, time, cutoff, limit, deleted)
      ensures deleted == BatchSize(View(old(rows), time), cutoff, limit)
      ensures View(rows, time) == DeleteBatch(View(old(rows), time), cutoff, limit)
    {
      var resolvedLimit := Max(1, limit);
      var ordered := View(rows, time);
      deleted := Min(resolvedLimit, Expired(ordered, cutoff));
      ViewWithoutPrefix(rows, time, deleted);
      BatchIsOldest(rows, time, cutoff, limit);
      var candidates := ordered[..deleted];
      rows := Without(rows, candidates);
    }

    /** The cleanup loop over one table; `elapsed[i]` is the clock reading before batch i. */
    method Cleanup(cutoff: int, batchSize: int, maxBatches: nat, maxRuntime: int, elapsed: seq<int>)
      returns (rowsDeleted: nat, batches: nat, guardTriggered: bool)
      requires |elapsed| == maxBatches
      modifies this
      ensures rows.Keys <= old(rows).Keys && forall id | id in rows :: rows[id] == old(rows)[id]
      ensures Cleaned(View(rows, time), Counts(rowsDeleted, batches, guardTriggered))
           == CleanupKeys(View(old(rows), time), Counts(0, 0, false), cutoff, batchSize, maxRuntime, elapsed)
    {
      rowsDeleted, batches, guardTriggered := 0, 0, false;
      ghost var end := CleanupKeys(View(rows, time), Counts(0, 0, false), cutoff, batchSize, maxRuntime, elapsed);
      while batches < maxBatches
        invariant batches <= maxBatches && !guardTriggered
        invariant rows.Keys <= old(rows).Keys && forall id | id in rows :: rows[id] == old(rows)[id]
        invariant CleanupKeys(View(rows, time), Counts(rowsDeleted, batches, false), cutoff, batchSize, maxRuntime,
                              elapsed) == end
      {
        if elapsed[batches] >= maxRuntime {
          guardTriggered := true;
          break;
        }
        var deletedInBatch := DeleteBefore(cutoff, batchSize);
        batches := batches + 1;
        rowsDeleted := rowsDeleted + deletedInBatch;
        if deletedInBatch < batchSize {
          break;
        }
      }
    }
  }

  datatype Counts = Counts(deleted: nat, batches: nat, guard: bool)

  datatype Cleaned<S> = Cleaned(left: S, counts: Counts)

  /** How the cleanup loop runs from a state: how many rows the next batch deletes there, and what state it leaves. */
  function CleanupRun<S>(s: S, batch: S -> nat, rest: S -> S, c: Counts, size: int, maxRuntime: int, elapsed: seq<int>): Cleaned<S>
    requires c.batches <= |elapsed|
    decreases |elapsed| - c.batches
  {
    if c.batches == |elapsed| then Cleaned(s, c)
    else if elapsed[c.batches] >= maxRuntime then Cleaned(s, c.(guard := true))
    else
      var next := Counts(c.deleted + batch(s), c.batches + 1, c.guard);
      if batch(s) < size then Cleaned(rest(s), next) else CleanupRun(rest(s), batch, rest, next, size, maxRuntime, elapsed)
  }

  /** A loop over states runs like the loop over what they are mapped to. */
  lemma {:induction false} CleanupSimulated<S(!new), T>(s: S, view: S -> T, batch: S -> nat, rest: S -> S, batchT: T -> nat, restT: T -> T,
                                                       c: Counts, size: int, maxRuntime: int, elapsed: seq<int>)
    requires forall x :: batch(x) == batchT(view(x)) && view(rest(x)) == restT(view(x))
    requires c.batches <= |elapsed|
    ensures var end, endT := CleanupRun(s, batch, rest, c, size, maxRuntime, elapsed),
                             CleanupRun(view(s), batchT, restT, c, size, maxRuntime, elapsed);
            end.counts == endT.counts && view(end.left) == endT.left
    decreases |elapsed| - c.batches
  {
    if c.batches < |elapsed| && elapsed[c.batches] < maxRuntime {
      CleanupSimulated(rest(s), view, batch, rest, batchT, restT, Counts(c.deleted + batch(s), c.batches + 1, c.guard), size, maxRuntime,
                       elapsed);
    }
  }

  /** What the cleanup loop leaves of `keys` and reports, from the counts it has reached. */
  function CleanupKeys(keys: seq<Key>, c: Counts, cutoff: int, size: int, maxRuntime: int, elapsed: seq<int>): Cleaned<seq<Key>>
    requires c.batches <= |elapsed|
  {
    CleanupRun(keys, (k: seq<Key>) => BatchSize(k, cutoff, size), (k: seq<Key>) => DeleteBatch(k, cutoff, size), c, size, maxRuntime,
               elapsed)
  }

  /** How it ends when `left` rows are expired: with a short batch, the batch budget spent, or the runtime guard tripped. */
  function CleanupFrom(left: nat, c: Counts, size: int, maxRuntime: int, elapsed: seq<int>): Counts
    requires c.batches <= |elapsed|
    decreases |elapsed| - c.batches
  {
    if c.batches == |elapsed| then c
    else if elapsed[c.batches] >= maxRuntime then c.(guard := true)
    else
      var n := Min(Max(1, size), left);
      var next := Counts(c.deleted + n, c.batches + 1, c.guard);
      if n < size then next else CleanupFrom(left - n, next, size, maxRuntime, elapsed)
  }

  lemma {:induction false} CleanupFromRuns(left: nat, c: Counts, size: int, maxRuntime: int, elapsed: seq<int>)
    requires c.batches <= |elapsed|
    ensures CleanupRun<nat>(left, (n: nat) => Min(Max(1, size), n) as nat, (n: nat) => (n - Min(Max(1, size), n)) as nat, c, size, maxRuntime,
                       elapsed).counts
         == CleanupFrom(left, c, size, maxRuntime, elapsed)
    decreases |elapsed| - c.batches
  {
    if c.batches < |elapsed| && elapsed[c.batches] < maxRuntime {
      var n: nat := Min(Max(1, size), left);
      CleanupFromRuns(left - n, Counts(c.deleted + n, c.batches + 1, c.guard), size, maxRuntime, elapsed);
    }
  }

  /** The loop's control depends on the number of expired rows only. */
  lemma CleanupCounts(keys: seq<Key>, c: Counts, cutoff: int, size: int, maxRuntime: int, elapsed: seq<int>)
    requires c.batches <= |elapsed|
    ensures CleanupKeys(keys, c, cutoff, size, maxRuntime, elapsed).counts
         == CleanupFrom(Expired(keys, cutoff), c, size, maxRuntime, elapsed)
  {
    var batch, rest := (k: seq<Key>) => BatchSize(k, cutoff, size), (k: seq<Key>) => DeleteBatch(k, cutoff, size);
    var batchN, restN := (n: nat) => Min(Max(1, size), n) as nat, (n: nat) => (n - Min(Max(1, size), n)) as nat;
    var expired := (k: seq<Key>) => Expired(k, cutoff);
    forall k
      ensures batch(k) == batchN(expired(k)) && expired(rest(k)) == restN(expired(k))
    {
      ExpiredAfter(k, cutoff, BatchSize(k, cutoff, size));
    }
    CleanupSimulated<seq<Key>, nat>(keys, expired, batch, rest, batchN, restN, c, size, maxRuntime, elapsed);
    CleanupFromRuns(Expired(keys, cutoff), c, size, maxRuntime, elapsed);
  }

  /** A loop whose state counts the batches ends at the number it has run. */
  lemma {:induction false} BatchesCounted(batch: nat -> nat, c: Counts, size: int, maxRuntime: int, elapsed: seq<int>)
    requires c.batches <= |elapsed|
    ensures var end := CleanupRun<nat>(c.batches, batch, (done: nat) => done + 1, c, size, maxRuntime, elapsed);
            end.left == end.counts.batches
    decreases |elapsed| - c.batches
  {
    if c.batches < |elapsed| && elapsed[c.batches] < maxRuntime {
      BatchesCounted(batch, Counts(c.deleted + batch(c.batches), c.batches + 1, c.guard), size, maxRuntime, elapsed);
    }
  }

  /** The loop leaves what its batches leave. */
  lemma CleanupLeaves(keys: seq<Key>, cutoff: int, size: int, maxRuntime: int, elapsed: seq<int>)
    ensures var end := CleanupKeys(keys, Counts(0, 0, false), cutoff, size, maxRuntime, elapsed);
            end.left == AfterCalls(keys, cutoff, size, end.counts.batches)
  {
    var batch, rest := (k: seq<Key>) => BatchSize(k, cutoff, size), (k: seq<Key>) => DeleteBatch(k, cutoff, size);
    var after := (done: nat) => AfterCalls(keys, cutoff, size, done);
    var batchAt := (done: nat) => batch(after(done));
    CleanupSimulated<nat, seq<Key>>(0, after, batchAt, (done: nat) => done + 1, batch, rest, Counts(0, 0, false), size, maxRuntime, elapsed);
    BatchesCounted(batchAt, Counts(0, 0, false), size, maxRuntime, elapsed);
  }

  /** The loop invariant, from any point where every batch so far came back full. */
  lemma {:induction false} CleanupInvariant(k: nat, c: Counts, size: nat, maxRuntime: int, elapsed: seq<int>)
    requires 1 <= size && c.batches <= |elapsed| && !c.guard
    requires c.deleted == Capacity(c.batches, size) <= k
    ensures var end := CleanupFrom(k - c.deleted, c, size, maxRuntime, elapsed);
            && end.batches <= |elapsed|
            && end.deleted == Min(k, Capacity(end.batches, size))
            && (0 < end.batches ==> Capacity(end.batches - 1, size) <= k)
            && (forall i | c.batches <= i < end.batches :: elapsed[i] < maxRuntime)
            && (end.guard ==> end.batches < |elapsed| && elapsed[end.batches] >= maxRuntime)
            && (!end.guard && end.batches < |elapsed| ==> end.deleted == k)
    decreases |elapsed| - c.batches
  {
    if c.batches < |elapsed| && elapsed[c.batches] < maxRuntime {
      var n := Min(size, k - c.deleted);
      if size <= n {
        CleanupInvariant(k, Counts(c.deleted + n, c.batches + 1, false), size, maxRuntime, elapsed);
      }
    }
  }

  /**
   Whatever stops the loop, the batches it ran deleted the oldest expired rows only and it counted them right; it never
   starts a batch after the expired rows are gone; and when neither the guard nor the budget stopped it, exactly the
   live rows are left.
   */
  lemma CleanupIsSound(keys: seq<Key>, cutoff: int, size: nat, maxRuntime: int, elapsed: seq<int>)
    requires 1 <= size
    ensures var end := CleanupKeys(keys, Counts(0, 0, false), cutoff, size, maxRuntime, elapsed);
            var c := end.counts;
            && c.deleted <= Expired(keys, cutoff) && end.left == keys[c.deleted..]
            && end.left == AfterCalls(keys, cutoff, size, c.batches)
            && (0 < c.batches ==> (c.batches - 1) * size <= Expired(keys, cutoff))
            && c.batches <= |elapsed| && (forall i | 0 <= i < c.batches :: elapsed[i] < maxRuntime)
            && (c.guard ==> c.batches < |elapsed| && elapsed[c.batches] >= maxRuntime)
            && (!c.guard && c.batches < |elapsed| ==> end.left == Live(keys, cutoff))
  {
    CleanupCounts(keys, Counts(0, 0, false), cutoff, size, maxRuntime, elapsed);
    CleanupLeaves(keys, cutoff, size, maxRuntime, elapsed);
    var c := CleanupFrom(Expired(keys, cutoff), Counts(0, 0, false), size, maxRuntime, elapsed);
    CleanupInvariant(Expired(keys, cutoff), Counts(0, 0, false), size, maxRuntime, elapsed);
    CallsAdd(keys, cutoff, size, c.batches);
    if 0 < c.batches {
      CapacityIsProduct(c.batches - 1, size);
    }
  }
}
