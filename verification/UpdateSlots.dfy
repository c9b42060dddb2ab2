/**
 The update-slot lease protocol: concurrent workers claim a Telegram update by inserting its row, by taking over a FAILED
 row, or by taking over a PROCESSING row older than a TTL. Each SQL statement is one atomic step; timestamps are
 microseconds and come from whatever clock the transaction sees.
 */
module UpdateSlots {
  import opened Options
  import opened Ordering
  import opened Retention

  const MICROS_PER_SECOND := 1_000_000

  datatype Row = Row(status: string, processedAt: int, taskId: Option<string>)

  type Slots = map<int, Row>

  /** The statements workers and the retention job issue, with the `now()` of their transaction. */
  datatype Statement =
    | TryCreate(id: int, task: Option<string>, now: int)
    | ReclaimFailed(id: int, task: Option<string>, now: int)
    | ReclaimStale(id: int, task: Option<string>, ttl: int, now: int)
    | Create(id: int, status: string, at: int, task: Option<string>)
    | SetStatus(id: int, status: string, at: int, task: Option<string>)
    | DeleteBefore(cutoff: int, limit: int)

  /** The age in microseconds at which a PROCESSING row becomes reclaimable. */
  function Lease(ttl: int): int {
    Max(1, ttl) * MICROS_PER_SECOND
  }

  /** The statement's WHERE clause, or the absence of a primary-key conflict for an insert. */
  predicate Matches(t: Slots, s: Statement) {
    match s
    case TryCreate(id, _, _) => id !in t
    case ReclaimFailed(id, _, _) => id in t && t[id].status == "FAILED"
    case ReclaimStale(id, _, ttl, now) =>
      id in t && t[id].status == "PROCESSING" && now - t[id].processedAt >= Lease(ttl)
    case Create(id, _, _, _) => id !in t
    case SetStatus(id, _, _, _) => id in t
    case DeleteBefore(_, _) => true
  }

  /** `delete_processed_before`: the oldest expired rows go, the others stay as they are. */
  function WithoutProcessedBefore(t: Slots, cutoff: int, limit: int): (t': Slots)
    ensures t'.Keys <= t.Keys && forall id | id in t' :: t'[id] == t[id]
  {
    var view := View(t, (r: Row) => r.processedAt);
    Without(t, view[..BatchSize(view, cutoff, limit)])
  }

  /** The table after one statement; a statement that matches nothing changes nothing. */
  function Apply(t: Slots, s: Statement): Slots {
    if !Matches(t, s) then t
    else
      match s
      case TryCreate(id, task, now) => t[id := Row("PROCESSING", now, task)]
      case ReclaimFailed(id, task, now) => t[id := Row("PROCESSING", now, task)]
      case ReclaimStale(id, task, _, now) => t[id := Row("PROCESSING", now, task)]
      case Create(id, status, at, task) => t[id := Row(status, at, task)]
      case SetStatus(id, status, at, task) => t[id := Row(status, at, task)]
      case DeleteBefore(cutoff, limit) => WithoutProcessedBefore(t, cutoff, limit)
  }

  function Run(t: Slots, run: seq<Statement>): Slots
    decreases |run|
  {
    if run == [] then t else Run(Apply(t, run[0]), run[1..])
  }

  /** A statement that hands the update to a worker. */
  predicate Claims(t: Slots, s: Statement, id: int) {
    (s.TryCreate? || s.ReclaimFailed? || s.ReclaimStale?) && s.id == id && Matches(t, s)
  }

  predicate Deletes(t: Slots, s: Statement, id: int) {
    id in t && id !in Apply(t, s)
  }

  predicate Rewrites(s: Statement, id: int) {
    s.SetStatus? && s.id == id
  }

  /** The times at which successive claims of `id` stamped the row. */
  function Stamps(t: Slots, run: seq<Statement>, id: int): seq<int>
    decreases |run|
  {
    if run == [] then []
    else (if Claims(t, run[0], id) then [run[0].now] else []) + Stamps(Apply(t, run[0]), run[1..], id)
  }

  /** No status write and no deletion hits `id` during the run. */
  predicate Undisturbed(t: Slots, run: seq<Statement>, id: int)
    decreases |run|
  {
    run == [] ||
    (!Rewrites(run[0], id) && !Deletes(t, run[0], id) && Undisturbed(Apply(t, run[0]), run[1..], id))
  }

  /** Writes to `id` carry one of these statuses only, and it is deleted only if deletions are allowed. */
  ghost predicate Within(t: Slots, run: seq<Statement>, id: int, statuses: set<string>, deletions: bool)
    decreases |run|
  {
    run == [] ||
    ((Rewrites(run[0], id) ==> run[0].status in statuses)
     && (Deletes(t, run[0], id) ==> deletions)
     && Within(Apply(t, run[0]), run[1..], id, statuses, deletions))
  }

  /** The two statuses from which a row can be claimed. */
  predicate Claimable(status: string) {
    status == "PROCESSING" || status == "FAILED"
  }

  ghost predicate NoneClaimable(statuses: set<string>) {
    "PROCESSING" !in statuses && "FAILED" !in statuses
  }

  ghost predicate TtlAtLeast(run: seq<Statement>, id: int, ttl: int) {
    forall s | s in run && s.ReclaimStale? && s.id == id :: ttl <= s.ttl
  }

  /** Successive stamps lie at least `gap` apart. */
  ghost predicate Spaced(stamps: seq<int>, gap: int) {
    forall i | 0 < i < |stamps| :: stamps[i] - stamps[i - 1] >= gap
  }

  lemma LeaseMonotone(a: int, b: int)
    requires a <= b
    ensures MICROS_PER_SECOND <= Lease(a) <= Lease(b)
  {
  }

  /** A row whose status admits no claim is never claimed while only such statuses are written to it. */
  lemma {:induction false} FinishedRowUnclaimed(t: Slots, run: seq<Statement>, id: int, statuses: set<string>)
    requires id in t && !Claimable(t[id].status)
    requires NoneClaimable(statuses) && Within(t, run, id, statuses, false)
    ensures Stamps(t, run, id) == []
    decreases |run|
  {
    if run != [] {
      var t' := Apply(t, run[0]);
      assert id in t' && !Claimable(t'[id].status);
      FinishedRowUnclaimed(t', run[1..], id, statuses);
    }
  }

  /** While a claimed row is only written as finished, each later claim waits out the lease of the one before it. */
  lemma {:induction false} HeldSlotSpacing(t: Slots, run: seq<Statement>, id: int, ttl: int, statuses: set<string>)
    requires id in t && t[id].status == "PROCESSING"
    requires NoneClaimable(statuses) && Within(t, run, id, statuses, false) && TtlAtLeast(run, id, ttl)
    ensures Spaced([t[id].processedAt] + Stamps(t, run, id), Lease(ttl))
    decreases |run|
  {
    if run != [] {
      var t' := Apply(t, run[0]);
      if Claims(t, run[0], id) {
        HeldSlotSpacing(t', run[1..], id, ttl, statuses);
        LeaseMonotone(ttl, run[0].ttl);
        var rest := Stamps(t', run[1..], id);
        assert Stamps(t, run, id) == [t'[id].processedAt] + rest;
        assert [t[id].processedAt] + Stamps(t, run, id) == [t[id].processedAt] + ([t'[id].processedAt] + rest);
      } else if Rewrites(run[0], id) {
        FinishedRowUnclaimed(t', run[1..], id, statuses);
      } else {
        HeldSlotSpacing(t', run[1..], id, ttl, statuses);
        assert t'[id] == t[id];
        assert Stamps(t, run, id) == Stamps(t', run[1..], id);
      }
    }
  }

  /**
   Lease separation. In any interleaving, and whatever clocks the transactions see: while `id` is not deleted and every
   status written to it is one that admits no claim, such as the PROCESSED every worker ends with, successful claims with TTL
   at least `ttl` are stamped at least max(1, ttl) seconds apart.
   */
  lemma {:induction false} ClaimsSeparated(t: Slots, run: seq<Statement>, id: int, ttl: int, statuses: set<string>)
    requires NoneClaimable(statuses) && Within(t, run, id, statuses, false) && TtlAtLeast(run, id, ttl)
    ensures Spaced(Stamps(t, run, id), Lease(ttl))
    decreases |run|
  {
    if run != [] {
      var t' := Apply(t, run[0]);
      if Claims(t, run[0], id) {
        HeldSlotSpacing(t', run[1..], id, ttl, statuses);
        assert Stamps(t, run, id) == [t'[id].processedAt] + Stamps(t', run[1..], id);
      } else {
        ClaimsSeparated(t', run[1..], id, ttl, statuses);
        assert Stamps(t, run, id) == Stamps(t', run[1..], id);
      }
    }
  }

  lemma {:induction false} SpacedSpan(stamps: seq<int>, gap: int, i: nat)
    requires Spaced(stamps, gap) && i < |stamps|
    ensures stamps[i] - stamps[0] >= i * gap
  {
    if i != 0 {
      SpacedSpan(stamps, gap, i - 1);
      assert i * gap == (i - 1) * gap + gap;
    }
  }

  /** k such claims span at least (k - 1) * max(1, ttl) seconds. */
  lemma ClaimsSpan(t: Slots, run: seq<Statement>, id: int, ttl: int, statuses: set<string>)
    requires NoneClaimable(statuses) && Within(t, run, id, statuses, false) && TtlAtLeast(run, id, ttl)
    requires Stamps(t, run, id) != []
    ensures var stamps := Stamps(t, run, id);
            stamps[|stamps| - 1] - stamps[0] >= (|stamps| - 1) * Lease(ttl)
  {
    ClaimsSeparated(t, run, id, ttl, statuses);
    SpacedSpan(Stamps(t, run, id), Lease(ttl), |Stamps(t, run, id)| - 1);
  }

  /** Every run within these limits keeps the claims of `id` a lease apart. */
  ghost predicate KeepsApart(id: int, ttl: int, statuses: set<string>, deletions: bool) {
    forall t, run | Within(t, run, id, statuses, deletions) && TtlAtLeast(run, id, ttl) :: Spaced(Stamps(t, run, id), Lease(ttl))
  }

  /** Three statements of which the second opens the row again: two claims at one instant. */
  lemma ReopenedAtOnce(id: int, ttl: int, reopen: Statement, again: Statement, statuses: set<string>, deletions: bool)
    requires var t1 := Apply(map[], TryCreate(id, None, 0));
             var t2 := Apply(t1, reopen);
             && !Claims(t1, reopen, id) && Claims(t2, again, id) && again.now == 0
             && (again.ReclaimStale? ==> again.ttl == ttl) && !reopen.ReclaimStale?
             && (Rewrites(reopen, id) ==> reopen.status in statuses) && (Deletes(t1, reopen, id) ==> deletions)
    ensures !KeepsApart(id, ttl, statuses, deletions)
  {
    var first := TryCreate(id, None, 0);
    var t1 := Apply(map[], first);
    var t2 := Apply(t1, reopen);
    var run := [first, reopen, again];
    assert run[1..] == [reopen, again] && run[1..][1..] == [again] && [again][1..] == [];
    assert Stamps(t2, [again], id) == [0];
    assert Stamps(t1, [reopen, again], id) == [0];
    assert Stamps(map[], run, id) == [0] + [0];
    assert Within(t2, [again], id, statuses, deletions);
    assert Within(t1, [reopen, again], id, statuses, deletions);
    assert Within(map[], run, id, statuses, deletions);
    var stamps := Stamps(map[], run, id);
    assert stamps[1] - stamps[0] == 0;
  }

  /** set_status is not fenced: anyone's FAILED lets the row be claimed again at once. */
  lemma FailedWriteReopens(id: int, ttl: int, statuses: set<string>, deletions: bool)
    requires "FAILED" in statuses
    ensures !KeepsApart(id, ttl, statuses, deletions)
  {
    ReopenedAtOnce(id, ttl, SetStatus(id, "FAILED", 0, None), ReclaimFailed(id, None, 0), statuses, deletions);
  }

  /** And a PROCESSING written with an old time has its lease expired already. */
  lemma BackdatedWriteReopens(id: int, ttl: int, statuses: set<string>, deletions: bool)
    requires "PROCESSING" in statuses
    ensures !KeepsApart(id, ttl, statuses, deletions)
  {
    ReopenedAtOnce(id, ttl, SetStatus(id, "PROCESSING", -Lease(ttl), None), ReclaimStale(id, None, ttl, 0), statuses, deletions);
  }

  lemma OnlyRowDeleted(id: int, r: Row)
    ensures id !in Apply(map[id := r], DeleteBefore(r.processedAt + 1, 1))
  {
    var t, time := map[id := r], (r: Row) => r.processedAt;
    var key := Key(r.processedAt, id);
    var view := View(t, time);
    OrderIsSorted(KeysOf(t, time));
    assert id in t && Key(time(t[id]), id) == key;
    assert key in KeysOf(t, time);
    assert key in view;
    assert forall k | k in view :: k == key;
    assert view[0] in view && Expired(view, r.processedAt + 1) >= 1;
    assert view[..BatchSize(view, r.processedAt + 1, 1)][0] == key;
  }

  /** A deleted row can be inserted again at once. */
  lemma DeletionReopens(id: int, ttl: int, statuses: set<string>)
    ensures !KeepsApart(id, ttl, statuses, true)
  {
    OnlyRowDeleted(id, Row("PROCESSING", 0, None));
    ReopenedAtOnce(id, ttl, DeleteBefore(1, 1), TryCreate(id, None, 0), statuses, true);
  }

  /**
   Exactly what separation needs: all runs that write only these statuses to `id` keep its claims a lease apart if and only if
   neither PROCESSING nor FAILED is among the statuses and the row is not deleted.
   */
  lemma SeparationIff(id: int, ttl: int, statuses: set<string>, deletions: bool)
    ensures KeepsApart(id, ttl, statuses, deletions) <==> NoneClaimable(statuses) && !deletions
  {
    if "FAILED" in statuses {
      FailedWriteReopens(id, ttl, statuses, deletions);
    } else if "PROCESSING" in statuses {
      BackdatedWriteReopens(id, ttl, statuses, deletions);
    } else if deletions {
      DeletionReopens(id, ttl, statuses);
    } else {
      forall t, run | Within(t, run, id, statuses, false) && TtlAtLeast(run, id, ttl)
        ensures Spaced(Stamps(t, run, id), Lease(ttl))
      {
        ClaimsSeparated(t, run, id, ttl, statuses);
      }
    }
  }

  /** The same in a history that can happen: a worker that lost its lease fails the row of the worker that took it over. */
  lemma LateFailureBreaksSeparation(id: int)
    ensures var run := [TryCreate(id, Some("a"), 0), ReclaimStale(id, Some("b"), 1, MICROS_PER_SECOND),
                        SetStatus(id, "FAILED", MICROS_PER_SECOND, None), ReclaimFailed(id, Some("c"), MICROS_PER_SECOND)];
            && Stamps(map[], run, id) == [0, MICROS_PER_SECOND, MICROS_PER_SECOND]
            && !Spaced(Stamps(map[], run, id), Lease(1))
  {
    var s0, s1 := TryCreate(id, Some("a"), 0), ReclaimStale(id, Some("b"), 1, MICROS_PER_SECOND);
    var s2 := SetStatus(id, "FAILED", MICROS_PER_SECOND, None);
    var s3 := ReclaimFailed(id, Some("c"), MICROS_PER_SECOND);
    var t1 := Apply(map[], s0);
    var t2 := Apply(t1, s1);
    var t3 := Apply(t2, s2);
    assert Stamps(t3, [s3], id) == [MICROS_PER_SECOND];
    assert [s2, s3][1..] == [s3];
    assert Stamps(t2, [s2, s3], id) == [MICROS_PER_SECOND];
    assert [s1, s2, s3][1..] == [s2, s3];
    assert Stamps(t1, [s1, s2, s3], id) == [MICROS_PER_SECOND, MICROS_PER_SECOND];
    assert [s0, s1, s2, s3][1..] == [s1, s2, s3];
    var stamps := Stamps(map[], [s0, s1, s2, s3], id);
    assert stamps == [0, MICROS_PER_SECOND, MICROS_PER_SECOND];
    assert stamps[2] - stamps[1] == 0;
  }

  predicate Inserts(t: Slots, s: Statement, id: int) {
    (s.TryCreate? || s.Create?) && s.id == id && Matches(t, s)
  }

  predicate WritesFailed(t: Slots, s: Statement, id: int) {
    (s.SetStatus? || s.Create?) && s.id == id && s.status == "FAILED" && Matches(t, s)
  }

  predicate TakesFailed(t: Slots, s: Statement, id: int) {
    s.ReclaimFailed? && s.id == id && Matches(t, s)
  }

  function Count(t: Slots, run: seq<Statement>, event: (Slots, Statement) -> bool): nat
    decreases |run|
  {
    if run == [] then 0
    else (if event(t, run[0]) then 1 else 0) + Count(Apply(t, run[0]), run[1..], event)
  }

  function Present(t: Slots, id: int): nat {
    if id in t then 1 else 0
  }

  function IsFailed(t: Slots, id: int): nat {
    if id in t && t[id].status == "FAILED" then 1 else 0
  }

  /** Over every run, inserts and deletions of an id balance exactly; so inserts number at most 1 + deletions. */
  lemma {:induction false} InsertBalance(t: Slots, run: seq<Statement>, id: int)
    ensures Present(t, id) + Count(t, run, (u, s) => Inserts(u, s, id))
         == Present(Run(t, run), id) + Count(t, run, (u, s) => Deletes(u, s, id))
    decreases |run|
  {
    if run != [] {
      InsertBalance(Apply(t, run[0]), run[1..], id);
    }
  }

  /** Over every run, each FAILED-reclaim consumes a FAILED write (or the FAILED row the run started with). */
  lemma {:induction false} FailedReclaimsBounded(t: Slots, run: seq<Statement>, id: int)
    ensures Count(t, run, (u, s) => TakesFailed(u, s, id)) + IsFailed(Run(t, run), id)
         <= IsFailed(t, id) + Count(t, run, (u, s) => WritesFailed(u, s, id))
    decreases |run|
  {
    if run != [] {
      FailedReclaimsBounded(Apply(t, run[0]), run[1..], id);
    }
  }

  predicate TakesStale(t: Slots, s: Statement, id: int) {
    s.ReclaimStale? && s.id == id && Matches(t, s)
  }

  /**
   Claim accounting: every claim is paid for by a free id, a FAILED row at the start, a deletion, a FAILED write, or an
   expired lease.
   */
  lemma ClaimAccounting(t: Slots, run: seq<Statement>, id: int)
    ensures |Stamps(t, run, id)| + Present(t, id)
         <= 1 + IsFailed(t, id)
            + Count(t, run, (u, s) => Deletes(u, s, id))
            + Count(t, run, (u, s) => WritesFailed(u, s, id))
            + Count(t, run, (u, s) => TakesStale(u, s, id))
  {
    InsertBalance(t, run, id);
    FailedReclaimsBounded(t, run, id);
    ClaimKinds(t, run, id);
  }

  lemma {:induction false} ClaimKinds(t: Slots, run: seq<Statement>, id: int)
    ensures |Stamps(t, run, id)|
         <= Count(t, run, (u, s) => Inserts(u, s, id))
            + Count(t, run, (u, s) => TakesFailed(u, s, id))
            + Count(t, run, (u, s) => TakesStale(u, s, id))
    decreases |run|
  {
    if run != [] {
      ClaimKinds(Apply(t, run[0]), run[1..], id);
    }
  }

  /** A row in any status but PROCESSING and FAILED admits no claim, and stays as it is, until rewritten or deleted. */
  lemma {:induction false} TerminalRowFrozen(t: Slots, run: seq<Statement>, id: int)
    requires id in t && t[id].status != "PROCESSING" && t[id].status != "FAILED"
    requires Undisturbed(t, run, id)
    ensures Stamps(t, run, id) == []
    ensures id in Run(t, run) && Run(t, run)[id] == t[id]
    decreases |run|
  {
    if run != [] {
      assert !Claims(t, run[0], id) && Apply(t, run[0])[id] == t[id];
      TerminalRowFrozen(Apply(t, run[0]), run[1..], id);
    }
  }

  /** A row one statement both finds and leaves is only ever changed by a claim, a write, or not at all. */
  lemma OnlyClaimsAndWrites(t: Slots, s: Statement, id: int)
    requires id in t && id in Apply(t, s) && Apply(t, s)[id] != t[id]
    ensures Claims(t, s, id) || Rewrites(s, id)
  {
  }

  /** From a claim until the next claim, write or deletion the row is the claimer's: stamped then, and naming its task. */
  lemma HolderNamed(t: Slots, s: Statement, run: seq<Statement>, id: int)
    requires Claims(t, s, id) && Undisturbed(Apply(t, s), run, id) && Stamps(Apply(t, s), run, id) == []
    ensures id in Run(Apply(t, s), run) && Run(Apply(t, s), run)[id] == Row("PROCESSING", s.now, s.task)
  {
    Untouched(Apply(t, s), run, id);
  }

  lemma {:induction false} Untouched(t: Slots, run: seq<Statement>, id: int)
    requires id in t && Undisturbed(t, run, id) && Stamps(t, run, id) == []
    ensures id in Run(t, run) && Run(t, run)[id] == t[id]
    decreases |run|
  {
    if run != [] {
      assert !Claims(t, run[0], id);
      assert Apply(t, run[0])[id] == t[id];
      Untouched(Apply(t, run[0]), run[1..], id);
    }
  }

  /** No write of a status and no plain insert in the run names a task, as no worker's does. */
  ghost predicate WritesNameNoTask(run: seq<Statement>, id: int) {
    forall s | s in run && (s.SetStatus? || s.Create?) && s.id == id :: s.task == None
  }

  /** After a worker's last write the row names no task until the next claim, whatever else is written or deleted meanwhile. */
  lemma ReleasedUntilClaimed(t: Slots, run: seq<Statement>, id: int, status: string, at: int)
    requires id in t && WritesNameNoTask(run, id)
    requires Stamps(Apply(t, SetStatus(id, status, at, None)), run, id) == []
    ensures var end := Run(Apply(t, SetStatus(id, status, at, None)), run);
            id in end ==> end[id].taskId == None
  {
    StaysReleased(Apply(t, SetStatus(id, status, at, None)), run, id);
  }

  lemma {:induction false} StaysReleased(t: Slots, run: seq<Statement>, id: int)
    requires id in t ==> t[id].taskId == None
    requires WritesNameNoTask(run, id) && Stamps(t, run, id) == []
    ensures id in Run(t, run) ==> Run(t, run)[id].taskId == None
    decreases |run|
  {
    if run != [] {
      assert !Claims(t, run[0], id) && run[0] in run;
      StaysReleased(Apply(t, run[0]), run[1..], id);
    }
  }

  datatype Acquired = Created | ReclaimedFailed | ReclaimedStale | Duplicate

  /** The processed_updates table. */
  class SlotTable {
    var rows: Slots

    constructor (rows: Slots)
      ensures this.rows == rows
    {
      this.rows := rows;
    }

    method TryCreateProcessingSlot(id: int, task: Option<string>, now: int) returns (created: bool)
      modifies this
      ensures created == (id !in old(rows)) == Matches(old(rows), TryCreate(id, task, now))
      ensures rows == if created then old(rows)[id := Row("PROCESSING", now, task)] else old(rows)
      ensures rows == Apply(old(rows), TryCreate(id, task, now))
    {
      created := id !in rows;
      if created {
        rows := rows[id := Row("PROCESSING", now, task)];
      }
    }

    method TryReclaimFailedProcessingSlot(id: int, task: Option<string>, now: int) returns (reclaimed: bool)
      modifies this
      ensures reclaimed == (id in old(rows) && old(rows)[id].status == "FAILED") == Matches(old(rows), ReclaimFailed(id, task, now))
      ensures rows == if reclaimed then old(rows)[id := Row("PROCESSING", now, task)] else old(rows)
      ensures rows == Apply(old(rows), ReclaimFailed(id, task, now))
    {
      reclaimed := id in rows && rows[id].status == "FAILED";
      if reclaimed {
        rows := rows[id := Row("PROCESSING", now, task)];
      }
    }

    method TryReclaimStaleProcessingSlot(id: int, task: Option<string>, ttl: int, now: int) returns (reclaimed: bool)
      modifies this
      ensures reclaimed == (&& id in old(rows) && old(rows)[id].status == "PROCESSING"
                            && now - old(rows)[id].processedAt >= (if ttl < 1 then 1_000_000 else 1_000_000 * ttl))
      ensures rows == if reclaimed then old(rows)[id := Row("PROCESSING", now, task)] else old(rows)
      ensures reclaimed == Matches(old(rows), ReclaimStale(id, task, ttl, now))
      ensures rows == Apply(old(rows), ReclaimStale(id, task, ttl, now))
    {
      reclaimed := false;
      if id in rows && rows[id].status == "PROCESSING" {
        var age := now - rows[id].processedAt;
        reclaimed := age >= Max(1, ttl) * MICROS_PER_SECOND;
        if reclaimed {
          rows := rows[id := Row("PROCESSING", now, task)];
        }
      }
    }

    /** The plain insert: a row already there is an integrity error. */
    method Create(id: int, status: string, processedAt: Option<int>, task: Option<string>, now: int) returns (created: bool)
      modifies this
      ensures created == (id !in old(rows))
      ensures var at := if processedAt.Some? then processedAt.value else now;
              && rows == (if created then old(rows)[id := Row(status, at, task)] else old(rows))
              && rows == Apply(old(rows), Statement.Create(id, status, at, task))
    {
      created := id !in rows;
      if created {
        rows := rows[id := Row(status, if processedAt.Some? then processedAt.value else now, task)];
      }
    }

    method SetSlotStatus(id: int, status: string, processedAt: Option<int>, task: Option<string>, now: int)
      returns (updated: nat)
      modifies this
      ensures updated == if id in old(rows) then 1 else 0
      ensures var at := if processedAt.Some? then processedAt.value else now;
              && rows == (if id in old(rows) then old(rows)[id := Row(status, at, task)] else old(rows))
              && rows == Apply(old(rows), SetStatus(id, status, at, task))
    {
      updated := 0;
      if id in rows {
        rows := rows[id := Row(status, if processedAt.Some? then processedAt.value else now, task)];
        updated := 1;
      }
    }

    method DeleteProcessedBefore(cutoff: int, limit: int) returns (deleted: nat)
      modifies this
      ensures OldestGone(old(rows), rows, (r: Row) => r.processedAt, cutoff, limit, deleted)
      ensures rows == Apply(old(rows), DeleteBefore(cutoff, limit))
      ensures View(rows, (r: Row) => r.processedAt)
           == Retention.DeleteBatch(View(old(rows), (r: Row) => r.processedAt), cutoff, limit)
      ensures deleted == BatchSize(View(old(rows), (r: Row) => r.processedAt), cutoff, limit)
    {
      var view := View(rows, (r: Row) => r.processedAt);
      deleted := BatchSize(view, cutoff, limit);
      ViewWithoutPrefix(rows, (r: Row) => r.processedAt, deleted);
      BatchIsOldest(rows, (r: Row) => r.processedAt, cutoff, limit);
      rows := Without(rows, view[..deleted]);
    }

    /**
     One worker's acquisition transaction, alone: the update is claimed unless its row is finished or its lease is still
     running, and then the row is this worker's, stamped now.
     */
    method AcquireProcessingSlot(id: int, task: Option<string>, ttl: int, now: int) returns (outcome: Acquired)
      modifies this
      ensures outcome.Created? <==> id !in old(rows)
      ensures outcome.ReclaimedFailed? <==> id in old(rows) && old(rows)[id].status == "FAILED"
      ensures outcome.ReclaimedStale? <==>
                && id in old(rows) && old(rows)[id].status == "PROCESSING"
                && now - old(rows)[id].processedAt >= (if ttl < 1 then 1_000_000 else 1_000_000 * ttl)
      ensures rows == if outcome.Duplicate? then old(rows) else old(rows)[id := Row("PROCESSING", now, task)]
    {
      var created := TryCreateProcessingSlot(id, task, now);
      if created {
        return Created;
      }
      var failed := TryReclaimFailedProcessingSlot(id, task, now);
      if failed {
        return ReclaimedFailed;
      }
      var stale := TryReclaimStaleProcessingSlot(id, task, ttl, now);
      return if stale then ReclaimedStale else Duplicate;
    }
  }
}
