/** Runs of the steps that touch promo codes, in any order and at any times. */
module PromoRuns {
  import opened Options
  import opened PromoCodes

  /** `Edit` and `Use` stand for the admin form (any times and limits) and for a redemption. */
  datatype Step =
    | Expire(now: int)
    | Deplete(now: int)
    | PauseListed(hashes: seq<string>, now: int)
    | SetStatus(id: CodeId, desired: string, expected: Option<string>, now: int)
    | Switch(id: CodeId, now: int)
    | Create(id: CodeId, code: Code)
    | Edit(id: CodeId, validUntil: int, maxTotal: Option<int>, now: int)
    | Use(id: CodeId, now: int)

  /** One step. A step that is refused, or that names no code, changes nothing. */
  function Apply(codes: Codes, step: Step): Codes {
    match step
    case Expire(now) => Updated(codes, Due(now), Expired, now)
    case Deplete(now) => Updated(codes, Spent(), Depleted, now)
    case PauseListed(hashes, now) => Updated(codes, Listed(hashes), Paused, now)
    case SetStatus(id, desiredText, expectedText, now) =>
      var desired := StatusNamed(desiredText);
      var expected := if expectedText.Some? then Some(StatusNamed(expectedText.value)) else None;
      if id !in codes || Routed(Some(codes[id]), desired, expected).Some? || desired == Some(codes[id].status) then codes
      else codes[id := codes[id].(status := desired.value, updatedAt := now)]
    case Switch(id, now) =>
      if id !in codes || !Mutable(codes[id].status) then codes
      else codes[id := codes[id].(status := if codes[id].status == Active then Paused else Active, updatedAt := now)]
    case Create(id, code) => if id in codes then codes else codes[id := code]
    case Edit(id, validUntil, maxTotal, now) =>
      if id !in codes then codes else codes[id := codes[id].(validUntil := validUntil, maxTotal := maxTotal, updatedAt := now)]
    case Use(id, now) =>
      if id !in codes then codes else codes[id := codes[id].(usedTotal := codes[id].usedTotal + 1, updatedAt := now)]
  }

  /** The steps as the table's own operations make them. */
  method Perform(table: CodeTable, step: Step)
    modifies table
    ensures table.codes == Apply(old(table.codes), step)
  {
    match step
    case Expire(now) =>
      var _ := table.ExpireActive(now);
    case Deplete(now) =>
      var _ := table.DepleteActive(now);
    case PauseListed(hashes, now) =>
      var _ := table.PauseByHashes(hashes, now);
    case SetStatus(id, desired, expected, now) =>
      StatusNames(desired);
      var _ := table.UpdateStatus(id, desired, expected, now);
    case Switch(id, now) =>
      var _ := table.Toggle(id, now);
    case Create(id, code) =>
      if id !in table.codes {
        table.codes := table.codes[id := code];
      }
    case Edit(id, validUntil, maxTotal, now) =>
      if id in table.codes {
        table.codes := table.codes[id := table.codes[id].(validUntil := validUntil, maxTotal := maxTotal, updatedAt := now)];
      }
    case Use(id, now) =>
      if id in table.codes {
        table.codes := table.codes[id := table.codes[id].(usedTotal := table.codes[id].usedTotal + 1, updatedAt := now)];
      }
  }

  function Run(codes: Codes, steps: seq<Step>, n: nat): Codes
    requires n <= |steps|
  {
    if n == 0 then codes else Apply(Run(codes, steps, n - 1), steps[n - 1])
  }

  predicate Finished(s: Status) {
    s == Expired || s == Depleted
  }

  lemma StepKeepsFinished(codes: Codes, step: Step, id: CodeId)
    requires id in codes
    ensures id in Apply(codes, step)
    ensures Finished(codes[id].status) ==> Apply(codes, step)[id].status == codes[id].status
  {
  }

  /** Codes are never deleted, and EXPIRED and DEPLETED are absorbing. */
  lemma {:induction false} FinishedStays(codes: Codes, steps: seq<Step>, n: nat, id: CodeId)
    requires n <= |steps| && id in codes
    ensures id in Run(codes, steps, n)
    ensures codes[id].status == Expired ==> Run(codes, steps, n)[id].status == Expired
    ensures codes[id].status == Depleted ==> Run(codes, steps, n)[id].status == Depleted
  {
    if n != 0 {
      FinishedStays(codes, steps, n - 1, id);
      StepKeepsFinished(Run(codes, steps, n - 1), steps[n - 1], id);
    }
  }

  /** How many of the first n steps use this code. */
  function Uses(steps: seq<Step>, n: nat, id: CodeId): nat
    requires n <= |steps|
  {
    if n == 0 then 0 else Uses(steps, n - 1, id) + if steps[n - 1].Use? && steps[n - 1].id == id then 1 else 0
  }

  /** The admin form was sent for this code among the first n steps. */
  predicate Edited(steps: seq<Step>, n: nat, id: CodeId)
    requires n <= |steps|
  {
    exists k | 0 <= k < n :: steps[k].Edit? && steps[k].id == id
  }

  /** Over every run each use counts one, the hash stays, and nothing but the admin form changes a code's end and limit. */
  lemma {:induction false} UsesCounted(codes: Codes, steps: seq<Step>, n: nat, id: CodeId)
    requires n <= |steps| && id in codes
    ensures id in Run(codes, steps, n)
    ensures var after := Run(codes, steps, n)[id];
            && after.usedTotal == codes[id].usedTotal + Uses(steps, n, id) && after.hash == codes[id].hash
            && (!Edited(steps, n, id) ==> after.validUntil == codes[id].validUntil && after.maxTotal == codes[id].maxTotal)
  {
    if n != 0 {
      UsesCounted(codes, steps, n - 1, id);
      StepKeepsColumns(Run(codes, steps, n - 1), steps[n - 1], id);
    }
  }

  lemma StepKeepsColumns(codes: Codes, step: Step, id: CodeId)
    requires id in codes
    ensures id in Apply(codes, step)
    ensures var before, after := codes[id], Apply(codes, step)[id];
            && after.usedTotal == before.usedTotal + (if step.Use? && step.id == id then 1 else 0) && after.hash == before.hash
            && (if step.Edit? && step.id == id then after.validUntil == step.validUntil && after.maxTotal == step.maxTotal
                else after.validUntil == before.validUntil && after.maxTotal == before.maxTotal)
  {
  }

  /** The step that made the code what it is: its own statement, while the code was active and due. */
  ghost predicate FinishedBy(before: Code, step: Step, status: Status) {
    before.status == Active
    && ((status == Expired && step.Expire? && before.validUntil <= step.now) || (status == Depleted && step.Deplete? && UsedUp(before)))
  }

  /** What one step can do to a code's status. */
  lemma StatusMoves(codes: Codes, step: Step, id: CodeId)
    requires id in codes && Apply(codes, step)[id].status != codes[id].status
    ensures var before, after := codes[id], Apply(codes, step)[id];
            || FinishedBy(before, step, after.status)
            || (before.status == Active && after.status == Paused)
            || (before.status == Paused && after.status == Active && (step.SetStatus? || step.Switch?) && step.id == id)
  {
  }

  /** What the step before the end of a run can have done. */
  lemma LastMove(codes: Codes, steps: seq<Step>, n: nat, id: CodeId, before: Status, after: Status)
    requires 0 < n <= |steps| && id in Run(codes, steps, n - 1) && id in Run(codes, steps, n)
    requires before == Run(codes, steps, n - 1)[id].status && after == Run(codes, steps, n)[id].status
    ensures Finished(before) ==> after == before
    ensures before != after ==>
              || FinishedBy(Run(codes, steps, n - 1)[id], steps[n - 1], after)
              || (before == Active && after == Paused)
              || (before == Paused && after == Active && (steps[n - 1].SetStatus? || steps[n - 1].Switch?) && steps[n - 1].id == id)
  {
    StepKeepsFinished(Run(codes, steps, n - 1), steps[n - 1], id);
    if before != after {
      StatusMoves(Run(codes, steps, n - 1), steps[n - 1], id);
    }
  }

  /** A code that a run has finished was finished in one step of it, while active and due. */
  lemma {:induction false} FinishedWasDue(codes: Codes, steps: seq<Step>, n: nat, id: CodeId) returns (k: nat)
    requires n <= |steps| && id in codes && !Finished(codes[id].status)
    requires id in Run(codes, steps, n) && Finished(Run(codes, steps, n)[id].status)
    ensures k < n && id in Run(codes, steps, k) && FinishedBy(Run(codes, steps, k)[id], steps[k], Run(codes, steps, n)[id].status)
  {
    FinishedStays(codes, steps, n - 1, id);
    var before, after := Run(codes, steps, n - 1)[id].status, Run(codes, steps, n)[id].status;
    LastMove(codes, steps, n, id, before, after);
    if Finished(before) {
      k := FinishedWasDue(codes, steps, n - 1, id);
    } else {
      k := n - 1;
    }
  }

  /** The status route or the switch was used on this code. */
  predicate Switches(step: Step, id: CodeId) {
    (step.SetStatus? || step.Switch?) && step.id == id
  }

  lemma StepKeepsPaused(codes: Codes, step: Step, id: CodeId)
    requires id in codes && codes[id].status == Paused && !Switches(step, id)
    ensures id in Apply(codes, step) && Apply(codes, step)[id].status == Paused
  {
  }

  lemma {:induction false} PausedStays(codes: Codes, steps: seq<Step>, n: nat, id: CodeId)
    requires n <= |steps| && id in codes && codes[id].status == Paused && forall k | 0 <= k < n :: !Switches(steps[k], id)
    ensures id in Run(codes, steps, n) && Run(codes, steps, n)[id].status == Paused
  {
    if n != 0 {
      PausedStays(codes, steps, n - 1, id);
      StepKeepsPaused(Run(codes, steps, n - 1), steps[n - 1], id);
    }
  }

  /** A paused code comes back only by the status route or the switch, never by a maintenance job. */
  lemma OnlySwitchesReactivate(codes: Codes, steps: seq<Step>, n: nat, id: CodeId) returns (k: nat)
    requires n <= |steps| && id in codes && codes[id].status == Paused
    requires id in Run(codes, steps, n) && Run(codes, steps, n)[id].status != Paused
    ensures k < n && (steps[k].SetStatus? || steps[k].Switch?) && steps[k].id == id
  {
    if forall k | 0 <= k < n :: !Switches(steps[k], id) {
      PausedStays(codes, steps, n, id);
      assert false;
    }
    k :| k < n && Switches(steps[k], id);
  }
}
