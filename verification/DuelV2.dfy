/**
 The duel-v2 migration of friend_challenges: new columns, an ordered sequence of UPDATEs that fills finished_at and remaps
 ACTIVE, the swap of the status CHECK around them, and the downgrade.
 */
module DuelV2 {
  import opened Options

  datatype Status =
    | ACTIVE | PENDING | ACCEPTED | CREATOR_DONE | OPPONENT_DONE | COMPLETED | EXPIRED | CANCELED | WALKOVER

  const OLD_STATUSES := {ACTIVE, COMPLETED, CANCELED, EXPIRED}
  const NEW_STATUSES := {ACTIVE, PENDING, ACCEPTED, CREATOR_DONE, OPPONENT_DONE, COMPLETED, EXPIRED, CANCELED, WALKOVER}

  /** The columns friend_challenges has before the migration that its statements read or write. */
  datatype Base = Base(opponentUserId: Option<int>, status: Status, totalRounds: int, creatorAnswered: int,
                       opponentAnswered: int, createdAt: int, updatedAt: int, completedAt: Option<int>)

  /** The columns it adds. */
  datatype Extra = Extra(challengeType: Option<string>, questionIds: Option<seq<string>>, tournamentMatchId: Option<int>,
                         creatorFinishedAt: Option<int>, opponentFinishedAt: Option<int>, creatorPushCount: int,
                         opponentPushCount: int, creatorProofFileId: Option<string>, opponentProofFileId: Option<string>)

  datatype Challenge = Challenge(base: Base, extra: Extra)

  const ADDED_COLUMNS := Extra(None, None, None, None, None, 0, 0, None, None)

  /** The status CHECKs: the migration adds four statuses of a game in play and the walkover, and drops none. */
  lemma StatusSets(s: Status)
    ensures s in NEW_STATUSES
    ensures s !in OLD_STATUSES <==> s == PENDING || s == ACCEPTED || s == CREATOR_DONE || s == OPPONENT_DONE || s == WALKOVER
  {
  }

  /** COALESCE(completed_at, updated_at, created_at); updated_at is never NULL. */
  function FinishTime(b: Base): int {
    if b.completedAt.Some? then b.completedAt.value else b.updatedAt
  }

  // ----- the UPDATE statements, each on one row

  function SetDirect(c: Challenge): Challenge {
    if c.extra.challengeType.None? then c.(extra := c.extra.(challengeType := Some("DIRECT"))) else c
  }

  function SetCreatorFinished(c: Challenge): Challenge {
    if c.extra.creatorFinishedAt.None? && c.base.creatorAnswered >= c.base.totalRounds
    then c.(extra := c.extra.(creatorFinishedAt := Some(FinishTime(c.base)))) else c
  }

  function SetOpponentFinished(c: Challenge): Challenge {
    if c.extra.opponentFinishedAt.None? && c.base.opponentAnswered >= c.base.totalRounds
    then c.(extra := c.extra.(opponentFinishedAt := Some(FinishTime(c.base)))) else c
  }

  function SetPending(c: Challenge): Challenge {
    if c.base.status.ACTIVE? && c.base.opponentUserId.None? then c.(base := c.base.(status := PENDING)) else c
  }

  function SetCompleted(c: Challenge): Challenge {
    if && c.base.status.ACTIVE? && c.base.opponentUserId.Some?
       && c.base.creatorAnswered >= c.base.totalRounds && c.base.opponentAnswered >= c.base.totalRounds
    then c.(base := c.base.(status := COMPLETED)) else c
  }

  function SetCreatorDone(c: Challenge): Challenge {
    if && c.base.status.ACTIVE? && c.base.opponentUserId.Some?
       && c.base.creatorAnswered >= c.base.totalRounds && c.base.opponentAnswered < c.base.totalRounds
    then c.(base := c.base.(status := CREATOR_DONE)) else c
  }

  function SetOpponentDone(c: Challenge): Challenge {
    if && c.base.status.ACTIVE? && c.base.opponentUserId.Some?
       && c.base.opponentAnswered >= c.base.totalRounds && c.base.creatorAnswered < c.base.totalRounds
    then c.(base := c.base.(status := OPPONENT_DONE)) else c
  }

  function SetAccepted(c: Challenge): Challenge {
    if c.base.status.ACTIVE? && c.base.opponentUserId.Some? then c.(base := c.base.(status := ACCEPTED)) else c
  }

  function SetActive(c: Challenge): Challenge {
    if c.base.status in {PENDING, ACCEPTED, CREATOR_DONE, OPPONENT_DONE} then c.(base := c.base.(status := ACTIVE)) else c
  }

  function SetExpired(c: Challenge): Challenge {
    if c.base.status.WALKOVER? then c.(base := c.base.(status := EXPIRED)) else c
  }

  // ----- what they amount to

  /** The status an upgraded row has, in one case distinction. */
  function UpgradedStatus(b: Base): Status {
    if !b.status.ACTIVE? then b.status
    else if b.opponentUserId.None? then PENDING
    else
      match (b.creatorAnswered >= b.totalRounds, b.opponentAnswered >= b.totalRounds)
      case (true, true) => COMPLETED
      case (true, false) => CREATOR_DONE
      case (false, true) => OPPONENT_DONE
      case (false, false) => ACCEPTED
  }

  function UpgradedRow(b: Base): Challenge {
    Challenge(
      b.(status := UpgradedStatus(b)),
      ADDED_COLUMNS.(
        challengeType := Some("DIRECT"),
        creatorFinishedAt := if b.creatorAnswered >= b.totalRounds then Some(FinishTime(b)) else None,
        opponentFinishedAt := if b.opponentAnswered >= b.totalRounds then Some(FinishTime(b)) else None))
  }

  function DowngradedStatus(s: Status): Status {
    match s
    case PENDING | ACCEPTED | CREATOR_DONE | OPPONENT_DONE => ACTIVE
    case WALKOVER => EXPIRED
    case _ => s
  }

  function DowngradedRow(c: Challenge): Base {
    c.base.(status := DowngradedStatus(c.base.status))
  }

  /** The upgrade's UPDATE statements by position; the first three run under the old status CHECK. */
  function UpgradeStatement(k: nat, c: Challenge): Challenge {
    match k
    case 1 => SetDirect(c)
    case 2 => SetCreatorFinished(c)
    case 3 => SetOpponentFinished(c)
    case 4 => SetPending(c)
    case 5 => SetCompleted(c)
    case 6 => SetCreatorDone(c)
    case 7 => SetOpponentDone(c)
    case 8 => SetAccepted(c)
    case _ => c
  }

  /** A row after the first k statements. */
  function UpgradeStage(k: nat, c: Challenge): Challenge {
    if k == 0 then c else UpgradeStatement(k, UpgradeStage(k - 1, c))
  }

  /** The ordered UPDATEs equal the case distinction, row by row. */
  lemma UpdatesAreCases(b: Base)
    ensures UpgradeStage(8, Challenge(b, ADDED_COLUMNS)) == UpgradedRow(b)
  {
    var c := Challenge(b, ADDED_COLUMNS);
    var c1, c2 := SetDirect(c), SetCreatorFinished(SetDirect(c));
    var c3 := SetOpponentFinished(c2);
    assert UpgradeStage(0, c) == c && UpgradeStage(1, c) == c1 && UpgradeStage(2, c) == c2 && UpgradeStage(3, c) == c3;
    assert c3 == UpgradedRow(b).(base := b);
    var c5 := SetCompleted(SetPending(c3));
    assert UpgradeStage(4, c) == SetPending(c3) && UpgradeStage(5, c) == c5;
    var c7 := SetOpponentDone(SetCreatorDone(c5));
    assert UpgradeStage(6, c) == SetCreatorDone(c5) && UpgradeStage(7, c) == c7 && UpgradeStage(8, c) == SetAccepted(c7);
  }

  /**
   What an upgraded row says: no ACTIVE is left; each finished_at is set exactly when that player has answered every round;
   and the status of a formerly ACTIVE joined row agrees with them, in both directions.
   */
  lemma UpgradedRowMeaning(b: Base)
    ensures var c := UpgradedRow(b);
            && !c.base.status.ACTIVE?
            && c.extra.challengeType == Some("DIRECT")
            && (c.extra.creatorFinishedAt.Some? <==> b.creatorAnswered >= b.totalRounds)
            && (c.extra.opponentFinishedAt.Some? <==> b.opponentAnswered >= b.totalRounds)
            && (b.status.ACTIVE? && b.opponentUserId.Some? ==>
                  && (c.base.status in {CREATOR_DONE, COMPLETED} <==> c.extra.creatorFinishedAt.Some?)
                  && (c.base.status in {OPPONENT_DONE, COMPLETED} <==> c.extra.opponentFinishedAt.Some?))
            && (b.status.ACTIVE? ==> (c.base.status.PENDING? <==> b.opponentUserId.None?))
            && (!b.status.ACTIVE? ==> c.base == b)
  {
  }

  /** The finish time a player gets: when the game was completed, or else last touched, if all rounds are answered; else none. */
  predicate Finished(b: Base, answered: int, finishedAt: Option<int>) {
    && (answered < b.totalRounds ==> finishedAt == None)
    && (answered >= b.totalRounds && b.completedAt.Some? ==> finishedAt == b.completedAt)
    && (answered >= b.totalRounds && b.completedAt.None? ==> finishedAt == Some(b.updatedAt))
  }

  /** An upgraded row, column by column. */
  predicate Upgrades(b: Base, c: Challenge) {
    && c.base.opponentUserId == b.opponentUserId && c.base.totalRounds == b.totalRounds
    && c.base.creatorAnswered == b.creatorAnswered && c.base.opponentAnswered == b.opponentAnswered
    && c.base.createdAt == b.createdAt && c.base.updatedAt == b.updatedAt && c.base.completedAt == b.completedAt
    && c.extra.challengeType == Some("DIRECT")
    && Finished(b, b.creatorAnswered, c.extra.creatorFinishedAt) && Finished(b, b.opponentAnswered, c.extra.opponentFinishedAt)
    && c.extra.questionIds == None && c.extra.tournamentMatchId == None
    && c.extra.creatorPushCount == 0 && c.extra.opponentPushCount == 0
    && c.extra.creatorProofFileId == None && c.extra.opponentProofFileId == None
    && (!b.status.ACTIVE? ==> c.base.status == b.status)
    && (b.status.ACTIVE? && b.opponentUserId.None? ==> c.base.status == PENDING)
    && (b.status.ACTIVE? && b.opponentUserId.Some? ==>
          && (c.base.status == COMPLETED <==> b.creatorAnswered >= b.totalRounds && b.opponentAnswered >= b.totalRounds)
          && (c.base.status == CREATOR_DONE <==> b.creatorAnswered >= b.totalRounds && b.opponentAnswered < b.totalRounds)
          && (c.base.status == OPPONENT_DONE <==> b.creatorAnswered < b.totalRounds && b.opponentAnswered >= b.totalRounds)
          && (c.base.status == ACCEPTED <==> b.creatorAnswered < b.totalRounds && b.opponentAnswered < b.totalRounds))
  }

  lemma UpgradedColumns(b: Base)
    ensures Upgrades(b, UpgradedRow(b))
  {
  }

  /** A downgraded row, column by column. */
  predicate Downgrades(c: Challenge, b: Base) {
    && b.opponentUserId == c.base.opponentUserId && b.totalRounds == c.base.totalRounds
    && b.creatorAnswered == c.base.creatorAnswered && b.opponentAnswered == c.base.opponentAnswered
    && b.createdAt == c.base.createdAt && b.updatedAt == c.base.updatedAt && b.completedAt == c.base.completedAt
    && (b.status == ACTIVE <==> c.base.status in {ACTIVE, PENDING, ACCEPTED, CREATOR_DONE, OPPONENT_DONE})
    && (b.status == EXPIRED <==> c.base.status in {EXPIRED, WALKOVER})
    && (b.status == COMPLETED <==> c.base.status == COMPLETED)
    && (b.status == CANCELED <==> c.base.status == CANCELED)
  }

  lemma DowngradedColumns(c: Challenge)
    ensures Downgrades(c, DowngradedRow(c))
  {
  }

  /** Which v2 rows some old row upgrades to. */
  predicate IsUpgraded(c: Challenge) {
    && c.extra == UpgradedRow(c.base).extra
    && match c.base.status {
         case PENDING => c.base.opponentUserId.None?
         case CREATOR_DONE => c.base.opponentUserId.Some? && c.extra.creatorFinishedAt.Some? && c.extra.opponentFinishedAt.None?
         case OPPONENT_DONE => c.base.opponentUserId.Some? && c.extra.opponentFinishedAt.Some? && c.extra.creatorFinishedAt.None?
         case ACCEPTED => c.base.opponentUserId.Some? && c.extra.creatorFinishedAt.None? && c.extra.opponentFinishedAt.None?
         case COMPLETED | CANCELED | EXPIRED => true
         case ACTIVE | WALKOVER => false
       }
  }

  lemma UpgradeGivesUpgraded(b: Base)
    requires b.status in OLD_STATUSES
    ensures IsUpgraded(UpgradedRow(b))
  {
  }

  /** Downgrading and upgrading again restores a v2 row if and only if an upgrade could have produced it. */
  lemma DownUpIdentityIff(c: Challenge)
    ensures UpgradedRow(DowngradedRow(c)) == c <==> IsUpgraded(c)
  {
    var b := DowngradedRow(c);
    assert UpgradedRow(b).extra == UpgradedRow(c.base).extra;
  }

  /** Upgrading and downgrading restores an old row unless it was an ACTIVE joined game both players had finished. */
  lemma UpDownIdentityIff(b: Base)
    requires b.status in OLD_STATUSES
    ensures DowngradedRow(UpgradedRow(b)) == b
       <==> !(b.status.ACTIVE? && b.opponentUserId.Some? && b.creatorAnswered >= b.totalRounds && b.opponentAnswered >= b.totalRounds)
  {
  }

  /** Such a game: one round, both players done, still ACTIVE. It comes back COMPLETED. */
  lemma FinishedGameChanges(now: int)
    ensures var b := Base(Some(2), ACTIVE, 1, 1, 1, now, now, None);
            DowngradedRow(UpgradedRow(b)) == b.(status := COMPLETED)
  {
  }

  // ----- the table

  /** friend_challenges, with the statuses its CHECK currently allows (None while the CHECK is dropped). */
  class ChallengeTable {
    var rows: map<int, Challenge>
    var allowed: Option<set<Status>>
    var typeRequired: bool

    constructor (stored: map<int, Base>)
      requires forall id | id in stored :: stored[id].status in OLD_STATUSES
      ensures Valid() && allowed == Some(OLD_STATUSES) && !typeRequired
      ensures rows == map id | id in stored :: Challenge(stored[id], ADDED_COLUMNS)
    {
      rows := map id | id in stored :: Challenge(stored[id], ADDED_COLUMNS);
      allowed := Some(OLD_STATUSES);
      typeRequired := false;
    }

    /** The constraints in force hold of every row. */
    ghost predicate Valid()
      reads this
    {
      && (allowed.Some? ==> forall id | id in rows :: rows[id].base.status in allowed.value)
      && (typeRequired ==> forall id | id in rows :: rows[id].extra.challengeType in {Some("DIRECT"), Some("OPEN")})
    }

    /** The k-th UPDATE of the upgrade, over the whole table; no constraint in force breaks. */
    method RunUpgradeStatement(k: nat, ghost start: map<int, Challenge>)
      requires Valid() && !typeRequired && 1 <= k <= 8 && (k <= 3 || allowed.None?)
      requires rows == map id | id in start :: UpgradeStage(k - 1, start[id])
      modifies this`rows
      ensures Valid()
      ensures rows == map id | id in start :: UpgradeStage(k, start[id])
    {
      rows := map id | id in rows :: UpgradeStatement(k, rows[id]);
    }

    /** The upgrade runs to its end, no statement breaking a constraint, and leaves the row-by-row case distinction. */
    method Upgrade()
      requires Valid() && allowed == Some(OLD_STATUSES) && !typeRequired
      requires forall id | id in rows :: rows[id].extra == ADDED_COLUMNS
      modifies this
      ensures Valid() && typeRequired && allowed == Some(NEW_STATUSES)
      ensures rows == map id | id in old(rows) :: UpgradedRow(old(rows)[id].base)
      ensures rows.Keys == old(rows).Keys && forall id | id in rows :: Upgrades(old(rows)[id].base, rows[id])
    {
      ghost var start := rows;
      for k := 1 to 9
        invariant Valid() && !typeRequired && (k <= 4 || allowed.None?)
        invariant rows == map id | id in start :: UpgradeStage(k - 1, start[id])
      {
        if k == 4 {
          allowed := None;
        }
        RunUpgradeStatement(k, start);
      }
      FinishUpgrade(start);
      forall id | id in start { UpgradedColumns(start[id].base); }
    }

    /** The new constraints go in once every row is remapped. */
    method FinishUpgrade(ghost start: map<int, Challenge>)
      requires Valid() && allowed.None? && !typeRequired
      requires forall id | id in start :: start[id].extra == ADDED_COLUMNS
      requires rows == map id | id in start :: UpgradeStage(8, start[id])
      modifies this
      ensures Valid() && typeRequired && allowed == Some(NEW_STATUSES)
      ensures rows == map id | id in start :: UpgradedRow(start[id].base)
    {
      forall id | id in start
        ensures UpgradeStage(8, start[id]) == UpgradedRow(start[id].base)
      {
        UpdatesAreCases(start[id].base);
      }
      typeRequired := true;
      allowed := Some(NEW_STATUSES);
    }

    /** The downgrade runs to its end from any v2 table, and restores the old CHECK. */
    method Downgrade()
      requires Valid() && typeRequired && allowed == Some(NEW_STATUSES)
      modifies this
      ensures Valid() && allowed == Some(OLD_STATUSES) && !typeRequired
      ensures rows == map id | id in old(rows) :: Challenge(DowngradedRow(old(rows)[id]), ADDED_COLUMNS)
      ensures rows.Keys == old(rows).Keys && forall id | id in rows :: Downgrades(old(rows)[id], rows[id].base)
    {
      forall id | id in rows { DowngradedColumns(rows[id]); }
      rows := map id | id in rows :: SetActive(rows[id]);
      rows := map id | id in rows :: SetExpired(rows[id]);
      DropNewColumns(old(rows));
    }

    /** The old CHECK goes back in, and the new columns go. */
    method DropNewColumns(ghost start: map<int, Challenge>)
      requires rows == map id | id in start :: SetExpired(SetActive(start[id]))
      modifies this
      ensures Valid() && allowed == Some(OLD_STATUSES) && !typeRequired
      ensures rows == map id | id in start :: Challenge(DowngradedRow(start[id]), ADDED_COLUMNS)
    {
      assert forall c: Challenge :: SetExpired(SetActive(c)).base == DowngradedRow(c);
      typeRequired := false;
      rows := map id | id in rows :: Challenge(rows[id].base, ADDED_COLUMNS);
      allowed := Some(OLD_STATUSES);
    }
  }

  /** Downgrade followed by upgrade is the identity on every upgraded table. */
  method DowngradeThenUpgrade(table: ChallengeTable)
    requires table.Valid() && table.typeRequired
    requires table.allowed == Some(NEW_STATUSES)
    requires forall id | id in table.rows :: IsUpgraded(table.rows[id])
    modifies table
    ensures table.rows == old(table.rows)
  {
    table.Downgrade();
    table.Upgrade();
    forall id | id in table.rows
      ensures table.rows[id] == old(table.rows)[id]
    {
      DownUpIdentityIff(old(table.rows)[id]);
    }
  }

  /** So a table once upgraded survives being downgraded and upgraded again. */
  method UpgradeAndBack(table: ChallengeTable)
    requires table.Valid() && table.allowed == Some(OLD_STATUSES) && !table.typeRequired
    requires forall id | id in table.rows :: table.rows[id].extra == ADDED_COLUMNS
    modifies table
    ensures table.rows == map id | id in old(table.rows) :: UpgradedRow(old(table.rows)[id].base)
  {
    table.Upgrade();
    forall id | id in table.rows
      ensures IsUpgraded(table.rows[id])
    {
      UpgradeGivesUpgraded(old(table.rows)[id].base);
    }
    DowngradeThenUpgrade(table);
  }
}
