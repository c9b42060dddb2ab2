/**
 Daily-cup push events are sent once per (event type, user, tournament): the migration that removes the duplicates already
 stored, the partial unique index it then creates, and the inserts that rely on that index.
 */
module PushEvents {
  import opened Options
  import opened Ordering
  import opened Retention

  const UNIQUE_PUSH_EVENT_TYPES := ["daily_cup_invite_registration_push_sent", "daily_cup_last_call_reminder_sent"]

  /** What a payload holds under 'tournament_id': nothing, a JSON null, or a text. */
  datatype TournamentId = Missing | JsonNull | Text(text: string)

  datatype Event = Event(eventType: string, userId: Option<int>, tournament: TournamentId, happenedAt: int, createdAt: int)

  type Events = map<int, Event>

  /** The partition of the ranked DELETE; SQL NULLs (a JSON null read as text) fall into one partition. */
  datatype Partition = Partition(eventType: string, userId: int, tournament: Option<string>)

  /** The predicate shared by the ranked DELETE and the partial index. */
  predicate Covered(e: Event) {
    e.userId.Some? && !e.tournament.Missing? && e.eventType in UNIQUE_PUSH_EVENT_TYPES
  }

  function PartitionOf(e: Event): Partition
    requires Covered(e)
  {
    Partition(e.eventType, e.userId.value, if e.tournament.Text? then Some(e.tournament.text) else None)
  }

  /** The rows of one partition. */
  function Members(events: Events, p: Partition): Events {
    map id | id in events && Covered(events[id]) && PartitionOf(events[id]) == p :: events[id]
  }

  function HappenedAt(): Event -> int {
    (e: Event) => e.happenedAt
  }

  /** The partition in `happened_at ASC, id ASC` order: row_number() is the position in it, counted from 1. */
  function Ranked(events: Events, p: Partition): seq<Key> {
    View(Members(events, p), HappenedAt())
  }

  function KeyIn(events: Events, id: int): Key
    requires id in events
  {
    Key(events[id].happenedAt, id)
  }

  /** `rn > 1`: the row is not the first of its ranking. */
  predicate IsLaterDuplicate(events: Events, id: int)
    requires id in events
  {
    Covered(events[id]) &&
    var ranked := Ranked(events, PartitionOf(events[id]));
    |ranked| > 0 && ranked[0] != KeyIn(events, id)
  }

  /** No other covered row of the same partition happened before this one. */
  ghost predicate IsEarliest(events: Events, id: int)
    requires id in events && Covered(events[id])
  {
    forall other | other in events && Covered(events[other]) && PartitionOf(events[other]) == PartitionOf(events[id]) ::
      !Before(KeyIn(events, other), KeyIn(events, id))
  }

  /** Row number 1 goes to the earliest row of the partition and to no other. */
  lemma RankOneIsEarliest(events: Events, id: int)
    requires id in events && Covered(events[id])
    ensures !IsLaterDuplicate(events, id) <==> IsEarliest(events, id)
  {
    var p := PartitionOf(events[id]);
    var keys := KeysOf(Members(events, p), HappenedAt());
    assert id in Members(events, p) && KeyIn(events, id) in keys;
    var first := First(keys);
    assert Ranked(events, p)[0] == first;
    assert first.id in Members(events, p) && KeyIn(events, first.id) == first;
    if first == KeyIn(events, id) {
      forall other | other in events && Covered(events[other]) && PartitionOf(events[other]) == p
        ensures !Before(KeyIn(events, other), first)
      {
        assert other in Members(events, p) && KeyIn(events, other) in keys;
      }
    } else {
      assert Before(KeyIn(events, first.id), KeyIn(events, id));
    }
  }

  /** The migration's DELETE of every row with rn > 1. */
  function Deduplicated(events: Events): Events {
    map id | id in events && !IsLaterDuplicate(events, id) :: events[id]
  }

  /** The unique index: SQL NULLs are distinct, so a JSON-null tournament is never in conflict. */
  predicate Conflicts(a: Event, b: Event) {
    Covered(a) && Covered(b) && PartitionOf(a) == PartitionOf(b) && a.tournament.Text?
  }

  predicate IndexHolds(events: Events) {
    forall i, j | i in events && j in events && i != j :: !Conflicts(events[i], events[j])
  }

  /**
   The ranked DELETE leaves exactly the earliest (happened_at, id) row of each partition, touches no other row, and so
   the unique index can be created.
   */
  lemma DedupeLeavesEarliest(events: Events)
    ensures var after := Deduplicated(events);
            && (forall id | id in after :: id in events && after[id] == events[id])
            && (forall id | id in events :: id in after <==> !Covered(events[id]) || IsEarliest(events, id))
            && (forall i, j | i in after && j in after && Covered(after[i]) && Covered(after[j]) && i != j ::
                  PartitionOf(after[i]) != PartitionOf(after[j]))
            && IndexHolds(after)
  {
    var after := Deduplicated(events);
    forall id | id in events && Covered(events[id])
      ensures id in after <==> IsEarliest(events, id)
    {
      RankOneIsEarliest(events, id);
    }
    forall i, j | i in after && j in after && Covered(after[i]) && Covered(after[j]) && i != j
      ensures PartitionOf(after[i]) != PartitionOf(after[j])
    {
      assert Before(KeyIn(events, i), KeyIn(events, j)) || Before(KeyIn(events, j), KeyIn(events, i));
    }
  }

  /** No partition dies out: each covered row leaves behind the earliest row of its partition. */
  lemma EveryPartitionKept(events: Events, p: Partition)
    ensures Holds(Deduplicated(events), p) <==> Holds(events, p)
  {
    if Holds(events, p) {
      var id :| id in events && Covered(events[id]) && PartitionOf(events[id]) == p;
      var keys := KeysOf(Members(events, p), HappenedAt());
      assert id in Members(events, p) && KeyIn(events, id) in keys;
      var first := First(keys).id;
      assert first in Members(events, p) && KeyIn(events, first) == Ranked(events, p)[0];
      assert first in Deduplicated(events);
    }
  }

  /** One of the two reminders, sent to one and the same user for one and the same tournament. */
  ghost predicate SamePush(a: Event, b: Event) {
    && a.eventType == b.eventType && a.userId == b.userId && a.tournament == b.tournament
    && a.userId != None && a.tournament != Missing
    && (a.eventType == "daily_cup_invite_registration_push_sent" || a.eventType == "daily_cup_last_call_reminder_sent")
  }

  lemma SamePushIff(a: Event, b: Event)
    ensures SamePush(a, b) <==> Covered(a) && Covered(b) && PartitionOf(a) == PartitionOf(b)
  {
    assert forall e: Event :: e.eventType in UNIQUE_PUSH_EVENT_TYPES <==>
      e.eventType == UNIQUE_PUSH_EVENT_TYPES[0] || e.eventType == UNIQUE_PUSH_EVENT_TYPES[1];
  }

  /** The same push is on record already, earlier or with a smaller id. */
  ghost predicate PushedBefore(events: Events, id: int)
    requires id in events
  {
    exists other | other in events && SamePush(events[other], events[id]) ::
      events[other].happenedAt < events[id].happenedAt || (events[other].happenedAt == events[id].happenedAt && other < id)
  }

  lemma EarliestIff(events: Events, id: int)
    requires id in events && Covered(events[id])
    ensures IsEarliest(events, id) <==> !PushedBefore(events, id)
  {
    forall other | other in events
      ensures SamePush(events[other], events[id]) <==> Covered(events[other]) && PartitionOf(events[other]) == PartitionOf(events[id])
    {
      SamePushIff(events[other], events[id]);
    }
    if PushedBefore(events, id) {
      var other :| other in events && SamePush(events[other], events[id]) && Before(KeyIn(events, other), KeyIn(events, id));
      assert !IsEarliest(events, id);
    }
  }

  /** In the columns: a row survives if and only if the same push is not on record before it. */
  lemma SurvivesIff(events: Events, id: int)
    requires id in events
    ensures id in Deduplicated(events) <==> !PushedBefore(events, id)
  {
    if Covered(events[id]) {
      RankOneIsEarliest(events, id);
      EarliestIff(events, id);
    } else {
      forall other | other in events
        ensures !SamePush(events[other], events[id])
      {
        SamePushIff(events[other], events[id]);
      }
    }
  }

  /** And an insert with a fresh id is refused if and only if the same push is on record, for a tournament given as a text. */
  lemma RefusedIff(events: Events, id: int, e: Event)
    requires id !in events
    ensures Admits(events, id, e) <==> !(e.tournament.Text? && exists other | other in events :: SamePush(events[other], e))
  {
    forall other | other in events
      ensures Conflicts(events[other], e) <==> SamePush(events[other], e) && e.tournament.Text?
    {
      SamePushIff(events[other], e);
    }
  }

  /** The statements issued once the index exists; a plain insert that violates the index raises and changes nothing. */
  datatype Statement =
    | CreateOnce(id: int, event: Event)
    | CreateEvent(id: int, event: Event)
    | DeleteBefore(cutoff: int, limit: int)

  /** An insert goes through when its primary key is new and the index has no conflicting entry. */
  predicate Admits(events: Events, id: int, e: Event) {
    id !in events && forall other | other in events :: !Conflicts(events[other], e)
  }

  function Apply(events: Events, s: Statement): (after: Events) {
    match s
    case CreateOnce(id, e) => if Admits(events, id, e) then events[id := e] else events
    case CreateEvent(id, e) => if Admits(events, id, e) then events[id := e] else events
    case DeleteBefore(cutoff, limit) =>
      var view := View(events, (e: Event) => e.createdAt);
      Without(events, view[..BatchSize(view, cutoff, limit)])
  }

  function Run(events: Events, run: seq<Statement>): Events
    decreases |run|
  {
    if run == [] then events else Run(Apply(events, run[0]), run[1..])
  }

  /** From the migrated table, every run keeps the index. */
  lemma {:induction false} RunKeepsIndex(events: Events, run: seq<Statement>)
    requires IndexHolds(events)
    ensures IndexHolds(Run(events, run))
    decreases |run|
  {
    if run != [] {
      RunKeepsIndex(Apply(events, run[0]), run[1..]);
    }
  }

  /** Some stored row falls into the partition. */
  predicate Holds(events: Events, p: Partition) {
    exists id | id in events :: Covered(events[id]) && PartitionOf(events[id]) == p
  }

  predicate Wins(events: Events, s: Statement, p: Partition) {
    s.CreateOnce? && Covered(s.event) && PartitionOf(s.event) == p && Admits(events, s.id, s.event)
  }

  predicate Loses(events: Events, s: Statement, p: Partition) {
    Holds(events, p) && !Holds(Apply(events, s), p)
  }

  function Count(events: Events, run: seq<Statement>, p: Partition, event: (Events, Statement, Partition) -> bool): nat
    decreases |run|
  {
    if run == [] then 0
    else (if event(events, run[0], p) then 1 else 0) + Count(Apply(events, run[0]), run[1..], p, event)
  }

  /**
   Insert-once returns True at most once per key between deletions of that key: over every run, wins are at most one more
   than the deletions that free the key, and none more when the key was already present.
   */
  lemma {:induction false} WinsPaidByDeletions(events: Events, run: seq<Statement>, p: Partition)
    requires p.tournament.Some?
    ensures Count(events, run, p, Wins) + (if Holds(events, p) then 1 else 0)
         <= Count(events, run, p, Loses) + (if Holds(Run(events, run), p) then 1 else 0)
    decreases |run|
  {
    if run != [] {
      var after := Apply(events, run[0]);
      WinsPaidByDeletions(after, run[1..], p);
      StepKeepsBalance(events, run[0], p);
    }
  }

  lemma StepKeepsBalance(events: Events, s: Statement, p: Partition)
    requires p.tournament.Some?
    ensures Wins(events, s, p) ==> !Holds(events, p) && Holds(Apply(events, s), p)
    ensures Holds(events, p) && !Loses(events, s, p) ==> Holds(Apply(events, s), p)
  {
    if Wins(events, s, p) {
      assert s.id in Apply(events, s);
    }
  }

  /**
   Exactly which inserts the index makes unique: a covered event whose tournament is a JSON null, and any event outside
   the index, is accepted every time (a fresh id given); every other event is accepted if and only if its key is free.
   */
  lemma OnceIffKeyedByText(events: Events, id: int, e: Event)
    requires id !in events
    ensures Admits(events, id, e) <==> !(Covered(e) && e.tournament.Text? && Holds(events, PartitionOf(e)))
  {
    if Covered(e) && e.tournament.Text? && Holds(events, PartitionOf(e)) {
      var other :| other in events && Covered(events[other]) && PartitionOf(events[other]) == PartitionOf(e);
      assert Conflicts(events[other], e);
    }
  }

  /** So a worker that passes a JSON-null tournament wins twice in a row. */
  lemma NullTournamentWinsTwice(id1: int, id2: int, e: Event)
    requires id1 != id2 && Covered(e) && e.tournament.JsonNull?
    ensures Count(map[], [CreateOnce(id1, e), CreateOnce(id2, e)], PartitionOf(e), Wins) == 2
  {
    var s1, s2 := CreateOnce(id1, e), CreateOnce(id2, e);
    assert [s1, s2][1..] == [s2];
    var after := Apply(map[], s1);
    assert Wins(map[], s1, PartitionOf(e)) && Wins(after, s2, PartitionOf(e));
    assert Count(after, [s2], PartitionOf(e), Wins) == 1;
  }

  /** The analytics_events table. */
  class EventTable {
    var rows: Events

    constructor (rows: Events)
      ensures this.rows == rows
    {
      this.rows := rows;
    }

    /** The migration: the ranked DELETE, then the unique index, which can be built. */
    method Upgrade()
      modifies this
      ensures rows == Deduplicated(old(rows))
      ensures rows == map id | id in old(rows) && !PushedBefore(old(rows), id) :: old(rows)[id]
      ensures IndexHolds(rows)
    {
      DedupeLeavesEarliest(rows);
      forall id | id in rows
        ensures id in Deduplicated(rows) <==> !PushedBefore(rows, id)
      {
        SurvivesIff(rows, id);
      }
      rows := map id | id in rows && !IsLaterDuplicate(rows, id) :: rows[id];
    }

    /** `create_daily_cup_push_event_once`, with the id the sequence hands out. */
    method CreatePushEventOnce(id: int, event: Event) returns (created: bool)
      requires id !in rows && IndexHolds(rows)
      modifies this
      ensures IndexHolds(rows)
      ensures created <==> !(event.tournament.Text? && exists other | other in old(rows) :: SamePush(old(rows)[other], event))
      ensures rows == if created then old(rows)[id := event] else old(rows)
      ensures rows == Apply(old(rows), CreateOnce(id, event))
    {
      RefusedIff(rows, id, event);
      created := Admits(rows, id, event);
      if created {
        rows := rows[id := event];
      }
    }

    /** `create_event`: a plain insert, which raises when the index has the push already. */
    method CreateEvent(id: int, event: Event) returns (created: bool)
      requires id !in rows && IndexHolds(rows)
      modifies this
      ensures IndexHolds(rows)
      ensures created <==> !(event.tournament.Text? && exists other | other in old(rows) :: SamePush(old(rows)[other], event))
      ensures rows == if created then old(rows)[id := event] else old(rows)
      ensures rows == Apply(old(rows), Statement.CreateEvent(id, event))
    {
      RefusedIff(rows, id, event);
      created := Admits(rows, id, event);
      if created {
        rows := rows[id := event];
      }
    }

    /** `delete_events_created_before`. */
    method DeleteEventsCreatedBefore(cutoff: int, limit: int) returns (deleted: nat)
      modifies this
      ensures OldestGone(old(rows), rows, (e: Event) => e.createdAt, cutoff, limit, deleted)
      ensures rows == Apply(old(rows), DeleteBefore(cutoff, limit))
    {
      var view := View(rows, (e: Event) => e.createdAt);
      deleted := BatchSize(view, cutoff, limit);
      BatchIsOldest(rows, (e: Event) => e.createdAt, cutoff, limit);
      rows := Without(rows, view[..deleted]);
    }
  }
}
