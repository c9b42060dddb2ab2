/**
 The capacity of one discount code: redeeming reserves, opening an invoice reserves again under a capacity check, a payment is
 credited under the same check. Any number of users act in any order; time never runs backwards.
 */
module PromoCapacity {
  import opened Options
  import opened PromoCodes
  import opened PromoRedemptions

  /** Uses so far, and the redemptions of all codes. */
  datatype Use = Use(used: nat, rows: Redemptions)

  /** The code and its limit, if it has one. */
  datatype Limit = Limit(code: CodeId, maxTotal: Option<int>)

  /** How long a reservation lasts, in seconds. */
  const RESERVATION_TTL := 15 * 60

  /**
   One transaction. `current` says whether the code is active, within its dates and otherwise applicable.
   Redeem: a user enters the code. Open: an invoice is made for it, linked unless an open invoice is reused. Credit: the linked
   purchase is paid for (or costs nothing). Abandon: the invoice is replaced by another. Refund: the redemption is revoked.
   */
  datatype Step =
    | Redeem(id: RedemptionId, current: bool, now: int)
    | Open(id: RedemptionId, link: Option<PurchaseId>, current: bool, now: int)
    | Credit(id: RedemptionId, current: bool, now: int)
    | ExpireAll(now: int)
    | RevokeAll(now: int)
    | Abandon(id: RedemptionId, now: int)
    | Refund(id: RedemptionId, now: int)

  /** The capacity check: uses and the other reservations leave a place. */
  ghost predicate HasRoom(l: Limit, s: Use, id: RedemptionId, now: int) {
    l.maxTotal.None? || s.used + ActiveReserved(s.rows, l.code, now, Some(id)) < l.maxTotal.value
  }

  /** Entering the code looks at the uses only, not at the reservations. */
  predicate UsesLeft(l: Limit, s: Use) {
    l.maxTotal.None? || s.used < l.maxTotal.value
  }

  ghost predicate Accepted(l: Limit, s: Use, step: Step) {
    match step
    case Redeem(id, current, now) => current && id !in s.rows && UsesLeft(l, s)
    case Open(id, link, current, now) =>
      id in s.rows && s.rows[id].code == l.code && s.rows[id].purchase.None? && s.rows[id].state in {Validated, Reserved}
      && (s.rows[id].reservedUntil.None? || now < s.rows[id].reservedUntil.value) && current && HasRoom(l, s, id, now)
    case Credit(id, current, now) =>
      id in s.rows && s.rows[id].purchase.Some? && Holds(s.rows[id], l.code, now) && current && HasRoom(l, s, id, now)
    case ExpireAll(now) => true
    case RevokeAll(now) => true
    case Abandon(id, now) => id in s.rows && s.rows[id].state == Reserved
    case Refund(id, now) => id in s.rows && s.rows[id].state != Revoked
  }

  ghost function Apply(l: Limit, s: Use, step: Step): Use {
    if !Accepted(l, s, step) then s
    else
      match step
      case Redeem(id, _, now) =>
        s.(rows := s.rows[id := Redemption(l.code, Reserved, Some(now + RESERVATION_TTL), None, now)])
      case Open(id, link, _, now) =>
        s.(rows := s.rows[id := Redemption(l.code, Reserved, Some(now + RESERVATION_TTL), link, now)])
      case Credit(id, _, now) =>
        Use(s.used + 1, s.rows[id := s.rows[id].(state := Applied, updatedAt := now)])
      case ExpireAll(now) => s.(rows := ExpiredAt(s.rows, now))
      case RevokeAll(now) => s.(rows := RevokedAt(s.rows, Holding(s.rows, l.code, now, None), now))
      case Abandon(id, now) =>
        s.(rows := s.rows[id := s.rows[id].(state := Lapsed, reservedUntil := Some(now), updatedAt := now)])
      case Refund(id, now) => s.(rows := s.rows[id := s.rows[id].(state := Revoked, updatedAt := now)])
  }

  ghost function Run(l: Limit, s: Use, steps: seq<Step>, n: nat): Use
    requires n <= |steps|
  {
    if n == 0 then s else Apply(l, Run(l, s, steps, n - 1), steps[n - 1])
  }

  // ----- the steps as they change the counter and the rows

  class Campaign {
    var used: nat
    var rows: Redemptions

    ghost function State(): Use
      reads this
    {
      Use(used, rows)
    }

    /** How many other reservations of the code hold capacity. */
    method CountOthers(code: CodeId, id: RedemptionId, now: int) returns (count: nat)
      ensures count == ActiveReserved(rows, code, now, Some(id))
    {
      var others := set x | x in rows && rows[x].code == code && rows[x].state == Reserved && rows[x].reservedUntil.Some?
                            && now < rows[x].reservedUntil.value && x != id;
      assert others == Holding(rows, code, now, Some(id));
      count := |others|;
    }

    /** A user enters the code: a reservation for a quarter of an hour, no purchase yet. Other reservations are not looked at. */
    method Enter(l: Limit, id: RedemptionId, current: bool, now: int) returns (ok: bool)
      modifies this
      ensures ok <==> current && id !in old(rows) && (l.maxTotal.None? || old(used) < l.maxTotal.value)
      ensures used == old(used)
      ensures rows == if ok then old(rows)[id := Redemption(l.code, Reserved, Some(now + 900), None, now)] else old(rows)
      ensures State() == Apply(l, old(State()), Redeem(id, current, now))
    {
      ok := current && id !in rows && (l.maxTotal.None? || used < l.maxTotal.value);
      if ok {
        rows := rows[id := Redemption(l.code, Reserved, Some(now + RESERVATION_TTL), None, now)];
      }
    }

    /** An invoice is made: the reservation starts afresh. */
    method OpenInvoice(l: Limit, id: RedemptionId, link: Option<PurchaseId>, current: bool, now: int) returns (ok: bool)
      modifies this
      ensures ok <==> && current && id in old(rows) && old(rows)[id].code == l.code && old(rows)[id].purchase == None
                      && (old(rows)[id].state == Validated || old(rows)[id].state == Reserved)
                      && (old(rows)[id].reservedUntil.None? || now < old(rows)[id].reservedUntil.value)
                      && (l.maxTotal.None? || old(used) + ActiveReserved(old(rows), l.code, now, Some(id)) < l.maxTotal.value)
      ensures used == old(used)
      ensures rows == if ok then old(rows)[id := Redemption(l.code, Reserved, Some(now + 900), link, now)] else old(rows)
      ensures State() == Apply(l, old(State()), Open(id, link, current, now))
    {
      var others := CountOthers(l.code, id, now);
      ok := id in rows && rows[id].code == l.code && rows[id].purchase.None? && rows[id].state in {Validated, Reserved}
            && (rows[id].reservedUntil.None? || now < rows[id].reservedUntil.value) && current
            && (l.maxTotal.None? || used + others < l.maxTotal.value);
      if ok {
        rows := rows[id := Redemption(l.code, Reserved, Some(now + RESERVATION_TTL), link, now)];
      }
    }

    /** The linked purchase is paid for: one use more, and the redemption is applied. */
    method CreditPurchase(l: Limit, id: RedemptionId, current: bool, now: int) returns (ok: bool)
      modifies this
      ensures ok <==> && current && id in old(rows) && old(rows)[id].code == l.code && old(rows)[id].purchase != None
                      && old(rows)[id].state == Reserved && old(rows)[id].reservedUntil.Some? && now < old(rows)[id].reservedUntil.value
                      && (l.maxTotal.None? || old(used) + ActiveReserved(old(rows), l.code, now, Some(id)) < l.maxTotal.value)
      ensures used == old(used) + if ok then 1 else 0
      ensures rows == if ok
                      then old(rows)[id := Redemption(l.code, Applied, old(rows)[id].reservedUntil, old(rows)[id].purchase, now)]
                      else old(rows)
      ensures State() == Apply(l, old(State()), Credit(id, current, now))
    {
      var others := CountOthers(l.code, id, now);
      ok := id in rows && rows[id].purchase.Some? && Holds(rows[id], l.code, now) && current
            && (l.maxTotal.None? || used + others < l.maxTotal.value);
      if ok {
        used := used + 1;
        rows := rows[id := rows[id].(state := Applied, updatedAt := now)];
      }
    }

    /** The invoice is replaced: the reservation ends now. */
    method AbandonInvoice(l: Limit, id: RedemptionId, now: int)
      modifies this
      ensures used == old(used)
      ensures rows == if id in old(rows) && old(rows)[id].state == Reserved
                      then old(rows)[id := Redemption(old(rows)[id].code, Lapsed, Some(now), old(rows)[id].purchase, now)]
                      else old(rows)
      ensures State() == Apply(l, old(State()), Abandon(id, now))
    {
      if id in rows && rows[id].state == Reserved {
        rows := rows[id := rows[id].(state := Lapsed, reservedUntil := Some(now), updatedAt := now)];
      }
    }

    /** The purchase is refunded: the redemption is revoked, the use stays counted. */
    method RefundPurchase(l: Limit, id: RedemptionId, now: int)
      modifies this
      ensures used == old(used)
      ensures rows == if id in old(rows) && old(rows)[id].state != Revoked
                      then old(rows)[id := Redemption(old(rows)[id].code, Revoked, old(rows)[id].reservedUntil, old(rows)[id].purchase, now)]
                      else old(rows)
      ensures State() == Apply(l, old(State()), Refund(id, now))
    {
      if id in rows && rows[id].state != Revoked {
        rows := rows[id := rows[id].(state := Revoked, updatedAt := now)];
      }
    }
  }

  /** Over every run a redemption that has been applied, has lapsed or was revoked is never invoiced or credited again. */
  lemma {:induction false} ClosedStaysClosed(l: Limit, s: Use, steps: seq<Step>, n: nat, id: RedemptionId, link: Option<PurchaseId>, now: int)
    requires n <= |steps| && id in s.rows
    requires s.rows[id].state == Applied || s.rows[id].state == Lapsed || s.rows[id].state == Revoked
    ensures var after := Run(l, s, steps, n);
            && id in after.rows
            && (after.rows[id].state == Applied || after.rows[id].state == Lapsed || after.rows[id].state == Revoked)
            && !Accepted(l, after, Open(id, link, true, now)) && !Accepted(l, after, Credit(id, true, now))
  {
    if n != 0 {
      ClosedStaysClosed(l, s, steps, n - 1, id, link, now);
      StepKeepsClosed(l, Run(l, s, steps, n - 1), steps[n - 1], id);
    }
  }

  predicate Closed(state: State) {
    state == Applied || state == Lapsed || state == Revoked
  }

  lemma StepKeepsClosed(l: Limit, s: Use, step: Step, id: RedemptionId)
    requires id in s.rows && Closed(s.rows[id].state)
    ensures id in Apply(l, s, step).rows && Closed(Apply(l, s, step).rows[id].state)
  {
  }

  // ----- safety: the limit is never passed

  ghost predicate WithinLimit(l: Limit, s: Use) {
    l.maxTotal.Some? ==> s.used <= l.maxTotal.value
  }

  /** How many of the first n steps credited a purchase. */
  ghost function Credited(l: Limit, s: Use, steps: seq<Step>, n: nat): nat
    requires n <= |steps|
  {
    if n == 0 then 0
    else
      Credited(l, s, steps, n - 1) + if steps[n - 1].Credit? && Accepted(l, Run(l, s, steps, n - 1), steps[n - 1]) then 1 else 0
  }

  /** Over every run the uses are those there were plus the purchases credited, and never exceed the limit. */
  lemma {:induction false} LimitNeverPassed(l: Limit, s: Use, steps: seq<Step>, n: nat)
    requires n <= |steps| && WithinLimit(l, s)
    ensures WithinLimit(l, Run(l, s, steps, n)) && Run(l, s, steps, n).used == s.used + Credited(l, s, steps, n)
  {
    if n != 0 {
      LimitNeverPassed(l, s, steps, n - 1);
    }
  }

  // ----- which reservations can be paid for

  ghost function Reserving(l: Limit, s: Use, now: int): set<RedemptionId> {
    Holding(s.rows, l.code, now, None)
  }

  /** Uses and reservations together fit the limit. */
  ghost predicate Fits(l: Limit, s: Use, now: int) {
    l.maxTotal.Some? ==> s.used + |Reserving(l, s, now)| <= l.maxTotal.value
  }

  lemma Without<T>(all: set<T>, x: T)
    requires x in all
    ensures |all - {x}| == |all| - 1
  {
  }

  lemma With<T>(all: set<T>, x: T)
    ensures |all + {x}| == if x in all then |all| else |all| + 1
  {
    if x in all {
      assert all + {x} == all;
    }
  }

  lemma ExcludingIs(l: Limit, s: Use, id: RedemptionId, now: int)
    ensures Holding(s.rows, l.code, now, Some(id)) == Reserving(l, s, now) - {id}
  {
  }

  /** All reservations of a code pass the capacity check, or none does: what decides is whether all of them fit. */
  lemma RoomIff(l: Limit, s: Use, id: RedemptionId, now: int)
    requires id in Reserving(l, s, now)
    ensures HasRoom(l, s, id, now) <==> Fits(l, s, now)
  {
    ExcludingIs(l, s, id, now);
    Without(Reserving(l, s, now), id);
  }

  /** A row newly reserved past `now` joins the reservations; one that stops being reserved leaves them. */
  lemma ReservingAfter(l: Limit, s: Use, id: RedemptionId, r: Redemption, used: nat, now: int)
    ensures Reserving(l, Use(used, s.rows[id := r]), now)
         == if Holds(r, l.code, now) then Reserving(l, s, now) + {id} else Reserving(l, s, now) - {id}
  {
    var after := Reserving(l, Use(used, s.rows[id := r]), now);
    assert forall x | x != id :: x in after <==> x in Reserving(l, s, now);
  }

  lemma FewerLater(l: Limit, s: Use, now: int, later: int)
    requires now <= later
    ensures |Reserving(l, s, later)| <= |Reserving(l, s, now)|
  {
    var a, b := Reserving(l, s, later), Reserving(l, s, now);
    assert a <= b;
    assert b == a + (b - a);
    assert |b| == |a| + |b - a|;
  }

  lemma FewerWithout(all: set<RedemptionId>, id: RedemptionId)
    ensures |all - {id}| <= |all|
  {
    if id in all {
      Without(all, id);
    } else {
      assert all - {id} == all;
    }
  }

  lemma OpenKeepsFit(l: Limit, s: Use, id: RedemptionId, link: Option<PurchaseId>, now: int)
    requires HasRoom(l, s, id, now)
    ensures Fits(l, Use(s.used, s.rows[id := Redemption(l.code, Reserved, Some(now + RESERVATION_TTL), link, now)]), now)
  {
    ReservingAfter(l, s, id, Redemption(l.code, Reserved, Some(now + RESERVATION_TTL), link, now), s.used, now);
    ExcludingIs(l, s, id, now);
    var h := Reserving(l, s, now);
    With(h, id);
    if id in h {
      Without(h, id);
    } else {
      assert h - {id} == h;
    }
  }

  lemma LeavingKeepsFit(l: Limit, s: Use, id: RedemptionId, r: Redemption, used: nat, now: int)
    requires Fits(l, s, now) && !Holds(r, l.code, now)
    requires used <= s.used + if id in Reserving(l, s, now) then 1 else 0
    ensures Fits(l, Use(used, s.rows[id := r]), now)
  {
    ReservingAfter(l, s, id, r, used, now);
    FewerWithout(Reserving(l, s, now), id);
    if id in Reserving(l, s, now) {
      Without(Reserving(l, s, now), id);
    }
  }

  /** Every step but entering the code keeps a fitting state fitting, at its own time. */
  lemma StepKeepsFit(l: Limit, s: Use, step: Step)
    requires Fits(l, s, step.now) && !step.Redeem?
    ensures Fits(l, Apply(l, s, step), step.now)
  {
    if Accepted(l, s, step) {
      match step
      case Open(id, link, _, now) => OpenKeepsFit(l, s, id, link, now);
      case Credit(id, _, now) => LeavingKeepsFit(l, s, id, s.rows[id].(state := Applied, updatedAt := now), s.used + 1, now);
      case ExpireAll(now) => ExpiryKeepsCount(s.rows, l.code, now, now, None);
      case RevokeAll(now) => RevokeClears(s.rows, l.code, l.code, now, now, None);
      case Abandon(id, now) =>
        LeavingKeepsFit(l, s, id, s.rows[id].(state := Lapsed, reservedUntil := Some(now), updatedAt := now), s.used, now);
      case Refund(id, now) => LeavingKeepsFit(l, s, id, s.rows[id].(state := Revoked, updatedAt := now), s.used, now);
    }
  }

  /** Entering the code is accepted without regard to reservations, and keeps the state fitting exactly when there was a place. */
  lemma RedeemFitsIff(l: Limit, s: Use, step: Step)
    requires step.Redeem? && Accepted(l, s, step)
    ensures Fits(l, Apply(l, s, step), step.now)
       <==> l.maxTotal.None? || s.used + |Reserving(l, s, step.now)| < l.maxTotal.value
  {
    var r := Redemption(l.code, Reserved, Some(step.now + RESERVATION_TTL), None, step.now);
    ReservingAfter(l, s, step.id, r, s.used, step.now);
    With(Reserving(l, s, step.now), step.id);
  }

  /** Time does not run backwards, and `start` is no later than the first step. */
  ghost predicate Ordered(steps: seq<Step>, start: int) {
    (forall k | 0 <= k < |steps| :: start <= steps[k].now) && forall j, k | 0 <= j < k < |steps| :: steps[j].now <= steps[k].now
  }

  /** Whenever the code was entered there was a place beside the reservations. */
  ghost predicate EnteredWithRoom(l: Limit, s: Use, steps: seq<Step>, n: nat)
    requires n <= |steps|
  {
    forall k | 0 <= k < n && steps[k].Redeem? && Accepted(l, Run(l, s, steps, k), steps[k]) && l.maxTotal.Some? ::
      Run(l, s, steps, k).used + |Reserving(l, Run(l, s, steps, k), steps[k].now)| < l.maxTotal.value
  }

  function TimeAt(steps: seq<Step>, start: int, n: nat): int
    requires n <= |steps|
  {
    if n == 0 then start else steps[n - 1].now
  }

  lemma {:induction false} FitsOverRuns(l: Limit, s: Use, steps: seq<Step>, start: int, n: nat)
    requires n <= |steps| && Ordered(steps, start) && Fits(l, s, start) && EnteredWithRoom(l, s, steps, n)
    ensures Fits(l, Run(l, s, steps, n), TimeAt(steps, start, n))
  {
    if n != 0 {
      FitsOverRuns(l, s, steps, start, n - 1);
      var before, step := Run(l, s, steps, n - 1), steps[n - 1];
      FewerLater(l, before, TimeAt(steps, start, n - 1), step.now);
      if step.Redeem? {
        if Accepted(l, before, step) {
          RedeemFitsIff(l, before, step);
        }
      } else {
        StepKeepsFit(l, before, step);
      }
    }
  }

  /** A reservation no purchase is linked to can be invoiced, a linked one credited. */
  ghost predicate CanGoOn(l: Limit, s: Use, id: RedemptionId, link: PurchaseId, now: int)
    requires id in s.rows
  {
    if s.rows[id].purchase.None? then Accepted(l, s, Open(id, Some(link), true, now)) else Accepted(l, s, Credit(id, true, now))
  }

  /** A held reservation can go on exactly when all of them fit. */
  lemma GoesOnIff(l: Limit, s: Use, id: RedemptionId, link: PurchaseId, now: int)
    requires id in Reserving(l, s, now)
    ensures CanGoOn(l, s, id, link, now) <==> Fits(l, s, now)
  {
    RoomIff(l, s, id, now);
  }

  /** An invoice opened for a reservation that fits can be paid for until the renewed reservation runs out. */
  lemma OpenedCanBePaid(l: Limit, s: Use, id: RedemptionId, link: PurchaseId, now: int, later: int)
    requires Accepted(l, s, Open(id, Some(link), true, now)) && now <= later < now + 900
    ensures Accepted(l, Apply(l, s, Open(id, Some(link), true, now)), Credit(id, true, later))
  {
    var after := Apply(l, s, Open(id, Some(link), true, now));
    OpenKeepsFit(l, s, id, Some(link), now);
    FewerLater(l, after, now, later);
    assert id in Reserving(l, after, later);
    RoomIff(l, after, id, later);
  }

  /**
   The promise a reservation makes: in a run where codes were only entered while there was a place, whoever holds a
   reservation can have an invoice opened for it, and pay; a purchase already linked can be credited. Until it runs out.
   */
  lemma ReservationsHonoured(l: Limit, s: Use, steps: seq<Step>, start: int, id: RedemptionId, link: PurchaseId, now: int, later: int)
    requires Ordered(steps, start) && Fits(l, s, start) && EnteredWithRoom(l, s, steps, |steps|)
    requires TimeAt(steps, start, |steps|) <= now <= later < now + 900
    requires id in Reserving(l, Run(l, s, steps, |steps|), now)
    ensures var after := Run(l, s, steps, |steps|);
            if after.rows[id].purchase.Some? then Accepted(l, after, Credit(id, true, now))
            else var opening := Open(id, Some(link), true, now);
                 Accepted(l, after, opening) && Accepted(l, Apply(l, after, opening), Credit(id, true, later))
  {
    var after := Run(l, s, steps, |steps|);
    FitsOverRuns(l, s, steps, start, |steps|);
    FewerLater(l, after, TimeAt(steps, start, |steps|), now);
    GoesOnIff(l, after, id, link, now);
    if after.rows[id].purchase.None? {
      OpenedCanBePaid(l, after, id, link, now, later);
    }
  }

  /**
   One entry too many breaks the promise for everybody: at that time no reservation of the code can be invoiced, and no
   linked purchase credited.
   */
  lemma OneEntryTooMany(l: Limit, s: Use, step: Step, id: RedemptionId, link: Option<PurchaseId>)
    requires step.Redeem? && Accepted(l, s, step) && l.maxTotal.Some?
    requires s.used + |Reserving(l, s, step.now)| == l.maxTotal.value
    requires id in Reserving(l, Apply(l, s, step), step.now)
    ensures !Accepted(l, Apply(l, s, step), Open(id, link, true, step.now))
    ensures !Accepted(l, Apply(l, s, step), Credit(id, true, step.now))
  {
    RedeemFitsIff(l, s, step);
    RoomIff(l, Apply(l, s, step), id, step.now);
  }

  /** A row of this code reserved at this time, linked or not. */
  function Reservation(code: CodeId, link: Option<PurchaseId>, now: int): Redemption {
    Redemption(code, Reserved, Some(now + RESERVATION_TTL), link, now)
  }

  /** The state after one user has entered a code with a limit of one. */
  lemma OneEntered(code: CodeId, a: RedemptionId, now: int)
    ensures var l, s := Limit(code, Some(1)), Use(0, map[a := Reservation(code, None, now)]);
            Apply(l, Use(0, map[]), Redeem(a, true, now)) == s && Reserving(l, s, now) == {a}
  {
    var l, none := Limit(code, Some(1)), Use(0, map[]);
    assert Reserving(l, none, now) == {};
    ReservingAfter(l, none, a, Reservation(code, None, now), 0, now);
    assert map[][a := Reservation(code, None, now)] == map[a := Reservation(code, None, now)];
  }

  /** Such a state is two users away: with a limit of one, neither of two users who entered the code gets an invoice. */
  lemma TwoUsersOnePlace(code: CodeId, a: RedemptionId, b: RedemptionId, now: int, link: Option<PurchaseId>)
    requires a != b
    ensures var l := Limit(code, Some(1));
            var s := Apply(l, Apply(l, Use(0, map[]), Redeem(a, true, now)), Redeem(b, true, now));
            && s.used == 0 && Reserving(l, s, now) == {a, b}
            && !Accepted(l, s, Open(a, link, true, now)) && !Accepted(l, s, Open(b, link, true, now))
  {
    var l, one := Limit(code, Some(1)), Use(0, map[a := Reservation(code, None, now)]);
    OneEntered(code, a, now);
    ReservingAfter(l, one, b, Reservation(code, None, now), 0, now);
    OneEntryTooMany(l, one, Redeem(b, true, now), a, link);
    OneEntryTooMany(l, one, Redeem(b, true, now), b, link);
  }

  /** And a payment can be refused: the second user enters the code after the first one's invoice was opened. */
  lemma PaidButRefused(code: CodeId, a: RedemptionId, b: RedemptionId, now: int, link: PurchaseId)
    requires a != b
    ensures var l := Limit(code, Some(1));
            var invoiced := Apply(l, Apply(l, Use(0, map[]), Redeem(a, true, now)), Open(a, Some(link), true, now));
            && Accepted(l, invoiced, Credit(a, true, now)) && Accepted(l, invoiced, Redeem(b, true, now))
            && !Accepted(l, Apply(l, invoiced, Redeem(b, true, now)), Credit(a, true, now))
  {
    var l, one := Limit(code, Some(1)), Use(0, map[a := Reservation(code, None, now)]);
    OneEntered(code, a, now);
    RoomIff(l, one, a, now);
    OpenedCanBePaid(l, one, a, link, now, now);
    var invoiced := Apply(l, one, Open(a, Some(link), true, now));
    ReservingAfter(l, one, a, Reservation(code, Some(link), now), 0, now);
    OneEntryTooMany(l, invoiced, Redeem(b, true, now), a, None);
  }
}
