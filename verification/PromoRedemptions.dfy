/** Promo redemptions: the capacity count over active reservations, and the three ways reservations are cleaned up. */
module PromoRedemptions {
  import opened Options
  import opened PromoCodes

  datatype RedemptionId = RedemptionId(value: int)

  datatype PurchaseId = PurchaseId(value: int)

  datatype State = Created | Validated | Reserved | Applied | Lapsed | Rejected | Revoked

  datatype Redemption = Redemption(code: CodeId, state: State, reservedUntil: Option<int>, purchase: Option<PurchaseId>, updatedAt: int)

  type Redemptions = map<RedemptionId, Redemption>

  /** A reservation that still holds capacity at this time. */
  predicate Holds(r: Redemption, code: CodeId, now: int) {
    r.code == code && r.state == Reserved && r.reservedUntil.Some? && now < r.reservedUntil.value
  }

  ghost function Holding(rows: Redemptions, code: CodeId, now: int, exclude: Option<RedemptionId>): set<RedemptionId> {
    set id | id in rows && Holds(rows[id], code, now) && exclude != Some(id)
  }

  /** `count_active_reserved_redemptions`. */
  ghost function ActiveReserved(rows: Redemptions, code: CodeId, now: int, exclude: Option<RedemptionId>): nat {
    |Holding(rows, code, now, exclude)|
  }

  // ----- expiring reservations

  predicate Outlived(r: Redemption, now: int) {
    r.state == Reserved && r.reservedUntil.Some? && r.reservedUntil.value <= now
  }

  /** The table after `expire_reserved_redemptions`. */
  function ExpiredAt(rows: Redemptions, now: int): Redemptions {
    map id | id in rows :: if Outlived(rows[id], now) then rows[id].(state := Lapsed, updatedAt := now) else rows[id]
  }

  /** This reservation holds capacity at time t, and expiring at `now` takes it away. */
  ghost predicate Lost(rows: Redemptions, code: CodeId, now: int, t: int, exclude: Option<RedemptionId>) {
    exists id :: id in Holding(rows, code, t, exclude) && Outlived(rows[id], now)
  }

  lemma SubsetSameSize<T>(a: set<T>, b: set<T>)
    requires a <= b
    ensures |a| == |b| <==> a == b
  {
    assert b == a + (b - a);
    assert |b| == |a| + |b - a|;
  }

  /**
   Expiring reservations at a time leaves every code's capacity count alone at that time and any later one. Seen from an
   earlier time the count is kept exactly when no reservation that held capacity then has run out by now.
   */
  lemma ExpiryKeepsCount(rows: Redemptions, code: CodeId, now: int, t: int, exclude: Option<RedemptionId>)
    ensures now <= t ==> ActiveReserved(ExpiredAt(rows, now), code, t, exclude) == ActiveReserved(rows, code, t, exclude)
    ensures ActiveReserved(ExpiredAt(rows, now), code, t, exclude) == ActiveReserved(rows, code, t, exclude)
       <==> !Lost(rows, code, now, t, exclude)
  {
    var before, after := Holding(rows, code, t, exclude), Holding(ExpiredAt(rows, now), code, t, exclude);
    assert after <= before;
    assert forall id | id in before :: id in after <==> !Outlived(rows[id], now);
    SubsetSameSize(after, before);
  }

  /** Such a table: one reservation until 5, expired at 5, counted as of 4. */
  lemma EarlierCountDrops(code: CodeId, id: RedemptionId)
    ensures var rows := map[id := Redemption(code, Reserved, Some(5), None, 0)];
            ActiveReserved(rows, code, 4, None) == 1 && ActiveReserved(ExpiredAt(rows, 5), code, 4, None) == 0
  {
    var rows := map[id := Redemption(code, Reserved, Some(5), None, 0)];
    assert Holding(rows, code, 4, None) == {id};
    assert Holding(ExpiredAt(rows, 5), code, 4, None) == {};
  }

  // ----- revoking a code's reservations

  /** The table after the reservations in `ids` are revoked. */
  function RevokedAt(rows: Redemptions, ids: set<RedemptionId>, now: int): Redemptions {
    map id | id in rows ::
      if id in ids then rows[id].(state := Revoked, reservedUntil := Some(now), updatedAt := now) else rows[id]
  }

  lemma RevokedColumns(rows: Redemptions, code: CodeId, now: int)
    ensures RevokedAt(rows, Holding(rows, code, now, None), now)
         == map id | id in rows ::
              var r := rows[id];
              if r.code == code && r.state == Reserved && r.reservedUntil.Some? && now < r.reservedUntil.value
              then Redemption(r.code, Revoked, Some(now), r.purchase, now) else r
  {
  }

  /** After an admin revoke the code holds no capacity at that time or later; other codes hold what they held at all times. */
  lemma RevokeClears(rows: Redemptions, code: CodeId, other: CodeId, now: int, t: int, exclude: Option<RedemptionId>)
    ensures var after := RevokedAt(rows, Holding(rows, code, now, None), now);
            && (now <= t ==> ActiveReserved(after, code, t, exclude) == 0)
            && (other != code ==> ActiveReserved(after, other, t, exclude) == ActiveReserved(rows, other, t, exclude))
  {
    var after := RevokedAt(rows, Holding(rows, code, now, None), now);
    if now <= t {
      assert Holding(after, code, t, exclude) == {};
    }
    if other != code {
      assert Holding(after, other, t, exclude) == Holding(rows, other, t, exclude);
    }
  }

  /** Revoking and expiring at the same time commute on the count: together they leave the code without reservations. */
  lemma RevokeThenExpire(rows: Redemptions, code: CodeId, now: int, t: int)
    requires now <= t
    ensures ActiveReserved(ExpiredAt(RevokedAt(rows, Holding(rows, code, now, None), now), now), code, t, None) == 0
    ensures ActiveReserved(RevokedAt(ExpiredAt(rows, now), Holding(ExpiredAt(rows, now), code, now, None), now), code, t, None) == 0
  {
    RevokeClears(rows, code, code, now, t, None);
    ExpiryKeepsCount(RevokedAt(rows, Holding(rows, code, now, None), now), code, now, t, None);
    RevokeClears(ExpiredAt(rows, now), code, code, now, t, None);
  }

  // ----- revoking after a refund

  /** A purchase is applied to one redemption at most. */
  ghost predicate PurchasesUnique(rows: Redemptions) {
    forall a, b | a in rows && b in rows && rows[a].purchase.Some? && rows[a].purchase == rows[b].purchase :: a == b
  }

  /** The refunded purchases whose redemptions still have to be revoked. */
  ghost function Pending(rows: Redemptions, refunded: set<PurchaseId>): set<PurchaseId> {
    set p | p in refunded && exists id :: id in rows && rows[id].purchase == Some(p) && rows[id].state != Revoked
  }

  /** The redemption of a purchase, if there is one. */
  ghost predicate IsOf(rows: Redemptions, found: Option<RedemptionId>, purchase: PurchaseId) {
    if found.Some? then found.value in rows && rows[found.value].purchase == Some(purchase)
    else forall id | id in rows :: rows[id].purchase != Some(purchase)
  }

  function RefundRevoked(rows: Redemptions, found: Option<RedemptionId>, now: int): Redemptions {
    if found.Some? && found.value in rows && rows[found.value].state != Revoked
    then rows[found.value := rows[found.value].(state := Revoked, updatedAt := now)]
    else rows
  }

  /** Revoking a refunded purchase's redemption takes exactly that purchase off the pending list, and doing it again is nothing. */
  lemma RefundRevokeSettles(rows: Redemptions, found: Option<RedemptionId>, purchase: PurchaseId, refunded: set<PurchaseId>, now: int, later: int)
    requires PurchasesUnique(rows) && IsOf(rows, found, purchase)
    ensures var after := RefundRevoked(rows, found, now);
            && PurchasesUnique(after) && IsOf(after, found, purchase)
            && Pending(after, refunded) == Pending(rows, refunded) - {purchase}
            && RefundRevoked(after, found, later) == after
  {
    var after := RefundRevoked(rows, found, now);
    forall p | p in refunded
      ensures p in Pending(after, refunded) <==> p in Pending(rows, refunded) && p != purchase
    {
      if p != purchase && p in Pending(rows, refunded) {
        var id :| id in rows && rows[id].purchase == Some(p) && rows[id].state != Revoked;
        assert id in after && after[id] == rows[id];
      }
      if p in Pending(after, refunded) {
        var id :| id in after && after[id].purchase == Some(p) && after[id].state != Revoked;
        assert id in rows && rows[id].purchase == Some(p) && rows[id].state != Revoked;
      }
    }
  }

  // ----- the table

  class RedemptionTable {
    var rows: Redemptions

    /** `expire_reserved_redemptions`. */
    method ExpireReserved(now: int) returns (count: nat)
      modifies this
      ensures rows == map id | id in old(rows) ::
                var r := old(rows)[id];
                if r.state == Reserved && r.reservedUntil.Some? && r.reservedUntil.value <= now
                then Redemption(r.code, Lapsed, r.reservedUntil, r.purchase, now) else r
      ensures count == |set id | id in old(rows) && old(rows)[id].state == Reserved && old(rows)[id].reservedUntil.Some?
                                 && old(rows)[id].reservedUntil.value <= now|
      ensures rows == ExpiredAt(old(rows), now)
    {
      var hit := set id | id in rows && rows[id].state == Reserved && rows[id].reservedUntil.Some? && rows[id].reservedUntil.value <= now;
      rows := map id | id in rows :: if id in hit then rows[id].(state := Lapsed, updatedAt := now) else rows[id];
      count := |hit|;
    }

    /** `revoke_active_reserved_redemptions`: the selected rows are revoked one after the other. */
    method RevokeReserved(code: CodeId, now: int) returns (revoked: seq<RedemptionId>)
      modifies this
      ensures rows == map id | id in old(rows) ::
                var r := old(rows)[id];
                if r.code == code && r.state == Reserved && r.reservedUntil.Some? && now < r.reservedUntil.value
                then Redemption(r.code, Revoked, Some(now), r.purchase, now) else r
      ensures rows == RevokedAt(old(rows), Holding(old(rows), code, now, None), now)
      ensures forall id :: id in revoked <==> id in Holding(old(rows), code, now, None)
      ensures |revoked| == ActiveReserved(old(rows), code, now, None)
    {
      RevokedColumns(rows, code, now);
      var selected := set id | id in rows && Holds(rows[id], code, now);
      assert selected == Holding(rows, code, now, None);
      ghost var all := selected;
      revoked := [];
      while selected != {}
        invariant selected <= all <= old(rows).Keys
        invariant rows == RevokedAt(old(rows), all - selected, now)
        invariant forall id :: id in revoked <==> id in all - selected
        invariant |revoked| + |selected| == |all|
        decreases |selected|
      {
        var id :| id in selected;
        rows := rows[id := rows[id].(state := Revoked, reservedUntil := Some(now), updatedAt := now)];
        revoked := revoked + [id];
        selected := selected - {id};
      }
    }

    /** `revoke_redemption_for_refund`. */
    method RevokeForRefund(purchase: PurchaseId, now: int) returns (found: Option<RedemptionId>, wasRevoked: bool)
      requires PurchasesUnique(rows)
      modifies this
      ensures IsOf(old(rows), found, purchase) && rows == RefundRevoked(old(rows), found, now)
      ensures wasRevoked <==> found.Some? && old(rows)[found.value].state != Revoked
      ensures rows == if !wasRevoked then old(rows)
                      else var r := old(rows)[found.value];
                           old(rows)[found.value := Redemption(r.code, Revoked, r.reservedUntil, r.purchase, now)]
    {
      found, wasRevoked := None, false;
      if id :| id in rows && rows[id].purchase == Some(purchase) {
        found := Some(id);
        if rows[id].state != Revoked {
          rows := rows[id := rows[id].(state := Revoked, updatedAt := now)];
          wasRevoked := true;
        }
      }
    }
  }
}
