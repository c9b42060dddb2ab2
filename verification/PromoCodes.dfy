/** Promo codes: the stored status, the filters derived from it, and every step that can change it. */
module PromoCodes {
  import opened Options
  import opened Text

  datatype Status = Active | Paused | Expired | Depleted

  datatype CodeId = CodeId(value: int)

  datatype Code = Code(hash: string, status: Status, validUntil: int, maxTotal: Option<int>, usedTotal: int, updatedAt: int)

  type Codes = map<CodeId, Code>

  predicate UsedUp(c: Code) {
    c.maxTotal.Some? && c.maxTotal.value <= c.usedTotal
  }

  predicate Over(c: Code, now: int) {
    c.validUntil <= now || UsedUp(c)
  }

  // ----- the filters of the admin list, and the status the admin pages show

  predicate ActiveFilter(c: Code, now: int) {
    c.status == Active && now < c.validUntil && (c.maxTotal.None? || c.usedTotal < c.maxTotal.value)
  }

  predicate InactiveFilter(c: Code) {
    c.status == Paused
  }

  predicate ExpiredFilter(c: Code, now: int) {
    c.status in {Expired, Depleted} || c.validUntil <= now || (c.maxTotal.Some? && c.maxTotal.value <= c.usedTotal)
  }

  datatype Shown = ShownActive | ShownInactive | ShownExpired

  /** `resolve_display_status`. */
  function DisplayStatus(c: Code, now: int): Shown {
    if c.status == Paused then ShownInactive
    else if c.status == Expired || c.status == Depleted then ShownExpired
    else if c.validUntil <= now then ShownExpired
    else if c.maxTotal.Some? && c.maxTotal.value <= c.usedTotal then ShownExpired
    else ShownActive
  }

  /** Every code passes some filter; only paused codes that are over pass two. The display agrees with the filters but for those. */
  lemma FiltersCover(c: Code, now: int)
    ensures ActiveFilter(c, now) <==> !InactiveFilter(c) && !ExpiredFilter(c, now)
    ensures InactiveFilter(c) && ExpiredFilter(c, now) <==> c.status == Paused && Over(c, now)
    ensures DisplayStatus(c, now) == ShownActive <==> ActiveFilter(c, now)
    ensures DisplayStatus(c, now) == ShownInactive <==> InactiveFilter(c)
    ensures DisplayStatus(c, now) == ShownExpired <==> ExpiredFilter(c, now) && !InactiveFilter(c)
  {
  }

  ghost function IdsWith(codes: Codes, filter: Code -> bool): set<CodeId> {
    set id | id in codes && filter(codes[id])
  }

  /** `count_codes`. */
  ghost function CountOf(codes: Codes, filter: Code -> bool): nat {
    |IdsWith(codes, filter)|
  }

  lemma SetSizes<T>(all: set<T>, a: set<T>, i: set<T>, e: set<T>)
    requires a + (i + e) == all && a !! (i + e)
    ensures |all| == |a| + |i| + |e| - |i * e|
  {
    assert |i + e| == |i| + |e| - |i * e|;
  }

  /** Counting by three filters of which the first excludes the others counts what passes both of those twice. */
  lemma CountsAddUp(codes: Codes, a: Code -> bool, i: Code -> bool, e: Code -> bool, both: Code -> bool)
    requires forall c :: (a(c) <==> !i(c) && !e(c)) && (both(c) <==> i(c) && e(c))
    ensures |codes.Keys| == CountOf(codes, a) + CountOf(codes, i) + CountOf(codes, e) - CountOf(codes, both)
  {
    assert IdsWith(codes, both) == IdsWith(codes, i) * IdsWith(codes, e);
    assert IdsWith(codes, a) + (IdsWith(codes, i) + IdsWith(codes, e)) == codes.Keys;
    SetSizes(codes.Keys, IdsWith(codes, a), IdsWith(codes, i), IdsWith(codes, e));
  }

  /** The three counts of the admin list add up to all codes, with the paused ones that are over counted twice. */
  lemma FilterCountsAddUp(codes: Codes, now: int)
    ensures |codes.Keys| == CountOf(codes, (c: Code) => ActiveFilter(c, now)) + CountOf(codes, (c: Code) => InactiveFilter(c))
                            + CountOf(codes, (c: Code) => ExpiredFilter(c, now))
                            - CountOf(codes, (c: Code) => c.status == Paused && Over(c, now))
  {
    CountsAddUp(codes, (c: Code) => ActiveFilter(c, now), (c: Code) => InactiveFilter(c), (c: Code) => ExpiredFilter(c, now),
                (c: Code) => c.status == Paused && Over(c, now));
  }

  // ----- the statements

  /** `UPDATE ... WHERE hit SET status`: the rows hit get the status and the time, the others stay. */
  function Updated(codes: Codes, hit: Code -> bool, status: Status, now: int): Codes {
    map id | id in codes :: if hit(codes[id]) then codes[id].(status := status, updatedAt := now) else codes[id]
  }

  function Due(now: int): Code -> bool {
    (c: Code) => c.status == Active && c.validUntil <= now
  }

  function Spent(): Code -> bool {
    (c: Code) => c.status == Active && c.maxTotal.Some? && c.maxTotal.value <= c.usedTotal
  }

  function Listed(hashes: seq<string>): Code -> bool {
    (c: Code) => c.hash in hashes && c.status == Active
  }

  /** The rollover job: expire, then deplete. */
  function Maintained(codes: Codes, now: int): Codes {
    Updated(Updated(codes, Due(now), Expired, now), Spent(), Depleted, now)
  }

  /** After the rollover, stored ACTIVE and the active filter at that time are one and the same; paused and finished codes stay. */
  lemma MaintainedAgrees(codes: Codes, now: int, id: CodeId)
    requires id in codes
    ensures var c := Maintained(codes, now)[id];
            && (c.status == Active <==> ActiveFilter(c, now))
            && (ActiveFilter(c, now) <==> ActiveFilter(codes[id], now))
            && (DisplayStatus(c, now) == DisplayStatus(codes[id], now))
            && (codes[id].status != Active ==> c == codes[id])
            && (c.status != codes[id].status ==> c.status == if codes[id].validUntil <= now then Expired else Depleted)
  {
  }

  /** The order of the two statements decides only which finished status a code gets that is both past its time and used up. */
  lemma MaintenanceOrder(codes: Codes, now: int, id: CodeId)
    requires id in codes
    ensures var other := Updated(Updated(codes, Spent(), Depleted, now), Due(now), Expired, now);
            other[id] == Maintained(codes, now)[id]
            || (codes[id].status == Active && codes[id].validUntil <= now && UsedUp(codes[id])
                && other[id] == Maintained(codes, now)[id].(status := Depleted))
  {
  }

  /** A second rollover at the same time changes nothing. */
  lemma MaintenanceSettles(codes: Codes, now: int)
    ensures Maintained(Maintained(codes, now), now) == Maintained(codes, now)
  {
    var once := Maintained(codes, now);
    forall id | id in codes
      ensures Maintained(once, now)[id] == once[id]
    {
      MaintainedAgrees(codes, now, id);
    }
  }

  // ----- the internal status route

  datatype RouteError = StatusInvalid | NotFound | Conflict

  function StatusNamed(text: string): Option<Status> {
    var t := Upper(Strip(text));
    if t == "ACTIVE" then Some(Active)
    else if t == "PAUSED" then Some(Paused)
    else if t == "EXPIRED" then Some(Expired)
    else if t == "DEPLETED" then Some(Depleted)
    else None
  }

  /** A status is read from its name and no other text; case and surrounding whitespace do not matter. */
  lemma StatusNames(text: string)
    ensures StatusNamed(text) == Some(Active) <==> Upper(Strip(text)) == "ACTIVE"
    ensures StatusNamed(text) == Some(Paused) <==> Upper(Strip(text)) == "PAUSED"
    ensures StatusNamed(text) == Some(Expired) <==> Upper(Strip(text)) == "EXPIRED"
    ensures StatusNamed(text) == Some(Depleted) <==> Upper(Strip(text)) == "DEPLETED"
  {
    assert "ACTIVE"[0] == 'A' && "PAUSED"[0] == 'P' && "EXPIRED"[0] == 'E' && "DEPLETED"[0] == 'D';
  }

  predicate Mutable(s: Status) {
    s == Active || s == Paused
  }

  const TRANSITIONS: set<(Status, Status)> := {(Active, Paused), (Paused, Active)}

  /** What the route answers, for parsed statuses: an expected status that was sent but does not parse is Some(None). */
  function Routed(current: Option<Code>, desired: Option<Status>, expected: Option<Option<Status>>): Option<RouteError> {
    if desired.None? || !Mutable(desired.value) || expected == Some(None) then Some(StatusInvalid)
    else if current.None? then Some(NotFound)
    else if !Mutable(current.value.status) || (expected.Some? && expected.value != Some(current.value.status)) then Some(Conflict)
    else None
  }

  /** The route goes ahead only between ACTIVE and PAUSED, and only from the status expected, if one is. */
  lemma RoutedIff(current: Option<Code>, desired: Option<Status>, expected: Option<Option<Status>>)
    ensures var e := Routed(current, desired, expected);
            && (e == Some(StatusInvalid) <==> (desired != Some(Active) && desired != Some(Paused)) || expected == Some(None))
            && (e == Some(NotFound) <==> current == None && (desired == Some(Active) || desired == Some(Paused)) && expected != Some(None))
            && (e == None <==> && current.Some? && (current.value.status == Active || current.value.status == Paused)
                               && (desired == Some(Active) || desired == Some(Paused))
                               && (expected == None || expected == Some(Some(current.value.status))))
  {
  }

  // ----- the table

  class CodeTable {
    var codes: Codes

    /** `expire_active_codes`. */
    method ExpireActive(now: int) returns (count: nat)
      modifies this
      ensures codes == map id | id in old(codes) ::
                var c := old(codes)[id];
                if c.status == Active && c.validUntil <= now
                then Code(c.hash, Expired, c.validUntil, c.maxTotal, c.usedTotal, now) else c
      ensures count == |set id | id in old(codes) && old(codes)[id].status == Active && old(codes)[id].validUntil <= now|
      ensures codes == Updated(old(codes), Due(now), Expired, now)
    {
      var hit := set id | id in codes && codes[id].status == Active && codes[id].validUntil <= now;
      codes := map id | id in codes :: if id in hit then codes[id].(status := Expired, updatedAt := now) else codes[id];
      count := |hit|;
    }

    /** `deplete_active_codes`. */
    method DepleteActive(now: int) returns (count: nat)
      modifies this
      ensures codes == map id | id in old(codes) ::
                var c := old(codes)[id];
                if c.status == Active && c.maxTotal.Some? && c.maxTotal.value <= c.usedTotal
                then Code(c.hash, Depleted, c.validUntil, c.maxTotal, c.usedTotal, now) else c
      ensures count == |set id | id in old(codes) && old(codes)[id].status == Active && old(codes)[id].maxTotal.Some?
                                 && old(codes)[id].maxTotal.value <= old(codes)[id].usedTotal|
      ensures codes == Updated(old(codes), Spent(), Depleted, now)
    {
      var hit := set id | id in codes && codes[id].status == Active && codes[id].maxTotal.Some?
                          && codes[id].maxTotal.value <= codes[id].usedTotal;
      codes := map id | id in codes :: if id in hit then codes[id].(status := Depleted, updatedAt := now) else codes[id];
      count := |hit|;
    }

    /** The rollover job. */
    method Rollover(now: int) returns (expired: nat, depleted: nat)
      modifies this
      ensures codes == Maintained(old(codes), now)
      ensures expired == |set id | id in old(codes) && old(codes)[id].status == Active && old(codes)[id].validUntil <= now|
      ensures depleted == |set id | id in old(codes) && old(codes)[id].status == Active && now < old(codes)[id].validUntil
                                    && old(codes)[id].maxTotal.Some? && old(codes)[id].maxTotal.value <= old(codes)[id].usedTotal|
    {
      ghost var left := set id | id in codes && codes[id].status == Active && now < codes[id].validUntil
                               && codes[id].maxTotal.Some? && codes[id].maxTotal.value <= codes[id].usedTotal;
      expired := ExpireActive(now);
      assert left == set id | id in codes && codes[id].status == Active && codes[id].maxTotal.Some?
                              && codes[id].maxTotal.value <= codes[id].usedTotal;
      depleted := DepleteActive(now);
    }

    /** `pause_active_codes_by_hashes`. */
    method PauseByHashes(hashes: seq<string>, now: int) returns (count: nat)
      modifies this
      ensures codes == map id | id in old(codes) ::
                var c := old(codes)[id];
                if c.status == Active && c.hash in hashes
                then Code(c.hash, Paused, c.validUntil, c.maxTotal, c.usedTotal, now) else c
      ensures count == |set id | id in old(codes) && old(codes)[id].status == Active && old(codes)[id].hash in hashes|
      ensures codes == Updated(old(codes), Listed(hashes), Paused, now)
    {
      if hashes == [] {
        assert (set id | id in codes && codes[id].status == Active && codes[id].hash in hashes) == {};
        return 0;
      }
      var hit := set id | id in codes && codes[id].hash in hashes && codes[id].status == Active;
      assert hit == set id | id in codes && codes[id].status == Active && codes[id].hash in hashes;
      codes := map id | id in codes :: if id in hit then codes[id].(status := Paused, updatedAt := now) else codes[id];
      count := |hit|;
    }

    /** `update_promo_campaign_status`: its guards one after the other. */
    method UpdateStatus(id: CodeId, desiredText: string, expectedText: Option<string>, now: int) returns (error: Option<RouteError>)
      modifies this
      ensures var current := if id in old(codes) then Some(old(codes)[id]) else None;
              var expected := if expectedText.Some? then Some(StatusNamed(expectedText.value)) else None;
              error == Routed(current, StatusNamed(desiredText), expected)
      ensures error.Some? ==> codes == old(codes)
      ensures error.None? ==>
                var c := old(codes)[id];
                var desired := if Upper(Strip(desiredText)) == "ACTIVE" then Active else Paused;
                && (desired == Paused ==> Upper(Strip(desiredText)) == "PAUSED") && (c.status == Active || c.status == Paused)
                && (expectedText.Some? ==> Upper(Strip(expectedText.value)) == if c.status == Active then "ACTIVE" else "PAUSED")
                && codes == (if c.status == desired then old(codes)
                             else old(codes)[id := Code(c.hash, desired, c.validUntil, c.maxTotal, c.usedTotal, now)])
    {
      StatusNames(desiredText);
      if expectedText.Some? {
        StatusNames(expectedText.value);
      }
      var desired := StatusNamed(desiredText);
      if desired.None? || !Mutable(desired.value) {
        return Some(StatusInvalid);
      }
      var expected := None;
      if expectedText.Some? {
        expected := StatusNamed(expectedText.value);
        if expected.None? {
          return Some(StatusInvalid);
        }
      }
      if id !in codes {
        return Some(NotFound);
      }
      var campaign := codes[id];
      if expected.Some? && campaign.status != expected.value {
        return Some(Conflict);
      }
      if !Mutable(campaign.status) && campaign.status != desired.value {
        return Some(Conflict);
      }
      if campaign.status != desired.value && (campaign.status, desired.value) !in TRANSITIONS {
        return Some(Conflict);
      }
      if campaign.status != desired.value {
        codes := codes[id := campaign.(status := desired.value, updatedAt := now)];
      }
      error := None;
    }

    /** The admin pages' switch. */
    method Toggle(id: CodeId, now: int) returns (error: Option<RouteError>)
      modifies this
      ensures error == if id !in old(codes) then Some(NotFound)
                       else if old(codes)[id].status != Active && old(codes)[id].status != Paused then Some(Conflict) else None
      ensures codes == if error.None?
                       then old(codes)[id := old(codes)[id].(status := if old(codes)[id].status == Active then Paused else Active,
                                                             updatedAt := now)]
                       else old(codes)
    {
      if id !in codes {
        return Some(NotFound);
      }
      if !Mutable(codes[id].status) {
        return Some(Conflict);
      }
      codes := codes[id := codes[id].(status := if codes[id].status == Active then Paused else Active, updatedAt := now)];
      error := None;
    }
  }
}
