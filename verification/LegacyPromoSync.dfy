/**
 The one-off migration that copies convertible admin promo codes into the runtime promo_codes table. Hashing and encryption
 are foreign calls, passed in; a legacy UUID is seen as the integer that orders it.
 */
module LegacyPromoSync {
  import opened Options
  import opened Ordering
  import opened Text

  datatype Legacy = Legacy(code: string, promoType: string, value: real, productCode: Option<string>, maxUses: int,
                           usesCount: int, validFrom: int, validUntil: Option<int>, channelTag: Option<string>,
                           status: string, createdAt: int, updatedAt: int)

  /** The values the promo_type and status columns may hold; their CHECKs rule out the last ones. */
  datatype PromoType = PERCENT_DISCOUNT | PREMIUM_GRANT | OtherType(name: string)
  datatype PromoStatus = ACTIVE | PAUSED | EXPIRED | DEPLETED | OtherStatus(name: string)

  /** The columns of promo_codes other than its two keys. */
  datatype Body = Body(codePrefix: string, codeEncrypted: string, campaignName: string, promoType: PromoType,
                       grantPremiumDays: Option<int>, discountPercent: Option<int>, targetScope: string, status: PromoStatus,
                       validFrom: int, validUntil: int, maxTotalUses: Option<int>, usedTotal: int, maxUsesPerUser: int,
                       newUsersOnly: bool, firstPurchaseOnly: bool, createdBy: string, createdAt: int, updatedAt: int)

  datatype Promo = Promo(id: int, codeHash: string, body: Body)

  /** A row ready to be inserted, but for its id. */
  datatype Candidate = Candidate(codeHash: string, body: Body)

  /** The peppered hash and the cipher, whatever they compute, and 9999-12-31 as a timestamp. */
  datatype Env = Env(hash: string -> string, encrypt: string -> string, openEndedValidUntil: int)

  function RuntimeType(promoType: string): (t: Option<PromoType>)
    ensures t in {None, Some(PERCENT_DISCOUNT), Some(PREMIUM_GRANT)}
  {
    if promoType == "discount_percent" then Some(PERCENT_DISCOUNT)
    else if promoType == "bonus_subscription_days" then Some(PREMIUM_GRANT)
    else None
  }

  function RuntimeStatus(status: string): (s: Option<PromoStatus>)
    ensures s in {None, Some(ACTIVE), Some(PAUSED), Some(EXPIRED)}
  {
    if status == "active" then Some(ACTIVE)
    else if status == "paused" then Some(PAUSED)
    else if status == "expired" || status == "archived" then Some(EXPIRED)
    else None
  }

  /** Python's `int(value)`: truncation toward zero. */
  function Truncate(value: real): int {
    if value >= 0.0 then value.Floor else -((-value).Floor)
  }

  function ResolveDiscountPercent(value: real): (n: Option<int>)
    ensures n.Some? ==> 1 <= n.value <= 90 && n.value as real == value
  {
    var n := Truncate(value);
    if n as real != value || !(1 <= n <= 90) then None else Some(n)
  }

  function ResolveGrantDays(value: real): (n: Option<int>)
    ensures n.Some? ==> n.value in {7, 30, 90} && n.value as real == value
  {
    var n := Truncate(value);
    if n as real != value || n !in {7, 30, 90} then None else Some(n)
  }

  function RawCode(l: Legacy): string {
    Upper(Strip(l.code))
  }

  /** `re.sub(r"[\s-]+", "", text)`, from position i on. */
  function WithoutSpacesAndHyphens(s: string, i: nat): string
    requires i <= |s|
    decreases |s| - i
  {
    if i == |s| then ""
    else if IsSpace(s[i]) || s[i] == '-' then WithoutSpacesAndHyphens(s, i + 1)
    else [s[i]] + WithoutSpacesAndHyphens(s, i + 1)
  }

  function NormalizedCode(l: Legacy): string {
    WithoutSpacesAndHyphens(Upper(Strip(RawCode(l))), 0)
  }

  function HashOf(env: Env, l: Legacy): string {
    env.hash(NormalizedCode(l))
  }

  function CodePrefix(normalized: string): string {
    if normalized == "" then "PROMO" else normalized[..Min(8, |normalized|)]
  }

  function CampaignName(channelTag: Option<string>, rawCode: string): string {
    var value := if channelTag.Some? then Strip(channelTag.value) else "";
    if value != "" then value else rawCode
  }

  /** The row a legacy code turns into, if its type, status and value have a runtime counterpart. */
  function Convert(env: Env, l: Legacy): Option<Candidate> {
    var runtimeType, runtimeStatus := RuntimeType(l.promoType), RuntimeStatus(l.status);
    if runtimeType.None? || runtimeStatus.None? then None
    else
      var percent := runtimeType.value.PERCENT_DISCOUNT?;
      var discount := if percent then ResolveDiscountPercent(l.value) else None;
      var days := if percent then None else ResolveGrantDays(l.value);
      if discount.None? && days.None? then None
      else
        var used := Max(0, l.usesCount);
        Some(Candidate(HashOf(env, l), Body(
          CodePrefix(NormalizedCode(l)), env.encrypt(RawCode(l)), CampaignName(l.channelTag, RawCode(l)),
          runtimeType.value, days, discount,
          if !percent then "PREMIUM_ANY"
          else if l.productCode.Some? && l.productCode.value != "" then l.productCode.value else "ANY",
          runtimeStatus.value, l.validFrom,
          if l.validUntil.Some? then l.validUntil.value else env.openEndedValidUntil,
          if l.maxUses == 0 then None else Some(Max(l.maxUses, used)), used, 1, false, false,
          "legacy_admin_promo_sync", l.createdAt, l.updatedAt)))
  }

  /** Every CHECK constraint promo_codes carries at this revision. */
  predicate MeetsChecks(p: Body) {
    && !p.promoType.OtherType?
    && (p.grantPremiumDays.None? || p.grantPremiumDays.value in {7, 30, 90})
    && (p.discountPercent.None? || 1 <= p.discountPercent.value <= 90)
    && !p.status.OtherStatus?
    && (p.maxTotalUses.None? || p.maxTotalUses.value > 0)
    && p.usedTotal >= 0
    && p.maxUsesPerUser == 1
    && ((p.promoType.PREMIUM_GRANT? && p.grantPremiumDays.Some? && p.discountPercent.None?)
        || (p.promoType.PERCENT_DISCOUNT? && p.discountPercent.Some? && p.grantPremiumDays.None?))
    && (p.maxTotalUses.None? || p.usedTotal <= p.maxTotalUses.value)
  }

  /** A percentage code carries a percentage from 1 to 90, a grant 7, 30 or 90 days, and neither more; uses stay within the limit. */
  lemma ChecksAdmit(b: Body)
    ensures MeetsChecks(b)
       <==> && (|| (b.promoType == PERCENT_DISCOUNT && b.grantPremiumDays == None && b.discountPercent.Some?
                    && 1 <= b.discountPercent.value <= 90)
                || (b.promoType == PREMIUM_GRANT && b.discountPercent == None
                    && (b.grantPremiumDays == Some(7) || b.grantPremiumDays == Some(30) || b.grantPremiumDays == Some(90))))
            && (b.status == ACTIVE || b.status == PAUSED || b.status == EXPIRED || b.status == DEPLETED)
            && b.maxUsesPerUser == 1 && 0 <= b.usedTotal
            && (b.maxTotalUses == None || (1 <= b.maxTotalUses.value && b.usedTotal <= b.maxTotalUses.value))
  {
  }

  /** The legacy table's own CHECK constraints on its counters. */
  predicate MeetsLegacyChecks(l: Legacy) {
    l.value >= 0.0 && l.maxUses >= 0 && l.usesCount >= 0
  }

  /** A converted row meets every CHECK unless a negative use limit meets no recorded use. */
  lemma ConvertedMeetsChecksIff(env: Env, l: Legacy)
    requires Convert(env, l).Some?
    ensures MeetsChecks(Convert(env, l).value.body) <==> !(l.maxUses < 0 && l.usesCount <= 0)
  {
  }

  /** What a use limit still allows: nothing recorded means unlimited. */
  function Remaining(limit: Option<int>, used: int): Option<int> {
    if limit.None? then None else Some(Max(0, limit.value - used))
  }

  /** The conversion keeps the number of uses a code still allows, also for a code already used beyond its limit. */
  lemma ConversionKeepsAllowance(env: Env, l: Legacy)
    requires Convert(env, l).Some? && MeetsLegacyChecks(l)
    ensures var b := Convert(env, l).value.body;
            && b.usedTotal == l.usesCount
            && Remaining(b.maxTotalUses, b.usedTotal) == Remaining(if l.maxUses == 0 then None else Some(l.maxUses), l.usesCount)
  {
  }

  /** Taking out spaces and hyphens goes character by character. */
  lemma {:induction false} OneByOne(a: string, b: string, i: nat)
    requires i <= |a|
    ensures WithoutSpacesAndHyphens(a + b, i) == WithoutSpacesAndHyphens(a, i) + WithoutSpacesAndHyphens(b, 0)
    decreases |a| - i
  {
    if i < |a| {
      OneByOne(a, b, i + 1);
    } else {
      Shifted(a, b, 0);
    }
  }

  lemma {:induction false} Shifted(a: string, b: string, i: nat)
    requires i <= |b|
    ensures WithoutSpacesAndHyphens(a + b, |a| + i) == WithoutSpacesAndHyphens(b, i)
    decreases |b| - i
  {
    if i < |b| {
      assert (a + b)[|a| + i] == b[i];
      Shifted(a, b, i + 1);
    }
  }

  lemma SingleCharacter(c: char)
    ensures WithoutSpacesAndHyphens([c], 0) == if IsSpace(c) || c == '-' then "" else [c]
  {
    assert WithoutSpacesAndHyphens([c], 1) == "";
  }

  // ----- what a conversion says, column by column

  /** A legacy type and value that have a runtime counterpart: a whole percentage from 1 to 90, or 7, 30 or 90 days. */
  predicate Worth(l: Legacy, percent: Option<int>, days: Option<int>) {
    || (l.promoType == "discount_percent" && percent.Some? && 1 <= percent.value <= 90 && l.value == percent.value as real && days.None?)
    || (l.promoType == "bonus_subscription_days" && days.Some? && days.value in {7, 30, 90} && l.value == days.value as real
        && percent.None?)
  }

  predicate KnownStatus(l: Legacy) {
    l.status == "active" || l.status == "paused" || l.status == "expired" || l.status == "archived"
  }

  /** The runtime row says what the legacy row says. */
  predicate Says(env: Env, l: Legacy, codeHash: string, b: Body) {
    && codeHash == env.hash(WithoutSpacesAndHyphens(Upper(Strip(l.code)), 0))
    && (b.status.ACTIVE? <==> l.status == "active")
    && (b.status.PAUSED? <==> l.status == "paused")
    && (b.status.EXPIRED? <==> l.status == "expired" || l.status == "archived")
    && (b.promoType.PERCENT_DISCOUNT? <==> l.promoType == "discount_percent")
    && (b.promoType.PREMIUM_GRANT? <==> l.promoType == "bonus_subscription_days")
    && Worth(l, b.discountPercent, b.grantPremiumDays)
    && (l.promoType == "bonus_subscription_days" ==> b.targetScope == "PREMIUM_ANY")
    && (l.promoType == "discount_percent" && l.productCode in {None, Some("")} ==> b.targetScope == "ANY")
    && (l.promoType == "discount_percent" && l.productCode !in {None, Some("")} ==> l.productCode == Some(b.targetScope))
    && b.validFrom == l.validFrom && b.createdAt == l.createdAt && b.updatedAt == l.updatedAt
    && (l.validUntil.Some? ==> l.validUntil.value == b.validUntil) && (l.validUntil.None? ==> b.validUntil == env.openEndedValidUntil)
    && (l.maxUses == 0 <==> b.maxTotalUses.None?)
    && LimitKept(l, b) && b.maxUsesPerUser == 1 && !b.newUsersOnly && !b.firstPurchaseOnly
    && b.codeEncrypted == env.encrypt(Upper(Strip(l.code))) && b.createdBy == "legacy_admin_promo_sync"
    && NamedAfter(l, b)
  }

  /** The uses are those recorded, none for a negative count; the limit is the code's, or the uses where they exceed it. */
  predicate LimitKept(l: Legacy, b: Body) {
    && (0 <= l.usesCount ==> b.usedTotal == l.usesCount) && (l.usesCount < 0 ==> b.usedTotal == 0)
    && (l.maxUses != 0 && b.usedTotal <= l.maxUses ==> b.maxTotalUses == Some(l.maxUses))
    && (l.maxUses != 0 && l.maxUses < b.usedTotal ==> b.maxTotalUses == Some(b.usedTotal))
  }

  /** The campaign is called after its channel tag or else the code; the prefix is at most eight characters of the code. */
  predicate NamedAfter(l: Legacy, b: Body) {
    var bare := WithoutSpacesAndHyphens(Upper(Strip(l.code)), 0);
    && (l.channelTag.None? || Strip(l.channelTag.value) == "" ==> b.campaignName == Upper(Strip(l.code)))
    && (l.channelTag.Some? && Strip(l.channelTag.value) != "" ==> b.campaignName == Strip(l.channelTag.value))
    && (bare == "" ==> b.codePrefix == "PROMO")
    && (bare != "" ==> b.codePrefix <= bare && |b.codePrefix| == Min(8, |bare|))
  }

  lemma TruncateIs(value: real, n: int)
    ensures Truncate(value) as real == value && Truncate(value) == n <==> value == n as real
    ensures Truncate(-value) == -Truncate(value)
  {
    if value == n as real {
      assert value.Floor == n && (-value).Floor == -n;
    }
  }

  /** A legacy row converts exactly when its status, type and value have a counterpart ... */
  lemma ConvertsIff(env: Env, l: Legacy)
    ensures Convert(env, l).Some? <==> KnownStatus(l) && exists p, d :: Worth(l, p, d)
  {
    if p, d :| Worth(l, p, d) {
      TruncateIs(l.value, if p.Some? then p.value else d.value);
    }
    if Convert(env, l).Some? {
      var b := Convert(env, l).value.body;
      assert Worth(l, b.discountPercent, b.grantPremiumDays);
    }
  }

  lemma NormalizedOnce(l: Legacy)
    ensures NormalizedCode(l) == WithoutSpacesAndHyphens(Upper(Strip(l.code)), 0)
  {
    StripTrimmed(Strip(l.code));
    UpperStripped(Strip(l.code));
  }

  lemma ConvertNames(env: Env, l: Legacy)
    requires Convert(env, l).Some?
    ensures NamedAfter(l, Convert(env, l).value.body)
  {
    NormalizedOnce(l);
  }

  lemma ConvertLimits(env: Env, l: Legacy)
    requires Convert(env, l).Some?
    ensures LimitKept(l, Convert(env, l).value.body)
  {
  }

  /** ... and then says the same. */
  lemma ConvertSays(env: Env, l: Legacy)
    requires Convert(env, l).Some?
    ensures Says(env, l, Convert(env, l).value.codeHash, Convert(env, l).value.body)
  {
    NormalizedOnce(l);
    ConvertNames(env, l);
    ConvertLimits(env, l);
  }

  /** A code once stripped and raised stays so. */
  lemma UpperStripped(s: string)
    requires Trimmed(s)
    ensures Upper(Strip(Upper(s))) == Upper(s)
  {
    var u := Upper(s);
    assert forall i | 0 <= i < |s| :: u[i] == UpperChar(s[i]);
    assert Trimmed(u);
    StripTrimmed(u);
  }

  // ----- the runtime table

  function Hashes(rows: seq<Promo>): set<string> {
    set p | p in rows :: p.codeHash
  }

  /** `COALESCE(MAX(id), 0)`. */
  function MaxId(rows: seq<Promo>): (m: int)
    ensures forall p | p in rows :: p.id <= m
    ensures if rows == [] then m == 0 else exists p :: p in rows && p.id == m
  {
    if rows == [] then 0
    else if |rows| == 1 then rows[0].id
    else Max(MaxId(rows[..|rows| - 1]), rows[|rows| - 1].id)
  }

  /** Primary key and unique code_hash. */
  ghost predicate KeysUnique(rows: seq<Promo>) {
    forall i, j | 0 <= i < j < |rows| :: rows[i].id != rows[j].id && rows[i].codeHash != rows[j].codeHash
  }

  /** The legacy rows as the migration reads them: ORDER BY created_at, id. */
  function AdminRows(legacy: map<int, Legacy>): seq<Legacy> {
    var view := View(legacy, (l: Legacy) => l.createdAt);
    OrderIsSorted(KeysOf(legacy, (l: Legacy) => l.createdAt));
    seq(|view|, i requires 0 <= i < |view| => assert view[i] in view; legacy[view[i].id])
  }

  /** The conversion the migration applies to each row; what follows holds of any conversion. */
  function Converter(env: Env): Legacy -> Option<Candidate> {
    l => Convert(env, l)
  }

  /** What each row read converts to. */
  function Candidates(convert: Legacy -> Option<Candidate>, ls: seq<Legacy>): (cs: seq<Option<Candidate>>)
    ensures |cs| == |ls| && forall i | 0 <= i < |ls| :: cs[i] == convert(ls[i])
  {
    seq(|ls|, i requires 0 <= i < |ls| => convert(ls[i]))
  }

  /** The loop's variables: the rows so far, `existing_hashes` and `next_promo_id`. */
  datatype State = State(rows: seq<Promo>, hashes: set<string>, nextId: int)

  function Start(rows: seq<Promo>): State {
    State(rows, Hashes(rows), MaxId(rows) + 1)
  }

  function Step(st: State, c: Option<Candidate>): State {
    if c.None? || c.value.codeHash in st.hashes then st
    else State(st.rows + [Promo(st.nextId, c.value.codeHash, c.value.body)], st.hashes + {c.value.codeHash}, st.nextId + 1)
  }

  /** The state after the first n legacy rows. */
  function SyncTo(rows: seq<Promo>, cs: seq<Option<Candidate>>, n: nat): State
    requires n <= |cs|
  {
    if n == 0 then Start(rows) else Step(SyncTo(rows, cs, n - 1), cs[n - 1])
  }

  function Sync(convert: Legacy -> Option<Candidate>, legacy: map<int, Legacy>, rows: seq<Promo>): seq<Promo> {
    var cs := Candidates(convert, AdminRows(legacy));
    SyncTo(rows, cs, |cs|).rows
  }

  // ----- what the loop computes, without the loop

  /** Candidate i is the first with its hash, and the hash is new to the runtime table. */
  predicate Picked(rows: seq<Promo>, cs: seq<Option<Candidate>>, i: nat)
    requires i < |cs|
  {
    && cs[i].Some?
    && cs[i].value.codeHash !in Hashes(rows)
    && forall j | 0 <= j < i && cs[j].Some? :: cs[j].value.codeHash != cs[i].value.codeHash
  }

  /** The positions of the picked candidates among the first n, in order. */
  function Sources(rows: seq<Promo>, cs: seq<Option<Candidate>>, n: nat): (picked: seq<nat>)
    requires n <= |cs|
    ensures forall k | 0 <= k < |picked| :: picked[k] < n && Picked(rows, cs, picked[k])
  {
    if n == 0 then []
    else Sources(rows, cs, n - 1) + (if Picked(rows, cs, n - 1) then [n - 1] else [])
  }

  /** They are increasing and complete. */
  lemma {:induction false} SourcesComplete(rows: seq<Promo>, cs: seq<Option<Candidate>>, n: nat)
    requires n <= |cs|
    ensures forall a, b | 0 <= a < b < |Sources(rows, cs, n)| :: Sources(rows, cs, n)[a] < Sources(rows, cs, n)[b]
    ensures forall i: nat | i < n && Picked(rows, cs, i) :: i in Sources(rows, cs, n)
  {
    if n != 0 {
      SourcesComplete(rows, cs, n - 1);
      var before := Sources(rows, cs, n - 1);
      forall i: nat | i < n && Picked(rows, cs, i)
        ensures i in Sources(rows, cs, n)
      {
        if i == n - 1 {
          assert Sources(rows, cs, n)[|before|] == i;
        }
      }
    }
  }

  /** The picked candidates, numbered on from the largest id in use. */
  function Inserted(rows: seq<Promo>, cs: seq<Option<Candidate>>, n: nat): seq<Promo>
    requires n <= |cs|
  {
    if n == 0 then []
    else
      var before := Inserted(rows, cs, n - 1);
      if Picked(rows, cs, n - 1)
      then before + [Promo(MaxId(rows) + 1 + |before|, cs[n - 1].value.codeHash, cs[n - 1].value.body)]
      else before
  }

  /** Inserted row k is picked candidate k under the k-th fresh id. */
  lemma {:induction false} InsertedFromSources(rows: seq<Promo>, cs: seq<Option<Candidate>>, n: nat)
    requires n <= |cs|
    ensures |Inserted(rows, cs, n)| == |Sources(rows, cs, n)|
    ensures forall k | 0 <= k < |Sources(rows, cs, n)| ::
              var c := cs[Sources(rows, cs, n)[k]].value;
              Inserted(rows, cs, n)[k] == Promo(MaxId(rows) + 1 + k, c.codeHash, c.body)
  {
    if n != 0 {
      InsertedFromSources(rows, cs, n - 1);
    }
  }

  /** A hash is known after n candidates exactly when the table had it or a candidate brought it. */
  ghost predicate Seen(rows: seq<Promo>, cs: seq<Option<Candidate>>, n: nat, hash: string)
    requires n <= |cs|
  {
    hash in Hashes(rows) || exists j | 0 <= j < n :: cs[j].Some? && cs[j].value.codeHash == hash
  }

  /** The loop appends exactly the picked candidates, in order, with consecutive fresh ids. */
  lemma {:induction false} SyncIsInserted(rows: seq<Promo>, cs: seq<Option<Candidate>>, n: nat)
    requires n <= |cs|
    ensures SyncTo(rows, cs, n).rows == rows + Inserted(rows, cs, n)
    ensures SyncTo(rows, cs, n).nextId == MaxId(rows) + 1 + |Inserted(rows, cs, n)|
    ensures forall hash :: (hash in SyncTo(rows, cs, n).hashes) == Seen(rows, cs, n, hash)
  {
    if n != 0 {
      SyncIsInserted(rows, cs, n - 1);
      SeenStep(rows, cs, n);
    }
  }

  lemma SeenStep(rows: seq<Promo>, cs: seq<Option<Candidate>>, n: nat)
    requires 0 < n <= |cs|
    ensures forall hash ::
              Seen(rows, cs, n, hash) <==> Seen(rows, cs, n - 1, hash) || (cs[n - 1].Some? && cs[n - 1].value.codeHash == hash)
    ensures cs[n - 1].Some? ==> (Picked(rows, cs, n - 1) <==> !Seen(rows, cs, n - 1, cs[n - 1].value.codeHash))
  {
  }

  /** Ids stay unique and hashes stay unique. */
  lemma SyncKeepsKeysUnique(rows: seq<Promo>, cs: seq<Option<Candidate>>)
    requires KeysUnique(rows)
    ensures KeysUnique(SyncTo(rows, cs, |cs|).rows)
  {
    SyncIsInserted(rows, cs, |cs|);
    SourcesComplete(rows, cs, |cs|);
    InsertedFromSources(rows, cs, |cs|);
    var picked, added := Sources(rows, cs, |cs|), Inserted(rows, cs, |cs|);
    forall a, b | 0 <= a < b < |added|
      ensures added[a].codeHash != added[b].codeHash
    {
      assert Picked(rows, cs, picked[b]) && picked[a] < picked[b];
    }
    forall i | 0 <= i < |rows|
      ensures rows[i].id <= MaxId(rows) && rows[i].codeHash in Hashes(rows)
    {
      assert rows[i] in rows;
    }
  }

  /** `existing_hashes` is the set of hashes in the table throughout. */
  lemma {:induction false} HashesTracked(rows: seq<Promo>, cs: seq<Option<Candidate>>, n: nat)
    requires n <= |cs|
    ensures SyncTo(rows, cs, n).hashes == Hashes(SyncTo(rows, cs, n).rows)
  {
    if n != 0 {
      HashesTracked(rows, cs, n - 1);
      var st, st' := SyncTo(rows, cs, n - 1), SyncTo(rows, cs, n);
      if st' != st {
        HashesAppend(st.rows, st'.rows[|st.rows|]);
      }
    }
  }

  lemma HashesAppend(rows: seq<Promo>, p: Promo)
    ensures Hashes(rows + [p]) == Hashes(rows) + {p.codeHash}
  {
    assert forall q :: q in rows + [p] <==> q in rows || q == p;
  }

  /** After a sync every convertible hash is present, so a second run inserts nothing. */
  lemma SyncTwiceInsertsNothing(convert: Legacy -> Option<Candidate>, legacy: map<int, Legacy>, rows: seq<Promo>)
    ensures Sync(convert, legacy, Sync(convert, legacy, rows)) == Sync(convert, legacy, rows)
  {
    var cs := Candidates(convert, AdminRows(legacy));
    var after := Sync(convert, legacy, rows);
    SyncIsInserted(rows, cs, |cs|);
    HashesTracked(rows, cs, |cs|);
    SyncIsInserted(after, cs, |cs|);
    NothingPicked(rows, after, cs, |cs|);
  }

  lemma {:induction false} NothingPicked(rows: seq<Promo>, after: seq<Promo>, cs: seq<Option<Candidate>>, n: nat)
    requires n <= |cs| && forall hash :: Seen(rows, cs, |cs|, hash) ==> hash in Hashes(after)
    ensures Inserted(after, cs, n) == []
  {
    if n != 0 {
      NothingPicked(rows, after, cs, n - 1);
      if cs[n - 1].Some? {
        assert Seen(rows, cs, |cs|, cs[n - 1].value.codeHash);
      }
    }
  }

  // ----- the same, over the legacy table itself

  function KeyAt(legacy: map<int, Legacy>, id: int): Key
    requires id in legacy
  {
    Key(legacy[id].createdAt, id)
  }

  function HashAt(convert: Legacy -> Option<Candidate>, legacy: map<int, Legacy>, id: int): Option<string>
    requires id in legacy
  {
    var c := convert(legacy[id]);
    if c.Some? then Some(c.value.codeHash) else None
  }

  /** A convertible legacy row whose hash is new and which no convertible row with the same hash precedes. */
  ghost predicate Earliest(convert: Legacy -> Option<Candidate>, legacy: map<int, Legacy>, rows: seq<Promo>, id: int)
    requires id in legacy
  {
    var hash := HashAt(convert, legacy, id);
    && hash.Some? && hash.value !in Hashes(rows)
    && forall other | other in legacy && HashAt(convert, legacy, other) == hash :: !Before(KeyAt(legacy, other), KeyAt(legacy, id))
  }

  /** The id of the legacy row the migration reads at position i. */
  ghost function IdAt(legacy: map<int, Legacy>, i: nat): int
    requires i < |AdminRows(legacy)|
  {
    View(legacy, (l: Legacy) => l.createdAt)[i].id
  }

  /** The migration reads every legacy row exactly once, in (created_at, id) order. */
  lemma ReadingOrder(legacy: map<int, Legacy>)
    ensures forall i: nat | i < |AdminRows(legacy)| ::
              IdAt(legacy, i) in legacy && AdminRows(legacy)[i] == legacy[IdAt(legacy, i)]
    ensures forall i: nat, j: nat | i < j < |AdminRows(legacy)| ::
              IdAt(legacy, i) in legacy && IdAt(legacy, j) in legacy
              && Before(KeyAt(legacy, IdAt(legacy, i)), KeyAt(legacy, IdAt(legacy, j)))
    ensures forall id | id in legacy :: exists i: nat :: i < |AdminRows(legacy)| && IdAt(legacy, i) == id
  {
    var time := (l: Legacy) => l.createdAt;
    var view := View(legacy, time);
    OrderIsSorted(KeysOf(legacy, time));
    forall i: nat | i < |view|
      ensures IdAt(legacy, i) in legacy && view[i] == KeyAt(legacy, IdAt(legacy, i))
    {
      assert view[i] in view;
    }
    forall id | id in legacy
      ensures exists i: nat :: i < |AdminRows(legacy)| && IdAt(legacy, i) == id
    {
      assert KeyAt(legacy, id) in KeysOf(legacy, time);
      var i: nat :| i < |view| && view[i] == KeyAt(legacy, id);
      assert IdAt(legacy, i) == id;
    }
  }

  lemma PickedIsEarliest(convert: Legacy -> Option<Candidate>, legacy: map<int, Legacy>, rows: seq<Promo>, cs: seq<Option<Candidate>>, i: nat)
    requires cs == Candidates(convert, AdminRows(legacy)) && i < |cs|
    ensures IdAt(legacy, i) in legacy
    ensures Picked(rows, cs, i) <==> Earliest(convert, legacy, rows, IdAt(legacy, i))
  {
    ReadingOrder(legacy);
    var id := IdAt(legacy, i);
    if Picked(rows, cs, i) {
      forall other | other in legacy && HashAt(convert, legacy, other) == HashAt(convert, legacy, id)
        ensures !Before(KeyAt(legacy, other), KeyAt(legacy, id))
      {
        var j: nat :| j < |cs| && IdAt(legacy, j) == other;
        assert cs[j] == convert(legacy[other]);
      }
    }
    if Earliest(convert, legacy, rows, id) {
      forall j: nat | j < i && cs[j].Some?
        ensures cs[j].value.codeHash != cs[i].value.codeHash
      {
        assert Before(KeyAt(legacy, IdAt(legacy, j)), KeyAt(legacy, id));
        assert cs[j] == convert(legacy[IdAt(legacy, j)]);
      }
    }
  }

  /** The runtime row is the conversion of the legacy row. */
  ghost predicate CameFrom(convert: Legacy -> Option<Candidate>, legacy: map<int, Legacy>, p: Promo, id: int) {
    id in legacy && convert(legacy[id]) == Some(Candidate(p.codeHash, p.body))
  }

  /**
   For any legacy table and any runtime table, the sync keeps every existing row, and each row it appends is numbered on
   from the largest id and converts an earliest legacy row.
   */
  lemma SyncInsertsEarliest(convert: Legacy -> Option<Candidate>, legacy: map<int, Legacy>, rows: seq<Promo>, j: nat)
    requires |rows| <= j < |Sync(convert, legacy, rows)|
    ensures rows <= Sync(convert, legacy, rows)
    ensures Sync(convert, legacy, rows)[j].id == MaxId(rows) + 1 + (j - |rows|)
    ensures exists id :: CameFrom(convert, legacy, Sync(convert, legacy, rows)[j], id) && Earliest(convert, legacy, rows, id)
  {
    var cs := Candidates(convert, AdminRows(legacy));
    SyncIsInserted(rows, cs, |cs|);
    InsertedFromSources(rows, cs, |cs|);
    ReadingOrder(legacy);
    var k := j - |rows|;
    var i := Sources(rows, cs, |cs|)[k];
    assert Sync(convert, legacy, rows)[j] == Inserted(rows, cs, |cs|)[k];
    PickedIsEarliest(convert, legacy, rows, cs, i);
    assert CameFrom(convert, legacy, Sync(convert, legacy, rows)[j], IdAt(legacy, i));
  }

  /** And each earliest legacy row is converted: no hash the legacy table could bring is left out. */
  lemma EarliestIsInserted(convert: Legacy -> Option<Candidate>, legacy: map<int, Legacy>, rows: seq<Promo>, id: int)
    requires id in legacy && Earliest(convert, legacy, rows, id)
    ensures exists j :: |rows| <= j < |Sync(convert, legacy, rows)| && CameFrom(convert, legacy, Sync(convert, legacy, rows)[j], id)
  {
    var cs := Candidates(convert, AdminRows(legacy));
    SyncIsInserted(rows, cs, |cs|);
    SourcesComplete(rows, cs, |cs|);
    InsertedFromSources(rows, cs, |cs|);
    ReadingOrder(legacy);
    var i: nat :| i < |cs| && IdAt(legacy, i) == id;
    PickedIsEarliest(convert, legacy, rows, cs, i);
    var picked := Sources(rows, cs, |cs|);
    var k :| 0 <= k < |picked| && picked[k] == i;
    assert CameFrom(convert, legacy, Sync(convert, legacy, rows)[|rows| + k], id);
  }

  /** Checks that hold of every conversion hold of every row the sync adds. */
  lemma AddedMeet(convert: Legacy -> Option<Candidate>, checks: Body -> bool, legacy: map<int, Legacy>, rows: seq<Promo>)
    requires forall id | id in legacy && convert(legacy[id]).Some? :: checks(convert(legacy[id]).value.body)
    ensures AllMeet(checks, Sync(convert, legacy, rows), |rows|)
  {
    var after := Sync(convert, legacy, rows);
    forall j | |rows| <= j < |after|
      ensures checks(after[j].body)
    {
      SyncInsertsEarliest(convert, legacy, rows, j);
      var id :| CameFrom(convert, legacy, after[j], id) && Earliest(convert, legacy, rows, id);
    }
  }

  /** Every row the sync adds meets all CHECKs when the legacy rows meet theirs. */
  lemma SyncMeetsChecks(env: Env, legacy: map<int, Legacy>, rows: seq<Promo>)
    requires forall id | id in legacy :: MeetsLegacyChecks(legacy[id])
    ensures AllMeet(MeetsChecks, Sync(Converter(env), legacy, rows), |rows|)
  {
    forall id | id in legacy && Convert(env, legacy[id]).Some?
      ensures MeetsChecks(Convert(env, legacy[id]).value.body)
    {
      ConvertedMeetsChecksIff(env, legacy[id]);
    }
    AddedMeet(Converter(env), MeetsChecks, legacy, rows);
  }

  /** Some legacy row that is first of its hash, in (created_at, id) order, says what this row says. */
  ghost predicate Told(env: Env, legacy: map<int, Legacy>, p: Promo) {
    exists id :: id in legacy && Says(env, legacy[id], p.codeHash, p.body) && FirstOfHash(env, legacy, id)
  }

  /** Every other convertible row with this code's hash was created later, or at the same time under a larger id. */
  ghost predicate FirstOfHash(env: Env, legacy: map<int, Legacy>, id: int)
    requires id in legacy
  {
    forall other | other in legacy && other != id && Convert(env, legacy[other]).Some?
                   && HashOf(env, legacy[other]) == HashOf(env, legacy[id]) ::
      legacy[id].createdAt < legacy[other].createdAt || (legacy[id].createdAt == legacy[other].createdAt && id < other)
  }

  /** Every row the sync adds says what some legacy row says, the first of its hash. */
  lemma AddedTold(env: Env, legacy: map<int, Legacy>, rows: seq<Promo>, j: nat)
    requires |rows| <= j < |Sync(Converter(env), legacy, rows)|
    ensures Told(env, legacy, Sync(Converter(env), legacy, rows)[j])
  {
    var p := Sync(Converter(env), legacy, rows)[j];
    SyncInsertsEarliest(Converter(env), legacy, rows, j);
    var id :| CameFrom(Converter(env), legacy, p, id) && Earliest(Converter(env), legacy, rows, id);
    ConvertSays(env, legacy[id]);
    forall other | other in legacy && other != id && Convert(env, legacy[other]).Some?
                   && HashOf(env, legacy[other]) == HashOf(env, legacy[id])
      ensures legacy[id].createdAt < legacy[other].createdAt || (legacy[id].createdAt == legacy[other].createdAt && id < other)
    {
      SameHash(env, legacy, id, other);
      assert !Before(KeyAt(legacy, other), KeyAt(legacy, id));
    }
  }

  lemma SameHash(env: Env, legacy: map<int, Legacy>, id: int, other: int)
    requires id in legacy && other in legacy && Convert(env, legacy[id]).Some? && Convert(env, legacy[other]).Some?
    requires HashOf(env, legacy[other]) == HashOf(env, legacy[id])
    ensures HashAt(Converter(env), legacy, other) == HashAt(Converter(env), legacy, id) != None
  {
  }

  /** Every legacy code that has a counterpart is in the table afterwards, under its hash. */
  lemma EveryCodePresent(env: Env, legacy: map<int, Legacy>, rows: seq<Promo>, id: int, percent: Option<int>, days: Option<int>)
    requires id in legacy && KnownStatus(legacy[id]) && Worth(legacy[id], percent, days)
    ensures env.hash(WithoutSpacesAndHyphens(Upper(Strip(legacy[id].code)), 0)) in Hashes(Sync(Converter(env), legacy, rows))
  {
    var cs := Candidates(Converter(env), AdminRows(legacy));
    ConvertsIff(env, legacy[id]);
    ConvertSays(env, legacy[id]);
    ReadingOrder(legacy);
    var i: nat :| i < |cs| && IdAt(legacy, i) == id;
    assert cs[i] == Convert(env, legacy[id]);
    SyncIsInserted(rows, cs, |cs|);
    HashesTracked(rows, cs, |cs|);
    assert Seen(rows, cs, |cs|, cs[i].value.codeHash);
  }

  /** A legacy row with a counterpart. */
  ghost predicate HasCounterpart(l: Legacy) {
    KnownStatus(l) && exists percent, days :: Worth(l, percent, days)
  }

  lemma CodesPresent(env: Env, legacy: map<int, Legacy>, rows: seq<Promo>)
    ensures forall id | id in legacy && HasCounterpart(legacy[id]) ::
              env.hash(WithoutSpacesAndHyphens(Upper(Strip(legacy[id].code)), 0)) in Hashes(Sync(Converter(env), legacy, rows))
  {
    forall id | id in legacy && HasCounterpart(legacy[id])
      ensures env.hash(WithoutSpacesAndHyphens(Upper(Strip(legacy[id].code)), 0)) in Hashes(Sync(Converter(env), legacy, rows))
    {
      var percent, days :| Worth(legacy[id], percent, days);
      EveryCodePresent(env, legacy, rows, id, percent, days);
    }
  }

  predicate AllMeet(checks: Body -> bool, rows: seq<Promo>, from: nat) {
    forall j | from <= j < |rows| :: checks(rows[j].body)
  }

  /** The insert loop; an insert that breaks a CHECK raises. */
  method InsertCandidates(checks: Body -> bool, rows: seq<Promo>, candidates: seq<Option<Candidate>>)
    returns (completed: bool, pending: seq<Promo>)
    ensures completed <==> AllMeet(checks, SyncTo(rows, candidates, |candidates|).rows, |rows|)
    ensures completed ==> pending == SyncTo(rows, candidates, |candidates|).rows
  {
    var existingHashes, nextPromoId := Hashes(rows), MaxId(rows) + 1;
    pending := rows;
    for i := 0 to |candidates|
      invariant State(pending, existingHashes, nextPromoId) == SyncTo(rows, candidates, i)
      invariant |rows| <= |pending| && AllMeet(checks, pending, |rows|)
    {
      SyncGrows(rows, candidates, i + 1);
      var candidate := candidates[i];
      if candidate.None? || candidate.value.codeHash in existingHashes {
        continue;
      }
      var promo := Promo(nextPromoId, candidate.value.codeHash, candidate.value.body);
      if !checks(promo.body) {
        assert SyncTo(rows, candidates, |candidates|).rows[|pending|] == promo;
        return false, pending;
      }
      pending := pending + [promo];
      existingHashes := existingHashes + {promo.codeHash};
      nextPromoId := nextPromoId + 1;
    }
    completed := true;
  }

  /** The promo_codes table at this revision. */
  class PromoTable {
    var rows: seq<Promo>

    constructor (rows: seq<Promo>)
      ensures this.rows == rows
    {
      this.rows := rows;
    }

    /** The migration: a failed insert rolls everything back, otherwise the table becomes the synced one. */
    method Upgrade(env: Env, legacy: map<int, Legacy>) returns (committed: bool)
      modifies this
      ensures committed <==> AllMeet(MeetsChecks, Sync(Converter(env), legacy, old(rows)), |old(rows)|)
      ensures rows == if committed then Sync(Converter(env), legacy, old(rows)) else old(rows)
      ensures old(rows) <= rows && forall j | |old(rows)| <= j < |rows| :: Told(env, legacy, rows[j])
      ensures committed ==>
                forall id | id in legacy && HasCounterpart(legacy[id]) ::
                  env.hash(WithoutSpacesAndHyphens(Upper(Strip(legacy[id].code)), 0)) in Hashes(rows)
    {
      var candidates := Candidates(Converter(env), AdminRows(legacy));
      var pending;
      committed, pending := InsertCandidates(MeetsChecks, rows, candidates);
      if committed {
        SyncGrows(rows, candidates, 0);
        CodesPresent(env, legacy, rows);
        forall j | |rows| <= j < |pending|
          ensures Told(env, legacy, pending[j])
        {
          AddedTold(env, legacy, rows, j);
        }
        rows := pending;
      }
    }
  }

  /** What the loop has inserted it never takes back. */
  lemma {:induction false} SyncGrows(rows: seq<Promo>, cs: seq<Option<Candidate>>, n: nat)
    requires n <= |cs|
    ensures SyncTo(rows, cs, n).rows <= SyncTo(rows, cs, |cs|).rows
    decreases |cs| - n
  {
    if n < |cs| {
      SyncGrows(rows, cs, n + 1);
    }
  }
}
