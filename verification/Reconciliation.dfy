/**
 Payment reconciliation: a handful of counts and sums, one side over the purchases table and the other over the append-only
 ledger, decides whether the paid purchases are the credited ones.
 */
module Reconciliation {
  import opened FiniteSets
  import opened Options

  /** A purchase's UUID. */
  datatype PurchaseId = PurchaseId(uuid: int)

  datatype Purchase = Purchase(productCode: string, starsAmount: int, status: string, paidAt: Option<int>)

  datatype Entry = Entry(purchaseId: Option<PurchaseId>, entryType: string, direction: string, idempotencyKey: string)

  type Purchases = map<PurchaseId, Purchase>

  predicate IsPurchaseCredit(e: Entry) {
    e.purchaseId.Some? && e.entryType == "PURCHASE_CREDIT" && e.direction == "CREDIT"
  }

  /** `WHERE paid_at IS NOT NULL`. */
  function PaidIds(purchases: Purchases): set<PurchaseId> {
    set id | id in purchases && purchases[id].paidAt.Some?
  }

  /** `SELECT DISTINCT purchase_id` over the credit entries. */
  function CreditedIds(ledger: seq<Entry>): set<PurchaseId> {
    set e | e in ledger && IsPurchaseCredit(e) :: e.purchaseId.value
  }

  function StaleIds(purchases: Purchases, cutoff: int): set<PurchaseId> {
    set id | id in purchases && purchases[id].status == "PAID_UNCREDITED"
             && purchases[id].paidAt.Some? && purchases[id].paidAt.value <= cutoff
  }

  /** `COALESCE(SUM(stars_amount), 0)` over the purchases joined with a set of ids. */
  ghost function SumStars(purchases: Purchases, ids: set<PurchaseId>): int {
    var joined := ids * purchases.Keys;
    SumOf(purchases, joined)
  }

  ghost function SumOf(purchases: Purchases, ids: set<PurchaseId>): int
    requires ids <= purchases.Keys
  {
    if ids == {} then 0
    else
      var id :| id in ids;
      purchases[id].starsAmount + SumOf(purchases, ids - {id})
  }

  function OfProduct(purchases: Purchases, ids: set<PurchaseId>, product: string): set<PurchaseId> {
    set id | id in ids && id in purchases && purchases[id].productCode == product
  }

  function ProductsOf(purchases: Purchases, ids: set<PurchaseId>): set<string> {
    set id | id in ids && id in purchases :: purchases[id].productCode
  }

  /** `SUM(stars_amount) GROUP BY product_code`, as the dict the repositories build. */
  ghost function StarsByProduct(purchases: Purchases, ids: set<PurchaseId>): map<string, int> {
    map product | product in ProductsOf(purchases, ids) :: SumStars(purchases, OfProduct(purchases, ids, product))
  }

  function GetOrZero(m: map<string, int>, key: string): int {
    if key in m then m[key] else 0
  }

  function MismatchedProducts(paid: map<string, int>, credited: map<string, int>): set<string> {
    set product | product in paid.Keys + credited.Keys && GetOrZero(paid, product) != GetOrZero(credited, product)
  }

  function ProductStarsMismatchCount(paid: map<string, int>, credited: map<string, int>): nat {
    |MismatchedProducts(paid, credited)|
  }

  function Abs(x: int): int {
    if x < 0 then -x else x
  }

  function ReconciliationDiff(paidCount: int, creditedCount: int, staleCount: int, paidStars: int, creditedStars: int,
                              mismatchCount: int): int {
    Abs(paidCount - creditedCount)
    + Max(0, staleCount)
    + (if paidStars != creditedStars then 1 else 0)
    + Max(0, mismatchCount)
  }

  function ReconciliationStatus(diffCount: int): string {
    if diffCount == 0 then "OK" else "DIFF"
  }

  ghost function MismatchCount(purchases: Purchases, paid: set<PurchaseId>, credited: set<PurchaseId>): nat {
    ProductStarsMismatchCount(StarsByProduct(purchases, paid), StarsByProduct(purchases, credited))
  }

  /** The job's diff_count, over given paid and credited id sets. */
  ghost function DiffOf(purchases: Purchases, paid: set<PurchaseId>, credited: set<PurchaseId>, staleCount: nat): int {
    ReconciliationDiff(|paid|, |credited|, staleCount, SumStars(purchases, paid), SumStars(purchases, credited),
                       MismatchCount(purchases, paid, credited))
  }

  /** The reconciliation job: all aggregates queried, the diff computed, the status recorded. */
  ghost function Reconcile(purchases: Purchases, ledger: seq<Entry>, cutoff: int): string {
    ReconciliationStatus(DiffOf(purchases, PaidIds(purchases), CreditedIds(ledger), |StaleIds(purchases, cutoff)|))
  }

  // ----- sums over finite sets

  lemma {:induction false} SumWithout(purchases: Purchases, ids: set<PurchaseId>, id: PurchaseId)
    requires ids <= purchases.Keys && id in ids
    ensures SumOf(purchases, ids) == purchases[id].starsAmount + SumOf(purchases, ids - {id})
    decreases ids
  {
    var first :| first in ids && SumOf(purchases, ids) == purchases[first].starsAmount + SumOf(purchases, ids - {first});
    if first != id {
      SumWithout(purchases, ids - {first}, id);
      SumWithout(purchases, ids - {id}, first);
      assert ids - {first} - {id} == ids - {id} - {first};
    }
  }

  lemma {:induction false} SumDisjoint(purchases: Purchases, a: set<PurchaseId>, b: set<PurchaseId>)
    requires a <= purchases.Keys && b <= purchases.Keys && a !! b
    ensures SumOf(purchases, a + b) == SumOf(purchases, a) + SumOf(purchases, b)
    decreases a
  {
    if a == {} {
      assert a + b == b;
    } else {
      var id :| id in a;
      SumDisjoint(purchases, a - {id}, b);
      SumWithout(purchases, a, id);
      SumWithout(purchases, a + b, id);
      assert (a + b) - {id} == (a - {id}) + b;
    }
  }

  /** The purchases whose product lies in a set of products. */
  function InProducts(purchases: Purchases, ids: set<PurchaseId>, products: set<string>): set<PurchaseId> {
    set id | id in ids && id in purchases && purchases[id].productCode in products
  }

  /** Equal per-product sums add up: the totals over any set of products agree. */
  lemma {:induction false} GroupsDetermineTotal(purchases: Purchases, a: set<PurchaseId>, b: set<PurchaseId>, products: set<string>)
    requires forall p | p in products ::
               SumStars(purchases, OfProduct(purchases, a, p)) == SumStars(purchases, OfProduct(purchases, b, p))
    ensures SumOf(purchases, InProducts(purchases, a, products)) == SumOf(purchases, InProducts(purchases, b, products))
    decreases products
  {
    if products == {} {
      assert InProducts(purchases, a, products) == {} == InProducts(purchases, b, products);
    } else {
      var p :| p in products;
      GroupsDetermineTotal(purchases, a, b, products - {p});
      SplitOffProduct(purchases, a, products, p);
      SplitOffProduct(purchases, b, products, p);
    }
  }

  lemma SplitOffProduct(purchases: Purchases, ids: set<PurchaseId>, products: set<string>, p: string)
    requires p in products
    ensures SumOf(purchases, InProducts(purchases, ids, products))
         == SumOf(purchases, InProducts(purchases, ids, products - {p})) + SumStars(purchases, OfProduct(purchases, ids, p))
  {
    var group := OfProduct(purchases, ids, p);
    assert group * purchases.Keys == group;
    SumDisjoint(purchases, InProducts(purchases, ids, products - {p}), group);
    assert InProducts(purchases, ids, products) == InProducts(purchases, ids, products - {p}) + group;
  }

  lemma GroupSumIs(purchases: Purchases, ids: set<PurchaseId>, product: string)
    ensures GetOrZero(StarsByProduct(purchases, ids), product) == SumStars(purchases, OfProduct(purchases, ids, product))
  {
    if product !in ProductsOf(purchases, ids) {
      assert OfProduct(purchases, ids, product) == {};
    }
  }

  /** Zero product mismatches forces equal star totals, for any paid and credited sets. */
  lemma NoMismatchEqualTotals(purchases: Purchases, paid: set<PurchaseId>, credited: set<PurchaseId>)
    requires MismatchCount(purchases, paid, credited) == 0
    ensures SumStars(purchases, paid) == SumStars(purchases, credited)
  {
    var products := ProductsOf(purchases, paid) + ProductsOf(purchases, credited);
    forall p | p in products
      ensures SumStars(purchases, OfProduct(purchases, paid, p)) == SumStars(purchases, OfProduct(purchases, credited, p))
    {
      GroupSumIs(purchases, paid, p);
      GroupSumIs(purchases, credited, p);
      assert p !in MismatchedProducts(StarsByProduct(purchases, paid), StarsByProduct(purchases, credited));
    }
    GroupsDetermineTotal(purchases, paid, credited, products);
    assert InProducts(purchases, paid, products) == paid * purchases.Keys;
    assert InProducts(purchases, credited, products) == credited * purchases.Keys;
  }

  // ----- bounds by the symmetric difference

  function SymmetricDifference(a: set<PurchaseId>, b: set<PurchaseId>): set<PurchaseId> {
    (a - b) + (b - a)
  }

  lemma {:induction false} ImageSize(purchases: Purchases, ids: set<PurchaseId>)
    ensures |ProductsOf(purchases, ids)| <= |ids|
    decreases ids
  {
    if ids == {} {
      assert ProductsOf(purchases, ids) == {};
    } else {
      var id :| id in ids;
      ImageSize(purchases, ids - {id});
      if id in purchases {
        assert ProductsOf(purchases, ids) == ProductsOf(purchases, ids - {id}) + {purchases[id].productCode};
      } else {
        assert ProductsOf(purchases, ids) == ProductsOf(purchases, ids - {id});
      }
    }
  }

  /** Each mismatched product is the product of some purchase on one side only: mismatches number at most |D|. */
  lemma MismatchBounded(purchases: Purchases, paid: set<PurchaseId>, credited: set<PurchaseId>)
    ensures MismatchCount(purchases, paid, credited) <= |SymmetricDifference(paid, credited)|
  {
    var d := SymmetricDifference(paid, credited);
    var mismatched := MismatchedProducts(StarsByProduct(purchases, paid), StarsByProduct(purchases, credited));
    forall p | p !in ProductsOf(purchases, d)
      ensures p !in mismatched
    {
      GroupSumIs(purchases, paid, p);
      GroupSumIs(purchases, credited, p);
      assert OfProduct(purchases, paid, p) == OfProduct(purchases, credited, p);
    }
    SubsetSize(mismatched, ProductsOf(purchases, d));
    ImageSize(purchases, d);
  }

  lemma CountGapBounded(a: set<PurchaseId>, b: set<PurchaseId>)
    ensures Abs(|a| - |b|) <= |SymmetricDifference(a, b)|
  {
    assert a == (a - b) + (a * b) && b == (b - a) + (a * b);
    assert |a| == |a - b| + |a * b|;
    assert |b| == |b - a| + |a * b|;
    assert |SymmetricDifference(a, b)| == |a - b| + |b - a|;
  }

  /** The whole diff is at most stale + 2|D| + 1, for any paid and credited sets. */
  lemma DiffBounded(purchases: Purchases, paid: set<PurchaseId>, credited: set<PurchaseId>, stale: nat)
    ensures 0 <= DiffOf(purchases, paid, credited, stale) <= stale + 2 * |SymmetricDifference(paid, credited)| + 1
  {
    MismatchBounded(purchases, paid, credited);
    CountGapBounded(paid, credited);
  }

  /** Agreement on the ids is agreement on every aggregate. */
  lemma EqualSetsNoDiff(purchases: Purchases, ids: set<PurchaseId>, stale: nat)
    ensures DiffOf(purchases, ids, ids, stale) == stale
  {
    var m := StarsByProduct(purchases, ids);
    assert MismatchedProducts(m, m) == {};
  }

  /**
   What an OK means for arbitrary sets: equal counts, no stale purchase, and equal sums for every product. The comparison
   of totals never decides.
   */
  lemma OkIff(purchases: Purchases, ledger: seq<Entry>, cutoff: int)
    ensures Reconcile(purchases, ledger, cutoff) == "OK"
       <==> && |PaidIds(purchases)| == |CreditedIds(ledger)|
            && StaleIds(purchases, cutoff) == {}
            && forall p :: SumStars(purchases, OfProduct(purchases, PaidIds(purchases), p))
                        == SumStars(purchases, OfProduct(purchases, CreditedIds(ledger), p))
  {
    var paid, credited := PaidIds(purchases), CreditedIds(ledger);
    NoMismatchIff(purchases, paid, credited);
    if MismatchCount(purchases, paid, credited) == 0 {
      NoMismatchEqualTotals(purchases, paid, credited);
    }
  }

  lemma NoMismatchIff(purchases: Purchases, paid: set<PurchaseId>, credited: set<PurchaseId>)
    ensures MismatchCount(purchases, paid, credited) == 0
       <==> forall p :: SumStars(purchases, OfProduct(purchases, paid, p)) == SumStars(purchases, OfProduct(purchases, credited, p))
  {
    var mismatched := MismatchedProducts(StarsByProduct(purchases, paid), StarsByProduct(purchases, credited));
    forall p
      ensures p in mismatched <==>
        SumStars(purchases, OfProduct(purchases, paid, p)) != SumStars(purchases, OfProduct(purchases, credited, p))
    {
      GroupSumIs(purchases, paid, p);
      GroupSumIs(purchases, credited, p);
    }
    if mismatched != {} {
      var p :| p in mismatched;
    }
  }

  /**
   Whenever every credited purchase is a paid one, reconciliation reports OK if and only if the credited set equals the
   paid set and no stale paid-uncredited purchase exists.
   */
  lemma ReconcilesIff(purchases: Purchases, ledger: seq<Entry>, cutoff: int)
    requires CreditedIds(ledger) <= PaidIds(purchases)
    ensures Reconcile(purchases, ledger, cutoff) == "OK"
       <==> CreditedIds(ledger) == PaidIds(purchases) && StaleIds(purchases, cutoff) == {}
  {
    var paid, credited := PaidIds(purchases), CreditedIds(ledger);
    var stale := |StaleIds(purchases, cutoff)|;
    if paid == credited {
      EqualSetsNoDiff(purchases, paid, stale);
    } else {
      SubsetSize(credited, paid);
    }
  }

  // ----- the same over the rows themselves

  /** The ledger credits this purchase. */
  ghost predicate HasCredit(ledger: seq<Entry>, id: PurchaseId) {
    exists e :: e in ledger && e.purchaseId == Some(id) && e.entryType == "PURCHASE_CREDIT" && e.direction == "CREDIT"
  }

  /** A purchase paid at or before the cutoff and not credited yet. */
  predicate Waits(purchases: Purchases, id: PurchaseId, cutoff: int) {
    id in purchases && purchases[id].status == "PAID_UNCREDITED" && purchases[id].paidAt.Some? && purchases[id].paidAt.value <= cutoff
  }

  /** One purchase that waits is enough for DIFF, whatever else the tables hold. */
  lemma WaitingMeansDiff(purchases: Purchases, ledger: seq<Entry>, cutoff: int, id: PurchaseId)
    requires Waits(purchases, id, cutoff)
    ensures Reconcile(purchases, ledger, cutoff) == "DIFF"
  {
    OkIff(purchases, ledger, cutoff);
    assert id in StaleIds(purchases, cutoff);
  }

  /** OK when exactly the paid purchases have a credit and none of them waits. */
  lemma SettledMeansOk(purchases: Purchases, ledger: seq<Entry>, cutoff: int)
    requires forall id :: (id in purchases && purchases[id].paidAt.Some?) <==> HasCredit(ledger, id)
    requires forall id :: !Waits(purchases, id, cutoff)
    ensures Reconcile(purchases, ledger, cutoff) == "OK"
  {
    forall id
      ensures id in PaidIds(purchases) <==> id in CreditedIds(ledger)
    {
      CreditedIffEntry(ledger, id);
    }
    assert PaidIds(purchases) == CreditedIds(ledger);
    forall id
      ensures id !in StaleIds(purchases, cutoff)
    {
      assert !Waits(purchases, id, cutoff);
    }
    ReconcilesIff(purchases, ledger, cutoff);
  }

  lemma CreditedIffEntry(ledger: seq<Entry>, id: PurchaseId)
    ensures id in CreditedIds(ledger) <==> HasCredit(ledger, id)
  {
    if e :| e in ledger && e.purchaseId == Some(id) && e.entryType == "PURCHASE_CREDIT" && e.direction == "CREDIT" {
      assert IsPurchaseCredit(e) && e.purchaseId.value in CreditedIds(ledger);
    }
  }

  /** DIFF when every credit is for a paid purchase and a paid purchase has none. */
  lemma MissingCreditMeansDiff(purchases: Purchases, ledger: seq<Entry>, cutoff: int, id: PurchaseId)
    requires forall x | HasCredit(ledger, x) :: x in purchases && purchases[x].paidAt.Some?
    requires id in purchases && purchases[id].paidAt.Some? && !HasCredit(ledger, id)
    ensures Reconcile(purchases, ledger, cutoff) == "DIFF"
  {
    forall x | x in CreditedIds(ledger)
      ensures x in PaidIds(purchases)
    {
      CreditedIffEntry(ledger, x);
    }
    CreditedIffEntry(ledger, id);
    assert id in PaidIds(purchases) && id !in CreditedIds(ledger);
    ReconcilesIff(purchases, ledger, cutoff);
  }

  /** A sum over one purchase is its stars; what is not stored adds nothing. */
  lemma SumOfOne(purchases: Purchases, id: PurchaseId)
    ensures SumStars(purchases, {id}) == if id in purchases then purchases[id].starsAmount else 0
  {
    if id in purchases {
      assert {id} * purchases.Keys == {id};
      SumWithout(purchases, {id}, id);
      assert {id} - {id} == {};
    } else {
      assert {id} * purchases.Keys == {};
    }
  }

  /** Purchases with positive prices add up to more than nothing. */
  lemma {:induction false} PositiveSum(purchases: Purchases, ids: set<PurchaseId>)
    requires ids <= purchases.Keys && forall id | id in ids :: purchases[id].starsAmount > 0
    ensures SumOf(purchases, ids) >= 0 && (ids != {} ==> SumOf(purchases, ids) > 0)
    decreases ids
  {
    if ids != {} {
      var id :| id in ids;
      SumWithout(purchases, ids, id);
      PositiveSum(purchases, ids - {id});
    }
  }

  /**
   The diff is a count of purchases and products: before anything is credited, with positive prices, it is the number of paid
   purchases, plus the stale ones, plus one for the totals, plus one per product.
   */
  lemma NothingCredited(purchases: Purchases, stale: nat)
    requires PaidIds(purchases) != {} && forall id | id in purchases :: purchases[id].starsAmount > 0
    ensures DiffOf(purchases, PaidIds(purchases), {}, stale)
         == |PaidIds(purchases)| + stale + 1 + |ProductsOf(purchases, PaidIds(purchases))|
  {
    var paid := PaidIds(purchases);
    assert paid * purchases.Keys == paid;
    PositiveSum(purchases, paid);
    assert {} * purchases.Keys == {};
    var m, none := StarsByProduct(purchases, paid), StarsByProduct(purchases, {});
    forall p
      ensures p in MismatchedProducts(m, none) <==> p in ProductsOf(purchases, paid)
    {
      var group := OfProduct(purchases, paid, p);
      assert group * purchases.Keys == group;
      PositiveSum(purchases, group);
      GroupSumIs(purchases, paid, p);
      GroupSumIs(purchases, {}, p);
      assert OfProduct(purchases, {}, p) == {};
      if p in ProductsOf(purchases, paid) {
        var id :| id in paid && purchases[id].productCode == p;
        assert id in group;
      }
    }
    assert MismatchedProducts(m, none) == ProductsOf(purchases, paid);
  }

  lemma SplitByBoth(purchases: Purchases, a: set<PurchaseId>, b: set<PurchaseId>, product: string)
    ensures SumStars(purchases, OfProduct(purchases, a, product))
         == SumStars(purchases, OfProduct(purchases, a - b, product)) + SumStars(purchases, OfProduct(purchases, a * b, product))
  {
    var only, both := OfProduct(purchases, a - b, product), OfProduct(purchases, a * b, product);
    assert OfProduct(purchases, a, product) == only + both;
    assert only * purchases.Keys == only && both * purchases.Keys == both && (only + both) * purchases.Keys == only + both;
    SumDisjoint(purchases, only, both);
  }

  /** What the purchases on one side only must be like to cancel out: as many on either side, of equal worth per product. */
  ghost predicate CancelOut(purchases: Purchases, a: set<PurchaseId>, b: set<PurchaseId>) {
    |a| == |b| && forall p :: SumStars(purchases, OfProduct(purchases, a, p)) == SumStars(purchases, OfProduct(purchases, b, p))
  }

  lemma CancelOutIff(purchases: Purchases, paid: set<PurchaseId>, credited: set<PurchaseId>)
    ensures CancelOut(purchases, paid, credited) <==> CancelOut(purchases, paid - credited, credited - paid)
  {
    assert paid == (paid - credited) + (paid * credited) && credited == (credited - paid) + (credited * paid);
    assert |paid| == |paid - credited| + |paid * credited| && |credited| == |credited - paid| + |credited * paid|;
    assert paid * credited == credited * paid;
    forall p
      ensures SumStars(purchases, OfProduct(purchases, paid, p)) == SumStars(purchases, OfProduct(purchases, credited, p))
         <==> SumStars(purchases, OfProduct(purchases, paid - credited, p)) == SumStars(purchases, OfProduct(purchases, credited - paid, p))
    {
      SplitByBoth(purchases, paid, credited, p);
      SplitByBoth(purchases, credited, paid, p);
    }
  }

  /**
   When an OK hides a disagreement, for arbitrary tables: exactly when nothing is stale, there are purchases paid but not
   credited, and those credited but not paid are as many and worth as many stars for every product.
   */
  lemma HiddenDisagreementIff(purchases: Purchases, ledger: seq<Entry>, cutoff: int)
    ensures var paid, credited := PaidIds(purchases), CreditedIds(ledger);
            (Reconcile(purchases, ledger, cutoff) == "OK" && paid != credited)
            == (StaleIds(purchases, cutoff) == {} && paid - credited != {} && CancelOut(purchases, paid - credited, credited - paid))
  {
    var paid, credited := PaidIds(purchases), CreditedIds(ledger);
    OkIff(purchases, ledger, cutoff);
    CancelOutIff(purchases, paid, credited);
    if paid - credited == {} && |paid - credited| == |credited - paid| {
      assert paid == credited;
    }
  }

  /** Without that containment an OK does not mean agreement: a credit for an unpaid twin hides an uncredited payment. */
  lemma OffsettingTwinsReconcile(product: string, stars: int, key: string, cutoff: int)
    ensures var purchases := map[PurchaseId(1) := Purchase(product, stars, "PAID_UNCREDITED", Some(cutoff + 1)),
                                 PurchaseId(2) := Purchase(product, stars, "CREATED", None)];
            var ledger := [Entry(Some(PurchaseId(2)), "PURCHASE_CREDIT", "CREDIT", key)];
            && PaidIds(purchases) == {PurchaseId(1)} && CreditedIds(ledger) == {PurchaseId(2)}
            && Reconcile(purchases, ledger, cutoff) == "OK"
  {
    var purchases := map[PurchaseId(1) := Purchase(product, stars, "PAID_UNCREDITED", Some(cutoff + 1)),
                         PurchaseId(2) := Purchase(product, stars, "CREATED", None)];
    var ledger := [Entry(Some(PurchaseId(2)), "PURCHASE_CREDIT", "CREDIT", key)];
    assert PaidIds(purchases) == {PurchaseId(1)};
    assert ledger[0] in ledger && CreditedIds(ledger) == {PurchaseId(2)};
    var one, two := {PurchaseId(1)}, {PurchaseId(2)};
    forall p
      ensures SumStars(purchases, OfProduct(purchases, one, p)) == SumStars(purchases, OfProduct(purchases, two, p))
    {
      if p == product {
        assert OfProduct(purchases, one, p) == one && OfProduct(purchases, two, p) == two;
        assert one * purchases.Keys == one && two * purchases.Keys == two;
        SumWithout(purchases, one, PurchaseId(1));
        SumWithout(purchases, two, PurchaseId(2));
        assert one - one == two - two == {};
      } else {
        assert OfProduct(purchases, one, p) == {} == OfProduct(purchases, two, p);
      }
    }
    OkIff(purchases, ledger, cutoff);
  }

  // ----- the ledger

  /** The append-only ledger_entries table, with its unique idempotency key. */
  class Ledger {
    var entries: seq<Entry>

    ghost predicate Valid()
      reads this
    {
      forall i, j | 0 <= i < j < |entries| :: entries[i].idempotencyKey != entries[j].idempotencyKey
    }

    constructor ()
      ensures entries == [] && Valid()
    {
      entries := [];
    }

    /** Appends the entry, or raises on a repeated idempotency key; nothing recorded before ever changes. */
    method Create(entry: Entry) returns (result: Result<Entry, string>)
      requires Valid()
      modifies this
      ensures Valid()
      ensures result.Err? <==> exists e :: e in old(entries) && e.idempotencyKey == entry.idempotencyKey
      ensures entries == if result.Ok? then old(entries) + [entry] else old(entries)
      ensures result.Ok? ==>
                CreditedIds(entries) == CreditedIds(old(entries)) + (if IsPurchaseCredit(entry) then {entry.purchaseId.value} else {})
    {
      var i := 0;
      while i < |entries|
        invariant i <= |entries|
        invariant forall j | 0 <= j < i :: entries[j].idempotencyKey != entry.idempotencyKey
      {
        if entries[i].idempotencyKey == entry.idempotencyKey {
          assert entries[i] in entries;
          return Err("duplicate idempotency_key");
        }
        i := i + 1;
      }
      AppendCredits(entries, entry);
      entries := entries + [entry];
      result := Ok(entry);
    }
  }

  lemma AppendCredits(ledger: seq<Entry>, entry: Entry)
    ensures CreditedIds(ledger + [entry])
         == CreditedIds(ledger) + (if IsPurchaseCredit(entry) then {entry.purchaseId.value} else {})
  {
    assert forall e :: e in ledger + [entry] <==> e in ledger || e == entry;
  }

  /** A second credit entry for a credited purchase cannot move the verdict. */
  lemma RepeatedCreditInvisible(purchases: Purchases, ledger: seq<Entry>, entry: Entry, cutoff: int)
    requires IsPurchaseCredit(entry) ==> entry.purchaseId.value in CreditedIds(ledger)
    ensures Reconcile(purchases, ledger + [entry], cutoff) == Reconcile(purchases, ledger, cutoff)
  {
    AppendCredits(ledger, entry);
    assert CreditedIds(ledger + [entry]) == CreditedIds(ledger);
  }

  /** Crediting one of the paid, uncredited purchases brings the two sides exactly one purchase closer. */
  lemma FirstCreditCloses(purchases: Purchases, ledger: seq<Entry>, entry: Entry)
    requires CreditedIds(ledger) <= PaidIds(purchases) && IsPurchaseCredit(entry)
    requires entry.purchaseId.value in PaidIds(purchases) - CreditedIds(ledger)
    ensures CreditedIds(ledger + [entry]) <= PaidIds(purchases)
    ensures |SymmetricDifference(PaidIds(purchases), CreditedIds(ledger + [entry]))|
         == |SymmetricDifference(PaidIds(purchases), CreditedIds(ledger))| - 1
  {
    var paid, credited := PaidIds(purchases), CreditedIds(ledger);
    AppendCredits(ledger, entry);
    assert SymmetricDifference(paid, credited) == paid - credited;
    assert SymmetricDifference(paid, CreditedIds(ledger + [entry])) == paid - credited - {entry.purchaseId.value};
  }
}
