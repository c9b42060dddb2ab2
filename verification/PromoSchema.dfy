/**
 The promo CRUD migration: it adds the discount columns, backfills them from the percentage, and swaps the CHECK
 constraints. CHECKs are evaluated in SQL's three-valued logic: a row is refused only when its CHECK is false.
 */
module PromoSchema {
  import opened Options

  // ----- SQL conditions

  datatype Truth = True | False | Unknown

  function Not(a: Truth): Truth {
    match a case True => False case False => True case Unknown => Unknown
  }

  function And(a: Truth, b: Truth): Truth {
    if a.False? || b.False? then False else if a.True? && b.True? then True else Unknown
  }

  function Or(a: Truth, b: Truth): Truth {
    if a.True? || b.True? then True else if a.False? && b.False? then False else Unknown
  }

  function Holds(b: bool): Truth {
    if b then True else False
  }

  function IsNull<T>(x: Option<T>): Truth {
    Holds(x.None?)
  }

  function Equals<T(==)>(x: Option<T>, y: T): Truth {
    if x.None? then Unknown else Holds(x.value == y)
  }

  function Between(x: Option<int>, lo: int, hi: int): Truth {
    if x.None? then Unknown else Holds(lo <= x.value <= hi)
  }

  predicate Passes(check: Truth) {
    !check.False?
  }

  // ----- promo_codes

  datatype PromoType = PERCENT_DISCOUNT | PREMIUM_GRANT | OtherType(name: string)

  datatype DiscountType = PERCENT | FIXED | FREE | OtherDiscount(name: string)

  /** The columns the migration reads, before it adds its own. */
  datatype OldRow = OldRow(promoType: PromoType, grantPremiumDays: Option<int>, discountPercent: Option<int>,
                           maxUsesPerUser: int, targetScope: string)

  datatype Row = Row(base: OldRow, discountType: Option<DiscountType>, discountValue: Option<int>,
                     applicableProducts: Option<seq<string>>)

  function OldTypePayloadCheck(r: OldRow): Truth {
    Or(And(And(Holds(r.promoType.PREMIUM_GRANT?), Not(IsNull(r.grantPremiumDays))), IsNull(r.discountPercent)),
       And(And(Holds(r.promoType.PERCENT_DISCOUNT?), Not(IsNull(r.discountPercent))), IsNull(r.grantPremiumDays)))
  }

  /** The constraints in force before the migration on the columns it reads. */
  predicate MeetsOldChecks(r: OldRow) {
    && !r.promoType.OtherType?
    && Passes(Or(IsNull(r.discountPercent), Between(r.discountPercent, 1, 90)))
    && Passes(Holds(r.maxUsesPerUser == 1))
    && Passes(OldTypePayloadCheck(r))
  }

  function NewTypePayloadCheck(r: Row): Truth {
    Or(And(And(And(And(Holds(r.base.promoType.PREMIUM_GRANT?), Not(IsNull(r.base.grantPremiumDays))), IsNull(r.base.discountPercent)),
               IsNull(r.discountType)), IsNull(r.discountValue)),
       And(And(Holds(r.base.promoType.PERCENT_DISCOUNT?), IsNull(r.base.grantPremiumDays)),
           Or(Or(Or(And(IsNull(r.discountType), Not(IsNull(r.base.discountPercent))),
                    And(And(Equals(r.discountType, PERCENT), Not(IsNull(r.discountValue))), Between(r.discountValue, 1, 100))),
                 And(And(Equals(r.discountType, FIXED), Not(IsNull(r.discountValue))),
                     if r.discountValue.None? then Unknown else Holds(r.discountValue.value > 0))),
              And(Equals(r.discountType, FREE), IsNull(r.discountValue)))))
  }

  /** The constraints the migration creates. */
  predicate MeetsNewChecks(r: Row) {
    && !r.base.promoType.OtherType?
    && Passes(Or(IsNull(r.base.discountPercent), Between(r.base.discountPercent, 1, 100)))
    && Passes(Or(IsNull(r.discountType),
                 Or(Equals(r.discountType, PERCENT), Or(Equals(r.discountType, FIXED), Equals(r.discountType, FREE)))))
    && Passes(Holds(r.base.maxUsesPerUser > 0))
    && Passes(NewTypePayloadCheck(r))
  }

  /** The backfill UPDATE on one row. */
  function Backfill(r: OldRow): Row {
    var percent := r.promoType.PERCENT_DISCOUNT?;
    Row(r,
        if percent then Some(PERCENT) else None,
        if percent then r.discountPercent else None,
        if percent && r.targetScope !in {"ANY", "MICRO_ANY", "PREMIUM_ANY"} then Some([r.targetScope]) else None)
  }

  /**
   The backfill turns every row that met the old constraints into one that meets the new ones, and the new payload check
   is not merely undecided on it.
   */
  lemma BackfillMeetsNewChecks(r: OldRow)
    requires MeetsOldChecks(r)
    ensures MeetsNewChecks(Backfill(r)) && NewTypePayloadCheck(Backfill(r)).True?
  {
  }

  /** Which rows the new payload check admits after a backfill, whatever they were before. */
  lemma BackfilledPassesIff(r: OldRow)
    requires !r.promoType.OtherType?
    ensures Passes(NewTypePayloadCheck(Backfill(r)))
       <==> Passes(OldTypePayloadCheck(r))
            && (r.promoType.PERCENT_DISCOUNT? ==> 1 <= r.discountPercent.value <= 100)
  {
  }

  /**
   The exact reach of the new payload check. Because a comparison with NULL is unknown, a percentage code without any
   discount_type passes whatever its other discount columns hold; with a type it needs the matching value.
   */
  lemma NewPayloadPassesIff(r: Row)
    requires !r.base.promoType.OtherType?
    ensures Passes(NewTypePayloadCheck(r))
       <==> if r.base.promoType.PREMIUM_GRANT?
            then r.base.grantPremiumDays.Some? && r.base.discountPercent.None? && r.discountType.None? && r.discountValue.None?
            else && r.base.grantPremiumDays.None?
                 && (match r.discountType
                     case None => r.base.discountPercent.Some? || r.discountValue.None? || r.discountValue.value > 0
                     case Some(PERCENT) => r.discountValue.Some? && 1 <= r.discountValue.value <= 100
                     case Some(FIXED) => r.discountValue.Some? && r.discountValue.value > 0
                     case Some(FREE) => r.discountValue.None?
                     case Some(OtherDiscount(_)) => false)
  {
  }

  /** So the check admits a percentage code that carries no discount at all, which the old one refused. */
  lemma UndecidedCheckAdmitsNoDiscount(scope: string)
    ensures var r := Row(OldRow(PERCENT_DISCOUNT, None, None, 1, scope), None, None, None);
            MeetsNewChecks(r) && NewTypePayloadCheck(r).Unknown? && !MeetsOldChecks(r.base)
  {
  }

  /** The backfill in the columns it writes: a percentage code gets its percentage, and its target scope unless that names a group. */
  lemma BackfillColumns(r: OldRow)
    ensures var b := Backfill(r);
            && b.base == r
            && (r.promoType == PREMIUM_GRANT ==> b.discountType == None && b.discountValue == None && b.applicableProducts == None)
            && (r.promoType == PERCENT_DISCOUNT ==>
                  && b.discountType == Some(PERCENT) && b.discountValue == r.discountPercent
                  && b.applicableProducts == if r.targetScope == "ANY" || r.targetScope == "MICRO_ANY" || r.targetScope == "PREMIUM_ANY"
                                             then None else Some([r.targetScope]))
  {
  }

  /** Which rows the constraints in force before admit. */
  lemma OldChecksIff(r: OldRow)
    ensures MeetsOldChecks(r)
       <==> r.maxUsesPerUser == 1
            && (|| (r.promoType == PREMIUM_GRANT && r.grantPremiumDays.Some? && r.discountPercent.None?)
                || (r.promoType == PERCENT_DISCOUNT && r.grantPremiumDays.None? && r.discountPercent.Some?
                    && 1 <= r.discountPercent.value <= 90))
  {
  }

  /** Which rows the constraints created admit. */
  lemma NewChecksIff(r: Row)
    ensures MeetsNewChecks(r)
       <==> && r.base.maxUsesPerUser >= 1
            && (r.base.discountPercent.Some? ==> 1 <= r.base.discountPercent.value <= 100)
            && (|| (r.base.promoType == PREMIUM_GRANT && r.base.grantPremiumDays.Some? && r.base.discountPercent.None?
                    && r.discountType.None? && r.discountValue.None?)
                || (&& r.base.promoType == PERCENT_DISCOUNT && r.base.grantPremiumDays.None?
                    && match r.discountType
                       case None => r.base.discountPercent.Some? || r.discountValue.None? || r.discountValue.value >= 1
                       case Some(PERCENT) => r.discountValue.Some? && 1 <= r.discountValue.value <= 100
                       case Some(FIXED) => r.discountValue.Some? && r.discountValue.value >= 1
                       case Some(FREE) => r.discountValue.None?
                       case Some(OtherDiscount(_)) => false))
  {
    if !r.base.promoType.OtherType? {
      NewPayloadPassesIff(r);
    }
  }

  /** The downgrade: drop the three columns; it can restore the old constraints exactly when every row meets them. */
  function DropColumns(r: Row): OldRow {
    r.base
  }

  /** Which rows of the new schema the old one takes back: one use per user, and a percentage of at most 90 if it is a discount. */
  lemma DowngradableIff(r: Row)
    requires MeetsNewChecks(r)
    ensures MeetsOldChecks(DropColumns(r))
       <==> r.base.maxUsesPerUser == 1
            && (r.base.promoType.PERCENT_DISCOUNT? ==> r.base.discountPercent.Some? && r.base.discountPercent.value <= 90)
  {
  }

  /** A fixed discount, which the new schema allows, is not taken back. */
  lemma FixedDiscountBlocksDowngrade(value: int)
    requires value > 0
    ensures var r := Row(OldRow(PERCENT_DISCOUNT, None, None, 1, "ANY"), Some(FIXED), Some(value), None);
            MeetsNewChecks(r) && !MeetsOldChecks(DropColumns(r))
  {
  }

  type PromoId = int

  lemma BackfilledTable(before: map<PromoId, OldRow>)
    requires forall id | id in before :: MeetsOldChecks(before[id])
    ensures forall id | id in before :: MeetsNewChecks(Backfill(before[id]))
    ensures (map id | id in before :: Backfill(before[id]))
         == map id | id in before ::
              var r := before[id];
              if r.promoType != PERCENT_DISCOUNT then Row(r, None, None, None)
              else Row(r, Some(PERCENT), r.discountPercent,
                       if r.targetScope == "ANY" || r.targetScope == "MICRO_ANY" || r.targetScope == "PREMIUM_ANY" then None
                       else Some([r.targetScope]))
  {
    forall id | id in before { BackfillMeetsNewChecks(before[id]); }
    forall id | id in before { BackfillColumns(before[id]); }
  }

  /** The promo_codes table across the migration. */
  class PromoTable {
    var oldRows: map<PromoId, OldRow>
    var rows: map<PromoId, Row>
    var upgraded: bool

    constructor (oldRows: map<PromoId, OldRow>)
      requires forall id | id in oldRows :: MeetsOldChecks(oldRows[id])
      ensures this.oldRows == oldRows && !upgraded && Valid()
    {
      this.oldRows := oldRows;
      rows := map[];
      upgraded := false;
    }

    /** Whichever schema is in force, its constraints hold of every row. */
    ghost predicate Valid()
      reads this
    {
      if upgraded then forall id | id in rows :: MeetsNewChecks(rows[id])
      else forall id | id in oldRows :: MeetsOldChecks(oldRows[id])
    }

    method Upgrade()
      requires Valid() && !upgraded
      modifies this
      ensures Valid() && upgraded
      ensures rows == map id | id in old(oldRows) ::
                var r := old(oldRows)[id];
                if r.promoType != PERCENT_DISCOUNT then Row(r, None, None, None)
                else Row(r, Some(PERCENT), r.discountPercent,
                         if r.targetScope == "ANY" || r.targetScope == "MICRO_ANY" || r.targetScope == "PREMIUM_ANY" then None
                         else Some([r.targetScope]))
    {
      BackfilledTable(oldRows);
      rows := map id | id in oldRows :: Backfill(oldRows[id]);
      upgraded := true;
    }

    /** Creating the old constraints raises, and the schema stays, when some row breaks them. */
    method Downgrade() returns (done: bool)
      requires Valid() && upgraded
      modifies this
      ensures Valid() && upgraded == !done
      ensures done <==> forall id | id in old(rows) :: MeetsOldChecks(old(rows)[id].base)
      ensures done ==> oldRows == map id | id in old(rows) :: old(rows)[id].base
      ensures rows == old(rows)
    {
      var restored := map id | id in rows :: DropColumns(rows[id]);
      assert forall id | id in rows :: restored[id] == rows[id].base;
      done := forall id | id in rows :: MeetsOldChecks(restored[id]);
      if done {
        oldRows := restored;
        upgraded := false;
      }
    }
  }

  /** Straight after an upgrade the downgrade succeeds, and the table is as it was. */
  method DowngradeUndoesUpgrade(table: PromoTable) returns (done: bool)
    requires table.Valid() && !table.upgraded
    modifies table
    ensures done && table.Valid() && !table.upgraded && table.oldRows == old(table.oldRows)
  {
    table.Upgrade();
    done := table.Downgrade();
  }

  // ----- purchases

  datatype Amounts = Amounts(baseStars: int, discountStars: int, stars: int)

  predicate MeetsOldPurchaseChecks(a: Amounts) {
    a.baseStars > 0 && a.discountStars >= 0 && a.stars > 0 && a.stars == Max(1, a.baseStars - a.discountStars)
  }

  predicate MeetsNewPurchaseChecks(a: Amounts) {
    a.baseStars > 0 && a.discountStars >= 0 && a.stars >= 0 && a.stars == Max(0, a.baseStars - a.discountStars)
  }

  /** What is charged is the base less the discount, and before the swap one star at least, after it none at least. */
  lemma PurchaseChecksIff(a: Amounts)
    ensures MeetsOldPurchaseChecks(a)
       <==> 1 <= a.baseStars && 0 <= a.discountStars && a.stars == if a.discountStars < a.baseStars then a.baseStars - a.discountStars else 1
    ensures MeetsNewPurchaseChecks(a)
       <==> 1 <= a.baseStars && 0 <= a.discountStars && a.stars == if a.discountStars < a.baseStars then a.baseStars - a.discountStars else 0
  {
  }

  /** The swap of GREATEST(1, ...) for GREATEST(0, ...) keeps a stored purchase valid exactly when it was not fully discounted. */
  lemma PurchaseCheckSwapIff(a: Amounts)
    requires MeetsOldPurchaseChecks(a)
    ensures MeetsNewPurchaseChecks(a) <==> a.discountStars < a.baseStars
  {
  }

  /** And back: the downgrade's CHECK takes a purchase exactly when it was not free. */
  lemma PurchaseCheckSwapBackIff(a: Amounts)
    requires MeetsNewPurchaseChecks(a)
    ensures MeetsOldPurchaseChecks(a) <==> a.stars > 0
  {
  }

  /** A fully discounted purchase stored at one star is such a row. */
  lemma FullyDiscountedPurchaseBlocksUpgrade(base: int)
    requires base > 0
    ensures var a := Amounts(base, base, 1); MeetsOldPurchaseChecks(a) && !MeetsNewPurchaseChecks(a)
  {
  }
}
