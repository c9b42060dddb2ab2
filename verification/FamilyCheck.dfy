/** When the bank builder, run with its own key_family, ends in "family duplicates". */
module FamilyCheck {
  import opened BankBuilder
  import opened BankOutput
  import opened GeneratedKeys
  import opened Options
  import opened Sorting
  import opened Text

  /** Two selected items whose families are bare version tags. */
  ghost predicate BarePair(items: seq<Item>) {
    exists i, j | 0 <= i < j < |items| :: IsBare(items[i].family) && IsBare(items[j].family)
  }

  lemma TwoBare(items: seq<Item>, a: Item, b: Item)
    requires a in items && b in items && a != b && IsBare(a.family) && IsBare(b.family)
    ensures BarePair(items)
  {
    var i :| 0 <= i < |items| && items[i] == a;
    var j :| 0 <= j < |items| && items[j] == b;
    if i < j {
      assert IsBare(items[i].family) && IsBare(items[j].family);
    } else {
      assert IsBare(items[j].family) && IsBare(items[i].family) && j < i;
    }
  }

  lemma PairMoves(xs: seq<Item>, ys: seq<Item>)
    requires FamiliesDistinct(xs) && (forall x | x in xs :: x in ys) && BarePair(xs)
    ensures BarePair(ys)
  {
    var i, j :| 0 <= i < j < |xs| && IsBare(xs[i].family) && IsBare(xs[j].family);
    assert xs[i] in ys && xs[j] in ys && xs[i].family != xs[j].family;
    TwoBare(ys, xs[i], xs[j]);
  }

  /** Sorting items of distinct families neither makes nor breaks such a pair. */
  lemma BarePairSorted(items: seq<Item>)
    requires FamiliesDistinct(items)
    ensures BarePair(Sort(items, ByOutputOrder)) <==> BarePair(items)
  {
    var ordered := Sort(items, ByOutputOrder);
    SortMembers(items, ByOutputOrder);
    SortKeepsFamiliesDistinct(items);
    if BarePair(ordered) {
      PairMoves(ordered, items);
    }
    if BarePair(items) {
      PairMoves(items, ordered);
    }
  }

  predicate AllShaped(items: seq<Item>) {
    forall i | 0 <= i < |items| :: FamilyShaped(items[i].family)
  }

  lemma SortKeepsShapes(items: seq<Item>)
    requires AllShaped(items)
    ensures AllShaped(Sort(items, ByOutputOrder))
  {
    var ordered := Sort(items, ByOutputOrder);
    SortMembers(items, ByOutputOrder);
    forall i | 0 <= i < |ordered|
      ensures FamilyShaped(ordered[i].family)
    {
      assert ordered[i] in items;
    }
  }

  /** For a selection of distinct families, each shaped as key_family shapes them. */
  lemma PublishedDuplicatesIff(sig: string -> string, selected: seq<Item>, target: nat)
    requires FamiliesDistinct(selected) && AllShaped(selected)
    ensures Published(KeyFamily, sig, selected, target) == Err(DuplicateFamilies)
       <==> |selected| == target && BarePair(selected) && !HasRepeats(SignaturesOf(sig, OutRows(Sort(selected, ByOutputOrder))))
  {
    SortKeepsShapes(selected);
    FamilyCheckFiresIff(Sort(selected, ByOutputOrder));
    BarePairSorted(selected);
  }

  lemma CarriedShaped(items: seq<Item>)
    requires CarryFamily(KeyFamily, items)
    ensures AllShaped(items)
  {
    forall i | 0 <= i < |items|
      ensures FamilyShaped(items[i].family)
    {
      assert items[i] in items;
      KeyFamilyShaped(items[i].row.key);
    }
  }

  /** The selection of the routine run with key_family. */
  function Selection(sig: string -> string, files: seq<seq<Row>>, curated: seq<Curated>, target: nat): Option<seq<Item>> {
    var job := Job(KeyFamily, sig, files, curated, target);
    if AllFound(ExtraCandidates(sig, Unique(job)), curated) then Some(Selected(sig, Unique(job), curated)) else None
  }

  lemma SelectionSound(sig: string -> string, files: seq<seq<Row>>, curated: seq<Curated>, target: nat)
    requires ChoicesDistinct(curated) && Selection(sig, files, curated, target).Some?
    ensures var selected := Selection(sig, files, curated, target).value;
            FamiliesDistinct(selected) && CarryFamily(KeyFamily, selected)
  {
    var job := Job(KeyFamily, sig, files, curated, target);
    UniqueSound(job);
    UniqueCarryFamily(job);
    SelectedFamiliesDistinct(sig, Unique(job), curated);
    SelectedCarryFamily(KeyFamily, sig, Unique(job), curated);
  }

  /**
   The routine ends in "family duplicates" exactly when the selection has the right size and distinct signatures and two
   selected items have keys whose families are bare version tags.
   */
  lemma DuplicateFamiliesIff(sig: string -> string, files: seq<seq<Row>>, curated: seq<Curated>, target: nat)
    requires ChoicesDistinct(curated) && Selection(sig, files, curated, target).Some?
    ensures var selected := Selection(sig, files, curated, target).value;
            CarryFamily(KeyFamily, selected)
            && ((Published(KeyFamily, sig, selected, target) == Err(DuplicateFamilies))
                == (|selected| == target && BarePair(selected)
                    && !HasRepeats(SignaturesOf(sig, OutRows(Sort(selected, ByOutputOrder))))))
  {
    SelectionSound(sig, files, curated, target);
    var selected := Selection(sig, files, curated, target).value;
    CarriedShaped(selected);
    PublishedDuplicatesIff(sig, selected, target);
  }

  /** The routine with its own key_family, and exactly when that check ends it. */
  method BuildBank(sig: string -> string, files: seq<seq<Row>>, curated: seq<Curated>, target: nat)
    returns (result: Result<seq<Row>, Failure>)
    requires ChoicesDistinct(curated)
    ensures var selection := Selection(sig, files, curated, target);
            (result == Err(DuplicateFamilies))
            == (selection.Some? && |selection.value| == target && BarePair(selection.value)
                && !HasRepeats(SignaturesOf(sig, OutRows(Sort(selection.value, ByOutputOrder)))))
  {
    result := Build(Job(KeyFamily, sig, files, curated, target));
    if Selection(sig, files, curated, target).Some? {
      DuplicateFamiliesIff(sig, files, curated, target);
    }
  }

  // ----- two rows that make it fire

  /** An item whose family no other item has is a representative. */
  lemma LoneFamilyKept(items: seq<Item>, x: Item)
    requires x in items && forall y | y in items && y.family == x.family :: y == x
    ensures x in UniqueItems(items)
  {
    var i := FamilyRepresented(items, x);
    RepresentativeAt(items, i);
    assert UniqueItems(items)[i] == x;
  }

  lemma LoneSignatureIsBase(sig: string -> string, unique: seq<Item>, x: Item)
    requires NoRepeats(unique) && x in unique
    requires forall y | y in unique && sig(y.row.question) == sig(x.row.question) :: y == x
    ensures x in BaseItems(sig, unique)
  {
    var i := SignatureListed(sig, unique, x);
    BaseItemAt(sig, unique, i);
    assert BaseItems(sig, unique)[i] == x;
  }

  lemma PairLength<T>(xs: seq<T>, a: T, b: T)
    requires NoRepeats(xs) && a != b && a in xs && b in xs
    requires forall i | 0 <= i < |xs| :: xs[i] == a || xs[i] == b
    ensures |xs| == 2
  {
    var i :| 0 <= i < |xs| && xs[i] == a;
    var j :| 0 <= j < |xs| && xs[j] == b;
    if |xs| > 2 {
      NowhereElse(xs, i, j, if i != 0 && j != 0 then 0 else if i != 1 && j != 1 then 1 else 2);
    }
  }

  lemma NowhereElse<T>(xs: seq<T>, i: nat, j: nat, k: nat)
    requires NoRepeats(xs) && i < |xs| && j < |xs| && k < |xs| && (xs[k] == xs[i] || xs[k] == xs[j])
    ensures k == i || k == j
  {
  }

  /** Two representatives of different signatures are the base items, and there is nothing left to curate. */
  lemma BaseOfTwo(sig: string -> string, unique: seq<Item>, a: Item, b: Item)
    requires NoRepeats(unique) && a in unique && b in unique && forall x | x in unique :: x == a || x == b
    requires sig(a.row.question) != sig(b.row.question)
    ensures |BaseItems(sig, unique)| == 2 && a in BaseItems(sig, unique) && b in BaseItems(sig, unique)
    ensures forall i, j | 0 <= i < j < |BaseItems(sig, unique)| ::
              sig(BaseItems(sig, unique)[i].row.question) != sig(BaseItems(sig, unique)[j].row.question)
  {
    var base := BaseItems(sig, unique);
    LoneSignatureIsBase(sig, unique, a);
    LoneSignatureIsBase(sig, unique, b);
    forall i | 0 <= i < |base|
      ensures base[i] == a || base[i] == b
    {
      BaseItemAt(sig, unique, i);
    }
    forall i, j | 0 <= i < j < |base|
      ensures sig(base[i].row.question) != sig(base[j].row.question)
    {
      BaseItemAt(sig, unique, i);
      BaseItemAt(sig, unique, j);
    }
    PairLength(base, a, b);
  }

  /** Items of distinct signatures give output rows of distinct signatures. */
  lemma SignaturesStayDistinct(sig: string -> string, items: seq<Item>)
    requires forall i, j | 0 <= i < j < |items| :: sig(items[i].row.question) != sig(items[j].row.question)
    ensures !HasRepeats(SignaturesOf(sig, OutRows(Sort(items, ByOutputOrder))))
  {
    var ordered := Sort(items, ByOutputOrder);
    SortMembers(items, ByOutputOrder);
    SortNoRepeats(items, ByOutputOrder);
    forall i, j | 0 <= i < j < |ordered|
      ensures sig(ordered[i].row.question) != sig(ordered[j].row.question)
    {
      assert ordered[i] in items && ordered[j] in items;
      var k :| 0 <= k < |items| && items[k] == ordered[i];
      var m :| 0 <= m < |items| && items[m] == ordered[j];
      assert k < m || m < k;
    }
  }

  lemma TwoRowsLoaded(family: string -> string, r: Row, s: Row)
    ensures AllItems(family, [[r, s]], 1) == [Item(Marker(0, 2), r, family(r.key)), Item(Marker(0, 3), s, family(s.key))]
  {
    assert AllItems(family, [[r, s]], 0) == [];
    assert ItemsOf(family, [r, s], 0) == [Item(Marker(0, 2), r, family(r.key)), Item(Marker(0, 3), s, family(s.key))];
  }

  lemma SelectionOfTwo(sig: string -> string, r: Row, s: Row)
    requires KeyFamily(r.key) != KeyFamily(s.key) && sig(r.question) != sig(s.question)
    ensures var a, b := Item(Marker(0, 2), r, KeyFamily(r.key)), Item(Marker(0, 3), s, KeyFamily(s.key));
            var unique := UniqueItems([a, b]);
            && NoRepeats(unique) && a in unique && b in unique && (forall x | x in unique :: x == a || x == b)
            && Selection(sig, [[r, s]], [], 2) == Some(BaseItems(sig, unique))
  {
    var a, b := Item(Marker(0, 2), r, KeyFamily(r.key)), Item(Marker(0, 3), s, KeyFamily(s.key));
    var job := Job(KeyFamily, sig, [[r, s]], [], 2);
    TwoRowsLoaded(KeyFamily, r, s);
    TwoKept([a, b], a, b);
    UniqueSound(job);
    assert Unique(job) == UniqueItems([a, b]);
    NothingCurated(sig, UniqueItems([a, b]));
  }

  lemma NothingCurated(sig: string -> string, unique: seq<Item>)
    ensures Selected(sig, unique, []) == BaseItems(sig, unique)
  {
    assert CuratedItems(ExtraCandidates(sig, unique), []) == [];
  }

  /** Any two rows of different bare tags and different signatures end the routine in "family duplicates". */
  lemma BareTagsFail(sig: string -> string, r: Row, s: Row)
    requires IsBare(KeyFamily(r.key)) && IsBare(KeyFamily(s.key)) && KeyFamily(r.key) != KeyFamily(s.key)
    requires sig(r.question) != sig(s.question)
    ensures var selected := Selection(sig, [[r, s]], [], 2);
            selected.Some? && Published(KeyFamily, sig, selected.value, 2) == Err(DuplicateFamilies)
  {
    SelectionOfTwo(sig, r, s);
    var a, b := Item(Marker(0, 2), r, KeyFamily(r.key)), Item(Marker(0, 3), s, KeyFamily(s.key));
    var unique := UniqueItems([a, b]);
    BaseOfTwo(sig, unique, a, b);
    TwoBare(BaseItems(sig, unique), a, b);
    SignaturesStayDistinct(sig, BaseItems(sig, unique));
    DuplicateFamiliesIff(sig, [[r, s]], [], 2);
  }

  lemma TwoKept(items: seq<Item>, a: Item, b: Item)
    requires items == [a, b] && a.family != b.family
    ensures a in UniqueItems(items) && b in UniqueItems(items) && forall x | x in UniqueItems(items) :: x == a || x == b
  {
    assert items[0] == a && items[1] == b;
    LoneFamilyKept(items, a);
    LoneFamilyKept(items, b);
    forall x | x in UniqueItems(items)
      ensures x == a || x == b
    {
      UniqueAreItems(items, x);
    }
  }

  /** The keys v1 and v2 are such keys. */
  lemma VersionTagsFail(sig: string -> string, r: Row, s: Row)
    requires r.key == "v1" && s.key == "v2" && sig(r.question) != sig(s.question)
    ensures var selected := Selection(sig, [[r, s]], [], 2);
            selected.Some? && Published(KeyFamily, sig, selected.value, 2) == Err(DuplicateFamilies)
  {
    TagFamily('1');
    TagFamily('2');
    assert "v1"[1] != "v2"[1];
    BareTagsFail(sig, r, s);
  }

  lemma TagFamily(d: char)
    requires IsDigit(d)
    ensures KeyFamily(['v', d]) == ['v', d] && IsBare(['v', d])
  {
    var t := ['v', d];
    StripTrimmed(t);
    assert Lower(t) == t;
    assert DigitsFrom(t, 2) == 1;
    BareVersionIff(t);
  }
}
