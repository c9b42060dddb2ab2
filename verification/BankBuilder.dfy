/**
 The 500-item bank builder: one representative per key family, one base item per question signature, a curated choice among
 the remaining items, and freshly generated keys. The signature function is a parameter of the pipeline.
 */
module BankBuilder {
  import opened Decimal
  import opened Grouping
  import opened Options
  import opened Sorting
  import opened Text

  datatype Row = Row(quizId: string, key: string, question: string, level: string, category: string)

  /** Source file and line of an item: unique, and the order in which duplicates are preferred. */
  datatype Marker = Marker(source: int, rowNum: int)

  datatype Item = Item(marker: Marker, row: Row, family: string)

  predicate ByMarker(a: Item, b: Item) {
    a.marker.source < b.marker.source || (a.marker.source == b.marker.source && a.marker.rowNum <= b.marker.rowNum)
  }

  /** level, category, source, row: the order of the output. */
  predicate ByOutputOrder(a: Item, b: Item) {
    var la, lb := Strip(a.row.level), Strip(b.row.level);
    var ca, cb := Strip(a.row.category), Strip(b.row.category);
    StringLeq(la, lb, 0) && (la != lb || (StringLeq(ca, cb, 0) && (ca != cb || ByMarker(a, b))))
  }

  // ----- key families

  /** Where the trailing digits of s[..j] begin. */
  function DigitsFrom(s: string, j: nat): (k: nat)
    requires j <= |s|
    ensures k <= j && (0 < k ==> !IsDigit(s[k - 1])) && forall i | k <= i < j :: IsDigit(s[i])
  {
    if j == 0 || !IsDigit(s[j - 1]) then j else DigitsFrom(s, j - 1)
  }

  predicate IsJoiner(c: char) {
    c == '_' || c == '-'
  }

  /** Where a trailing version tag (joiner, v, digits) begins, or the end. */
  function VersionStart(s: string): (n: nat)
    ensures n <= |s|
  {
    var k := DigitsFrom(s, |s|);
    if k < |s| && 2 <= k && s[k - 1] == 'v' && IsJoiner(s[k - 2]) then k - 2 else |s|
  }

  /** Where a trailing number (joiner, digits) begins, or the end. */
  function NumberStart(s: string): (n: nat)
    ensures n <= |s|
  {
    var k := DigitsFrom(s, |s|);
    if k < |s| && 1 <= k && IsJoiner(s[k - 1]) then k - 1 else |s|
  }

  /** `re.sub(r"(?:_|-)v\\d+$", "", text)`. */
  function DropVersion(s: string): string {
    s[..VersionStart(s)]
  }

  /** `re.sub(r"(?:_|-)\\d+$", "", text)`. */
  function DropNumber(s: string): string {
    s[..NumberStart(s)]
  }

  function KeyFamily(value: string): string {
    DropNumber(DropVersion(Lower(Strip(value))))
  }

  // ----- loading

  /** The rows of one source file, numbered from line 2. */
  function ItemsOf(family: string -> string, rows: seq<Row>, source: int): (items: seq<Item>)
    ensures |items| == |rows|
    ensures forall i | 0 <= i < |rows| :: items[i] == Item(Marker(source, i + 2), rows[i], family(rows[i].key))
  {
    seq(|rows|, i requires 0 <= i < |rows| => Item(Marker(source, i + 2), rows[i], family(rows[i].key)))
  }

  /** The items of the first f source files. */
  function AllItems(family: string -> string, files: seq<seq<Row>>, f: nat): seq<Item>
    requires f <= |files|
  {
    if f == 0 then [] else AllItems(family, files, f - 1) + ItemsOf(family, files[f - 1], f - 1)
  }

  ghost predicate MarkersDistinct(items: seq<Item>) {
    forall i, j | 0 <= i < j < |items| :: items[i].marker != items[j].marker
  }

  lemma {:induction false} LoadedMarkersDistinct(family: string -> string, files: seq<seq<Row>>, f: nat)
    requires f <= |files|
    ensures MarkersDistinct(AllItems(family, files, f))
    ensures forall i | 0 <= i < |AllItems(family, files, f)| :: AllItems(family, files, f)[i].marker.source < f
  {
    if f != 0 {
      LoadedMarkersDistinct(family, files, f - 1);
    }
  }

  // ----- stage 1: one representative per family

  /** `sorted(group, key=marker)[0]`. */
  function Least(group: seq<Item>): Item
    requires group != []
  {
    Sort(group, ByMarker)[0]
  }

  lemma MarkerOrderTotal()
    ensures TotalPreorder(ByMarker)
  {
  }

  lemma LeastIs(group: seq<Item>)
    requires group != []
    ensures Least(group) in group
    ensures forall x | x in group :: ByMarker(Least(group), x)
  {
    MarkerOrderTotal();
    SortIsSorted(group, ByMarker);
    assert Least(group) in Sort(group, ByMarker);
  }

  function FamilyKey(): Item -> Option<string> {
    (x: Item) => Some(x.family)
  }

  predicate FamilyLeq(a: string, b: string) {
    StringLeq(a, b, 0)
  }

  /** The members of a group are the items with its key. */
  lemma GroupHolds<K(!new)>(items: seq<Item>, key: Item -> Option<K>, k: K)
    ensures var g := GroupBy(items, key, |items|);
            && (k in g.members <==> exists x :: x in items && key(x) == Some(k))
            && (k in g.members ==> g.members[k] != [] && forall x :: x in g.members[k] <==> x in items && key(x) == Some(k))
  {
    var g := GroupBy(items, key, |items|);
    GroupsAreSelections(items, key, |items|);
    SelectMembers(items, key, k, |items|);
    assert items[..|items|] == items;
    var selected := Select(items, key, k, |items|);
    if selected != [] {
      assert selected[0] in selected;
    }
  }

  /** The representatives in the order of the sorted family names. */
  function Representatives(g: Groups<string, Item>, families: seq<string>): (unique: seq<Item>)
    requires forall i | 0 <= i < |families| :: families[i] in g.members && g.members[families[i]] != []
    ensures |unique| == |families| && forall i | 0 <= i < |families| :: unique[i] == Least(g.members[families[i]])
  {
    seq(|families|, i requires 0 <= i < |families| => Least(g.members[families[i]]))
  }

  /** `sorted(family_map.keys())`: the families of the items, each once. */
  function SortedFamilies(items: seq<Item>): (families: seq<string>)
    ensures NoRepeats(families)
    ensures forall family :: family in families <==> exists x :: x in items && x.family == family
  {
    var g := GroupBy(items, FamilyKey(), |items|);
    KeysNameGroups(items, FamilyKey(), |items|);
    SortNoRepeats(g.keys, FamilyLeq);
    SortMembers(g.keys, FamilyLeq);
    assert forall family :: family in g.keys <==> exists x :: x in items && x.family == family by {
      forall family
        ensures family in g.keys <==> exists x :: x in items && x.family == family
      {
        GroupHolds(items, FamilyKey(), family);
        assert forall x: Item :: FamilyKey()(x) == Some(family) <==> x.family == family;
      }
    }
    Sort(g.keys, FamilyLeq)
  }

  lemma FamilyGroups(items: seq<Item>, i: nat)
    requires i < |SortedFamilies(items)|
    ensures var g, family := GroupBy(items, FamilyKey(), |items|), SortedFamilies(items)[i];
            family in g.members && g.members[family] != []
            && forall x :: x in g.members[family] <==> x in items && x.family == family
  {
    var family := SortedFamilies(items)[i];
    GroupHolds(items, FamilyKey(), family);
    assert family in SortedFamilies(items);
    var x :| x in items && x.family == family;
    assert FamilyKey()(x) == Some(family);
  }

  function UniqueItems(items: seq<Item>): seq<Item> {
    assert forall i | 0 <= i < |SortedFamilies(items)| ::
        var g := GroupBy(items, FamilyKey(), |items|);
        SortedFamilies(items)[i] in g.members && g.members[SortedFamilies(items)[i]] != [] by {
      forall i | 0 <= i < |SortedFamilies(items)| { FamilyGroups(items, i); }
    }
    Representatives(GroupBy(items, FamilyKey(), |items|), SortedFamilies(items))
  }

  lemma RepresentativeAt(items: seq<Item>, i: nat)
    requires i < |UniqueItems(items)|
    ensures |UniqueItems(items)| == |SortedFamilies(items)|
    ensures var x := UniqueItems(items)[i];
            && x in items && x.family == SortedFamilies(items)[i]
            && forall y | y in items && y.family == x.family ::
                 x.marker.source < y.marker.source || (x.marker.source == y.marker.source && x.marker.rowNum <= y.marker.rowNum)
  {
    FamilyGroups(items, i);
    LeastIs(GroupBy(items, FamilyKey(), |items|).members[SortedFamilies(items)[i]]);
  }

  /** The representatives' families are pairwise distinct. */
  lemma UniqueFamiliesDistinct(items: seq<Item>, i: nat, j: nat)
    requires i < j < |UniqueItems(items)|
    ensures UniqueItems(items)[i].family != UniqueItems(items)[j].family
  {
    RepresentativeAt(items, i);
    RepresentativeAt(items, j);
  }

  /** Every family has a representative. */
  lemma FamilyRepresented(items: seq<Item>, y: Item) returns (i: nat)
    requires y in items
    ensures i < |UniqueItems(items)| && UniqueItems(items)[i].family == y.family
  {
    assert y.family in SortedFamilies(items);
    i :| 0 <= i < |SortedFamilies(items)| && SortedFamilies(items)[i] == y.family;
    RepresentativeAt(items, i);
  }

  /** Distinct items of the source files stay distinct by marker when chosen as representatives. */
  lemma UniqueMarkersDistinct(items: seq<Item>)
    requires MarkersDistinct(items)
    ensures MarkersDistinct(UniqueItems(items))
  {
    var unique := UniqueItems(items);
    forall i, j | 0 <= i < j < |unique|
      ensures unique[i].marker != unique[j].marker
    {
      RepresentativeAt(items, i);
      RepresentativeAt(items, j);
      UniqueFamiliesDistinct(items, i, j);
    }
  }

  // ----- stage 2: one base item per signature

  function SignatureKey(sig: string -> string): Item -> Option<string> {
    (x: Item) => Some(sig(x.row.question))
  }

  function SignatureGroups(sig: string -> string, unique: seq<Item>): (g: Groups<string, Item>)
    ensures NoRepeats(g.keys)
    ensures forall i | 0 <= i < |g.keys| :: g.keys[i] in g.members && g.members[g.keys[i]] != []
  {
    var g := GroupBy(unique, SignatureKey(sig), |unique|);
    KeysNameGroups(unique, SignatureKey(sig), |unique|);
    assert forall i | 0 <= i < |g.keys| :: g.keys[i] in g.members && g.members[g.keys[i]] != [] by {
      forall i | 0 <= i < |g.keys| { GroupHolds(unique, SignatureKey(sig), g.keys[i]); }
    }
    g
  }

  /** `[ordered[0] for each group]`. */
  function BaseItems(sig: string -> string, unique: seq<Item>): seq<Item> {
    var g := SignatureGroups(sig, unique);
    Representatives(g, g.keys)
  }

  /** `ordered[1:]`. */
  function Rest(group: seq<Item>): seq<Item>
    requires group != []
  {
    Sort(group, ByMarker)[1..]
  }

  /** `for item in items[:n]: extras[item.marker] = item`. */
  function PutAll(extras: map<Marker, Item>, items: seq<Item>, n: nat): map<Marker, Item>
    requires n <= |items|
  {
    if n == 0 then extras else PutAll(extras, items, n - 1)[items[n - 1].marker := items[n - 1]]
  }

  /** What each group leaves over. */
  function Rests(g: Groups<string, Item>): (rests: seq<seq<Item>>)
    requires forall i | 0 <= i < |g.keys| :: g.keys[i] in g.members && g.members[g.keys[i]] != []
    ensures |rests| == |g.keys| && forall i | 0 <= i < |g.keys| :: rests[i] == Rest(g.members[g.keys[i]])
  {
    seq(|g.keys|, i requires 0 <= i < |g.keys| => Rest(g.members[g.keys[i]]))
  }

  /** The extra candidates of the first n groups. */
  function ExtrasTo(rests: seq<seq<Item>>, n: nat): map<Marker, Item>
    requires n <= |rests|
  {
    if n == 0 then map[] else PutAll(ExtrasTo(rests, n - 1), rests[n - 1], |rests[n - 1]|)
  }

  function ExtraCandidates(sig: string -> string, unique: seq<Item>): map<Marker, Item> {
    var rests := Rests(SignatureGroups(sig, unique));
    ExtrasTo(rests, |rests|)
  }

  lemma {:induction false} PutAllHolds(extras: map<Marker, Item>, items: seq<Item>, n: nat)
    requires n <= |items|
    ensures var after := PutAll(extras, items, n);
            && (forall j | 0 <= j < n :: items[j].marker in after)
            && (forall m | m in extras :: m in after)
            && (forall m | m in after ::
                  (m in extras && after[m] == extras[m]) || exists j | 0 <= j < n :: items[j].marker == m && after[m] == items[j])
  {
    if n != 0 {
      PutAllHolds(extras, items, n - 1);
    }
  }

  /** Some group among the first n leaves x over. */
  ghost predicate LeftOver(rests: seq<seq<Item>>, n: nat, x: Item)
    requires n <= |rests|
  {
    exists i | 0 <= i < n :: x in rests[i]
  }

  /** Every extra candidate is a left-over item stored under its own marker. */
  lemma {:induction false} ExtraAt(rests: seq<seq<Item>>, n: nat, m: Marker)
    requires n <= |rests| && m in ExtrasTo(rests, n)
    ensures ExtrasTo(rests, n)[m].marker == m && LeftOver(rests, n, ExtrasTo(rests, n)[m])
  {
    if n != 0 {
      var before := ExtrasTo(rests, n - 1);
      PutAllHolds(before, rests[n - 1], |rests[n - 1]|);
      if m in before && ExtrasTo(rests, n)[m] == before[m] {
        ExtraAt(rests, n - 1, m);
      }
    }
  }

  /** Every left-over item is a candidate, if only under a marker it may share. */
  lemma {:induction false} ExtraPresent(rests: seq<seq<Item>>, n: nat, x: Item)
    requires n <= |rests| && LeftOver(rests, n, x)
    ensures x.marker in ExtrasTo(rests, n)
  {
    if n != 0 {
      PutAllHolds(ExtrasTo(rests, n - 1), rests[n - 1], |rests[n - 1]|);
      if x !in rests[n - 1] {
        ExtraPresent(rests, n - 1, x);
      }
    }
  }

  /** Selecting from a list without repetitions introduces none. */
  lemma {:induction false} SelectNoRepeats<K>(items: seq<Item>, key: Item -> Option<K>, k: K, n: nat)
    requires NoRepeats(items) && n <= |items|
    ensures NoRepeats(Select(items, key, k, n))
  {
    if n != 0 {
      SelectNoRepeats(items, key, k, n - 1);
      SelectMembers(items, key, k, n - 1);
      var before := Select(items, key, k, n - 1);
      forall i | 0 <= i < |before|
        ensures before[i] != items[n - 1]
      {
        assert before[i] in before;
      }
    }
  }

  /** A group is split into its least item and the rest, which overlap nowhere. */
  lemma GroupSplits(group: seq<Item>, x: Item)
    requires group != [] && NoRepeats(group)
    ensures x in group <==> x == Least(group) || x in Rest(group)
    ensures x in Rest(group) ==> x != Least(group)
  {
    var ordered := Sort(group, ByMarker);
    SortMembers(group, ByMarker);
    SortNoRepeats(group, ByMarker);
    assert ordered == [ordered[0]] + ordered[1..];
  }

  lemma SignatureGroupAt(sig: string -> string, unique: seq<Item>, i: nat)
    requires NoRepeats(unique) && i < |SignatureGroups(sig, unique).keys|
    ensures var g := SignatureGroups(sig, unique);
            NoRepeats(g.members[g.keys[i]])
            && forall x :: x in g.members[g.keys[i]] <==> x in unique && sig(x.row.question) == g.keys[i]
  {
    var g := SignatureGroups(sig, unique);
    GroupHolds(unique, SignatureKey(sig), g.keys[i]);
    GroupsAreSelections(unique, SignatureKey(sig), |unique|);
    SelectNoRepeats(unique, SignatureKey(sig), g.keys[i], |unique|);
    assert forall x: Item :: SignatureKey(sig)(x) == Some(g.keys[i]) <==> sig(x.row.question) == g.keys[i];
  }

  /** Every unique item belongs to one of the listed groups. */
  lemma SignatureListed(sig: string -> string, unique: seq<Item>, x: Item) returns (i: nat)
    requires x in unique
    ensures i < |SignatureGroups(sig, unique).keys| && SignatureGroups(sig, unique).keys[i] == sig(x.row.question)
  {
    var k := sig(x.row.question);
    assert SignatureKey(sig)(x) == Some(k);
    GroupHolds(unique, SignatureKey(sig), k);
    KeysNameGroups(unique, SignatureKey(sig), |unique|);
    i :| 0 <= i < |SignatureGroups(sig, unique).keys| && SignatureGroups(sig, unique).keys[i] == k;
  }

  /** Base signatures are pairwise distinct, and each base item is the least unique item with its signature. */
  lemma BaseItemAt(sig: string -> string, unique: seq<Item>, i: nat)
    requires NoRepeats(unique) && i < |BaseItems(sig, unique)|
    ensures |BaseItems(sig, unique)| == |SignatureGroups(sig, unique).keys|
    ensures var x := BaseItems(sig, unique)[i];
            && x in unique && sig(x.row.question) == SignatureGroups(sig, unique).keys[i]
            && forall y | y in unique && sig(y.row.question) == sig(x.row.question) ::
                 x.marker.source < y.marker.source || (x.marker.source == y.marker.source && x.marker.rowNum <= y.marker.rowNum)
  {
    SignatureGroupAt(sig, unique, i);
    var g := SignatureGroups(sig, unique);
    LeastIs(g.members[g.keys[i]]);
  }

  /** The two stages partition the representatives: each is a base item or an extra candidate, and never both. */
  lemma StagesPartition(sig: string -> string, unique: seq<Item>, x: Item)
    requires MarkersDistinct(unique) && x in unique
    ensures x in BaseItems(sig, unique) <==> x.marker !in ExtraCandidates(sig, unique)
    ensures x.marker in ExtraCandidates(sig, unique) ==> ExtraCandidates(sig, unique)[x.marker] == x
  {
    var g := SignatureGroups(sig, unique);
    var i := SignatureListed(sig, unique, x);
    SignatureGroupAt(sig, unique, i);
    GroupSplits(g.members[g.keys[i]], x);
    if x.marker in ExtraCandidates(sig, unique) {
      ExtraIsUnique(sig, unique, x.marker);
    }
    if x in BaseItems(sig, unique) {
      var j :| 0 <= j < |BaseItems(sig, unique)| && BaseItems(sig, unique)[j] == x;
      BaseItemAt(sig, unique, j);
      assert j == i;
      if x.marker in ExtraCandidates(sig, unique) {
        RestOfOwnGroup(sig, unique, x, i);
      }
    } else {
      assert x != Least(g.members[g.keys[i]]) by {
        assert BaseItems(sig, unique)[i] == Least(g.members[g.keys[i]]);
      }
      assert x in Rests(g)[i];
      ExtraPresent(Rests(g), |g.keys|, x);
    }
  }

  /** An extra candidate is a unique item stored under its own marker. */
  lemma ExtraIsUnique(sig: string -> string, unique: seq<Item>, m: Marker)
    requires MarkersDistinct(unique) && m in ExtraCandidates(sig, unique)
    ensures var x := ExtraCandidates(sig, unique)[m];
            x in unique && x.marker == m && forall y | y in unique && y.marker == m :: y == x
  {
    var g := SignatureGroups(sig, unique);
    ExtraAt(Rests(g), |g.keys|, m);
    var x := ExtraCandidates(sig, unique)[m];
    var i :| 0 <= i < |g.keys| && x in Rests(g)[i];
    SignatureGroupAt(sig, unique, i);
    GroupSplits(g.members[g.keys[i]], x);
  }

  lemma RestOfOwnGroup(sig: string -> string, unique: seq<Item>, x: Item, i: nat)
    requires MarkersDistinct(unique) && x in unique && x.marker in ExtraCandidates(sig, unique)
    requires i < |SignatureGroups(sig, unique).keys| && SignatureGroups(sig, unique).keys[i] == sig(x.row.question)
    ensures x in Rest(SignatureGroups(sig, unique).members[SignatureGroups(sig, unique).keys[i]])
  {
    var g := SignatureGroups(sig, unique);
    ExtraAt(Rests(g), |g.keys|, x.marker);
    ExtraIsUnique(sig, unique, x.marker);
    var j :| 0 <= j < |g.keys| && x in Rests(g)[j];
    SignatureGroupAt(sig, unique, j);
    GroupSplits(g.members[g.keys[j]], x);
    assert g.keys[j] == g.keys[i];
  }

  // ----- selection and output

  datatype Failure = MissingMarker(marker: Marker) | WrongCount(count: nat) | DuplicateKeys | DuplicateSignatures | DuplicateFamilies

  /** A curated choice: the extra candidate with this marker, under a rewritten stem. */
  datatype Curated = Curated(marker: Marker, question: string)

  ghost predicate ChoicesDistinct(curated: seq<Curated>) {
    forall i, j | 0 <= i < j < |curated| :: curated[i].marker != curated[j].marker
  }

  function Rewritten(x: Item, question: string): Item {
    x.(row := x.row.(question := question))
  }

  function CuratedItems(extras: map<Marker, Item>, curated: seq<Curated>): (items: seq<Item>)
    requires forall i | 0 <= i < |curated| :: curated[i].marker in extras
    ensures |items| == |curated|
    ensures forall i | 0 <= i < |curated| :: items[i] == Rewritten(extras[curated[i].marker], curated[i].question)
  {
    seq(|curated|, i requires 0 <= i < |curated| => Rewritten(extras[curated[i].marker], curated[i].question))
  }

  function Selected(sig: string -> string, unique: seq<Item>, curated: seq<Curated>): seq<Item>
    requires forall i | 0 <= i < |curated| :: curated[i].marker in ExtraCandidates(sig, unique)
  {
    BaseItems(sig, unique) + CuratedItems(ExtraCandidates(sig, unique), curated)
  }

  ghost predicate FamiliesDistinct(items: seq<Item>) {
    forall i, j | 0 <= i < j < |items| :: items[i].family != items[j].family
  }

  /** Items of the two stages that carry the same family are one and the same representative. */
  lemma SameFamilySameItem(unique: seq<Item>, x: Item, y: Item)
    requires FamiliesDistinct(unique) && x in unique && y in unique && x.family == y.family
    ensures x == y
  {
  }

  /** The selected families are pairwise distinct. */
  lemma SelectedFamiliesDistinct(sig: string -> string, unique: seq<Item>, curated: seq<Curated>)
    requires MarkersDistinct(unique) && FamiliesDistinct(unique) && ChoicesDistinct(curated)
    requires forall i | 0 <= i < |curated| :: curated[i].marker in ExtraCandidates(sig, unique)
    ensures FamiliesDistinct(Selected(sig, unique, curated))
  {
    var base, extras := BaseItems(sig, unique), ExtraCandidates(sig, unique);
    forall i, j | 0 <= i < j < |base|
      ensures base[i].family != base[j].family
    {
      BaseItemAt(sig, unique, i);
      BaseItemAt(sig, unique, j);
      if base[i].family == base[j].family {
        SameFamilySameItem(unique, base[i], base[j]);
      }
    }
    forall i, j | 0 <= i < |base| && 0 <= j < |curated|
      ensures base[i].family != extras[curated[j].marker].family
    {
      BaseItemAt(sig, unique, i);
      ExtraIsUnique(sig, unique, curated[j].marker);
      if base[i].family == extras[curated[j].marker].family {
        SameFamilySameItem(unique, base[i], extras[curated[j].marker]);
        StagesPartition(sig, unique, base[i]);
      }
    }
    forall i, j | 0 <= i < j < |curated|
      ensures extras[curated[i].marker].family != extras[curated[j].marker].family
    {
      ExtraIsUnique(sig, unique, curated[i].marker);
      ExtraIsUnique(sig, unique, curated[j].marker);
      if extras[curated[i].marker].family == extras[curated[j].marker].family {
        SameFamilySameItem(unique, extras[curated[i].marker], extras[curated[j].marker]);
      }
    }
  }

  /** Sorting keeps pairwise distinct families. */
  lemma SortKeepsFamiliesDistinct(items: seq<Item>)
    requires FamiliesDistinct(items)
    ensures FamiliesDistinct(Sort(items, ByOutputOrder))
  {
    var ordered := Sort(items, ByOutputOrder);
    SortMembers(items, ByOutputOrder);
    SortNoRepeats(items, ByOutputOrder);
    forall i, j | 0 <= i < j < |ordered|
      ensures ordered[i].family != ordered[j].family
    {
      assert ordered[i] in items && ordered[j] in items;
      if ordered[i].family == ordered[j].family {
        SameFamilySameItem(items, ordered[i], ordered[j]);
      }
    }
  }

  const QUIZ_PREFIX := "logik500_"

  function QuizId(idx: nat): string {
    QUIZ_PREFIX + Padded(idx, 4)
  }

  function OutputKey(idx: nat, family: string): string {
    QuizId(idx) + "_" + family
  }

  function OutRows(items: seq<Item>): (rows: seq<Row>)
    ensures |rows| == |items|
    ensures forall i | 0 <= i < |items| ::
              rows[i] == items[i].row.(quizId := QuizId(i + 1), key := OutputKey(i + 1, items[i].family))
  {
    seq(|items|, i requires 0 <= i < |items| =>
      items[i].row.(quizId := QuizId(i + 1), key := OutputKey(i + 1, items[i].family)))
  }

  /** Keys under different numbers differ, whatever the families. */
  lemma OutputKeyInjective(a: nat, b: nat, f: string, g: string)
    requires OutputKey(a, f) == OutputKey(b, g)
    ensures a == b && f == g
  {
    var p, q := Padded(a, 4), Padded(b, 4);
    var s := OutputKey(a, f);
    var n := |QUIZ_PREFIX|;
    assert s == QUIZ_PREFIX + p + "_" + f == QUIZ_PREFIX + q + "_" + g;
    NumeralEnds(s, n, p, f);
    NumeralEnds(s, n, q, g);
    PaddedInjective(a, b, 4);
  }

  /** In prefix + numeral + "_" + rest, the numeral is the digit run behind the prefix. */
  lemma NumeralEnds(s: string, n: nat, p: string, f: string)
    requires n <= |s| && s[n..] == p + "_" + f && AllDigits(p)
    ensures |p| == DigitRun(s, n) && p == s[n..n + |p|] && f == s[n + |p| + 1..]
  {
    assert forall i | 0 <= i < |p| :: s[n + i] == s[n..][i] == p[i];
    assert s[n + |p|] == s[n..][|p|] == '_';
    RunIs(s, n, |p|);
  }

  function DigitRun(s: string, i: nat): nat
    requires i <= |s|
    decreases |s| - i
  {
    if i == |s| || !IsDigit(s[i]) then 0 else 1 + DigitRun(s, i + 1)
  }

  lemma {:induction false} RunIs(s: string, i: nat, k: nat)
    requires i + k < |s| && !IsDigit(s[i + k]) && forall j | i <= j < i + k :: IsDigit(s[j])
    ensures DigitRun(s, i) == k
    decreases k
  {
    if k != 0 {
      RunIs(s, i + 1, k - 1);
    }
  }
}
