/** The bank builder's main routine: the two stages run in order, the selection checked, numbered and checked again. */
module BankOutput {
  import opened BankBuilder
  import opened Grouping
  import opened Options
  import opened Sorting

  /** What the routine is given: the two key functions, the source rows, the curated choices and the expected size. */
  datatype Job = Job(family: string -> string, sig: string -> string, files: seq<seq<Row>>, curated: seq<Curated>, target: nat)

  function Unique(job: Job): seq<Item> {
    UniqueItems(AllItems(job.family, job.files, |job.files|))
  }

  predicate AllFound(extras: map<Marker, Item>, curated: seq<Curated>) {
    forall i | 0 <= i < |curated| :: curated[i].marker in extras
  }

  function Mapped(f: Row -> string, rows: seq<Row>): (xs: seq<string>)
    ensures |xs| == |rows| && forall i | 0 <= i < |rows| :: xs[i] == f(rows[i])
  {
    seq(|rows|, i requires 0 <= i < |rows| => f(rows[i]))
  }

  function KeysOf(rows: seq<Row>): seq<string> {
    Mapped((r: Row) => r.key, rows)
  }

  function SignaturesOf(sig: string -> string, rows: seq<Row>): seq<string> {
    Mapped((r: Row) => sig(r.question), rows)
  }

  function FamiliesOf(family: string -> string, rows: seq<Row>): seq<string> {
    Mapped((r: Row) => family(r.key), rows)
  }

  /** What the routine yields for a selection: the first check that fails, or the numbered rows. No check of the keys. */
  function Published(family: string -> string, sig: string -> string, selected: seq<Item>, target: nat)
    : Result<seq<Row>, Failure>
  {
    var rows := OutRows(Sort(selected, ByOutputOrder));
    if |selected| != target then Err(WrongCount(|selected|))
    else if HasRepeats(SignaturesOf(sig, rows)) then Err(DuplicateSignatures)
    else if HasRepeats(FamiliesOf(family, rows)) then Err(DuplicateFamilies)
    else Ok(rows)
  }

  // ----- the stages as loops

  method GroupFamilies(items: seq<Item>) returns (familyMap: Groups<string, Item>)
    ensures familyMap == GroupBy(items, FamilyKey(), |items|)
  {
    familyMap := Groups([], map[]);
    for i := 0 to |items|
      invariant familyMap == GroupBy(items, FamilyKey(), i)
    {
      familyMap := familyMap.Append(items[i].family, items[i]);
    }
  }

  method PickFirsts(g: Groups<string, Item>, families: seq<string>) returns (unique: seq<Item>)
    requires forall i | 0 <= i < |families| :: families[i] in g.members && g.members[families[i]] != []
    ensures unique == Representatives(g, families)
  {
    unique := [];
    for k := 0 to |families|
      invariant unique == Representatives(g, families)[..k]
    {
      var ordered := Sort(g.members[families[k]], ByMarker);
      unique := unique + [ordered[0]];
    }
  }

  method FamilyStage(items: seq<Item>) returns (unique: seq<Item>)
    ensures unique == UniqueItems(items)
  {
    var familyMap := GroupFamilies(items);
    var families := Sort(familyMap.keys, FamilyLeq);
    assert families == SortedFamilies(items);
    forall i | 0 <= i < |families|
      ensures families[i] in familyMap.members && familyMap.members[families[i]] != []
    {
      FamilyGroups(items, i);
    }
    unique := PickFirsts(familyMap, families);
  }

  method GroupBySignature(sig: string -> string, unique: seq<Item>) returns (signatureMap: Groups<string, Item>)
    ensures signatureMap == GroupBy(unique, SignatureKey(sig), |unique|)
  {
    signatureMap := Groups([], map[]);
    for i := 0 to |unique|
      invariant signatureMap == GroupBy(unique, SignatureKey(sig), i)
    {
      signatureMap := signatureMap.Append(sig(unique[i].row.question), unique[i]);
    }
  }

  lemma PutAllEmptyIff(extras: map<Marker, Item>, items: seq<Item>)
    ensures PutAll(extras, items, |items|) == map[] <==> extras == map[] && items == []
  {
    PutAllHolds(extras, items, |items|);
    if items != [] {
      assert items[0].marker in PutAll(extras, items, |items|);
    }
  }

  /** How many of the first n groups leave something over. */
  function LeavingOver(rests: seq<seq<Item>>, n: nat): nat
    requires n <= |rests|
  {
    if n == 0 then 0 else LeavingOver(rests, n - 1) + if rests[n - 1] != [] then 1 else 0
  }

  /** How many of the first n signatures belong to more than one representative. */
  function RepeatedTo(g: Groups<string, Item>, n: nat): nat
    requires n <= |g.keys| && forall i | 0 <= i < |g.keys| :: g.keys[i] in g.members
  {
    if n == 0 then 0 else RepeatedTo(g, n - 1) + if |g.members[g.keys[n - 1]]| > 1 then 1 else 0
  }

  lemma RestIffMore(group: seq<Item>)
    requires group != []
    ensures Rest(group) != [] <==> |group| > 1
  {
    assert |Rest(group)| == |group| - 1;
  }

  lemma {:induction false} LeavingOverIsRepeated(g: Groups<string, Item>, rests: seq<seq<Item>>, n: nat)
    requires forall i | 0 <= i < |g.keys| :: g.keys[i] in g.members
    requires |rests| == |g.keys| && n <= |g.keys|
    requires forall i | 0 <= i < |g.keys| :: rests[i] != [] <==> |g.members[g.keys[i]]| > 1
    ensures LeavingOver(rests, n) == RepeatedTo(g, n)
  {
    if n != 0 {
      LeavingOverIsRepeated(g, rests, n - 1);
    }
  }

  function RepeatedSignatures(sig: string -> string, unique: seq<Item>): nat {
    RepeatedTo(SignatureGroups(sig, unique), |SignatureGroups(sig, unique).keys|)
  }

  /** What the groups leave over becomes the extra candidates; the groups that leave something are counted. */
  method FillExtras(rests: seq<seq<Item>>) returns (extras: map<Marker, Item>, duplicateGroups: nat)
    ensures extras == ExtrasTo(rests, |rests|)
    ensures duplicateGroups == LeavingOver(rests, |rests|)
    ensures duplicateGroups == 0 <==> extras == map[]
  {
    extras, duplicateGroups := map[], 0;
    for k := 0 to |rests|
      invariant extras == ExtrasTo(rests, k)
      invariant duplicateGroups == LeavingOver(rests, k)
      invariant duplicateGroups == 0 <==> extras == map[]
    {
      PutAllEmptyIff(extras, rests[k]);
      extras := PutAll(extras, rests[k], |rests[k]|);
      if rests[k] != [] {
        duplicateGroups := duplicateGroups + 1;
      }
    }
  }

  method SignatureStage(sig: string -> string, unique: seq<Item>)
    returns (base: seq<Item>, extras: map<Marker, Item>, duplicateGroups: nat)
    ensures base == BaseItems(sig, unique) && extras == ExtraCandidates(sig, unique)
    ensures duplicateGroups == RepeatedSignatures(sig, unique)
    ensures duplicateGroups == 0 <==> extras == map[]
  {
    var signatureMap := GroupBySignature(sig, unique);
    assert signatureMap == SignatureGroups(sig, unique);
    base := PickFirsts(signatureMap, signatureMap.keys);
    extras, duplicateGroups := FillExtras(Rests(signatureMap));
    forall i | 0 <= i < |signatureMap.keys| { RestIffMore(signatureMap.members[signatureMap.keys[i]]); }
    LeavingOverIsRepeated(signatureMap, Rests(signatureMap), |signatureMap.keys|);
  }

  /** Choice i is the first whose marker is no extra candidate. */
  predicate FirstMissing(extras: map<Marker, Item>, curated: seq<Curated>, i: nat) {
    i < |curated| && curated[i].marker !in extras && AllFound(extras, curated[..i])
  }

  /** The curated choices, or the first marker that is no extra candidate. */
  method Curate(extras: map<Marker, Item>, curated: seq<Curated>) returns (chosen: Result<seq<Item>, Failure>)
    ensures AllFound(extras, curated) ==> chosen == Ok(CuratedItems(extras, curated))
    ensures !AllFound(extras, curated) ==>
              exists i: nat :: FirstMissing(extras, curated, i) && chosen == Err(MissingMarker(curated[i].marker))
  {
    var items := [];
    for i := 0 to |curated|
      invariant AllFound(extras, curated[..i]) && items == CuratedItems(extras, curated[..i])
    {
      if curated[i].marker !in extras {
        assert FirstMissing(extras, curated, i);
        return Err(MissingMarker(curated[i].marker));
      }
      items := items + [Rewritten(extras[curated[i].marker], curated[i].question)];
    }
    assert curated[..|curated|] == curated;
    chosen := Ok(items);
  }

  /** The last part of the routine. Its duplicate-key check is there, and never changes the outcome. */
  method Publish(family: string -> string, sig: string -> string, selected: seq<Item>, target: nat)
    returns (result: Result<seq<Row>, Failure>)
    ensures result == Published(family, sig, selected, target)
  {
    if |selected| != target {
      return Err(WrongCount(|selected|));
    }
    var ordered := Sort(selected, ByOutputOrder);
    var rows := OutRows(ordered);
    KeysNeverRepeat(ordered);
    if HasRepeats(KeysOf(rows)) {
      return Err(DuplicateKeys);
    }
    if HasRepeats(SignaturesOf(sig, rows)) {
      return Err(DuplicateSignatures);
    }
    if HasRepeats(FamiliesOf(family, rows)) {
      return Err(DuplicateFamilies);
    }
    result := Ok(rows);
  }

  /** The main routine. */
  method Build(job: Job) returns (result: Result<seq<Row>, Failure>)
    ensures var extras := ExtraCandidates(job.sig, Unique(job));
            if AllFound(extras, job.curated)
            then result == Published(job.family, job.sig, Selected(job.sig, Unique(job), job.curated), job.target)
            else exists i: nat :: FirstMissing(extras, job.curated, i) && result == Err(MissingMarker(job.curated[i].marker))
  {
    var unique := FamilyStage(AllItems(job.family, job.files, |job.files|));
    var base, extras, _ := SignatureStage(job.sig, unique);
    var chosen := Curate(extras, job.curated);
    if chosen.Err? {
      return Err(chosen.error);
    }
    result := Publish(job.family, job.sig, base + chosen.value, job.target);
  }

  /** The generated keys are always distinct, whatever the items, so the duplicate-key check cannot fire. */
  lemma KeysNeverRepeat(items: seq<Item>)
    ensures !HasRepeats(KeysOf(OutRows(items)))
  {
    var keys := KeysOf(OutRows(items));
    forall i, j | 0 <= i < j < |keys|
      ensures keys[i] != keys[j]
    {
      if keys[i] == keys[j] {
        OutputKeyInjective(i + 1, j + 1, items[i].family, items[j].family);
      }
    }
  }

  /** What the loaded items give every later stage: distinct markers, one family each. */
  lemma UniqueSound(job: Job)
    ensures MarkersDistinct(Unique(job)) && FamiliesDistinct(Unique(job))
  {
    var items := AllItems(job.family, job.files, |job.files|);
    LoadedMarkersDistinct(job.family, job.files, |job.files|);
    UniqueMarkersDistinct(items);
    forall i, j | 0 <= i < j < |UniqueItems(items)|
      ensures UniqueItems(items)[i].family != UniqueItems(items)[j].family
    {
      UniqueFamiliesDistinct(items, i, j);
    }
  }

  /** In every run the selected families are pairwise distinct, also after the final sort. */
  lemma OutputFamiliesDistinct(job: Job)
    requires AllFound(ExtraCandidates(job.sig, Unique(job)), job.curated) && ChoicesDistinct(job.curated)
    ensures FamiliesDistinct(Sort(Selected(job.sig, Unique(job), job.curated), ByOutputOrder))
  {
    UniqueSound(job);
    SelectedFamiliesDistinct(job.sig, Unique(job), job.curated);
    SortKeepsFamiliesDistinct(Selected(job.sig, Unique(job), job.curated));
  }

  /** Two base items never clash: a repeated signature in the selection involves a curated stem. */
  lemma SignatureClashIsCurated(job: Job, i: nat, j: nat)
    requires AllFound(ExtraCandidates(job.sig, Unique(job)), job.curated)
    requires i < j < |Selected(job.sig, Unique(job), job.curated)|
    requires job.sig(Selected(job.sig, Unique(job), job.curated)[i].row.question)
          == job.sig(Selected(job.sig, Unique(job), job.curated)[j].row.question)
    ensures |BaseItems(job.sig, Unique(job))| <= j
  {
    UniqueSound(job);
    if j < |BaseItems(job.sig, Unique(job))| {
      BaseItemAt(job.sig, Unique(job), i);
      BaseItemAt(job.sig, Unique(job), j);
    }
  }

  // ----- items carry the family of their key

  lemma {:induction false} LoadedCarryFamily(family: string -> string, files: seq<seq<Row>>, f: nat)
    requires f <= |files|
    ensures forall x | x in AllItems(family, files, f) :: x.family == family(x.row.key)
  {
    if f != 0 {
      LoadedCarryFamily(family, files, f - 1);
    }
  }

  /** Representatives are loaded items. */
  lemma UniqueAreItems(items: seq<Item>, x: Item)
    requires x in UniqueItems(items)
    ensures x in items
  {
    var i :| 0 <= i < |UniqueItems(items)| && UniqueItems(items)[i] == x;
    RepresentativeAt(items, i);
  }

  ghost predicate CarryFamily(family: string -> string, items: seq<Item>) {
    forall x | x in items :: x.family == family(x.row.key)
  }

  lemma UniqueCarryFamily(job: Job)
    ensures CarryFamily(job.family, Unique(job))
  {
    var items := AllItems(job.family, job.files, |job.files|);
    LoadedCarryFamily(job.family, job.files, |job.files|);
    forall x | x in UniqueItems(items)
      ensures x.family == job.family(x.row.key)
    {
      UniqueAreItems(items, x);
    }
  }

  lemma BaseCarryFamily(family: string -> string, sig: string -> string, unique: seq<Item>)
    requires MarkersDistinct(unique) && CarryFamily(family, unique)
    ensures CarryFamily(family, BaseItems(sig, unique))
  {
    var base := BaseItems(sig, unique);
    forall x | x in base
      ensures x.family == family(x.row.key)
    {
      var i :| 0 <= i < |base| && base[i] == x;
      BaseItemAt(sig, unique, i);
    }
  }

  /** A curated item has only its stem rewritten. */
  lemma CuratedCarryFamily(family: string -> string, extras: map<Marker, Item>, curated: seq<Curated>)
    requires AllFound(extras, curated) && forall m | m in extras :: extras[m].family == family(extras[m].row.key)
    ensures CarryFamily(family, CuratedItems(extras, curated))
  {
  }

  /** Whatever is selected carries the family of its row's key. */
  lemma SelectedCarryFamily(family: string -> string, sig: string -> string, unique: seq<Item>, curated: seq<Curated>)
    requires MarkersDistinct(unique) && CarryFamily(family, unique) && AllFound(ExtraCandidates(sig, unique), curated)
    ensures CarryFamily(family, Selected(sig, unique, curated))
  {
    var extras := ExtraCandidates(sig, unique);
    BaseCarryFamily(family, sig, unique);
    forall m | m in extras
      ensures extras[m].family == family(extras[m].row.key)
    {
      ExtraIsUnique(sig, unique, m);
    }
    CuratedCarryFamily(family, extras, curated);
  }
}
