/** What the bank builder's output is, column by column: which rows are loaded, cut, rewritten, ordered and numbered how. */
module BankLaws {
  import opened BankBuilder
  import opened BankOutput
  import opened Decimal
  import opened Grouping
  import opened Options
  import opened Sorting
  import opened Text

  // ----- loading

  /** The loaded items are the rows of the files, the first of each file being its line 2. */
  lemma {:induction false} LoadedIff(family: string -> string, files: seq<seq<Row>>, n: nat, x: Item)
    requires n <= |files|
    ensures x in AllItems(family, files, n)
       <==> exists f: nat, i: nat | f < n && i < |files[f]| :: x == Item(Marker(f, i + 2), files[f][i], family(files[f][i].key))
  {
    if n != 0 {
      LoadedIff(family, files, n - 1, x);
      var last := ItemsOf(family, files[n - 1], n - 1);
      if x in last {
        var i :| 0 <= i < |last| && last[i] == x;
      }
      if f: nat, i: nat :| f < n && i < |files[f]| && x == Item(Marker(f, i + 2), files[f][i], family(files[f][i].key)) {
        assert f == n - 1 ==> last[i] == x;
      }
    }
  }

  // ----- key families

  ghost predicate Number(d: string) {
    d != "" && AllDigits(d)
  }

  ghost predicate Tagged(s: string, base: string, joiner: string, d: string) {
    s == base + joiner + d && Number(d)
  }

  lemma DigitsFromTag(s: string, base: string, joiner: string, d: string)
    requires Tagged(s, base, joiner, d) && joiner != "" && !IsDigit(joiner[|joiner| - 1])
    ensures DigitsFrom(s, |s|) == |base| + |joiner|
  {
    var m := |base| + |joiner|;
    assert s[m - 1] == joiner[|joiner| - 1];
    assert forall i | 0 <= i < |d| :: s[m + i] == d[i];
  }

  /** A number joined by an underscore or a hyphen is cut off, and so is a version. */
  lemma TagsComeOff(base: string, d: string)
    requires Number(d)
    ensures DropNumber(base + "_" + d) == base && DropNumber(base + "-" + d) == base
    ensures DropVersion(base + "_v" + d) == base && DropVersion(base + "-v" + d) == base
  {
    NumberComesOff(base, "_", d);
    NumberComesOff(base, "-", d);
    VersionComesOff(base, "_v", d);
    VersionComesOff(base, "-v", d);
  }

  lemma NumberComesOff(base: string, joiner: string, d: string)
    requires Number(d) && (joiner == "_" || joiner == "-")
    ensures DropNumber(base + joiner + d) == base
  {
    var s := base + joiner + d;
    DigitsFromTag(s, base, joiner, d);
    assert s[|base|] == joiner[0];
  }

  lemma VersionComesOff(base: string, joiner: string, d: string)
    requires Number(d) && (joiner == "_v" || joiner == "-v")
    ensures DropVersion(base + joiner + d) == base
  {
    var s := base + joiner + d;
    DigitsFromTag(s, base, joiner, d);
    assert s[|base|] == joiner[0] && s[|base| + 1] == joiner[1];
  }

  /** Nothing else is cut off. */
  lemma OnlyTagsComeOff(s: string)
    ensures DropNumber(s) != s ==> exists d :: Tagged(s, DropNumber(s), "_", d) || Tagged(s, DropNumber(s), "-", d)
    ensures DropVersion(s) != s ==> exists d :: Tagged(s, DropVersion(s), "_v", d) || Tagged(s, DropVersion(s), "-v", d)
  {
    var k := DigitsFrom(s, |s|);
    var d := s[k..];
    if DropNumber(s) != s {
      assert s == s[..k - 1] + [s[k - 1]] + d;
      assert Tagged(s, DropNumber(s), [s[k - 1]], d);
    }
    if DropVersion(s) != s {
      assert s == s[..k - 2] + [s[k - 2], s[k - 1]] + d;
      assert Tagged(s, DropVersion(s), [s[k - 2], s[k - 1]], d);
    }
  }

  // ----- the curated choice

  /** A curated item is the extra candidate chosen, with the new stem and nothing else changed. */
  lemma CuratedIs(sig: string -> string, unique: seq<Item>, curated: seq<Curated>, i: nat) returns (x: Item)
    requires MarkersDistinct(unique) && AllFound(ExtraCandidates(sig, unique), curated) && i < |curated|
    ensures x in unique && x !in BaseItems(sig, unique) && x.marker == curated[i].marker
    ensures var y := Selected(sig, unique, curated)[|BaseItems(sig, unique)| + i];
            && y.marker == x.marker && y.family == x.family && y.row.question == curated[i].question
            && y.row.key == x.row.key && y.row.quizId == x.row.quizId && y.row.level == x.row.level && y.row.category == x.row.category
  {
    x := ExtraCandidates(sig, unique)[curated[i].marker];
    ExtraIsUnique(sig, unique, curated[i].marker);
    StagesPartition(sig, unique, x);
  }

  // ----- the order of the output

  /** Level, category, source file and line, compared in this order. */
  ghost predicate ComesFirst(a: Item, b: Item) {
    var la, lb := Strip(a.row.level), Strip(b.row.level);
    var ca, cb := Strip(a.row.category), Strip(b.row.category);
    || SortsBefore(la, lb)
    || (la == lb && SortsBefore(ca, cb))
    || (la == lb && ca == cb && a.marker.source < b.marker.source)
    || (la == lb && ca == cb && a.marker.source == b.marker.source && a.marker.rowNum <= b.marker.rowNum)
  }

  lemma OutputOrderIff(a: Item, b: Item)
    ensures ByOutputOrder(a, b) <==> ComesFirst(a, b)
  {
    StringLeqIff(Strip(a.row.level), Strip(b.row.level));
    StringLeqIff(Strip(a.row.category), Strip(b.row.category));
  }

  lemma OutputOrderAt(a: Item, b: Item, c: Item)
    ensures ByOutputOrder(a, b) || ByOutputOrder(b, a)
    ensures ByOutputOrder(a, b) && ByOutputOrder(b, c) ==> ByOutputOrder(a, c)
  {
    StringOrder(Strip(a.row.level), Strip(b.row.level), Strip(c.row.level));
    StringOrder(Strip(b.row.level), Strip(c.row.level), Strip(a.row.level));
    StringOrder(Strip(a.row.category), Strip(b.row.category), Strip(c.row.category));
    StringOrder(Strip(b.row.category), Strip(c.row.category), Strip(a.row.category));
  }

  lemma OutputOrderTotal()
    ensures TotalPreorder(ByOutputOrder)
  {
    forall a, b, c
      ensures ByOutputOrder(a, b) || ByOutputOrder(b, a)
      ensures ByOutputOrder(a, b) && ByOutputOrder(b, c) ==> ByOutputOrder(a, c)
    {
      OutputOrderAt(a, b, c);
    }
  }

  /** The families are taken in the order of texts. */
  lemma FamiliesInOrder(items: seq<Item>, i: nat, j: nat)
    requires i < j < |SortedFamilies(items)|
    ensures SortsBefore(SortedFamilies(items)[i], SortedFamilies(items)[j])
  {
    forall a, b, c
      ensures FamilyLeq(a, b) || FamilyLeq(b, a)
      ensures FamilyLeq(a, b) && FamilyLeq(b, c) ==> FamilyLeq(a, c)
    {
      StringOrder(a, b, c);
    }
    SortIsSorted(GroupBy(items, FamilyKey(), |items|).keys, FamilyLeq);
    StringLeqIff(SortedFamilies(items)[i], SortedFamilies(items)[j]);
  }

  // ----- the rows written

  /** The rows are the items in output order, numbered from 1 in the quiz id and the key, with their other columns as they were. */
  ghost predicate Numbered(items: seq<Item>, rows: seq<Row>) {
    && |rows| == |items|
    && (forall i, j | 0 <= i < j < |items| :: ComesFirst(items[i], items[j]))
    && (forall i | 0 <= i < |items| ::
          && rows[i].quizId == "logik500_" + Padded(i + 1, 4)
          && rows[i].key == "logik500_" + Padded(i + 1, 4) + "_" + items[i].family
          && rows[i].question == items[i].row.question && rows[i].level == items[i].row.level
          && rows[i].category == items[i].row.category)
  }

  lemma OutRowsNumbered(items: seq<Item>)
    ensures Numbered(Sort(items, ByOutputOrder), OutRows(Sort(items, ByOutputOrder)))
  {
    OutputOrderTotal();
    SortIsSorted(items, ByOutputOrder);
    var ordered := Sort(items, ByOutputOrder);
    forall i, j | 0 <= i < j < |ordered|
      ensures ComesFirst(ordered[i], ordered[j])
    {
      OutputOrderIff(ordered[i], ordered[j]);
    }
  }

  /** No two items have the same question signature. */
  ghost predicate SignaturesDiffer(sig: string -> string, items: seq<Item>) {
    forall i, j | 0 <= i < j < |items| :: sig(items[i].row.question) != sig(items[j].row.question)
  }

  /** Reordering items makes no two of them clash. */
  lemma PermutedDiffer(sig: string -> string, xs: seq<Item>, ys: seq<Item>)
    requires multiset(xs) == multiset(ys) && SignaturesDiffer(sig, xs)
    ensures SignaturesDiffer(sig, ys)
  {
    forall i, j | 0 <= i < j < |ys|
      ensures sig(ys[i].row.question) != sig(ys[j].row.question)
    {
      assert ys[i] in multiset(xs) && ys[j] in multiset(xs);
      var k :| 0 <= k < |xs| && xs[k] == ys[i];
      var m :| 0 <= m < |xs| && xs[m] == ys[j];
      CountIfTwice(ys, i, j);
      CountIfDistinct(xs, |xs|, ys[i]);
      assert xs[..|xs|] == xs;
      assert k < m || m < k;
    }
  }

  lemma RepeatsIffClash(sig: string -> string, items: seq<Item>)
    ensures HasRepeats(SignaturesOf(sig, OutRows(Sort(items, ByOutputOrder)))) <==> !SignaturesDiffer(sig, items)
  {
    var ordered := Sort(items, ByOutputOrder);
    var signatures := SignaturesOf(sig, OutRows(ordered));
    assert forall i | 0 <= i < |ordered| :: signatures[i] == sig(ordered[i].row.question);
    if SignaturesDiffer(sig, items) {
      PermutedDiffer(sig, items, ordered);
    } else if !HasRepeats(signatures) {
      assert SignaturesDiffer(sig, ordered) by {
        forall i, j | 0 <= i < j < |ordered|
          ensures sig(ordered[i].row.question) != sig(ordered[j].row.question)
        {
          assert signatures[i] != signatures[j];
        }
      }
      PermutedDiffer(sig, ordered, items);
    }
  }

  /**
   What the last part of the routine ends with: the wrong count, a clash of two selected questions, a clash of two families of
   the keys written, or else the numbered rows.
   */
  lemma PublishedIs(family: string -> string, sig: string -> string, selected: seq<Item>, target: nat) returns (items: seq<Item>, rows: seq<Row>)
    ensures multiset(items) == multiset(selected) && Numbered(items, rows)
    ensures Published(family, sig, selected, target)
         == if |selected| != target then Err(WrongCount(|selected|))
            else if !SignaturesDiffer(sig, selected) then Err(DuplicateSignatures)
            else if exists i, j | 0 <= i < j < |rows| :: family(rows[i].key) == family(rows[j].key) then Err(DuplicateFamilies)
            else Ok(rows)
  {
    items := Sort(selected, ByOutputOrder);
    rows := OutRows(items);
    OutRowsNumbered(selected);
    RepeatsIffClash(sig, selected);
    FamiliesClashIff(family, rows);
  }

  lemma FamiliesClashIff(family: string -> string, rows: seq<Row>)
    ensures HasRepeats(FamiliesOf(family, rows)) <==> exists i, j | 0 <= i < j < |rows| :: family(rows[i].key) == family(rows[j].key)
  {
    var families := FamiliesOf(family, rows);
    if i, j :| 0 <= i < j < |rows| && family(rows[i].key) == family(rows[j].key) {
      assert families[i] == families[j];
    }
  }
}
