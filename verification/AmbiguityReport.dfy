/** The ambiguity scan run over a table of cells, and what its report says about conflicting answers. */
module AmbiguityReport {
  import opened AmbiguityScan
  import opened AmbiguityText
  import opened CueStripping
  import opened FuzzyPairs
  import opened Grouping
  import opened Options
  import opened Sorting
  import opened Text

  /** A table row; `options` holds the cells of the option columns the table has. */
  datatype Row = Row(number: int, question: Cell, answer: Cell, key: Cell, options: seq<Cell>)

  /** `templates` is missing from the report of a table without a question column. */
  datatype Report<R> = Report(duplicates: seq<Finding<R>>, conflicts: seq<Finding<R>>, signatureConflicts: seq<Finding<R>>,
                              fuzzy: seq<Pair>, sameRow: seq<R>, templates: Option<seq<Finding<R>>>)

  // ----- what the report holds

  function Duplicates<R>(r: Readers<R>, rows: seq<R>): seq<Finding<R>> {
    Found(r, rows, r.question, r.question, (f: Finding<R>) => IsDuplicate(f))
  }

  function FamilyGroups<R>(r: Readers<R>, rows: seq<R>, hasKey: bool): (g: Groups<string, R>)
    ensures KeysListed(g)
  {
    if hasKey then Grouped(rows, r.family, r.family) else Groups([], map[])
  }

  function Templates<R>(r: Readers<R>, rows: seq<R>, hasKey: bool): seq<Finding<R>> {
    var fs := Findings(r.answer, FamilyGroups(r, rows, hasKey));
    Sort(Kept(fs, (f: Finding<R>) => IsTemplate(f), |fs|), (a: Finding<R>, b: Finding<R>) => LargerFirst(a, b))
  }

  function Entries<R>(r: Readers<R>, rows: seq<R>): (items: seq<Entry>)
    ensures |items| == |rows|
    ensures forall i | 0 <= i < |rows| :: items[i] == Entry(r.question(rows[i]), r.answer(rows[i]))
  {
    seq(|rows|, i requires 0 <= i < |rows| => Entry(r.question(rows[i]), r.answer(rows[i])))
  }

  function SameRow<R>(r: Readers<R>, rows: seq<R>): seq<R> {
    Kept(rows, (row: R) => HasRepeats(r.options(row)), |rows|)
  }

  function ReportOf<R>(r: Readers<R>, ratio: (string, string) -> real, rows: seq<R>, hasKey: bool): Report<R> {
    Report(Duplicates(r, rows), Conflicts(r, rows), Capped(SignatureConflicts(r, rows)),
           FuzzyPairs.Reported(Entries(r, rows), ratio), Capped(SameRow(r, rows)), Some(Templates(r, rows, hasKey)))
  }

  // ----- the scan as loops

  method GroupRows<R>(r: Readers<R>, rows: seq<R>, hasKey: bool)
    returns (questions: Groups<string, R>, signatures: Groups<string, R>, families: Groups<string, R>, sameRow: seq<R>)
    ensures questions == Grouped(rows, r.question, r.question) && signatures == Grouped(rows, r.question, r.signature)
    ensures families == FamilyGroups(r, rows, hasKey) && sameRow == SameRow(r, rows)
  {
    questions, signatures, families, sameRow := Groups([], map[]), Groups([], map[]), Groups([], map[]), [];
    for i := 0 to |rows|
      invariant questions == GroupBy(rows, KeyOf(r.question, r.question), i)
      invariant signatures == GroupBy(rows, KeyOf(r.question, r.signature), i)
      invariant families == if hasKey then GroupBy(rows, KeyOf(r.family, r.family), i) else Groups([], map[])
      invariant sameRow == Kept(rows, (row: R) => HasRepeats(r.options(row)), i)
    {
      var row := rows[i];
      var q := r.question(row);
      if q != "" {
        questions := questions.Append(q, row);
        signatures := signatures.Append(r.signature(row), row);
      }
      if hasKey {
        var family := r.family(row);
        if family != "" {
          families := families.Append(family, row);
        }
      }
      if HasRepeats(r.options(row)) {
        sameRow := sameRow + [row];
      }
    }
  }

  /** One loop over the groups of two rows and more, sorting them into those with one answer and the others. */
  method ReportQuestions<R(!new)>(fs: seq<Finding<R>>, isDuplicate: Finding<R> -> bool, isConflict: Finding<R> -> bool)
    returns (duplicates: seq<Finding<R>>, conflicts: seq<Finding<R>>)
    requires forall f :: isDuplicate(f) == IsDuplicate(f) && isConflict(f) == IsConflict(f)
    ensures duplicates == Kept(fs, isDuplicate, |fs|) && conflicts == Kept(fs, isConflict, |fs|)
  {
    duplicates, conflicts := [], [];
    for k := 0 to |fs|
      invariant duplicates == Kept(fs, isDuplicate, k) && conflicts == Kept(fs, isConflict, k)
    {
      if |fs[k].rows| < 2 {
        continue;
      }
      if |fs[k].answers| == 1 {
        duplicates := duplicates + [fs[k]];
      } else {
        conflicts := conflicts + [fs[k]];
      }
    }
  }

  method KeepWanted<F>(fs: seq<F>, want: F -> bool) returns (kept: seq<F>)
    ensures kept == Kept(fs, want, |fs|)
  {
    kept := [];
    for k := 0 to |fs|
      invariant kept == Kept(fs, want, k)
    {
      if want(fs[k]) {
        kept := kept + [fs[k]];
      }
    }
  }

  /** `scan_file`. */
  method Scan<R(!new)>(r: Readers<R>, ratio: (string, string) -> real, rows: seq<R>, hasQuestion: bool, hasKey: bool)
    returns (report: Report<R>)
    ensures hasQuestion ==> report == ReportOf(r, ratio, rows, hasKey)
    ensures !hasQuestion ==> report == Report([], [], [], [], [], None)
  {
    if !hasQuestion {
      return Report([], [], [], [], [], None);
    }
    var questions, signatures, families, sameRow := GroupRows(r, rows, hasKey);
    var duplicates, conflicts := ReportQuestions(Findings(r.answer, questions), (f: Finding<R>) => IsDuplicate(f),
                                                 (f: Finding<R>) => IsConflict(f));
    var signatureConflicts := KeepWanted(Findings(r.answer, signatures), (f: Finding<R>) => IsSignatureConflict(f));
    var templates := KeepWanted(Findings(r.answer, families), (f: Finding<R>) => IsTemplate(f));
    templates := Sort(templates, (a: Finding<R>, b: Finding<R>) => LargerFirst(a, b));
    var fuzzy := PairLoop(Entries(r, rows), ratio);
    report := Report(duplicates, conflicts, Capped(signatureConflicts), Capped(Sort(fuzzy, BetterFirst)), Capped(sameRow),
                     Some(templates));
  }

  lemma DuplicateFound<R>(r: Readers<R>, rows: seq<R>, f: Finding<R>)
    ensures f in Duplicates(r, rows) <==> IsDuplicate(f) && Gathers(r, rows, r.question, r.question, f)
  {
    FoundIff(r, rows, r.question, r.question, (x: Finding<R>) => IsDuplicate(x), f);
  }

  /** A question that occurs twice is reported, under duplicates or conflicts but not both; one that does not is not. */
  lemma RepeatedQuestionReported<R(!new)>(r: Readers<R>, rows: seq<R>, q: string)
    ensures (exists f :: f in Duplicates(r, rows) + Conflicts(r, rows) && f.key == q) <==> |RowsWith(rows, r.question, r.question, q)| >= 2
    ensures forall f, g :: f in Duplicates(r, rows) && g in Conflicts(r, rows) ==> f.key != g.key
  {
    var group := RowsWith(rows, r.question, r.question, q);
    var f := Finding(q, group, Answers(r.answer, group));
    DuplicateFound(r, rows, f);
    ConflictFound(r, rows, f);
    if f' :| f' in Duplicates(r, rows) + Conflicts(r, rows) && f'.key == q {
      DuplicateFound(r, rows, f');
      ConflictFound(r, rows, f');
    }
    forall f, g | f in Duplicates(r, rows) && g in Conflicts(r, rows)
      ensures f.key != g.key
    {
      DuplicateFound(r, rows, f);
      ConflictFound(r, rows, g);
    }
  }

  /** A key family is listed exactly when it is not empty and two rows and more have it, largest family first. */
  lemma TemplatesAre<R(!new)>(r: Readers<R>, rows: seq<R>, f: Finding<R>)
    ensures f in Templates(r, rows, true) <==> |f.rows| >= 2 && Gathers(r, rows, r.family, r.family, f)
    ensures forall i, j | 0 <= i < j < |Templates(r, rows, true)| ::
              |Templates(r, rows, true)[i].rows| >= |Templates(r, rows, true)[j].rows|
    ensures Templates(r, rows, false) == []
  {
    var fs := Findings(r.answer, FamilyGroups(r, rows, true));
    var want := (f: Finding<R>) => IsTemplate(f);
    var larger := (a: Finding<R>, b: Finding<R>) => LargerFirst(a, b);
    FindingIff(r, rows, r.family, r.family, f);
    KeptIff(fs, want, |fs|, f);
    SortIsSorted(Kept(fs, want, |fs|), larger);
  }

  /** Families of one size are listed in the order in which they first occur. */
  lemma TemplatesKeepOrder<R(!new)>(r: Readers<R>, rows: seq<R>, size: nat)
    ensures var fs := Findings(r.answer, FamilyGroups(r, rows, true));
            var large := Kept(fs, (f: Finding<R>) => IsTemplate(f), |fs|);
            Kept(Templates(r, rows, true), (f: Finding<R>) => |f.rows| == size, |large|)
            == Kept(large, (f: Finding<R>) => |f.rows| == size, |large|)
  {
    var fs := Findings(r.answer, FamilyGroups(r, rows, true));
    SortIsStable(Kept(fs, (f: Finding<R>) => IsTemplate(f), |fs|), (a: Finding<R>, b: Finding<R>) => LargerFirst(a, b),
                 (f: Finding<R>) => |f.rows| == size);
  }

  /** The rows reported on their own are those with two equal options. */
  lemma SameRowIff<R(!new)>(r: Readers<R>, rows: seq<R>, row: R)
    ensures row in SameRow(r, rows)
       <==> row in rows && exists i, j | 0 <= i < j < |r.options(row)| :: r.options(row)[i] == r.options(row)[j]
  {
    KeptIff(rows, (x: R) => HasRepeats(r.options(x)), |rows|, row);
  }

  /** Three of the lists stop at one hundred entries. */
  lemma ReportCapped<R(!new)>(r: Readers<R>, ratio: (string, string) -> real, rows: seq<R>, hasKey: bool)
    ensures var report, signatures, same := ReportOf(r, ratio, rows, hasKey), SignatureConflicts(r, rows), SameRow(r, rows);
            && report.signatureConflicts == (if |signatures| <= 100 then signatures else signatures[..100])
            && report.sameRow == (if |same| <= 100 then same else same[..100])
            && report.conflicts == Conflicts(r, rows) && report.duplicates == Duplicates(r, rows)
  {
  }

  // ----- exact conflicts are fuzzy conflicts

  /** Every pair of rows of an exact conflict with different answers is a fuzzy pair, with full score. */
  lemma ConflictPairsAreFuzzy<R(!new)>(r: Readers<R>, ratio: (string, string) -> real, rows: seq<R>, f: Finding<R>, i: nat, j: nat)
    requires forall x :: ratio(x, x) == 100.0
    requires f in Conflicts(r, rows) && i < j < |rows| && rows[i] in f.rows && rows[j] in f.rows
    requires r.answer(rows[i]) != r.answer(rows[j])
    ensures Pair(i, j, 100.0) in AllPairs(Entries(r, rows), ratio)
  {
    ConflictFound(r, rows, f);
    RowsWithAre(rows, r.question, r.question, f.key);
    EachPairOnce(Entries(r, rows), ratio, Pair(i, j, 100.0));
  }

  /** The report can only lose such a pair to one hundred pairs that score as high. */
  lemma ConflictPairDroppedOnlyBehindEquals<R(!new)>(r: Readers<R>, ratio: (string, string) -> real, rows: seq<R>,
                                                     f: Finding<R>, i: nat, j: nat, p: Pair)
    requires forall x, y :: ratio(x, x) == 100.0 && ratio(x, y) <= 100.0
    requires f in Conflicts(r, rows) && i < j < |rows| && rows[i] in f.rows && rows[j] in f.rows
    requires r.answer(rows[i]) != r.answer(rows[j])
    requires Pair(i, j, 100.0) !in ReportOf(r, ratio, rows, true).fuzzy && p in ReportOf(r, ratio, rows, true).fuzzy
    ensures p.score >= 100.0 && |ReportOf(r, ratio, rows, true).fuzzy| == 100
  {
    var items := Entries(r, rows);
    ConflictPairsAreFuzzy(r, ratio, rows, f, i, j);
    EachPairOnce(items, ratio, Pair(i, j, 100.0));
    CapKeepsBest(items, ratio, p, Pair(i, j, 100.0));
  }

  // ----- exact conflicts within signature conflicts, for a table of cells

  function CellReaders(cues: Cues): Readers<Row> {
    Readers((row: Row) => Norm(row.question), (row: Row) => Norm(row.answer),
            (row: Row) => QuestionSignature(cues, OrEmpty(row.question)), (row: Row) => ScanFamily(row.key),
            (row: Row) => seq(|row.options|, i requires 0 <= i < |row.options| => Norm(row.options[i])))
  }

  /** For a table of cells: the rows of a family are those whose key loses its tags down to it. */
  lemma CellTemplatesAre(cues: Cues, rows: seq<Row>, f: Finding<Row>)
    requires f in Templates(CellReaders(cues), rows, true)
    ensures |f.rows| >= 2 && f.key != "" && forall x :: x in f.rows <==> x in rows && ScanFamily(x.key) == f.key
    ensures forall a :: a in f.answers <==> exists x :: x in f.rows && Norm(x.answer) == a
  {
    var r := CellReaders(cues);
    TemplatesAre(r, rows, f);
    RowsWithAre(rows, r.family, r.family, f.key);
    assert f.rows[0] in f.rows;
    CellAnswersAre(cues, f.rows);
  }

  lemma CellAnswersAre(cues: Cues, rows: seq<Row>)
    ensures forall a :: a in Answers(CellReaders(cues).answer, rows) <==> exists x :: x in rows && Norm(x.answer) == a
  {
    var answer := CellReaders(cues).answer;
    AnswersAre(answer, rows);
    forall a
      ensures a in Answers(answer, rows) <==> exists x :: x in rows && Norm(x.answer) == a
    {
      if x :| x in rows && Norm(x.answer) == a {
        var i :| 0 <= i < |rows| && rows[i] == x;
        assert answer(rows[i]) == a;
      }
      if a in Answers(answer, rows) {
        var i :| 0 <= i < |rows| && answer(rows[i]) == a;
        assert rows[i] in rows && Norm(rows[i].answer) == a;
      }
    }
  }

  /** And a row is reported on its own when two of its option cells have one normal form. */
  lemma CellSameRowIff(cues: Cues, rows: seq<Row>, row: Row)
    ensures row in SameRow(CellReaders(cues), rows)
       <==> row in rows && exists i, j | 0 <= i < j < |row.options| :: Norm(row.options[i]) == Norm(row.options[j])
  {
    SameRowIff(CellReaders(cues), rows, row);
    var options := CellReaders(cues).options(row);
    assert |options| == |row.options| && forall i | 0 <= i < |options| :: options[i] == Norm(row.options[i]);
    if i, j :| 0 <= i < j < |row.options| && Norm(row.options[i]) == Norm(row.options[j]) {
      assert options[i] == options[j];
    }
  }

  /** A question cell is in conflict when two rows have its normal form and answers of different normal forms. */
  lemma CellConflictIff(cues: Cues, rows: seq<Row>, q: string)
    ensures (exists f :: f in Conflicts(CellReaders(cues), rows) && f.key == q)
       <==> q != "" && exists x, y :: x in rows && y in rows && Norm(x.question) == Norm(y.question) == q && Norm(x.answer) != Norm(y.answer)
  {
    var r := CellReaders(cues);
    ConflictIff(r, rows, q);
    if x, y :| x in rows && y in rows && Norm(x.question) == Norm(y.question) == q != "" && Norm(x.answer) != Norm(y.answer) {
      assert r.question(x) == r.question(y) == q && r.answer(x) != r.answer(y);
      assert Contradicted(r, rows, r.question, r.question, q);
    }
  }

  /** The signature behind a normalized question. */
  function SignatureOf(cues: Cues, question: string): string {
    Bare(StripCues(cues, question))
  }

  /** The signature of a row depends on its normalized question only, unless the question cell is falsy. */
  lemma SignatureOfRow(cues: Cues, row: Row)
    ensures CellReaders(cues).signature(row)
         == if Falsy(row.question) then "" else SignatureOf(cues, CellReaders(cues).question(row))
  {
    EmptySignature(cues);
    NormalizeEmpty();
  }

  /** All rows of a conflict have its key for a question, so their signatures are that key's, or empty. */
  lemma SignatureInConflict(cues: Cues, rows: seq<Row>, f: Finding<Row>, x: Row)
    requires f in Conflicts(CellReaders(cues), rows) && x in f.rows
    ensures CellReaders(cues).signature(x) == if Falsy(x.question) then "" else SignatureOf(cues, f.key)
  {
    var r := CellReaders(cues);
    ConflictFound(r, rows, f);
    RowsWithAre(rows, r.question, r.question, f.key);
    SignatureOfRow(cues, x);
  }

  lemma SharedIff(r: Readers<Row>, f: Finding<Row>, sig: string)
    requires f.rows != [] && forall x | x in f.rows :: r.signature(x) == if Falsy(x.question) then "" else sig
    ensures (exists k :: k != "" && ShareSignature(r, f, k)) <==> sig != "" && forall x | x in f.rows :: !Falsy(x.question)
  {
    assert f.rows[0] in f.rows;
    if sig != "" && forall x | x in f.rows :: !Falsy(x.question) {
      assert ShareSignature(r, f, sig);
    }
  }

  /**
   An exact conflict lies within one signature conflict exactly when its question has a non-empty signature and none of its
   question cells is a falsy value (for those the signature is taken of the empty text).
   */
  lemma ConflictWithinSignatureIff(cues: Cues, rows: seq<Row>, f: Finding<Row>)
    requires f in Conflicts(CellReaders(cues), rows)
    ensures (exists s :: s in SignatureConflicts(CellReaders(cues), rows) && Within(f, s))
       <==> SignatureOf(cues, f.key) != "" && forall x | x in f.rows :: !Falsy(x.question)
  {
    var r := CellReaders(cues);
    ConflictFound(r, rows, f);
    ConflictWithinIff(r, rows, f);
    forall x | x in f.rows
      ensures r.signature(x) == if Falsy(x.question) then "" else SignatureOf(cues, f.key)
    {
      SignatureInConflict(cues, rows, f, x);
    }
    SharedIff(r, f, SignatureOf(cues, f.key));
  }

  /** An exact conflict on this question that no signature conflict contains. */
  ghost predicate Escapes(cues: Cues, rows: seq<Row>, question: string) {
    var r := CellReaders(cues);
    exists f :: f in Conflicts(r, rows) && f.key == question && !exists s :: s in SignatureConflicts(r, rows) && Within(f, s)
  }

  /** A falsy question cell that clashes with another row's question escapes: no signature conflict contains that conflict. */
  lemma FalsyQuestionEscapes(cues: Cues, rows: seq<Row>, x: Row, y: Row)
    requires x in rows && y in rows && Falsy(x.question)
    requires Norm(x.question) == Norm(y.question) != "" && Norm(x.answer) != Norm(y.answer)
    ensures Escapes(cues, rows, Norm(x.question))
  {
    var r, q := CellReaders(cues), Norm(x.question);
    assert r.question(x) == r.question(y) == q && r.answer(x) != r.answer(y);
    assert Contradicted(r, rows, r.question, r.question, q);
    ConflictIff(r, rows, q);
    var f :| f in Conflicts(r, rows) && f.key == q;
    ConflictFound(r, rows, f);
    RowsWithAre(rows, r.question, r.question, q);
    ConflictWithinSignatureIff(cues, rows, f);
  }

  lemma ZeroIsNormal()
    ensures IsNormal("0") && Normalize("0") == "0"
  {
    NormalFixed("0");
  }

  lemma ZeroIsBare()
    ensures Bare("0") == "0"
  {
    assert RemoveParens("0", 0) == "0" && DropQuotes("0", 0) == "0" && Collapse("0") == "0";
    StripTrimmed("0");
  }

  /** The number 0 and the text 0 are such a pair of question cells, though the question 0 has a signature of its own. */
  lemma ZeroCells(cues: Cues)
    requires forall k | 0 <= k < |cues| :: |cues[k]| > 1
    ensures Falsy(Value("0", false)) && Norm(Value("0", false)) == Norm(Written("0")) == "0"
    ensures SignatureOf(cues, "0") == "0"
  {
    ZeroIsNormal();
    ZeroIsBare();
    StripCuesSettles(cues, "0");
  }

  /** Two rows that ask 0, once as a number, with and without an answer. */
  function ZeroTable(): seq<Row> {
    [Row(2, Value("0", false), Written("0"), Blank, []), Row(3, Written("0"), Blank, Blank, [])]
  }

  /** The conflict of that table escapes, whatever the cues, as long as none is a single character. */
  lemma ZeroEscapes(cues: Cues)
    requires forall k | 0 <= k < |cues| :: |cues[k]| > 1
    ensures Escapes(cues, ZeroTable(), "0") && SignatureOf(cues, "0") != ""
  {
    var x, y := Row(2, Value("0", false), Written("0"), Blank, []), Row(3, Written("0"), Blank, Blank, []);
    ZeroCells(cues);
    InPair(x, y);
    FalsyQuestionEscapes(cues, [x, y], x, y);
  }

  lemma InPair<T>(x: T, y: T)
    ensures x in [x, y] && y in [x, y]
  {
    assert [x, y][0] == x && [x, y][1] == y;
  }
}
