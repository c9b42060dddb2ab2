/** What a finished import has done: which inputs it accepts, what it has recorded, and that its counts add up. */
module ImportSound {
  import opened Folding
  import opened ImportRun
  import opened Options
  import opened QuizImport
  import opened Sorting

  import QuizAudit

  /** What a row check decides: whether the row is sound by itself, its id, and its record. */
  datatype Check = Check(sound: Row -> bool, id: Row -> string, record: (string, string, Row) -> Record)

  /** The importer's row check accepts exactly the sound rows with new ids, and records them as given. */
  ghost predicate Implements(imp: Importer, c: Check) {
    forall file, mode, row, seen ::
      var r := imp.check(file, mode, row, seen);
      && (r.Ok? <==> c.sound(row) && c.id(row) !in seen)
      && (r.Ok? ==> r.value == c.record(file, mode, row) && r.value.id == c.id(row) && r.value.mode == mode)
  }

  /** A ready row and where it comes from. */
  datatype Line = Line(file: string, mode: string, row: Row)

  /** The ready rows among the first i of a file. */
  function ReadyLines(imp: Importer, file: SourceFile, mode: string, i: nat): seq<Line>
    requires i <= |file.rows|
  {
    if i == 0 then []
    else ReadyLines(imp, file, mode, i - 1) + if imp.ready(file.rows[i - 1]) then [Line(file.name, mode, file.rows[i - 1])] else []
  }

  /** The file is read at all. */
  predicate Taken(imp: Importer, file: SourceFile) {
    !imp.skip(file.name) && imp.mode(file.name).Some?
  }

  /** The file itself raises no error. */
  predicate FileFine(imp: Importer, file: SourceFile) {
    imp.skip(file.name) || if imp.mode(file.name).Some? then file.complete else imp.allowUnmapped
  }

  predicate FilesFine(imp: Importer, files: seq<SourceFile>, f: nat)
    requires f <= |files|
  {
    forall g | 0 <= g < f :: FileFine(imp, files[g])
  }

  /** The ready rows of one file, if it is read. */
  function LinesOf(imp: Importer, file: SourceFile): seq<Line> {
    if Taken(imp, file) then ReadyLines(imp, file, imp.mode(file.name).value, |file.rows|) else []
  }

  /** The ready rows of the first f files, in reading order. */
  function LinesTo(imp: Importer, files: seq<SourceFile>, f: nat): seq<Line>
    requires f <= |files|
  {
    if f == 0 then []
    else LinesTo(imp, files, f - 1) + LinesOf(imp, files[f - 1])
  }

  /** All lines are sound and no two have the same id. */
  ghost predicate Good(c: Check, lines: seq<Line>) {
    && (forall k | 0 <= k < |lines| :: c.sound(lines[k].row))
    && (forall j, k | 0 <= j < k < |lines| :: c.id(lines[j].row) != c.id(lines[k].row))
  }

  function Records(c: Check, lines: seq<Line>): (records: seq<Record>)
    ensures |records| == |lines|
    ensures forall k | 0 <= k < |lines| :: records[k] == c.record(lines[k].file, lines[k].mode, lines[k].row)
  {
    seq(|lines|, k requires 0 <= k < |lines| => c.record(lines[k].file, lines[k].mode, lines[k].row))
  }

  /** The tally after exactly these lines. */
  ghost predicate Tallied(c: Check, t: Tally, lines: seq<Line>) {
    && Good(c, lines) && t.records == Records(c, lines)
    && (forall x :: x in t.seen <==> exists k | 0 <= k < |lines| :: c.id(lines[k].row) == x)
    && (forall k | 0 <= k < |lines| :: t.records[k].id == c.id(lines[k].row) && t.records[k].mode == lines[k].mode)
  }

  lemma OneMore(imp: Importer, c: Check, file: SourceFile, mode: string, i: nat, t: Tally, lines: seq<Line>)
    requires Implements(imp, c) && i < |file.rows| && Tallied(c, t, lines) && imp.ready(file.rows[i])
    ensures var r, more := AfterRow(imp, file, mode, i, t), lines + [Line(file.name, mode, file.rows[i])];
            (r.Ok? <==> Good(c, more)) && (r.Ok? ==> Tallied(c, r.value, more))
  {
    var row := file.rows[i];
    var r := imp.check(file.name, mode, row, t.seen);
    assert r.Ok? <==> c.sound(row) && c.id(row) !in t.seen;
    var more := lines + [Line(file.name, mode, row)];
    assert more[|lines|].row == row;
    GoodMore(c, lines, more[|lines|]);
    if r.Ok? {
      SeenMore(c, t.seen, lines, more[|lines|]);
    }
  }

  lemma GoodMore(c: Check, lines: seq<Line>, line: Line)
    requires Good(c, lines)
    ensures Good(c, lines + [line]) <==> c.sound(line.row) && forall k | 0 <= k < |lines| :: c.id(lines[k].row) != c.id(line.row)
  {
    var more := lines + [line];
    assert more[|lines|] == line;
    assert forall k | 0 <= k < |lines| :: more[k] == lines[k];
  }

  lemma SeenMore(c: Check, seen: set<string>, lines: seq<Line>, line: Line)
    requires forall x :: x in seen <==> exists k | 0 <= k < |lines| :: c.id(lines[k].row) == x
    ensures var more := lines + [line];
            forall x :: x in seen + {c.id(line.row)} <==> exists k | 0 <= k < |more| :: c.id(more[k].row) == x
  {
    var more := lines + [line];
    assert more[|lines|] == line;
    assert forall k | 0 <= k < |lines| :: more[k] == lines[k];
  }

  lemma GoodPrefix(c: Check, lines: seq<Line>, more: seq<Line>)
    requires Good(c, lines + more)
    ensures Good(c, lines)
  {
    assert forall k | 0 <= k < |lines| :: (lines + more)[k] == lines[k];
  }

  /** A reading succeeds exactly when its lines are good and its files are fine, and has then tallied those lines. */
  ghost predicate Outcome(c: Check, r: Result<Tally, ImportError>, lines: seq<Line>, fine: bool) {
    (r.Ok? <==> Good(c, lines) && fine) && (r.Ok? ==> Tallied(c, r.value, lines))
  }

  /** An error before stays an error; otherwise the next outcome decides. */
  lemma Chained(c: Check, before: Result<Tally, ImportError>, after: Result<Tally, ImportError>, lines: seq<Line>, more: seq<Line>,
                fine: bool, alsoFine: bool)
    requires Outcome(c, before, lines, fine) && (before.Err? ==> after.Err?)
    requires before.Ok? ==> Outcome(c, after, lines + more, alsoFine)
    ensures Outcome(c, after, lines + more, fine && alsoFine)
  {
    if before.Err? && Good(c, lines + more) {
      GoodPrefix(c, lines, more);
    }
  }

  lemma RowOutcome(imp: Importer, c: Check, file: SourceFile, mode: string, i: nat, t: Tally, lines: seq<Line>)
    requires Implements(imp, c) && i < |file.rows| && Tallied(c, t, lines)
    ensures var more := if imp.ready(file.rows[i]) then [Line(file.name, mode, file.rows[i])] else [];
            Outcome(c, AfterRow(imp, file, mode, i, t), lines + more, true)
  {
    if imp.ready(file.rows[i]) {
      OneMore(imp, c, file, mode, i, t, lines);
    } else {
      assert lines + [] == lines;
    }
  }

  lemma {:induction false} RowsOutcome(imp: Importer, c: Check, file: SourceFile, mode: string, i: nat, t: Tally, lines: seq<Line>)
    requires Implements(imp, c) && i <= |file.rows| && Tallied(c, t, lines)
    ensures Outcome(c, FoldTo(RowStep(imp, file, mode), i, t), lines + ReadyLines(imp, file, mode, i), true)
  {
    if i == 0 {
      assert lines + [] == lines;
    } else {
      RowsOutcome(imp, c, file, mode, i - 1, t, lines);
      var before, ready := FoldTo(RowStep(imp, file, mode), i - 1, t), ReadyLines(imp, file, mode, i - 1);
      var more := if imp.ready(file.rows[i - 1]) then [Line(file.name, mode, file.rows[i - 1])] else [];
      assert lines + (ready + more) == (lines + ready) + more;
      if before.Ok? {
        RowOutcome(imp, c, file, mode, i - 1, before.value, lines + ready);
      }
      Chained(c, before, FoldTo(RowStep(imp, file, mode), i, t), lines + ready, more, true, true);
    }
  }

  lemma FileOutcome(imp: Importer, c: Check, file: SourceFile, t: Tally, lines: seq<Line>)
    requires Implements(imp, c) && Tallied(c, t, lines)
    ensures Outcome(c, AfterFile(imp, file, t), lines + LinesOf(imp, file), FileFine(imp, file))
  {
    assert lines + [] == lines;
    if Taken(imp, file) && file.complete {
      RowsOutcome(imp, c, file, imp.mode(file.name).value, |file.rows|, t.(read := t.read + |file.rows|), lines);
    }
  }

  lemma {:induction false} FilesOutcome(imp: Importer, c: Check, files: seq<SourceFile>, f: nat)
    requires Implements(imp, c) && f <= |files|
    ensures Outcome(c, FoldTo(FileStep(imp, files), f, NOTHING_READ), LinesTo(imp, files, f), FilesFine(imp, files, f))
  {
    if f != 0 {
      FilesOutcome(imp, c, files, f - 1);
      var before, lines, file := FoldTo(FileStep(imp, files), f - 1, NOTHING_READ), LinesTo(imp, files, f - 1), files[f - 1];
      if before.Ok? {
        FileOutcome(imp, c, file, before.value, lines);
      }
      Chained(c, before, FoldTo(FileStep(imp, files), f, NOTHING_READ), lines, LinesOf(imp, file),
              FilesFine(imp, files, f - 1), FileFine(imp, file));
    }
  }

  /**
   The import succeeds exactly when every file is fine, every ready row is sound and no two ready rows have the same id; it
   then records the ready rows in reading order, each once, under distinct ids.
   */
  lemma ImportSucceedsIff(imp: Importer, c: Check, files: seq<SourceFile>)
    requires Implements(imp, c)
    ensures var r, lines := Imported(imp, files), LinesTo(imp, files, |files|);
            && (r.Ok? <==> Good(c, lines) && FilesFine(imp, files, |files|))
            && (r.Ok? ==> r.value.records == Records(c, lines)
                          && forall j, k | 0 <= j < k < |r.value.records| :: r.value.records[j].id != r.value.records[k].id)
  {
    FilesOutcome(imp, c, files, |files|);
  }

  // ----- where a failed import ends

  /** The file raises this error before any of its rows is read. */
  predicate FileFails(imp: Importer, file: SourceFile, e: ImportError) {
    && !imp.skip(file.name)
    && if imp.mode(file.name).None? then !imp.allowUnmapped && e == Unmapped(file.name)
       else !file.complete && e == MissingColumns(file.name)
  }

  /** The ids of these lines. */
  ghost predicate IdsOf(c: Check, seen: set<string>, lines: seq<Line>) {
    forall x :: x in seen <==> exists k | 0 <= k < |lines| :: c.id(lines[k].row) == x
  }

  /** The i-th row of the file, which is its line i + 2, is refused with this error, all earlier ready rows being in order. */
  ghost predicate RowFails(imp: Importer, c: Check, file: SourceFile, i: nat, earlier: seq<Line>, e: ImportError) {
    && Taken(imp, file) && file.complete && i < |file.rows| && imp.ready(file.rows[i])
    && var mode := imp.mode(file.name).value;
       var lines := earlier + ReadyLines(imp, file, mode, i);
       && Good(c, lines)
       && exists seen, fault | IdsOf(c, seen, lines) ::
            imp.check(file.name, mode, file.rows[i], seen) == Err(fault) && e == BadRow(file.name, i + 2, fault)
  }

  ghost predicate RowsFail(imp: Importer, c: Check, file: SourceFile, earlier: seq<Line>, e: ImportError) {
    exists i: nat :: RowFails(imp, c, file, i, earlier, e)
  }

  /** All files before file f are read without an error, and that file is where the import ends. */
  ghost predicate EndsIn(imp: Importer, c: Check, files: seq<SourceFile>, f: nat, e: ImportError) {
    && f < |files| && FilesFine(imp, files, f) && Good(c, LinesTo(imp, files, f))
    && (FileFails(imp, files[f], e) || RowsFail(imp, c, files[f], LinesTo(imp, files, f), e))
  }

  lemma {:induction false} RowsFirstError(imp: Importer, c: Check, file: SourceFile, i: nat, t: Tally, lines: seq<Line>)
    requires Implements(imp, c) && i <= |file.rows| && Tallied(c, t, lines) && Taken(imp, file) && file.complete
    ensures var r := FoldTo(RowStep(imp, file, imp.mode(file.name).value), i, t);
            r.Err? ==> RowsFail(imp, c, file, lines, r.error)
  {
    if i != 0 {
      var mode := imp.mode(file.name).value;
      var before := FoldTo(RowStep(imp, file, mode), i - 1, t);
      RowsFirstError(imp, c, file, i - 1, t, lines);
      RowsOutcome(imp, c, file, mode, i - 1, t, lines);
      if before.Ok? && AfterRow(imp, file, mode, i - 1, before.value).Err? {
        assert IdsOf(c, before.value.seen, lines + ReadyLines(imp, file, mode, i - 1));
        assert RowFails(imp, c, file, i - 1, lines, AfterRow(imp, file, mode, i - 1, before.value).error);
      }
    }
  }

  lemma FileFirstError(imp: Importer, c: Check, file: SourceFile, t: Tally, lines: seq<Line>)
    requires Implements(imp, c) && Tallied(c, t, lines)
    ensures var r := AfterFile(imp, file, t); r.Err? ==> FileFails(imp, file, r.error) || RowsFail(imp, c, file, lines, r.error)
  {
    if Taken(imp, file) && file.complete {
      RowsFirstError(imp, c, file, |file.rows|, t.(read := t.read + |file.rows|), lines);
    }
  }

  /** A failed import ends at the first thing wrong: everything read before it was in order, and the error names its place. */
  lemma {:induction false} FirstError(imp: Importer, c: Check, files: seq<SourceFile>, n: nat)
    requires Implements(imp, c) && n <= |files|
    ensures var r := FoldTo(FileStep(imp, files), n, NOTHING_READ);
            r.Err? ==> exists f: nat :: EndsIn(imp, c, files, f, r.error)
  {
    if n != 0 {
      FirstError(imp, c, files, n - 1);
      FilesOutcome(imp, c, files, n - 1);
      var before := FoldTo(FileStep(imp, files), n - 1, NOTHING_READ);
      if before.Ok? && AfterFile(imp, files[n - 1], before.value).Err? {
        FileFirstError(imp, c, files[n - 1], before.value, LinesTo(imp, files, n - 1));
        assert EndsIn(imp, c, files, n - 1, AfterFile(imp, files[n - 1], before.value).error);
      }
    }
  }

  // ----- the counts

  /** How many of the first n records have this mode. */
  function ModeCount(records: seq<Record>, n: nat, mode: string): nat
    requires n <= |records|
  {
    if n == 0 then 0 else ModeCount(records, n - 1, mode) + if records[n - 1].mode == mode then 1 else 0
  }

  /** The per-mode counts are those of the records. */
  ghost predicate ModesCounted(t: Tally) {
    forall mode :: Count(t.byMode, mode) == ModeCount(t.records, |t.records|, mode)
  }

  lemma {:induction false} ModeCountPrefix(records: seq<Record>, more: seq<Record>, n: nat, mode: string)
    requires n <= |records|
    ensures ModeCount(records + more, n, mode) == ModeCount(records, n, mode)
  {
    if n != 0 {
      ModeCountPrefix(records, more, n - 1, mode);
    }
  }

  lemma CountedKeepsModes(t: Tally, mode: string, record: Record)
    requires ModesCounted(t) && record.mode == mode
    ensures ModesCounted(Counted(t, mode, record))
  {
    var after := Counted(t, mode, record);
    forall m
      ensures Count(after.byMode, m) == ModeCount(after.records, |after.records|, m)
    {
      ModeCountPrefix(t.records, [record], |t.records|, m);
    }
  }

  lemma {:induction false} RowsBalance(imp: Importer, c: Check, file: SourceFile, mode: string, i: nat, t: Tally)
    requires Implements(imp, c) && i <= |file.rows| && ModesCounted(t)
    ensures var r := FoldTo(RowStep(imp, file, mode), i, t);
            r.Ok? ==> r.value.read == t.read && |r.value.records| + r.value.skipped == |t.records| + t.skipped + i
                      && ModesCounted(r.value)
  {
    if i != 0 {
      RowsBalance(imp, c, file, mode, i - 1, t);
      var before := FoldTo(RowStep(imp, file, mode), i - 1, t);
      if before.Ok? && imp.ready(file.rows[i - 1]) {
        var record := imp.check(file.name, mode, file.rows[i - 1], before.value.seen);
        if record.Ok? {
          CountedKeepsModes(before.value, mode, record.value);
        }
      }
    }
  }

  lemma {:induction false} FilesBalance(imp: Importer, c: Check, files: seq<SourceFile>, f: nat)
    requires Implements(imp, c) && f <= |files|
    ensures var r := FoldTo(FileStep(imp, files), f, NOTHING_READ);
            r.Ok? ==> r.value.read == |r.value.records| + r.value.skipped && ModesCounted(r.value)
  {
    if f != 0 {
      FilesBalance(imp, c, files, f - 1);
      var before, file := FoldTo(FileStep(imp, files), f - 1, NOTHING_READ), files[f - 1];
      if before.Ok? && Taken(imp, file) {
        RowsBalance(imp, c, file, imp.mode(file.name).value, |file.rows|, before.value.(read := before.value.read + |file.rows|));
      }
    }
  }

  /** The counts of the first n modes added up. */
  function SumOf(byMode: map<string, nat>, modes: seq<string>, n: nat): nat
    requires n <= |modes|
  {
    if n == 0 then 0 else SumOf(byMode, modes, n - 1) + Count(byMode, modes[n - 1])
  }

  function RecordSum(records: seq<Record>, k: nat, modes: seq<string>, n: nat): nat
    requires k <= |records| && n <= |modes|
  {
    if n == 0 then 0 else RecordSum(records, k, modes, n - 1) + ModeCount(records, k, modes[n - 1])
  }

  /** One more record adds one to the sum, if its mode is among the modes summed over. */
  lemma {:induction false} RecordSumStep(records: seq<Record>, k: nat, modes: seq<string>, n: nat)
    requires k < |records| && n <= |modes| && NoRepeats(modes)
    ensures RecordSum(records, k + 1, modes, n)
         == RecordSum(records, k, modes, n) + if records[k].mode in modes[..n] then 1 else 0
  {
    if n != 0 {
      RecordSumStep(records, k, modes, n - 1);
      assert modes[..n] == modes[..n - 1] + [modes[n - 1]];
    }
  }

  lemma {:induction false} RecordSumIs(records: seq<Record>, k: nat, modes: seq<string>)
    requires k <= |records| && NoRepeats(modes) && forall j | 0 <= j < k :: records[j].mode in modes
    ensures RecordSum(records, k, modes, |modes|) == k
  {
    if k == 0 {
      ZeroSum(records, modes, |modes|);
    } else {
      RecordSumIs(records, k - 1, modes);
      RecordSumStep(records, k - 1, modes, |modes|);
      assert modes[..|modes|] == modes;
    }
  }

  lemma {:induction false} ZeroSum(records: seq<Record>, modes: seq<string>, n: nat)
    requires n <= |modes|
    ensures RecordSum(records, 0, modes, n) == 0
  {
    if n != 0 {
      ZeroSum(records, modes, n - 1);
    }
  }

  lemma {:induction false} SumsAgree(t: Tally, modes: seq<string>, n: nat)
    requires ModesCounted(t) && n <= |modes|
    ensures SumOf(t.byMode, modes, n) == RecordSum(t.records, |t.records|, modes, n)
  {
    if n != 0 {
      SumsAgree(t, modes, n - 1);
    }
  }

  /**
   When the import succeeds, rows read = imported + skipped, every mode's count is that of its records, and over any list that
   names every imported mode once the counts add up to the imported.
   */
  lemma ImportBalances(imp: Importer, c: Check, files: seq<SourceFile>, modes: seq<string>)
    requires Implements(imp, c) && Imported(imp, files).Ok?
    requires NoRepeats(modes) && forall k | 0 <= k < |Imported(imp, files).value.records| :: Imported(imp, files).value.records[k].mode in modes
    ensures var t := Imported(imp, files).value;
            t.read == |t.records| + t.skipped && ModesCounted(t) && SumOf(t.byMode, modes, |modes|) == |t.records|
  {
    FilesBalance(imp, c, files, |files|);
    var t := Imported(imp, files).value;
    SumsAgree(t, modes, |modes|);
    RecordSumIs(t.records, |t.records|, modes);
  }

  // ----- the importer itself

  function QuizImporter(skip: string -> bool, mode: string -> Option<string>, allowUnmapped: bool, quickMix: string -> bool): Importer {
    Importer(skip, mode, allowUnmapped, (row: Row) => IsReady(row),
             (file, mode, row, seen) => CheckRow(quickMix, file, mode, row, seen))
  }

  function QuizCheck(quickMix: string -> bool): Check {
    Check((row: Row) => Sound(row), (row: Row) => Field(row.quizId), (file, mode, row) => RecordOf(row, file, mode, quickMix(file)))
  }

  lemma QuizImporterImplements(skip: string -> bool, mode: string -> Option<string>, allowUnmapped: bool, quickMix: string -> bool)
    ensures Implements(QuizImporter(skip, mode, allowUnmapped, quickMix), QuizCheck(quickMix))
  {
    forall file, mode, row, seen
      ensures var r := CheckRow(quickMix, file, mode, row, seen);
              && (r.Ok? <==> Sound(row) && Field(row.quizId) !in seen)
              && (r.Ok? ==> r.value == RecordOf(row, file, mode, quickMix(file)) && r.value.id == Field(row.quizId)
                            && r.value.mode == mode)
    {
      FaultlessIff(row, seen);
    }
  }

  /** No row a successful import has taken in gives an audit finding in its answer columns. */
  lemma ImportedRowsAreClean(imp: Importer, quickMix: string -> bool, files: seq<SourceFile>, k: nat, number: int)
    requires Implements(imp, QuizCheck(quickMix)) && Imported(imp, files).Ok? && k < |LinesTo(imp, files, |files|)|
    ensures QuizAudit.Clean(AsAudited(LinesTo(imp, files, |files|)[k].row, number))
  {
    ImportSucceedsIff(imp, QuizCheck(quickMix), files);
    SoundIsClean(LinesTo(imp, files, |files|)[k].row, number);
  }

  /** For the tool's own check, the fault named is the check that fails first of those it makes. */
  lemma RefusedRow(quickMix: string -> bool, skip: string -> bool, mode: string -> Option<string>, allowUnmapped: bool,
                   file: SourceFile, i: nat, earlier: seq<Line>, e: ImportError)
    requires RowFails(QuizImporter(skip, mode, allowUnmapped, quickMix), QuizCheck(quickMix), file, i, earlier, e)
    ensures e.BadRow? && e.file == file.name && e.line == i + 2 && IsReady(file.rows[i])
    ensures exists seen | IdsOf(QuizCheck(quickMix), seen, earlier + ReadyLines(QuizImporter(skip, mode, allowUnmapped, quickMix), file,
                                                                              mode(file.name).value, i)) ::
              FailsFirst(file.rows[i], seen, e.fault)
  {
    var imp := QuizImporter(skip, mode, allowUnmapped, quickMix);
    var lines := earlier + ReadyLines(imp, file, mode(file.name).value, i);
    var seen, fault :| IdsOf(QuizCheck(quickMix), seen, lines)
                       && imp.check(file.name, mode(file.name).value, file.rows[i], seen) == Err(fault)
                       && e == BadRow(file.name, i + 2, fault);
    ReportedIff(file.rows[i], seen, fault);
  }

  lemma QuizImporterChecks(skip: string -> bool, mode: string -> Option<string>, allowUnmapped: bool, quickMix: string -> bool)
    ensures ChecksAsTool(QuizImporter(skip, mode, allowUnmapped, quickMix), quickMix)
  {
  }

  /**
   The import as the tool makes it: it succeeds exactly when every file is fine, every ready row sound and no two share an id;
   then its records are the ready rows in reading order, under distinct ids, and rows read = imported + skipped. Otherwise it
   ends at the first thing wrong.
   */
  method ImportQuestions(skip: string -> bool, mode: string -> Option<string>, allowUnmapped: bool, quickMix: string -> bool,
                         files: seq<SourceFile>)
    returns (result: Result<Tally, ImportError>)
    ensures var imp := QuizImporter(skip, mode, allowUnmapped, quickMix);
            var lines := LinesTo(imp, files, |files|);
            && (result.Ok? <==> Good(QuizCheck(quickMix), lines) && FilesFine(imp, files, |files|))
            && (result.Ok? ==> result.value.records == Records(QuizCheck(quickMix), lines)
                               && result.value.read == |result.value.records| + result.value.skipped)
            && (result.Err? ==> exists f: nat :: EndsIn(imp, QuizCheck(quickMix), files, f, result.error))
  {
    var imp := QuizImporter(skip, mode, allowUnmapped, quickMix);
    QuizImporterChecks(skip, mode, allowUnmapped, quickMix);
    QuizImporterImplements(skip, mode, allowUnmapped, quickMix);
    result := BuildRecords(imp, quickMix, files);
    ImportSucceedsIff(imp, QuizCheck(quickMix), files);
    FilesBalance(imp, QuizCheck(quickMix), files, |files|);
    FirstError(imp, QuizCheck(quickMix), files, |files|);
  }
}
