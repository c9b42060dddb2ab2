/**
 The question-bank import over all source files. Which rows are ready, and how a row is checked and turned into a record, are
 parameters of the loops.
 */
module ImportRun {
  import opened Folding
  import opened Options
  import opened QuizImport

  /** A source file; `complete` when it has all required columns. */
  datatype SourceFile = SourceFile(name: string, complete: bool, rows: seq<Row>)

  /** Which files are skipped by name and what mode a file feeds; which rows are ready; how a row of a file is checked. */
  datatype Importer = Importer(skip: string -> bool, mode: string -> Option<string>, allowUnmapped: bool, ready: Row -> bool,
                               check: (string, string, Row, set<string>) -> Result<Record, Fault>)

  datatype ImportError = Unmapped(file: string) | MissingColumns(file: string) | BadRow(file: string, line: nat, fault: Fault)

  /** The running totals of an import. */
  datatype Tally = Tally(read: nat, skipped: nat, byMode: map<string, nat>, records: seq<Record>, seen: set<string>)

  const NOTHING_READ := Tally(0, 0, map[], [], {})

  function Count(byMode: map<string, nat>, mode: string): nat {
    if mode in byMode then byMode[mode] else 0
  }

  function Counted(t: Tally, mode: string, record: Record): Tally {
    t.(byMode := t.byMode[mode := Count(t.byMode, mode) + 1], records := t.records + [record], seen := t.seen + {record.id})
  }

  /** The tally after one more row, or the row's fault. */
  function AfterRow(imp: Importer, file: SourceFile, mode: string, i: nat, t: Tally): Result<Tally, ImportError>
    requires i < |file.rows|
  {
    if !imp.ready(file.rows[i]) then Ok(t.(skipped := t.skipped + 1))
    else
      var record := imp.check(file.name, mode, file.rows[i], t.seen);
      if record.Err? then Err(BadRow(file.name, i + 2, record.error)) else Ok(Counted(t, mode, record.value))
  }

  function RowStep(imp: Importer, file: SourceFile, mode: string): (nat, Tally) -> Result<Tally, ImportError> {
    (i: nat, t: Tally) => if i < |file.rows| then AfterRow(imp, file, mode, i, t) else Ok(t)
  }

  /** One file: skipped by name, skipped or refused for want of a mode, refused for want of columns, or read. */
  function AfterFile(imp: Importer, file: SourceFile, t: Tally): Result<Tally, ImportError> {
    var mode := imp.mode(file.name);
    if imp.skip(file.name) || (mode.None? && imp.allowUnmapped) then Ok(t)
    else if mode.None? then Err(Unmapped(file.name))
    else if !file.complete then Err(MissingColumns(file.name))
    else FoldTo(RowStep(imp, file, mode.value), |file.rows|, t.(read := t.read + |file.rows|))
  }

  function FileStep(imp: Importer, files: seq<SourceFile>): (nat, Tally) -> Result<Tally, ImportError> {
    (f: nat, t: Tally) => if f < |files| then AfterFile(imp, files[f], t) else Ok(t)
  }

  /** The whole import. */
  function Imported(imp: Importer, files: seq<SourceFile>): Result<Tally, ImportError> {
    FoldTo(FileStep(imp, files), |files|, NOTHING_READ)
  }

  /** A row in hand, of this file and mode, with these ids taken. */
  ghost predicate InHand(file: string, mode: string, row: Row, seen: set<string>) {
    true
  }

  /** The importer checks the row in hand as the tool does. */
  ghost predicate ChecksAsTool(imp: Importer, quickMix: string -> bool) {
    forall file, mode, row, seen {:trigger InHand(file, mode, row, seen)} ::
      InHand(file, mode, row, seen) ==> imp.check(file, mode, row, seen) == CheckRow(quickMix, file, mode, row, seen)
  }

  method Check(imp: Importer, quickMix: string -> bool, file: string, mode: string, row: Row, seen: set<string>)
    returns (result: Result<Record, Fault>)
    requires ChecksAsTool(imp, quickMix)
    ensures result == imp.check(file, mode, row, seen)
  {
    assert InHand(file, mode, row, seen);
    result := ReadRow(quickMix, file, mode, row, seen);
  }

  /** The inner loop, over the rows of one file. */
  method ReadRows(imp: Importer, quickMix: string -> bool, file: SourceFile, mode: string, start: Tally)
    returns (result: Result<Tally, ImportError>)
    requires ChecksAsTool(imp, quickMix)
    ensures result == FoldTo(RowStep(imp, file, mode), |file.rows|, start)
  {
    var t := start;
    for i := 0 to |file.rows|
      invariant FoldTo(RowStep(imp, file, mode), i, start) == Ok(t)
    {
      if !imp.ready(file.rows[i]) {
        t := t.(skipped := t.skipped + 1);
        continue;
      }
      var record := Check(imp, quickMix, file.name, mode, file.rows[i], t.seen);
      if record.Err? {
        ErrStays(RowStep(imp, file, mode), start, i + 1, |file.rows|);
        return Err(BadRow(file.name, i + 2, record.error));
      }
      t := t.(byMode := t.byMode[mode := Count(t.byMode, mode) + 1], records := t.records + [record.value],
              seen := t.seen + {record.value.id});
    }
    result := Ok(t);
  }

  /** One turn of the outer loop. */
  method ReadFile(imp: Importer, quickMix: string -> bool, file: SourceFile, t: Tally)
    returns (result: Result<Tally, ImportError>)
    requires ChecksAsTool(imp, quickMix)
    ensures result == AfterFile(imp, file, t)
  {
    if imp.skip(file.name) {
      return Ok(t);
    }
    var mode := imp.mode(file.name);
    if mode.None? {
      return if imp.allowUnmapped then Ok(t) else Err(Unmapped(file.name));
    }
    if !file.complete {
      return Err(MissingColumns(file.name));
    }
    result := ReadRows(imp, quickMix, file, mode.value, t.(read := t.read + |file.rows|));
  }

  /** `_build_records`. */
  method BuildRecords(imp: Importer, quickMix: string -> bool, files: seq<SourceFile>)
    returns (result: Result<Tally, ImportError>)
    requires ChecksAsTool(imp, quickMix)
    ensures result == Imported(imp, files)
  {
    var t := NOTHING_READ;
    for f := 0 to |files|
      invariant FoldTo(FileStep(imp, files), f, NOTHING_READ) == Ok(t)
    {
      result := ReadFile(imp, quickMix, files[f], t);
      if result.Err? {
        ErrStays(FileStep(imp, files), NOTHING_READ, f + 1, |files|);
        return;
      }
      t := result.value;
    }
    result := Ok(t);
  }
}
