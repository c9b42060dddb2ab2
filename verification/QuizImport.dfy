/** The question-bank import's checks of one row, against the audit's checks of the same row. */
module QuizImport {
  import opened Options
  import opened Text

  import QuizAudit

  /** A row of a source file: None is a cell the row is too short for. The status column may be missing altogether. */
  datatype Row = Row(status: Option<Option<string>>, quizId: Option<string>, question: Option<string>,
                     option1: Option<string>, option2: Option<string>, option3: Option<string>, option4: Option<string>,
                     optionId: Option<string>, answer: Option<string>, explanation: Option<string>,
                     level: Option<string>, category: Option<string>, key: Option<string>)

  datatype Record = Record(id: string, mode: string, source: string, level: string, category: string, question: string,
                           option1: string, option2: string, option3: string, option4: string, optionId: nat,
                           answer: string, explanation: string, key: string, quickMix: bool)

  datatype Fault = EmptyId | LongId | DuplicateId | EmptyOption | BadOptionId | AnswerMismatch | EmptyQuestion | EmptyExplanation

  // ----- one row

  /** `(value or "").strip()`. */
  function Field(value: Option<string>): string {
    if value.Some? then Strip(value.value) else ""
  }

  /** Rows whose status is neither empty, ready nor active are skipped; a missing status column means ready. */
  predicate IsReady(row: Row) {
    row.status.None? || row.status.value.None? || ImportNormalize(row.status.value.value) in ["", "ready", "active"]
  }

  function Choices(row: Row): (options: seq<string>)
    ensures |options| == 4
  {
    [Field(row.option1), Field(row.option2), Field(row.option3), Field(row.option4)]
  }

  function OptionIdOf(row: Row): (k: nat)
    requires QuizAudit.IsOptionId(Field(row.optionId))
    ensures k < 4
  {
    QuizAudit.OptionIdOf(Field(row.optionId))
  }

  /** The first check a row fails, given the ids already taken. */
  function FaultOf(row: Row, seen: set<string>): Option<Fault> {
    var id := Field(row.quizId);
    if id == "" then Some(EmptyId)
    else if |id| > 64 then Some(LongId)
    else if id in seen then Some(DuplicateId)
    else if "" in Choices(row) then Some(EmptyOption)
    else if !QuizAudit.IsOptionId(Field(row.optionId)) then Some(BadOptionId)
    else if ImportNormalize(Field(row.answer)) != ImportNormalize(Choices(row)[OptionIdOf(row)]) then Some(AnswerMismatch)
    else if Field(row.question) == "" then Some(EmptyQuestion)
    else if Field(row.explanation) == "" then Some(EmptyExplanation)
    else None
  }

  /** What a row must be like, apart from its answer and from its id being new. */
  predicate SoundButAnswer(row: Row) {
    && 1 <= |Field(row.quizId)| <= 64
    && (forall k | 0 <= k < 4 :: Choices(row)[k] != "")
    && QuizAudit.IsOptionId(Field(row.optionId))
    && Field(row.question) != "" && Field(row.explanation) != ""
  }

  predicate Sound(row: Row) {
    SoundButAnswer(row) && ImportNormalize(Field(row.answer)) == ImportNormalize(Choices(row)[OptionIdOf(row)])
  }

  lemma FaultlessIff(row: Row, seen: set<string>)
    ensures FaultOf(row, seen) == None <==> Sound(row) && Field(row.quizId) !in seen
  {
    assert "" in Choices(row) <==> exists k | 0 <= k < 4 :: Choices(row)[k] == "";
  }

  /** The value or, if it is empty, the fallback. */
  function OrElse(value: string, fallback: string): string {
    if value == "" then fallback else value
  }

  /** The record of a row. (Only asked for rows with a valid option id.) */
  function RecordOf(row: Row, source: string, mode: string, quickMix: bool): Record {
    var options, id := Choices(row), Field(row.quizId);
    var k := if QuizAudit.IsOptionId(Field(row.optionId)) then OptionIdOf(row) else 0;
    Record(id, mode, source, OrElse(Upper(Field(row.level)), "A1"), OrElse(Field(row.category), "General"), Field(row.question),
           options[0], options[1], options[2], options[3], k, options[k], Field(row.explanation), OrElse(Field(row.key), id), quickMix)
  }

  // ----- the import never contradicts the audit

  function AuditCell(value: Option<string>): QuizAudit.Cell {
    if value.Some? then QuizAudit.Str(value.value) else QuizAudit.Nothing
  }

  /** The row as the audit reads it from the same file. */
  function AsAudited(row: Row, number: int): QuizAudit.Row {
    QuizAudit.Row(number, AuditCell(row.optionId), AuditCell(row.answer),
                  AuditCell(row.option1), AuditCell(row.option2), AuditCell(row.option3), AuditCell(row.option4))
  }

  /** The audit's normal form of a cell is the import's normal form of the stripped cell, with its dashes unified. */
  lemma NormalFormsAgree(value: Option<string>)
    ensures QuizAudit.NormOf(AuditCell(value)) == Dashed(ImportNormalize(Field(value)))
  {
    if value.Some? {
      NormalizersAgree(value.value);
      NormalizeStripped(value.value);
    } else {
      NormalizersAgree("");
      NormalFixed("");
    }
  }

  lemma ChoicesAgree(row: Row, number: int, k: nat)
    requires k < 4
    ensures QuizAudit.NormOf(QuizAudit.Choices(AsAudited(row, number))[k]) == Dashed(ImportNormalize(Choices(row)[k]))
  {
    var option := if k == 0 then row.option1 else if k == 1 then row.option2 else if k == 2 then row.option3 else row.option4;
    assert QuizAudit.Choices(AsAudited(row, number))[k] == AuditCell(option) && Choices(row)[k] == Field(option);
    NormalFormsAgree(option);
  }

  /** Both tools accept the same option ids in text files, and read the same number. */
  lemma OptionIdsAgree(row: Row, number: int)
    ensures var id := QuizAudit.DeclaredId(AsAudited(row, number).optionId);
            0 <= id <==> QuizAudit.IsOptionId(Field(row.optionId))
    ensures QuizAudit.IsOptionId(Field(row.optionId)) ==>
              QuizAudit.DeclaredId(AsAudited(row, number).optionId) == OptionIdOf(row)
  {
    if row.optionId.None? {
      StripTrimmed("None");
    }
  }

  /** The audit finds nothing exactly when the id is valid and answer and option agree up to their dashes. */
  lemma AuditCleanIff(row: Row, number: int)
    ensures QuizAudit.Clean(AsAudited(row, number))
       <==> QuizAudit.IsOptionId(Field(row.optionId))
            && Dashed(ImportNormalize(Field(row.answer))) == Dashed(ImportNormalize(Choices(row)[OptionIdOf(row)]))
  {
    QuizAudit.CleanIff(AsAudited(row, number));
    OptionIdsAgree(row, number);
    if QuizAudit.IsOptionId(Field(row.optionId)) {
      NormalFormsAgree(row.answer);
      ChoicesAgree(row, number, OptionIdOf(row));
    }
  }

  /** No row the import accepts gives an audit finding. */
  lemma SoundIsClean(row: Row, number: int)
    requires Sound(row)
    ensures QuizAudit.Clean(AsAudited(row, number))
  {
    AuditCleanIff(row, number);
  }

  /** A row in order otherwise passes the audit but not the import exactly when answer and option differ in nothing but dashes. */
  lemma StricterThanAuditIff(row: Row, number: int)
    requires SoundButAnswer(row)
    ensures var a, b := ImportNormalize(Field(row.answer)), ImportNormalize(Choices(row)[OptionIdOf(row)]);
            QuizAudit.Clean(AsAudited(row, number)) && FaultOf(row, {}) == Some(AnswerMismatch) <==> a != b && Dashed(a) == Dashed(b)
  {
    AuditCleanIff(row, number);
    FaultlessIff(row, {});
  }

  /** Such texts exist: a dash and a hyphen. */
  lemma DashesDiffer()
    ensures Strip("\U{2013}") == "\U{2013}" && Strip("-") == "-"
    ensures ImportNormalize("\U{2013}") != ImportNormalize("-")
    ensures Dashed(ImportNormalize("\U{2013}")) == Dashed(ImportNormalize("-"))
  {
    StripTrimmed("\U{2013}");
    StripTrimmed("-");
    CollapseFixed("\U{2013}", 0);
    CollapseFixed("-", 0);
  }

  /** A row whose first option is a hyphen, declared correct, with a dash for its answer. */
  function DashRow(): Row {
    Row(None, Some("q"), Some("q"), Some("-"), Some("q"), Some("q"), Some("q"), Some("0"), Some("\U{2013}"), Some("q"), None, None, None)
  }

  /** It passes the audit and the import turns it down. */
  lemma DashRowPassesAuditOnly(number: int)
    ensures QuizAudit.Clean(AsAudited(DashRow(), number)) && FaultOf(DashRow(), {}) == Some(AnswerMismatch)
  {
    DashesDiffer();
    StripTrimmed("q");
    StripTrimmed("0");
    StricterThanAuditIff(DashRow(), number);
  }

  // ----- the row checks in the order they are made

  /** The record a row is imported as, or the first check it fails. */
  function CheckRow(quickMix: string -> bool, file: string, mode: string, row: Row, seen: set<string>): Result<Record, Fault> {
    var fault := FaultOf(row, seen);
    FaultlessIff(row, seen);
    if fault.Some? then Err(fault.value) else Ok(RecordOf(row, file, mode, quickMix(file)))
  }

  /** The row fails this check. */
  predicate Fails(row: Row, seen: set<string>, fault: Fault) {
    match fault
    case EmptyId => Field(row.quizId) == ""
    case LongId => |Field(row.quizId)| > 64
    case DuplicateId => Field(row.quizId) in seen
    case EmptyOption => exists k | 0 <= k < 4 :: Choices(row)[k] == ""
    case BadOptionId => !QuizAudit.IsOptionId(Field(row.optionId))
    case AnswerMismatch =>
      QuizAudit.IsOptionId(Field(row.optionId))
      && ImportNormalize(Field(row.answer)) != ImportNormalize(Choices(row)[OptionIdOf(row)])
    case EmptyQuestion => Field(row.question) == ""
    case EmptyExplanation => Field(row.explanation) == ""
  }

  /** The place of a check among the others. */
  function Rank(fault: Fault): nat {
    match fault
    case EmptyId => 0 case LongId => 1 case DuplicateId => 2 case EmptyOption => 3
    case BadOptionId => 4 case AnswerMismatch => 5 case EmptyQuestion => 6 case EmptyExplanation => 7
  }

  /** The row fails this check and none before it. */
  ghost predicate FailsFirst(row: Row, seen: set<string>, fault: Fault) {
    Fails(row, seen, fault) && forall earlier: Fault :: Rank(earlier) < Rank(fault) ==> !Fails(row, seen, earlier)
  }

  /** The fault reported is a check that fails, and no check before it does. */
  lemma ReportedFirst(row: Row, seen: set<string>, earlier: Fault)
    requires FaultOf(row, seen).Some?
    ensures Fails(row, seen, FaultOf(row, seen).value)
    ensures Rank(earlier) < Rank(FaultOf(row, seen).value) ==> !Fails(row, seen, earlier)
  {
    EmptyChoiceIff(row);
  }

  lemma EmptyChoiceIff(row: Row)
    ensures "" in Choices(row) <==> exists k | 0 <= k < 4 :: Choices(row)[k] == ""
  {
  }

  /** Only one check fails first, and it is the one reported. */
  lemma ReportedIff(row: Row, seen: set<string>, fault: Fault)
    ensures FaultOf(row, seen) == Some(fault) <==> FailsFirst(row, seen, fault)
  {
    if FaultOf(row, seen).Some? {
      forall earlier { ReportedFirst(row, seen, earlier); }
    } else {
      FaultlessIff(row, seen);
    }
  }

  /** The checks as the import makes them: a record for exactly the sound rows with a new id, otherwise the first check failed. */
  method ReadRow(quickMix: string -> bool, file: string, mode: string, row: Row, seen: set<string>)
    returns (result: Result<Record, Fault>)
    ensures result.Ok? <==> Sound(row) && Field(row.quizId) !in seen
    ensures result.Err? ==> FailsFirst(row, seen, result.error)
    ensures result == CheckRow(quickMix, file, mode, row, seen)
  {
    FaultlessIff(row, seen);
    if FaultOf(row, seen).Some? {
      ReportedIff(row, seen, FaultOf(row, seen).value);
    }
    var id := Field(row.quizId);
    if id == "" {
      return Err(EmptyId);
    }
    if |id| > 64 {
      return Err(LongId);
    }
    if id in seen {
      return Err(DuplicateId);
    }
    var options := Choices(row);
    if "" in options {
      return Err(EmptyOption);
    }
    var rawId := Field(row.optionId);
    if !QuizAudit.IsOptionId(rawId) {
      return Err(BadOptionId);
    }
    var expected := options[QuizAudit.OptionIdOf(rawId)];
    if ImportNormalize(Field(row.answer)) != ImportNormalize(expected) {
      return Err(AnswerMismatch);
    }
    if Field(row.question) == "" {
      return Err(EmptyQuestion);
    }
    if Field(row.explanation) == "" {
      return Err(EmptyExplanation);
    }
    result := Ok(RecordOf(row, file, mode, quickMix(file)));
  }

  /** A record is made of a sound row with a new id, and carries the stripped row: its answer is one of its options. */
  lemma CheckedRow(quickMix: string -> bool, file: string, mode: string, row: Row, seen: set<string>)
    ensures var r := CheckRow(quickMix, file, mode, row, seen);
            && (r.Ok? <==> Sound(row) && Field(row.quizId) !in seen)
            && (r.Ok? ==> r.value.id == Field(row.quizId) && r.value.mode == mode && r.value.source == file
                          && r.value.answer == [r.value.option1, r.value.option2, r.value.option3, r.value.option4][r.value.optionId]
                          && r.value.key != "" && r.value.level != "" && r.value.category != "")
  {
    FaultlessIff(row, seen);
  }

  /** What stands in each column of a record, in terms of the row's cells. */
  lemma RecordColumns(quickMix: string -> bool, file: string, mode: string, row: Row, seen: set<string>)
    requires CheckRow(quickMix, file, mode, row, seen).Ok?
    ensures row.quizId.Some? && row.question.Some? && row.explanation.Some? && row.optionId.Some?
    ensures row.option1.Some? && row.option2.Some? && row.option3.Some? && row.option4.Some?
    ensures var r := CheckRow(quickMix, file, mode, row, seen).value;
            && r.id == Strip(row.quizId.value) && r.question == Strip(row.question.value)
            && r.explanation == Strip(row.explanation.value)
            && r.option1 == Strip(row.option1.value) && r.option2 == Strip(row.option2.value)
            && r.option3 == Strip(row.option3.value) && r.option4 == Strip(row.option4.value)
            && Strip(row.optionId.value) == [['0', '1', '2', '3'][r.optionId]]
            && r.mode == mode && r.source == file && r.quickMix == quickMix(file)
    ensures var r := CheckRow(quickMix, file, mode, row, seen).value;
            && r.level == (if row.level == None || Strip(row.level.value) == "" then "A1" else Upper(Strip(row.level.value)))
            && r.category == (if row.category == None || Strip(row.category.value) == "" then "General" else Strip(row.category.value))
            && r.key == (if row.key == None || Strip(row.key.value) == "" then r.id else Strip(row.key.value))
  {
    FaultlessIff(row, seen);
    QuizAudit.OptionIdText(Field(row.optionId));
    assert Choices(row)[0] == Field(row.option1) && Choices(row)[1] == Field(row.option2);
    assert Choices(row)[2] == Field(row.option3) && Choices(row)[3] == Field(row.option4);
    UpperEmptyIff(Field(row.level));
  }

  lemma UpperEmptyIff(s: string)
    ensures Upper(s) == "" <==> s == ""
  {
  }

  /** Its answer is the option its id counts to, which the answer cell matches up to case and whitespace. */
  lemma RecordAnswer(quickMix: string -> bool, file: string, mode: string, row: Row, seen: set<string>)
    requires CheckRow(quickMix, file, mode, row, seen).Ok?
    ensures var r := CheckRow(quickMix, file, mode, row, seen).value;
            && r.optionId < 4
            && r.answer == (if r.optionId == 0 then r.option1 else if r.optionId == 1 then r.option2
                            else if r.optionId == 2 then r.option3 else r.option4)
            && ImportNormalize(r.answer) == ImportNormalize(if row.answer.Some? then Strip(row.answer.value) else "")
  {
    FaultlessIff(row, seen);
  }

  /** Only a status that reads ready or active, or nothing, makes a row ready. */
  lemma ReadyIff(row: Row)
    ensures IsReady(row) <==> || row.status == None || row.status == Some(None)
                              || ImportNormalize(row.status.value.value) == "" || ImportNormalize(row.status.value.value) == "ready"
                              || ImportNormalize(row.status.value.value) == "active"
  {
    assert ["", "ready", "active"][0] == "" && ["", "ready", "active"][1] == "ready" && ["", "ready", "active"][2] == "active";
  }
}
