/** The audit's checks of the answer columns of a question table. */
module QuizAudit {
  import opened Decimal
  import opened Text

  /** A table cell as the audit's readers deliver it: nothing, text, an integer, or another value with what `str` prints. */
  datatype Cell = Nothing | Str(text: string) | Int(value: int) | Other(printed: string)

  /** A row with its number, the id of its correct option, its answer and its four options. */
  datatype Row = Row(number: int, optionId: Cell, answer: Cell, option1: Cell, option2: Cell, option3: Cell, option4: Cell)

  const SAMPLES := 50

  /** `str(value)`. */
  function StrOf(c: Cell): string {
    match c
    case Nothing => "None"
    case Str(s) => s
    case Int(n) => Printed(n)
    case Other(s) => s
  }

  /** `normalize(value)`. */
  function NormOf(c: Cell): string {
    if c.Nothing? then "" else AuditNormalize(StrOf(c))
  }

  function Choices(row: Row): (options: seq<Cell>)
    ensures |options| == 4
  {
    [row.option1, row.option2, row.option3, row.option4]
  }

  /** The option ids the tools know. */
  predicate IsOptionId(s: string) {
    |s| == 1 && '0' <= s[0] <= '3'
  }

  function OptionIdOf(s: string): (k: nat)
    requires IsOptionId(s)
    ensures k < 4
  {
    DigitValue(s[0])
  }

  /** The option the row declares correct, if its id is valid: an integer, or text that is one of 0 to 3 once stripped. */
  function DeclaredId(c: Cell): (k: int)
    ensures -1 <= k <= 3
  {
    if IsOptionId(Strip(StrOf(c))) then OptionIdOf(Strip(StrOf(c)))
    else if c.Int? && 0 <= c.value <= 3 then c.value
    else -1
  }

  predicate BadOptionId(row: Row) {
    DeclaredId(row.optionId) < 0
  }

  /** The answer is not the declared option's. Rows with a bad id are not looked at further. */
  predicate Mismatch(row: Row) {
    var id := DeclaredId(row.optionId);
    0 <= id && NormOf(row.answer) != NormOf(Choices(row)[id])
  }

  predicate NotInOptions(row: Row) {
    !BadOptionId(row) && forall k | 0 <= k < 4 :: NormOf(row.answer) != NormOf(Choices(row)[k])
  }

  predicate Clean(row: Row) {
    !BadOptionId(row) && !Mismatch(row) && !NotInOptions(row)
  }

  /** The numbers of the first n rows with this finding. */
  function NumbersWith(rows: seq<Row>, finding: Row -> bool, n: nat): (numbers: seq<int>)
    requires n <= |rows|
  {
    if n == 0 then []
    else NumbersWith(rows, finding, n - 1) + if finding(rows[n - 1]) then [rows[n - 1].number] else []
  }

  /** Samples are collected up to a limit, and the reported counts are the numbers of samples. */
  function Sampled(numbers: seq<int>): seq<int> {
    if |numbers| <= SAMPLES then numbers else numbers[..SAMPLES]
  }

  method Sample(samples: seq<int>, ghost numbers: seq<int>, n: int) returns (more: seq<int>)
    requires samples == Sampled(numbers)
    ensures more == Sampled(numbers + [n])
  {
    more := samples;
    if |samples| < SAMPLES {
      more := samples + [n];
    }
  }

  /** The checks as the audit's loop runs them, for the three kinds of findings. */
  method AuditAnswers(rows: seq<Row>, bad: Row -> bool, mismatch: Row -> bool, missing: Row -> bool)
    returns (badIds: seq<int>, mismatches: seq<int>, notInOptions: seq<int>)
    requires forall row :: bad(row) ==> !mismatch(row) && !missing(row)
    ensures badIds == Sampled(NumbersWith(rows, bad, |rows|))
    ensures mismatches == Sampled(NumbersWith(rows, mismatch, |rows|))
    ensures notInOptions == Sampled(NumbersWith(rows, missing, |rows|))
  {
    badIds, mismatches, notInOptions := [], [], [];
    for i := 0 to |rows|
      invariant badIds == Sampled(NumbersWith(rows, bad, i))
      invariant mismatches == Sampled(NumbersWith(rows, mismatch, i))
      invariant notInOptions == Sampled(NumbersWith(rows, missing, i))
    {
      if bad(rows[i]) {
        badIds := Sample(badIds, NumbersWith(rows, bad, i), rows[i].number);
        continue;
      }
      if mismatch(rows[i]) {
        mismatches := Sample(mismatches, NumbersWith(rows, mismatch, i), rows[i].number);
      }
      if missing(rows[i]) {
        notInOptions := Sample(notInOptions, NumbersWith(rows, missing, i), rows[i].number);
      }
    }
  }

  /** The audit of the answer columns. */
  method Audit(rows: seq<Row>) returns (badIds: seq<int>, mismatches: seq<int>, notInOptions: seq<int>)
    ensures badIds == Sampled(NumbersWith(rows, BadOptionId, |rows|))
    ensures mismatches == Sampled(NumbersWith(rows, Mismatch, |rows|))
    ensures notInOptions == Sampled(NumbersWith(rows, NotInOptions, |rows|))
  {
    badIds, mismatches, notInOptions := AuditAnswers(rows, BadOptionId, Mismatch, NotInOptions);
  }

  /** A finding is absent from the report exactly when no row has it: the cap never hides all of them. */
  lemma {:induction false} NoneReportedIff(rows: seq<Row>, finding: Row -> bool, n: nat)
    requires n <= |rows|
    ensures Sampled(NumbersWith(rows, finding, n)) == [] <==> forall i | 0 <= i < n :: !finding(rows[i])
  {
    if n != 0 {
      NoneReportedIff(rows, finding, n - 1);
    }
  }

  /** Clean means: a valid id, and an answer that normalizes like the option it names. A missing answer is always a mismatch. */
  lemma CleanIff(row: Row)
    ensures Clean(row) <==> 0 <= DeclaredId(row.optionId)
                            && NormOf(row.answer) == NormOf(Choices(row)[DeclaredId(row.optionId)])
    ensures NotInOptions(row) ==> Mismatch(row)
  {
    var id := DeclaredId(row.optionId);
    if 0 <= id && NotInOptions(row) {
      assert NormOf(row.answer) != NormOf(Choices(row)[id]);
    }
  }

  // ----- the findings in the columns of a row

  /** The id text a cell holds once stripped. */
  function IdText(c: Cell): string {
    Strip(StrOf(c))
  }

  /** Of an integer cell the id text is its numeral. */
  lemma PrintedId(n: int)
    ensures IdText(Int(n)) == Printed(n)
    ensures 0 <= n <= 3 ==> IsOptionId(Printed(n)) && OptionIdOf(Printed(n)) == n
  {
    PrintedTrimmed(n);
    StripTrimmed(Printed(n));
  }

  lemma PrintedTrimmed(n: int)
    ensures Trimmed(Printed(n))
  {
    if n < 0 {
      var d := Digits(-n);
      assert Printed(n)[|d|] == d[|d| - 1];
    }
  }

  /** A row declares option 1, 2, 3 or 4 correct exactly when its id cell reads 0, 1, 2 or 3. */
  lemma DeclaredIff(c: Cell)
    ensures DeclaredId(c) == 0 <==> IdText(c) == "0"
    ensures DeclaredId(c) == 1 <==> IdText(c) == "1"
    ensures DeclaredId(c) == 2 <==> IdText(c) == "2"
    ensures DeclaredId(c) == 3 <==> IdText(c) == "3"
  {
    if c.Int? {
      PrintedId(c.value);
    }
    OptionIdText(IdText(c));
  }

  lemma OptionIdText(s: string)
    ensures IsOptionId(s) <==> s == "0" || s == "1" || s == "2" || s == "3"
    ensures IsOptionId(s) ==> s == [['0', '1', '2', '3'][OptionIdOf(s)]]
  {
    if |s| == 1 {
      assert s == [s[0]];
    }
  }

  /** What each finding says of the row's columns. */
  lemma FindingsIff(row: Row)
    ensures var id, a := IdText(row.optionId), NormOf(row.answer);
            && (BadOptionId(row) <==> id != "0" && id != "1" && id != "2" && id != "3")
            && (Mismatch(row) <==> || (id == "0" && a != NormOf(row.option1)) || (id == "1" && a != NormOf(row.option2))
                                   || (id == "2" && a != NormOf(row.option3)) || (id == "3" && a != NormOf(row.option4)))
            && (NotInOptions(row) <==> && !BadOptionId(row) && a != NormOf(row.option1) && a != NormOf(row.option2)
                                       && a != NormOf(row.option3) && a != NormOf(row.option4))
  {
    DeclaredIff(row.optionId);
    assert Choices(row)[0] == row.option1 && Choices(row)[1] == row.option2;
    assert Choices(row)[2] == row.option3 && Choices(row)[3] == row.option4;
  }

  /** The report names the rows with a finding, in table order, and stops at fifty. */
  lemma {:induction false} NumbersAre(rows: seq<Row>, finding: Row -> bool, n: nat, number: int)
    requires n <= |rows|
    ensures number in NumbersWith(rows, finding, n) <==> exists i | 0 <= i < n :: finding(rows[i]) && rows[i].number == number
    ensures var numbers := NumbersWith(rows, finding, n); Sampled(numbers) == if |numbers| <= 50 then numbers else numbers[..50]
  {
    if n != 0 {
      NumbersAre(rows, finding, n - 1, number);
    }
  }
}
