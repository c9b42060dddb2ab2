/**
 The ambiguity scan of one question table: rows grouped by question, by signature and by key family, conflicting answers
 reported per group, and near-identical questions reported per pair. How a row is read and how two texts are scored are
 parameters.
 */
module AmbiguityScan {
  import opened Grouping
  import opened Options
  import opened Sorting

  /** How the scan reads a row of type R: normalized question and answer, signature, key family, normalized options. */
  datatype Readers<!R> = Readers(question: R -> string, answer: R -> string, signature: R -> string, family: R -> string,
                                 options: R -> seq<string>)

  /** A reported group: its key, its rows in table order, and the sorted set of their answers. */
  datatype Finding<R> = Finding(key: string, rows: seq<R>, answers: seq<string>)

  // ----- answers of a group

  /** The values of the first n rows, each once. */
  function Distinct<R>(f: R -> string, rows: seq<R>, n: nat): (xs: seq<string>)
    requires n <= |rows|
    ensures forall i | 0 <= i < n :: f(rows[i]) in xs
    ensures forall x | x in xs :: exists i | 0 <= i < n :: f(rows[i]) == x
    ensures n > 0 ==> xs != []
  {
    if n == 0 then []
    else
      var xs := Distinct(f, rows, n - 1);
      if f(rows[n - 1]) in xs then xs else xs + [f(rows[n - 1])]
  }

  lemma {:induction false} DistinctNoRepeats<R>(f: R -> string, rows: seq<R>, n: nat)
    requires n <= |rows|
    ensures NoRepeats(Distinct(f, rows, n))
  {
    if n != 0 {
      DistinctNoRepeats(f, rows, n - 1);
    }
  }

  /** `sorted({answer(row) for row in group})`. */
  function Answers<R>(answer: R -> string, rows: seq<R>): (xs: seq<string>)
    ensures rows != [] ==> xs != []
  {
    Sort(Distinct(answer, rows, |rows|), (a, b) => StringLeq(a, b, 0))
  }

  lemma AnswersAre<R>(answer: R -> string, rows: seq<R>)
    ensures NoRepeats(Answers(answer, rows))
    ensures forall x :: x in Answers(answer, rows) <==> exists i | 0 <= i < |rows| :: answer(rows[i]) == x
  {
    var leq := (a, b) => StringLeq(a, b, 0);
    DistinctNoRepeats(answer, rows, |rows|);
    SortNoRepeats(Distinct(answer, rows, |rows|), leq);
    SortMembers(Distinct(answer, rows, |rows|), leq);
  }

  /** They are listed in the order of texts. */
  lemma AnswersSorted<R>(answer: R -> string, rows: seq<R>, i: nat, j: nat)
    requires i < j < |Answers(answer, rows)|
    ensures SortsBefore(Answers(answer, rows)[i], Answers(answer, rows)[j])
  {
    var leq := (a: string, b: string) => StringLeq(a, b, 0);
    TextOrderTotal();
    SortIsSorted(Distinct(answer, rows, |rows|), leq);
    AnswersAre(answer, rows);
    StringLeqIff(Answers(answer, rows)[i], Answers(answer, rows)[j]);
  }

  lemma TextOrderTotal()
    ensures TotalPreorder((a: string, b: string) => StringLeq(a, b, 0))
  {
    forall a: string, b: string, c: string
      ensures StringLeq(a, b, 0) || StringLeq(b, a, 0)
      ensures StringLeq(a, b, 0) && StringLeq(b, c, 0) ==> StringLeq(a, c, 0)
    {
      StringOrder(a, b, c);
    }
  }

  /** Two rows disagree. */
  ghost predicate Disagree<R>(answer: R -> string, rows: seq<R>) {
    exists i, j | 0 <= i < j < |rows| :: answer(rows[i]) != answer(rows[j])
  }

  lemma ManyAnswersIff<R>(answer: R -> string, rows: seq<R>)
    ensures |Answers(answer, rows)| > 1 <==> Disagree(answer, rows)
  {
    var xs := Answers(answer, rows);
    AnswersAre(answer, rows);
    if |xs| > 1 {
      assert xs[0] in xs && xs[1] in xs;
      var i :| 0 <= i < |rows| && answer(rows[i]) == xs[0];
      var j :| 0 <= j < |rows| && answer(rows[j]) == xs[1];
      assert i < j || j < i;
    }
    if i, j :| 0 <= i < j < |rows| && answer(rows[i]) != answer(rows[j]) {
      assert answer(rows[i]) in xs && answer(rows[j]) in xs;
    }
  }

  // ----- findings

  /** Rows whose guard is the empty text are left out. */
  function KeyOf<R>(guard: R -> string, key: R -> string): R -> Option<string> {
    (row: R) => if guard(row) == "" then None else Some(key(row))
  }

  function FindingOf<R>(answer: R -> string, g: Groups<string, R>, key: string): Finding<R>
    requires key in g.members
  {
    Finding(key, g.members[key], Answers(answer, g.members[key]))
  }

  ghost predicate KeysListed<R>(g: Groups<string, R>) {
    forall i | 0 <= i < |g.keys| :: g.keys[i] in g.members
  }

  /** One finding per group, in group order. */
  function Findings<R>(answer: R -> string, g: Groups<string, R>): (fs: seq<Finding<R>>)
    requires KeysListed(g)
    ensures |fs| == |g.keys| && forall i | 0 <= i < |fs| :: fs[i] == FindingOf(answer, g, g.keys[i])
  {
    seq(|g.keys|, i requires 0 <= i < |g.keys| => FindingOf(answer, g, g.keys[i]))
  }

  lemma {:induction false} KeptIff<F>(fs: seq<F>, want: F -> bool, n: nat, f: F)
    requires n <= |fs|
    ensures f in Kept(fs, want, n) <==> want(f) && exists i | 0 <= i < n :: fs[i] == f
  {
    if n != 0 {
      KeptIff(fs, want, n - 1, f);
    }
  }

  predicate IsDuplicate<R>(f: Finding<R>) {
    |f.rows| >= 2 && |f.answers| == 1
  }

  predicate IsConflict<R>(f: Finding<R>) {
    |f.rows| >= 2 && |f.answers| != 1
  }

  predicate IsSignatureConflict<R>(f: Finding<R>) {
    |f.rows| >= 2 && f.key != "" && |f.answers| > 1
  }

  predicate IsTemplate<R>(f: Finding<R>) {
    |f.rows| >= 2
  }

  predicate LargerFirst<R>(a: Finding<R>, b: Finding<R>) {
    |a.rows| >= |b.rows|
  }

  /** The grouped rows: what the first loop leaves behind. */
  function Grouped<R>(rows: seq<R>, guard: R -> string, key: R -> string): (g: Groups<string, R>)
    ensures KeysListed(g)
  {
    KeysNameGroups(rows, KeyOf(guard, key), |rows|);
    GroupBy(rows, KeyOf(guard, key), |rows|)
  }

  function Found<R>(r: Readers<R>, rows: seq<R>, guard: R -> string, key: R -> string, want: Finding<R> -> bool): seq<Finding<R>> {
    var fs := Findings(r.answer, Grouped(rows, guard, key));
    Kept(fs, want, |fs|)
  }

  function Conflicts<R>(r: Readers<R>, rows: seq<R>): seq<Finding<R>> {
    Found(r, rows, r.question, r.question, (f: Finding<R>) => IsConflict(f))
  }

  function SignatureConflicts<R>(r: Readers<R>, rows: seq<R>): seq<Finding<R>> {
    Found(r, rows, r.question, r.signature, (f: Finding<R>) => IsSignatureConflict(f))
  }

  /** The rows of the table with this key, in table order. */
  function RowsWith<R>(rows: seq<R>, guard: R -> string, key: R -> string, k: string): seq<R> {
    Select(rows, KeyOf(guard, key), k, |rows|)
  }

  /** The finding gathers all rows of its key, of which there are some. */
  ghost predicate Gathers<R>(r: Readers<R>, rows: seq<R>, guard: R -> string, key: R -> string, f: Finding<R>) {
    f.rows == RowsWith(rows, guard, key, f.key) != [] && f.answers == Answers(r.answer, f.rows)
  }

  lemma FindingIff<R>(r: Readers<R>, rows: seq<R>, guard: R -> string, key: R -> string, f: Finding<R>)
    ensures f in Findings(r.answer, Grouped(rows, guard, key)) <==> Gathers(r, rows, guard, key, f)
  {
    var g := Grouped(rows, guard, key);
    GroupsAreSelections(rows, KeyOf(guard, key), |rows|);
    KeysNameGroups(rows, KeyOf(guard, key), |rows|);
    if f.key in g.members {
      var i :| 0 <= i < |g.keys| && g.keys[i] == f.key;
      assert Findings(r.answer, g)[i] == FindingOf(r.answer, g, f.key);
    }
  }

  lemma FoundIff<R>(r: Readers<R>, rows: seq<R>, guard: R -> string, key: R -> string, want: Finding<R> -> bool, f: Finding<R>)
    ensures f in Found(r, rows, guard, key, want) <==> want(f) && Gathers(r, rows, guard, key, f)
  {
    var fs := Findings(r.answer, Grouped(rows, guard, key));
    KeptIff(fs, want, |fs|, f);
    FindingIff(r, rows, guard, key, f);
  }

  lemma RowsWithAre<R(!new)>(rows: seq<R>, guard: R -> string, key: R -> string, k: string)
    ensures forall x :: x in RowsWith(rows, guard, key, k) <==> x in rows && guard(x) != "" && key(x) == k
  {
    SelectMembers(rows, KeyOf(guard, key), k, |rows|);
    assert rows[..|rows|] == rows;
  }

  lemma DisagreeIff<R>(answer: R -> string, rows: seq<R>)
    ensures Disagree(answer, rows) <==> exists x, y :: x in rows && y in rows && answer(x) != answer(y)
  {
    if x, y :| x in rows && y in rows && answer(x) != answer(y) {
      var i :| 0 <= i < |rows| && rows[i] == x;
      var j :| 0 <= j < |rows| && rows[j] == y;
      assert i < j || j < i;
    }
    if i, j :| 0 <= i < j < |rows| && answer(rows[i]) != answer(rows[j]) {
      assert rows[i] in rows && rows[j] in rows;
    }
  }

  /** Two rows with this key contradict each other. */
  ghost predicate Contradicted<R(!new)>(r: Readers<R>, rows: seq<R>, guard: R -> string, key: R -> string, k: string) {
    exists x, y :: x in rows && y in rows && guard(x) != "" && guard(y) != "" && key(x) == key(y) == k && r.answer(x) != r.answer(y)
  }

  lemma ContradictedIff<R(!new)>(r: Readers<R>, rows: seq<R>, guard: R -> string, key: R -> string, k: string)
    ensures var group := RowsWith(rows, guard, key, k);
            |group| >= 2 && |Answers(r.answer, group)| > 1 <==> Contradicted(r, rows, guard, key, k)
  {
    var group := RowsWith(rows, guard, key, k);
    RowsWithAre(rows, guard, key, k);
    ManyAnswersIff(r.answer, group);
    DisagreeIff(r.answer, group);
  }

  /** A question is reported as an exact conflict exactly when two rows with it have different answers. */
  lemma ConflictIff<R(!new)>(r: Readers<R>, rows: seq<R>, q: string)
    ensures (exists f :: f in Conflicts(r, rows) && f.key == q) <==> Contradicted(r, rows, r.question, r.question, q)
  {
    var group := RowsWith(rows, r.question, r.question, q);
    var f := Finding(q, group, Answers(r.answer, group));
    ContradictedIff(r, rows, r.question, r.question, q);
    ConflictFound(r, rows, f);
    if f' :| f' in Conflicts(r, rows) && f'.key == q {
      ConflictFound(r, rows, f');
    }
  }

  /** A signature is reported exactly when it is not empty and two rows with it have different answers. */
  lemma SignatureConflictIff<R(!new)>(r: Readers<R>, rows: seq<R>, k: string)
    ensures (exists s :: s in SignatureConflicts(r, rows) && s.key == k)
       <==> k != "" && Contradicted(r, rows, r.question, r.signature, k)
  {
    var group := RowsWith(rows, r.question, r.signature, k);
    var s := Finding(k, group, Answers(r.answer, group));
    ContradictedIff(r, rows, r.question, r.signature, k);
    SignatureConflictFound(r, rows, s);
    if s' :| s' in SignatureConflicts(r, rows) && s'.key == k {
      SignatureConflictFound(r, rows, s');
    }
  }

  lemma ConflictFound<R>(r: Readers<R>, rows: seq<R>, f: Finding<R>)
    ensures f in Conflicts(r, rows) <==> IsConflict(f) && Gathers(r, rows, r.question, r.question, f)
  {
    FoundIff(r, rows, r.question, r.question, (x: Finding<R>) => IsConflict(x), f);
  }

  lemma SignatureConflictFound<R>(r: Readers<R>, rows: seq<R>, f: Finding<R>)
    ensures f in SignatureConflicts(r, rows) <==> IsSignatureConflict(f) && Gathers(r, rows, r.question, r.signature, f)
  {
    FoundIff(r, rows, r.question, r.signature, (x: Finding<R>) => IsSignatureConflict(x), f);
  }

  ghost predicate Within<R>(f: Finding<R>, s: Finding<R>) {
    forall x | x in f.rows :: x in s.rows
  }

  ghost predicate ShareSignature<R>(r: Readers<R>, f: Finding<R>, k: string) {
    forall x | x in f.rows :: r.signature(x) == k
  }

  /** An exact conflict lies within one signature conflict exactly when its rows share a signature, and not the empty one. */
  lemma ConflictWithinIff<R(!new)>(r: Readers<R>, rows: seq<R>, f: Finding<R>)
    requires f in Conflicts(r, rows)
    ensures (exists s :: s in SignatureConflicts(r, rows) && Within(f, s))
       <==> exists k :: k != "" && ShareSignature(r, f, k)
  {
    ConflictFound(r, rows, f);
    RowsWithAre(rows, r.question, r.question, f.key);
    if s :| s in SignatureConflicts(r, rows) && Within(f, s) {
      SignatureConflictFound(r, rows, s);
      RowsWithAre(rows, r.question, r.signature, s.key);
      assert ShareSignature(r, f, s.key);
    }
    if k :| k != "" && ShareSignature(r, f, k) {
      CommonSignatureReported(r, rows, f, k);
    }
  }

  lemma CommonSignatureReported<R(!new)>(r: Readers<R>, rows: seq<R>, f: Finding<R>, k: string)
    requires f in Conflicts(r, rows) && k != "" && ShareSignature(r, f, k)
    ensures exists s :: s in SignatureConflicts(r, rows) && Within(f, s) && s.key == k
  {
    ConflictFound(r, rows, f);
    RowsWithAre(rows, r.question, r.question, f.key);
    ManyAnswersIff(r.answer, f.rows);
    DisagreeIff(r.answer, f.rows);
    SignatureConflictIff(r, rows, k);
    var s :| s in SignatureConflicts(r, rows) && s.key == k;
    SignatureConflictFound(r, rows, s);
    RowsWithAre(rows, r.question, r.signature, k);
    assert Within(f, s);
  }
}
