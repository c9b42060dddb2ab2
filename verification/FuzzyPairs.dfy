/** The scan's nested loop over pairs of near-identical questions with different answers. */
module FuzzyPairs {
  import opened Options
  import opened Sorting

  /** A row as the pair loop sees it: its normalized question and answer. */
  datatype Entry = Entry(question: string, answer: string)

  /** Two table positions and how alike their questions are. */
  datatype Pair = Pair(first: nat, second: nat, score: real)

  const THRESHOLD := 96.0
  const LIMIT := 100

  predicate Qualifies(items: seq<Entry>, ratio: (string, string) -> real, i: nat, j: nat)
    requires i < |items| && j < |items|
  {
    var a, b := items[i], items[j];
    a.question != "" && b.question != "" && a.answer != b.answer && ratio(a.question, b.question) >= THRESHOLD
  }

  /** The pairs of position i with later positions below n. */
  function PairsOf(items: seq<Entry>, ratio: (string, string) -> real, i: nat, n: nat): seq<Pair>
    requires n <= |items|
    decreases n
  {
    if n <= i + 1 then []
    else
      PairsOf(items, ratio, i, n - 1)
      + if Qualifies(items, ratio, i, n - 1)
        then [Pair(i, n - 1, ratio(items[i].question, items[n - 1].question))] else []
  }

  /** The rows f(0), f(1), ... f(n - 1), one behind the other. */
  function Concat<T>(f: nat -> seq<T>, n: nat): seq<T> {
    if n == 0 then [] else Concat(f, n - 1) + f(n - 1)
  }

  function RowOf(items: seq<Entry>, ratio: (string, string) -> real): nat -> seq<Pair> {
    (i: nat) => PairsOf(items, ratio, i, |items|)
  }

  function AllPairs(items: seq<Entry>, ratio: (string, string) -> real): seq<Pair> {
    Concat(RowOf(items, ratio), |items|)
  }

  lemma {:induction false} NoQuestionNoPairs(items: seq<Entry>, ratio: (string, string) -> real, i: nat, n: nat)
    requires i < |items| && n <= |items| && items[i].question == ""
    ensures PairsOf(items, ratio, i, n) == []
    decreases n
  {
    if i + 1 < n {
      NoQuestionNoPairs(items, ratio, i, n - 1);
    }
  }

  method PairLoop(items: seq<Entry>, ratio: (string, string) -> real) returns (pairs: seq<Pair>)
    ensures pairs == AllPairs(items, ratio)
  {
    pairs := [];
    for i := 0 to |items|
      invariant pairs == Concat(RowOf(items, ratio), i)
    {
      if items[i].question == "" {
        NoQuestionNoPairs(items, ratio, i, |items|);
        continue;
      }
      for j := i + 1 to |items|
        invariant pairs == Concat(RowOf(items, ratio), i) + PairsOf(items, ratio, i, j)
      {
        if items[j].question == "" || items[i].answer == items[j].answer {
          continue;
        }
        var score := ratio(items[i].question, items[j].question);
        if score >= THRESHOLD {
          pairs := pairs + [Pair(i, j, score)];
        }
      }
    }
  }

  predicate Earlier(p: Pair, q: Pair) {
    p.first < q.first || (p.first == q.first && p.second < q.second)
  }

  /** In strictly increasing order of positions, so nothing occurs twice. */
  ghost predicate Increasing(pairs: seq<Pair>) {
    forall a, b | 0 <= a < b < |pairs| :: Earlier(pairs[a], pairs[b])
  }

  /** A pair the loop has to report. */
  ghost predicate Due(items: seq<Entry>, ratio: (string, string) -> real, p: Pair) {
    && p.first < p.second < |items|
    && items[p.first].question != "" && items[p.second].question != ""
    && items[p.first].answer != items[p.second].answer
    && p.score == ratio(items[p.first].question, items[p.second].question) >= 96.0
  }

  lemma {:induction false} PairsOfAre(items: seq<Entry>, ratio: (string, string) -> real, i: nat, n: nat, p: Pair)
    requires n <= |items|
    ensures p in PairsOf(items, ratio, i, n) <==> p.first == i && p.second < n && Due(items, ratio, p)
    decreases n
  {
    if i + 1 < n {
      PairsOfAre(items, ratio, i, n - 1, p);
    }
  }

  lemma {:induction false} PairsOfIncreasing(items: seq<Entry>, ratio: (string, string) -> real, i: nat, n: nat)
    requires n <= |items|
    ensures Increasing(PairsOf(items, ratio, i, n))
    decreases n
  {
    if i + 1 < n {
      PairsOfIncreasing(items, ratio, i, n - 1);
      var before := PairsOf(items, ratio, i, n - 1);
      forall a | 0 <= a < |before|
        ensures before[a].first == i && before[a].second < n - 1
      {
        PairsOfAre(items, ratio, i, n - 1, before[a]);
      }
    }
  }

  /** A row that holds its own pairs only, in order. */
  ghost predicate RowSound(row: seq<Pair>, i: nat) {
    Increasing(row) && forall a | 0 <= a < |row| :: row[a].first == i
  }

  /** Rows one behind the other are in order, and a pair can only come from its own row. */
  lemma {:induction false} ConcatAre(f: nat -> seq<Pair>, n: nat, p: Pair)
    requires forall i: nat :: RowSound(f(i), i)
    ensures Increasing(Concat(f, n)) && forall a | 0 <= a < |Concat(f, n)| :: Concat(f, n)[a].first < n
    ensures p in Concat(f, n) <==> p.first < n && p in f(p.first)
  {
    if n != 0 {
      ConcatAre(f, n - 1, p);
      assert RowSound(f(n - 1), n - 1);
    }
  }

  lemma RowsSound(items: seq<Entry>, ratio: (string, string) -> real, i: nat)
    ensures RowSound(RowOf(items, ratio)(i), i)
  {
    var row := PairsOf(items, ratio, i, |items|);
    PairsOfIncreasing(items, ratio, i, |items|);
    forall a | 0 <= a < |row|
      ensures row[a].first == i
    {
      PairsOfAre(items, ratio, i, |items|, row[a]);
    }
  }

  /** The loop reports every qualifying pair exactly once, and nothing else. */
  lemma EachPairOnce(items: seq<Entry>, ratio: (string, string) -> real, p: Pair)
    ensures p in AllPairs(items, ratio) <==> Due(items, ratio, p)
    ensures NoRepeats(AllPairs(items, ratio))
    ensures Increasing(AllPairs(items, ratio))
  {
    forall i: nat ensures RowSound(RowOf(items, ratio)(i), i) { RowsSound(items, ratio, i); }
    ConcatAre(RowOf(items, ratio), |items|, p);
    PairsOfAre(items, ratio, p.first, |items|, p);
  }

  // ----- the report: best scores first, one hundred at most

  function Capped<T>(xs: seq<T>): (ys: seq<T>)
    ensures ys <= xs && |ys| == Min(LIMIT, |xs|)
  {
    if |xs| <= LIMIT then xs else xs[..LIMIT]
  }

  predicate BetterFirst(p: Pair, q: Pair) {
    p.score >= q.score
  }

  function Reported(items: seq<Entry>, ratio: (string, string) -> real): seq<Pair> {
    Capped(Sort(AllPairs(items, ratio), BetterFirst))
  }

  /** What the cap drops scores no better than what it keeps; up to one hundred pairs nothing is dropped. */
  lemma CapKeepsBest(items: seq<Entry>, ratio: (string, string) -> real, p: Pair, q: Pair)
    requires p in Reported(items, ratio) && Due(items, ratio, q) && q !in Reported(items, ratio)
    ensures p.score >= q.score && |Reported(items, ratio)| == 100
  {
    var all := AllPairs(items, ratio);
    var ordered := Sort(all, BetterFirst);
    EachPairOnce(items, ratio, q);
    SortIsSorted(all, BetterFirst);
    var i :| 0 <= i < |Reported(items, ratio)| && Reported(items, ratio)[i] == p;
    var j :| 0 <= j < |ordered| && ordered[j] == q;
    assert forall k | 0 <= k < |Reported(items, ratio)| :: ordered[k] in Reported(items, ratio);
    assert |Reported(items, ratio)| <= j;
  }

  /** The report lists the better scores first, and pairs of one score in table order. */
  lemma BestListedFirst(items: seq<Entry>, ratio: (string, string) -> real, score: real)
    ensures forall i, j | 0 <= i < j < |Reported(items, ratio)| ::
              Reported(items, ratio)[i].score >= Reported(items, ratio)[j].score
    ensures var all := AllPairs(items, ratio);
            Kept(Sort(all, BetterFirst), (p: Pair) => p.score == score, |all|) == Kept(all, (p: Pair) => p.score == score, |all|)
  {
    var all := AllPairs(items, ratio);
    SortIsSorted(all, BetterFirst);
    SortIsStable(all, BetterFirst, (p: Pair) => p.score == score);
  }
}
