/** The ambiguity scan's text helpers: cells, the blank-free question signature, and the key family as a fixpoint. */
module AmbiguityText {
  import opened BankBuilder
  import opened CueStripping
  import opened Text

  /** A table cell: nothing, text, or another value (a number, a truth value) with what `str` prints for it. */
  datatype Cell = Blank | Written(text: string) | Value(printed: string, truthy: bool)

  /** `norm(value)`. */
  function Norm(c: Cell): string {
    match c
    case Blank => ""
    case Written(s) => Normalize(s)
    case Value(s, _) => Normalize(s)
  }

  /** `str(value or "")`. */
  function OrEmpty(c: Cell): string {
    match c
    case Blank => ""
    case Written(s) => s
    case Value(s, truthy) => if truthy then s else ""
  }

  /** 0, 0.0 and False. */
  predicate Falsy(c: Cell) {
    c.Value? && !c.truthy
  }

  lemma NormalizeEmpty()
    ensures Normalize("") == ""
  {
    NormalFixed("");
  }

  /** `or ""` is invisible to normalization except on falsy values that print something. */
  lemma NormOrEmptyIff(c: Cell)
    ensures Normalize(OrEmpty(c)) == Norm(c) <==> !Falsy(c) || Norm(c) == ""
  {
    NormalizeEmpty();
  }

  // ----- what the signature does behind the cues

  /** `text.replace(pattern, "")`, from position i on. */
  function Remove(s: string, pattern: string, i: nat): string
    requires pattern != "" && i <= |s|
    decreases |s| - i
  {
    if i == |s| then ""
    else if i + |pattern| <= |s| && s[i..i + |pattern|] == pattern then Remove(s, pattern, i + |pattern|)
    else [s[i]] + Remove(s, pattern, i + 1)
  }

  /** The first closing parenthesis from position i on, or the end. */
  function CloseFrom(s: string, i: nat): (k: nat)
    requires i <= |s|
    ensures i <= k <= |s| && (k < |s| ==> s[k] == ')') && forall j | i <= j < k :: s[j] != ')'
    decreases |s| - i
  {
    if i == |s| || s[i] == ')' then i else CloseFrom(s, i + 1)
  }

  /** `re.sub(r"\([^)]*\)", "", text)`, from position i on. */
  function RemoveParens(s: string, i: nat): string
    requires i <= |s|
    decreases |s| - i
  {
    if i == |s| then ""
    else if s[i] == '(' && CloseFrom(s, i) < |s| then RemoveParens(s, CloseFrom(s, i) + 1)
    else [s[i]] + RemoveParens(s, i + 1)
  }

  predicate IsQuote(c: char) {
    c == '"' || c == '\U{201C}' || c == '\U{201D}' || c == '\U{201E}' || c == '\''
  }

  function DropQuotes(s: string, i: nat): string
    requires i <= |s|
    decreases |s| - i
  {
    if i == |s| then ""
    else if IsQuote(s[i]) then DropQuotes(s, i + 1)
    else [s[i]] + DropQuotes(s, i + 1)
  }

  function Unblanked(s: string): string {
    var t := Remove(s, "_____", 0);
    Remove(t, "___", 0)
  }

  /** Blanks, parenthesized parts and quotes removed, whitespace collapsed and stripped. */
  function Bare(s: string): string {
    Strip(Collapse(DropQuotes(RemoveParens(Unblanked(s), 0), 0)))
  }

  /** `question_signature`, for a cue list. */
  function QuestionSignature(cues: Cues, question: string): string {
    Bare(StripCues(cues, Normalize(question)))
  }

  /** How many underscores stand from position i on. */
  function BlankRun(s: string, i: nat): nat
    requires i <= |s|
    decreases |s| - i
  {
    if i == |s| || s[i] != '_' then 0 else 1 + BlankRun(s, i + 1)
  }

  predicate BlankAt(s: string, i: nat) {
    i + 2 < |s| && s[i] == s[i + 1] == s[i + 2] == '_'
  }

  /** No three underscores in a row. */
  ghost predicate NoBlank(s: string) {
    forall i: nat :: !BlankAt(s, i)
  }

  lemma {:induction false} RunShifts(c: char, t: string, i: nat)
    requires i <= |t|
    ensures BlankRun([c] + t, i + 1) == BlankRun(t, i)
    decreases |t| - i
  {
    if i < |t| {
      assert ([c] + t)[i + 1] == t[i];
      RunShifts(c, t, i + 1);
    }
  }

  /** The text with every run of underscores cut to what `left` makes of its length, from position i on. */
  function RunsShortened(s: string, left: nat -> nat, i: nat): string
    requires i <= |s|
    decreases |s| - i
  {
    if i == |s| then ""
    else if s[i] != '_' then [s[i]] + RunsShortened(s, left, i + 1)
    else
      RunEnds(s, i);
      var r := BlankRun(s, i);
      Underscores(left(r)) + RunsShortened(s, left, i + r)
  }

  function ModuloThree(): nat -> nat {
    (r: nat) => r % 3
  }

  function ModuloFive(): nat -> nat {
    (r: nat) => r % 5
  }

  function Underscores(k: nat): (u: string)
    ensures |u| == k
  {
    if k == 0 then "" else ['_'] + Underscores(k - 1)
  }

  lemma {:induction false} RunEnds(s: string, i: nat)
    requires i <= |s|
    ensures i + BlankRun(s, i) <= |s|
    ensures i < |s| && s[i] == '_' ==> BlankRun(s, i) > 0
    decreases |s| - i
  {
    if i < |s| && s[i] == '_' {
      RunEnds(s, i + 1);
    }
  }

  /** A pattern of underscores stands at a position exactly when the run there is as long. */
  lemma {:induction false} PatternAtIff(s: string, i: nat, k: nat)
    requires i + k <= |s|
    ensures s[i..i + k] == Underscores(k) <==> BlankRun(s, i) >= k
    ensures BlankRun(s, i) >= k ==> BlankRun(s, i) == k + BlankRun(s, i + k)
    decreases k
  {
    if k != 0 {
      PatternAtIff(s, i + 1, k - 1);
      assert s[i..i + k] == [s[i]] + s[i + 1..i + k];
      SameBehind(s[i], s[i + 1..i + k], '_', Underscores(k - 1));
    }
  }

  lemma SameBehind(c: char, s: string, d: char, t: string)
    ensures [c] + s == [d] + t <==> c == d && s == t
  {
    assert ([c] + s)[0] == c && ([d] + t)[0] == d && ([c] + s)[1..] == s && ([d] + t)[1..] == t;
  }

  /** What a run is cut to when k underscores at a time are taken off it. */
  ghost predicate CutsBy(left: nat -> nat, k: nat) {
    0 < k && (forall r: nat :: OneBlankLess(left, k, r)) && forall r: nat | r < k :: left(r) == r
  }

  ghost predicate OneBlankLess(left: nat -> nat, k: nat, r: nat) {
    left(k + r) == left(r)
  }

  lemma ModuloThreeCuts()
    ensures CutsBy(ModuloThree(), 3)
  {
    forall r: nat ensures OneBlankLess(ModuloThree(), 3, r) { ThreeMore(r); }
  }

  lemma ThreeMore(r: nat)
    ensures (3 + r) % 3 == r % 3
  {
  }

  lemma FiveMore(r: nat)
    ensures (5 + r) % 5 == r % 5
  {
  }

  lemma ModuloFiveCuts()
    ensures CutsBy(ModuloFive(), 5)
  {
    forall r: nat ensures OneBlankLess(ModuloFive(), 5, r) { FiveMore(r); }
  }

  /** Removing a blank of k underscores leaves of every run of underscores what its length leaves, and everything else. */
  lemma RemoveShortensRuns(s: string, k: nat, left: nat -> nat, i: nat)
    requires i <= |s| && CutsBy(left, k)
    ensures Remove(s, Underscores(k), i) == RunsShortened(s, left, i)
  {
    forall j: nat | j <= |s|
      ensures Steps(s, k, left, Underscores(k), j)
    {
      BlankAtRun(s, j, k);
      if BlankRun(s, j) >= k {
        ShortenedBehindBlank(s, k, left, j);
      } else if j < |s| && s[j] == '_' {
        ShortenedShortRun(s, k, left, j);
      }
    }
    RemovedBySteps(s, k, left, Underscores(k), i);
  }

  /** Where the pattern stands it counts for nothing; elsewhere the first character counts. */
  ghost predicate Steps(s: string, k: nat, left: nat -> nat, pattern: string, i: nat)
    requires i <= |s|
  {
    if i + k <= |s| && s[i..i + k] == pattern then RunsShortened(s, left, i) == RunsShortened(s, left, i + k)
    else i < |s| ==> RunsShortened(s, left, i) == [s[i]] + RunsShortened(s, left, i + 1)
  }

  lemma {:induction false} RemovedBySteps(s: string, k: nat, left: nat -> nat, pattern: string, i: nat)
    requires i <= |s| && 0 < k == |pattern| && forall j: nat | j <= |s| :: Steps(s, k, left, pattern, j)
    ensures Remove(s, pattern, i) == RunsShortened(s, left, i)
    decreases |s| - i
  {
    if i < |s| {
      assert Steps(s, k, left, pattern, i);
      RemovedBySteps(s, k, left, pattern, if i + k <= |s| && s[i..i + k] == pattern then i + k else i + 1);
    }
  }

  lemma BlankAtRun(s: string, i: nat, k: nat)
    requires i <= |s|
    ensures i + BlankRun(s, i) <= |s|
    ensures i + k <= |s| && s[i..i + k] == Underscores(k) <==> BlankRun(s, i) >= k
    ensures BlankRun(s, i) >= k ==> BlankRun(s, i) == k + BlankRun(s, i + k)
    ensures i < |s| && s[i] == '_' ==> BlankRun(s, i) > 0
  {
    RunEnds(s, i);
    if i + k <= |s| {
      PatternAtIff(s, i, k);
    }
  }

  lemma RunFirst(s: string, left: nat -> nat, i: nat)
    requires i <= |s| && left(0) == 0
    ensures i + BlankRun(s, i) <= |s|
    ensures RunsShortened(s, left, i) == Underscores(left(BlankRun(s, i))) + RunsShortened(s, left, i + BlankRun(s, i))
  {
    RunEnds(s, i);
    if i == |s| || s[i] != '_' {
      assert Underscores(0) + RunsShortened(s, left, i) == RunsShortened(s, left, i);
    }
  }

  lemma ShortenedBehindBlank(s: string, k: nat, left: nat -> nat, i: nat)
    requires CutsBy(left, k) && i + k <= |s| && BlankRun(s, i) == k + BlankRun(s, i + k)
    ensures RunsShortened(s, left, i) == RunsShortened(s, left, i + k)
  {
    RunFirst(s, left, i);
    RunFirst(s, left, i + k);
    assert OneBlankLess(left, k, BlankRun(s, i + k));
  }

  lemma ShortenedShortRun(s: string, k: nat, left: nat -> nat, i: nat)
    requires CutsBy(left, k) && i < |s| && s[i] == '_' && 1 <= BlankRun(s, i) < k
    ensures RunsShortened(s, left, i) == ['_'] + RunsShortened(s, left, i + 1)
  {
    RunFirst(s, left, i);
    RunFirst(s, left, i + 1);
    var r := BlankRun(s, i + 1);
    assert Underscores(r + 1) == ['_'] + Underscores(r);
  }

  lemma BlankPatterns()
    ensures Underscores(5) == "_____" && Underscores(3) == "___"
  {
    assert Underscores(3) == ['_', '_', '_'];
    assert Underscores(5) == ['_', '_'] + Underscores(3);
  }

  /** The signature drops blanks of five underscores first, then those of three: runs are cut modulo five, then modulo three. */
  lemma UnblankedShortensRuns(s: string)
    ensures Unblanked(s) == RunsShortened(RunsShortened(s, ModuloFive(), 0), ModuloThree(), 0)
  {
    BlankPatterns();
    ModuloThreeCuts();
    ModuloFiveCuts();
    RemoveShortensRuns(s, 5, ModuloFive(), 0);
    RemoveShortensRuns(RunsShortened(s, ModuloFive(), 0), 3, ModuloThree(), 0);
  }

  /** So no three underscores in a row are left. */
  lemma RemoveLeavesNoBlank(s: string, i: nat)
    requires i <= |s|
    ensures NoBlank(Remove(s, "___", i))
    ensures BlankRun(Remove(s, "___", i), 0) == BlankRun(s, i) % 3
  {
    BlankPatterns();
    ModuloThreeCuts();
    RemoveShortensRuns(s, 3, ModuloThree(), i);
    ShortenedLeavesNoBlank(s, i);
  }

  lemma {:induction false} ShortenedLeavesNoBlank(s: string, i: nat)
    requires i <= |s|
    ensures NoBlank(RunsShortened(s, ModuloThree(), i))
    ensures BlankRun(RunsShortened(s, ModuloThree(), i), 0) == BlankRun(s, i) % 3
    decreases |s| - i
  {
    if i < |s| {
      var r := BlankRun(s, i);
      RunEnds(s, i);
      if r == 0 {
        var t := RunsShortened(s, ModuloThree(), i + 1);
        ShortenedLeavesNoBlank(s, i + 1);
        NoBlankInFront(s[i], t);
      } else {
        ShortenedLeavesNoBlank(s, i + r);
        RunIsOver(s, i);
        NoBlankBehindRun(r % 3, RunsShortened(s, ModuloThree(), i + r));
      }
    }
  }

  lemma {:induction false} RunIsOver(s: string, i: nat)
    requires i <= |s|
    ensures i + BlankRun(s, i) <= |s| && BlankRun(s, i + BlankRun(s, i)) == 0
    decreases |s| - i
  {
    if i < |s| && s[i] == '_' {
      RunIsOver(s, i + 1);
    }
  }

  lemma {:induction false} NoBlankBehindRun(k: nat, t: string)
    requires k <= 2 && NoBlank(t) && BlankRun(t, 0) == 0
    ensures NoBlank(Underscores(k) + t) && BlankRun(Underscores(k) + t, 0) == k
  {
    if k != 0 {
      var u := Underscores(k - 1) + t;
      NoBlankBehindRun(k - 1, t);
      NoBlankInFront('_', u);
      RunShifts('_', u, 0);
      assert Underscores(k) + t == ['_'] + u;
    } else {
      assert Underscores(0) + t == t;
    }
  }

  lemma NoBlankInFront(c: char, t: string)
    requires NoBlank(t) && (c == '_' ==> BlankRun(t, 0) <= 1)
    ensures NoBlank([c] + t)
  {
    var u := [c] + t;
    forall i: nat
      ensures !BlankAt(u, i)
    {
      if i != 0 {
        assert BlankAt(u, i) == BlankAt(t, i - 1);
      } else if 2 <= |t| {
        assert u[1] == t[0] && u[2] == t[1];
        assert t[0] == t[1] == '_' ==> BlankRun(t, 0) == 1 + BlankRun(t, 1);
      }
    }
  }

  /** No parenthesis is opened and later closed, from position i on. */
  predicate NoParens(s: string, i: nat) {
    forall a, b | i <= a < b < |s| :: !(s[a] == '(' && s[b] == ')')
  }

  lemma NoParensInFront(c: char, t: string)
    requires NoParens(t, 0) && (c == '(' ==> ')' !in t)
    ensures NoParens([c] + t, 0)
  {
    var u := [c] + t;
    forall a, b | 0 <= a < b < |u|
      ensures !(u[a] == '(' && u[b] == ')')
    {
      assert u[b] == t[b - 1] && u[b] in t;
      assert 0 < a ==> u[a] == t[a - 1];
    }
  }

  lemma {:induction false} ParensGone(s: string, i: nat)
    requires i <= |s|
    ensures NoParens(RemoveParens(s, i), 0)
    ensures (forall j | i <= j < |s| :: s[j] != ')') ==> ')' !in RemoveParens(s, i)
    decreases |s| - i
  {
    if i < |s| {
      if s[i] == '(' && CloseFrom(s, i) < |s| {
        ParensGone(s, CloseFrom(s, i) + 1);
      } else {
        ParensGone(s, i + 1);
        NoParensInFront(s[i], RemoveParens(s, i + 1));
      }
    }
  }

  lemma {:induction false} CloseLater(a: string, b: string, i: nat)
    requires i <= |b|
    ensures CloseFrom(a + b, |a| + i) == |a| + CloseFrom(b, i)
    decreases |b| - i
  {
    if i < |b| && b[i] != ')' {
      CloseLater(a, b, i + 1);
    }
  }

  lemma {:induction false} ParensLater(a: string, b: string, i: nat)
    requires i <= |b|
    ensures RemoveParens(a + b, |a| + i) == RemoveParens(b, i)
    decreases |b| - i
  {
    if i < |b| {
      CloseLater(a, b, i);
      if b[i] == '(' && CloseFrom(b, i) < |b| {
        ParensLater(a, b, CloseFrom(b, i) + 1);
      } else {
        ParensLater(a, b, i + 1);
      }
    }
  }

  /** Text without a parenthesized part is left alone ... */
  lemma {:induction false} ParensKept(s: string, i: nat)
    requires i <= |s| && NoParens(s, i)
    ensures RemoveParens(s, i) == s[i..]
    decreases |s| - i
  {
    if i < |s| {
      NeverClosed(s, i);
      ParensKept(s, i + 1);
    }
  }

  lemma NeverClosed(s: string, i: nat)
    requires i < |s| && NoParens(s, i)
    ensures NoParens(s, i + 1) && (s[i] == '(' ==> CloseFrom(s, i) == |s|)
  {
  }

  lemma {:induction false} ParensReached(a: string, rest: string, i: nat)
    requires i <= |a| && '(' !in a
    ensures RemoveParens(a + rest, i) == a[i..] + RemoveParens(rest, 0)
    decreases |a| - i
  {
    if i < |a| {
      assert a[i] in a;
      ParensReached(a, rest, i + 1);
    } else {
      ParensLater(a, rest, 0);
    }
  }

  /** ... and the first such part goes, up to the first closing parenthesis. */
  lemma ParensRemoved(a: string, b: string, rest: string)
    requires '(' !in a && ')' !in b
    ensures RemoveParens(a + ("(" + b + ")" + rest), 0) == a + RemoveParens(rest, 0)
  {
    var t := "(" + b + ")" + rest;
    ParensReached(a, t, 0);
    assert forall j | 1 <= j <= |b| :: t[j] == b[j - 1] && t[j] in b;
    assert t[|b| + 1] == ')';
    assert CloseFrom(t, 0) == |b| + 1;
    assert t == ("(" + b + ")") + rest;
    ParensLater("(" + b + ")", rest, 0);
  }

  /** Exactly the five quotation marks go. */
  lemma {:induction false} QuotesRemoved(s: string, i: nat)
    requires i < |s|
    ensures DropQuotes(s, i) == (if s[i] == '"' || s[i] == '\'' || s[i] == '„' || s[i] == '“' || s[i] == '”' then "" else [s[i]])
                                + DropQuotes(s, i + 1)
  {
  }

  lemma {:induction false} QuotesKept(s: string, i: nat)
    requires i <= |s| && NoQuotes(s)
    ensures DropQuotes(s, i) == s[i..]
    decreases |s| - i
  {
    if i < |s| {
      QuotesKept(s, i + 1);
    }
  }

  predicate NoQuotes(s: string) {
    forall i | 0 <= i < |s| :: !IsQuote(s[i])
  }

  lemma {:induction false} QuotesGone(s: string, i: nat)
    requires i <= |s| && NoParens(s, i)
    ensures NoQuotes(DropQuotes(s, i)) && NoParens(DropQuotes(s, i), 0)
    ensures (forall j | i <= j < |s| :: s[j] != ')') ==> ')' !in DropQuotes(s, i)
    decreases |s| - i
  {
    if i < |s| {
      QuotesGone(s, i + 1);
      NoParensInFront(s[i], DropQuotes(s, i + 1));
    }
  }

  lemma {:induction false} CollapseKeepsNoParens(s: string, i: nat)
    requires i <= |s| && NoParens(s, i)
    ensures NoParens(CollapseFrom(s, i), 0)
    ensures (forall j | i <= j < |s| :: s[j] != ')') ==> ')' !in CollapseFrom(s, i)
    decreases |s| - i
  {
    if i < |s| {
      var k := if IsSpace(s[i]) then SkipSpaces(s, i) else i + 1;
      CollapseKeepsNoParens(s, k);
      NoParensInFront(if IsSpace(s[i]) then ' ' else s[i], CollapseFrom(s, k));
    }
  }

  lemma {:induction false} CollapseKeepsNoQuotes(s: string, i: nat)
    requires i <= |s| && NoQuotes(s)
    ensures NoQuotes(CollapseFrom(s, i))
    decreases |s| - i
  {
    if i < |s| {
      CollapseKeepsNoQuotes(s, if IsSpace(s[i]) then SkipSpaces(s, i) else i + 1);
    }
  }

  /** What every question signature looks like. */
  lemma SignatureIsBare(cues: Cues, question: string)
    ensures var s := QuestionSignature(cues, question);
            Trimmed(s) && SingleSpaced(s) && NoQuotes(s) && NoParens(s, 0)
  {
    BareIsBare(StripCues(cues, Normalize(question)));
  }

  /** `question_signature` as the scan runs it: questions with one normal form get one signature, of the shape above. */
  method ComputeQuestionSignature(cues: Cues, question: string) returns (text: string)
    ensures forall other | Normalize(other) == Normalize(question) :: text == QuestionSignature(cues, other)
    ensures Trimmed(text) && SingleSpaced(text) && NoQuotes(text) && NoParens(text, 0)
  {
    text := ComputeSignature(cues, question);
    text := Remove(text, "_____", 0);
    text := Remove(text, "___", 0);
    text := RemoveParens(text, 0);
    text := DropQuotes(text, 0);
    text := Strip(Collapse(text));
    SignatureIsBare(cues, question);
  }

  lemma BareIsBare(s: string)
    ensures Trimmed(Bare(s)) && SingleSpaced(Bare(s)) && NoQuotes(Bare(s)) && NoParens(Bare(s), 0)
  {
    var p := RemoveParens(Unblanked(s), 0);
    ParensGone(Unblanked(s), 0);
    QuotesGone(p, 0);
    var q := DropQuotes(p, 0);
    CollapseIsSingleSpaced(q, 0);
    CollapseKeepsNoQuotes(q, 0);
    CollapseKeepsNoParens(q, 0);
    StripKeepsBare(Collapse(q));
  }

  lemma {:induction false} BlanksKept(s: string, k: nat, i: nat)
    requires i <= |s| && 3 <= k && NoBlank(s)
    ensures Remove(s, Underscores(k), i) == s[i..]
    decreases |s| - i
  {
    if i < |s| {
      BlanksKept(s, k, i + 1);
      if i + k <= |s| && s[i..i + k] == Underscores(k) {
        BlankIn(s, k, i);
      }
    }
  }

  lemma {:induction false} UnderscoreAt(k: nat, i: nat)
    requires i < k
    ensures Underscores(k)[i] == '_'
  {
    if i != 0 {
      UnderscoreAt(k - 1, i - 1);
    }
  }

  lemma BlankIn(s: string, k: nat, i: nat)
    requires 3 <= k && i + k <= |s| && s[i..i + k] == Underscores(k)
    ensures BlankAt(s, i)
  {
    UnderscoreAt(k, 0);
    UnderscoreAt(k, 1);
    UnderscoreAt(k, 2);
    assert s[i] == s[i..i + k][0] && s[i + 1] == s[i..i + k][1] && s[i + 2] == s[i..i + k][2];
  }

  /** A question with no blank, parenthesized part, quotation mark or stray whitespace is its own signature behind the cues. */
  lemma BareFixed(s: string)
    requires Trimmed(s) && SingleSpaced(s) && NoQuotes(s) && NoParens(s, 0) && NoBlank(s)
    ensures Bare(s) == s
  {
    BlankPatterns();
    BlanksKept(s, 5, 0);
    BlanksKept(s, 3, 0);
    ParensKept(s, 0);
    QuotesKept(s, 0);
    CollapseFixed(s, 0);
    StripTrimmed(s);
  }

  lemma StripKeepsBare(s: string)
    requires SingleSpaced(s) && NoQuotes(s) && NoParens(s, 0)
    ensures SingleSpaced(Strip(s)) && NoQuotes(Strip(s)) && NoParens(Strip(s), 0)
  {
    var a, b := SkipSpaces(s, 0), DropSpaces(s, |s|);
    if a < b {
      assert forall k | 0 <= k < b - a :: s[a..b][k] == s[a + k];
    }
  }

  /** The signature is empty on nothing, whatever the cues. */
  lemma EmptySignature(cues: Cues)
    ensures QuestionSignature(cues, "") == ""
  {
    NormalizeEmpty();
    StripCuesNoLonger(cues, "");
  }

  // ----- the key family as a fixpoint

  /** One round of the loop. */
  function Cut(s: string): (t: string)
    ensures t <= s
  {
    DropNumber(DropVersion(s))
  }

  function CutAll(s: string): (t: string)
    ensures t <= s && Cut(t) == t
    decreases |s|
  {
    if Cut(s) == s then s else CutAll(Cut(s))
  }

  function ScanFamily(c: Cell): string {
    CutAll(Norm(c))
  }

  /** The loop as the scan runs it. */
  method ComputeFamily(c: Cell) returns (text: string)
    ensures text == ScanFamily(c)
  {
    text := Norm(c);
    var again := true;
    while again
      invariant CutAll(text) == ScanFamily(c)
      invariant !again ==> Cut(text) == text
      decreases |text|, again
    {
      var prev := text;
      text := DropVersion(text);
      text := DropNumber(text);
      again := prev != text;
    }
  }

  // ----- what the loop takes off

  /** s[i..j] is one suffix tag: a joiner, perhaps a v, and digits. */
  predicate TagAt(s: string, i: nat, j: nat) {
    i + 1 < j <= |s| && IsJoiner(s[i])
    && var k := if s[i + 1] == 'v' then i + 2 else i + 1;
       k < j && forall p | k <= p < j :: IsDigit(s[p])
  }

  /** s[i..j] is one tag or several. */
  ghost predicate Tags(s: string, i: nat, j: nat) {
    exists k: nat :: i <= k < j && TagAt(s, k, j) && (k == i || Tags(s, i, k))
  }

  /** Whitespace stands before a run of tags that ends the text. */
  ghost predicate BlankBeforeTags(s: string) {
    exists i: nat :: 1 <= i < |s| && IsSpace(s[i - 1]) && Tags(s, i, |s|)
  }

  /** Digits from k on, and none before it, are the trailing digits. */
  lemma {:induction false} DigitsBegin(s: string, k: nat, j: nat)
    requires k <= j <= |s| && (k == 0 || !IsDigit(s[k - 1])) && forall p | k <= p < j :: IsDigit(s[p])
    ensures DigitsFrom(s, j) == k
    decreases j
  {
    if k < j {
      DigitsBegin(s, k, j - 1);
    }
  }

  /** The tag at the end of a text, if there is one, is what the two substitutions look for. */
  lemma LastTagIff(s: string, i: nat)
    ensures TagAt(s, i, |s|) <==> i < |s| && (i == VersionStart(s) || i == NumberStart(s))
  {
    var d := DigitsFrom(s, |s|);
    if TagAt(s, i, |s|) {
      DigitsBegin(s, if s[i + 1] == 'v' then i + 2 else i + 1, |s|);
    }
  }

  /** What is left is the text up to i, or that and tags. */
  ghost predicate Reaches(s: string, i: nat) {
    i <= |s| && (i == |s| || Tags(s, i, |s|))
  }

  lemma {:induction false} TagsPrefix(s: string, n: nat, i: nat, j: nat)
    requires j <= n <= |s|
    ensures Tags(s[..n], i, j) <==> Tags(s, i, j)
    decreases j
  {
    forall k: nat | i <= k < j
      ensures TagAt(s[..n], k, j) <==> TagAt(s, k, j)
      ensures Tags(s[..n], i, k) <==> Tags(s, i, k)
    {
      assert forall p | 0 <= p < n :: s[..n][p] == s[p];
      TagsPrefix(s, n, i, k);
    }
    if Tags(s, i, j) {
      var k: nat :| i <= k < j && TagAt(s, k, j) && (k == i || Tags(s, i, k));
      assert TagAt(s[..n], k, j);
    }
    if Tags(s[..n], i, j) {
      var k: nat :| i <= k < j && TagAt(s[..n], k, j) && (k == i || Tags(s[..n], i, k));
      assert TagAt(s, k, j);
    }
  }

  lemma {:induction false} TagsJoin(s: string, i: nat, m: nat, j: nat)
    requires Tags(s, i, m) && Tags(s, m, j)
    ensures Tags(s, i, j)
    decreases j
  {
    var k: nat :| m <= k < j && TagAt(s, k, j) && (k == m || Tags(s, m, k));
    if k != m {
      TagsJoin(s, i, m, k);
    }
  }

  /** One substitution takes off the last tag or nothing. */
  lemma DropTakesTag(s: string, n: nat)
    requires n == VersionStart(s) || n == NumberStart(s)
    ensures n == |s| || Tags(s, n, |s|)
  {
    if n < |s| {
      LastTagIff(s, n);
      assert TagAt(s, n, |s|);
    }
  }

  /** It never takes off more than the tags behind a blank. */
  lemma DropStopsAtBlank(s: string, i: nat, n: nat)
    requires 1 <= i && Reaches(s, i) && IsSpace(s[i - 1]) && (n == VersionStart(s) || n == NumberStart(s))
    ensures i <= n && Reaches(s[..n], i)
  {
    if n < |s| {
      LastTagIff(s, n);
      if i == |s| {
        assert false;
      }
      var k: nat :| i <= k < |s| && TagAt(s, k, |s|) && (k == i || Tags(s, i, k));
      LastTagIff(s, k);
      assert k == n;
      TagsPrefix(s, n, i, n);
    } else {
      assert s[..n] == s;
    }
  }

  /** A text that ends in tags is cut. */
  lemma TagsAreCut(s: string, i: nat)
    requires Tags(s, i, |s|)
    ensures |Cut(s)| < |s|
  {
    var k: nat :| i <= k < |s| && TagAt(s, k, |s|);
    LastTagIff(s, k);
  }

  lemma CutStopsAtBlank(s: string, i: nat)
    requires 1 <= i && Reaches(s, i) && IsSpace(s[i - 1])
    ensures Reaches(Cut(s), i) && Cut(s)[..i] == s[..i]
  {
    var t := DropVersion(s);
    DropStopsAtBlank(s, i, VersionStart(s));
    DropStopsAtBlank(t, i, NumberStart(t));
  }

  lemma {:induction false} CutAllStopsAtBlank(s: string, i: nat)
    requires 1 <= i && Reaches(s, i) && IsSpace(s[i - 1])
    ensures CutAll(s) == s[..i]
    decreases |s|
  {
    CutStopsAtBlank(s, i);
    if Cut(s) != s {
      assert Cut(s)[i - 1] == s[i - 1];
      CutAllStopsAtBlank(Cut(s), i);
    } else if i < |s| {
      TagsAreCut(s, i);
    }
  }

  /** Tags taken off twice are tags taken off. */
  lemma ReachesJoin(s: string, u: string, m: nat)
    requires u <= s && Reaches(s, |u|) && Reaches(u, m)
    ensures Reaches(s, m)
  {
    assert u == s[..|u|];
    if m < |u| {
      TagsPrefix(s, |u|, m, |u|);
      if |u| < |s| {
        TagsJoin(s, m, |u|, |s|);
      }
    }
  }

  /** One round takes off tags and nothing else. */
  lemma CutTakesTags(s: string)
    ensures Reaches(s, |Cut(s)|)
  {
    var t := DropVersion(s);
    DropTakesTag(s, |t|);
    DropTakesTag(t, |Cut(s)|);
    ReachesJoin(s, t, |Cut(s)|);
  }

  /** The loop takes off tags and nothing else. */
  lemma {:induction false} CutAllTakesTags(s: string)
    ensures var m := |CutAll(s)|; m == |s| || Tags(s, m, |s|)
    decreases |s|
  {
    if Cut(s) != s {
      CutAllTakesTags(Cut(s));
      CutTakesTags(s);
      ReachesJoin(s, Cut(s), |CutAll(s)|);
    }
  }

  /** A family read again is itself exactly when no blank stands before the tags that end the normalized key. */
  lemma FamilyStableIff(c: Cell)
    ensures ScanFamily(Written(ScanFamily(c))) == ScanFamily(c) <==> !BlankBeforeTags(Norm(c))
  {
    var n, f := Norm(c), ScanFamily(c);
    StableIffTrimmed(c);
    NormIsNormal(c);
    CutAllTakesTags(n);
    if i: nat :| 1 <= i < |n| && IsSpace(n[i - 1]) && Tags(n, i, |n|) {
      CutAllStopsAtBlank(n, i);
    }
    if f != "" && IsSpace(f[|f| - 1]) {
      assert f[|f| - 1] == n[|f| - 1];
      assert Tags(n, |f|, |n|);
    }
  }

  /** In terms of the family: it is stable exactly when it does not end in whitespace. */
  lemma StableIffTrimmed(c: Cell)
    ensures ScanFamily(Written(ScanFamily(c))) == ScanFamily(c)
       <==> ScanFamily(c) == "" || !IsSpace(ScanFamily(c)[|ScanFamily(c)| - 1])
  {
    var n, f := Norm(c), ScanFamily(c);
    NormIsNormal(c);
    PrefixOfNormal(n, f);
    if Trimmed(f) {
      NormalFixed(f);
    } else {
      assert |Normalize(f)| < |f| by { LeadingKept(f); }
    }
  }

  lemma NormIsNormal(c: Cell)
    ensures IsNormal(Norm(c))
  {
    if !c.Blank? {
      NormalizeIsNormal(if c.Written? then c.text else c.printed);
    }
  }

  lemma PrefixOfNormal(s: string, p: string)
    requires IsNormal(s) && p <= s
    ensures SingleSpaced(p) && Lower(p) == p && Dashed(p) == p && (p != "" ==> !IsSpace(p[0]))
  {
    SliceOfNormal(s, 0, |p|);
    assert p == s[0..|p|];
  }

  lemma LeadingKept(f: string)
    requires f != "" && IsSpace(f[|f| - 1])
    ensures |Normalize(f)| < |f|
  {
    var t := Dashed(Lower(Strip(f)));
    assert |Strip(f)| < |f|;
    CollapseNoLonger(t, 0);
  }

  lemma {:induction false} CollapseNoLonger(s: string, i: nat)
    requires i <= |s|
    ensures |CollapseFrom(s, i)| <= |s| - i
    decreases |s| - i
  {
    if i < |s| {
      CollapseNoLonger(s, if IsSpace(s[i]) then SkipSpaces(s, i) else i + 1);
    }
  }

  lemma CutExample()
    ensures Cut("a _3") == "a " && Cut("a ") == "a "
  {
    assert DigitsFrom("a _3", 4) == 3;
    assert DigitsFrom("a ", 2) == 2;
  }

  lemma CutAllAfter(s: string, t: string)
    requires Cut(s) == t && Cut(t) == t
    ensures CutAll(s) == t
  {
    assert CutAll(t) == t;
  }

  /** Such families exist: a blank in front of a numeric suffix. */
  lemma UnstableFamilyExample()
    ensures ScanFamily(Written("a _3")) == "a "
    ensures ScanFamily(Written("a ")) != "a "
  {
    assert SingleSpaced("a _3");
    NormalFixed("a _3");
    CutExample();
    CutAllAfter("a _3", "a ");
    StableIffTrimmed(Written("a _3"));
  }
}
