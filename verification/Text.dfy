/**
 The string operations the question-bank tools and the promo codes share: strip, lower and upper, whitespace collapse and
 dash unification, over a finite alphabet of whitespace, letters with case, and dashes.
 */
module Text {
  predicate IsSpace(c: char) {
    c == ' ' || ('\t' <= c <= '\r') || c == '\U{85}' || c == '\U{A0}'
  }

  predicate IsDigit(c: char) {
    '0' <= c <= '9'
  }

  function LowerChar(c: char): char {
    if 'A' <= c <= 'Z' then c - 'A' + 'a'
    else if c == 'Ä' then 'ä' else if c == 'Ö' then 'ö' else if c == 'Ü' then 'ü'
    else c
  }

  function UpperChar(c: char): char {
    if 'a' <= c <= 'z' then c - 'a' + 'A'
    else if c == 'ä' then 'Ä' else if c == 'ö' then 'Ö' else if c == 'ü' then 'Ü'
    else c
  }

  /** Non-breaking hyphen, en dash and em dash become the plain hyphen. */
  function DashChar(c: char): char {
    if c == '\U{2011}' || c == '\U{2013}' || c == '\U{2014}' then '-' else c
  }

  function Map(f: char -> char, s: string): (t: string)
    ensures |t| == |s| && forall i | 0 <= i < |s| :: t[i] == f(s[i])
  {
    seq(|s|, i requires 0 <= i < |s| => f(s[i]))
  }

  function Lower(s: string): string {
    Map(LowerChar, s)
  }

  function Upper(s: string): string {
    Map(UpperChar, s)
  }

  function Dashed(s: string): string {
    Map(DashChar, s)
  }

  /** The first position from i on that holds no whitespace, or the end. */
  function SkipSpaces(s: string, i: nat): (k: nat)
    requires i <= |s|
    ensures i <= k <= |s| && (k < |s| ==> !IsSpace(s[k])) && forall j | i <= j < k :: IsSpace(s[j])
    decreases |s| - i
  {
    if i == |s| || !IsSpace(s[i]) then i else SkipSpaces(s, i + 1)
  }

  /** The end of s[..j] without its trailing whitespace. */
  function DropSpaces(s: string, j: nat): (k: nat)
    requires j <= |s|
    ensures k <= j && (0 < k ==> !IsSpace(s[k - 1])) && forall i | k <= i < j :: IsSpace(s[i])
  {
    if j == 0 || !IsSpace(s[j - 1]) then j else DropSpaces(s, j - 1)
  }

  function Strip(s: string): (t: string)
    ensures |t| <= |s|
    ensures Trimmed(t)
  {
    var i, j := SkipSpaces(s, 0), DropSpaces(s, |s|);
    if i < j then s[i..j] else ""
  }

  predicate Trimmed(s: string) {
    s != "" ==> !IsSpace(s[0]) && !IsSpace(s[|s| - 1])
  }

  /** Stripping removes nothing from a trimmed text. */
  lemma StripTrimmed(s: string)
    requires Trimmed(s)
    ensures Strip(s) == s
  {
  }

  /** `re.sub(r"\s+", " ", text)`, from position i on. */
  function CollapseFrom(s: string, i: nat): string
    requires i <= |s|
    decreases |s| - i
  {
    if i == |s| then ""
    else if IsSpace(s[i]) then [' '] + CollapseFrom(s, SkipSpaces(s, i))
    else [s[i]] + CollapseFrom(s, i + 1)
  }

  function Collapse(s: string): string {
    CollapseFrom(s, 0)
  }

  /** Whitespace occurs as single blanks only. */
  predicate SingleSpaced(s: string) {
    forall i | 0 <= i < |s| && IsSpace(s[i]) :: s[i] == ' ' && (i + 1 < |s| ==> !IsSpace(s[i + 1]))
  }

  lemma {:induction false} CollapseIsSingleSpaced(s: string, i: nat)
    requires i <= |s|
    ensures var t := CollapseFrom(s, i);
            && SingleSpaced(t)
            && (t == "" <==> i == |s|)
            && (i < |s| ==> (IsSpace(t[0]) <==> IsSpace(s[i])) && (IsSpace(t[|t| - 1]) <==> IsSpace(s[|s| - 1])))
    decreases |s| - i
  {
    if i < |s| {
      var k := if IsSpace(s[i]) then SkipSpaces(s, i) else i + 1;
      CollapseIsSingleSpaced(s, k);
      var head := if IsSpace(s[i]) then ' ' else s[i];
      var tail := CollapseFrom(s, k);
      assert CollapseFrom(s, i) == [head] + tail;
      assert forall j | 0 <= j < |tail| :: ([head] + tail)[j + 1] == tail[j];
    }
  }

  /** A character mapping that fixes the blank and every character of the text fixes the collapsed text. */
  lemma {:induction false} CollapseKeepsFixed(f: char -> char, s: string, i: nat)
    requires i <= |s| && f(' ') == ' ' && Map(f, s) == s
    ensures Map(f, CollapseFrom(s, i)) == CollapseFrom(s, i)
    decreases |s| - i
  {
    if i < |s| {
      var k := if IsSpace(s[i]) then SkipSpaces(s, i) else i + 1;
      CollapseKeepsFixed(f, s, k);
      assert f(s[i]) == Map(f, s)[i];
    }
  }

  lemma {:induction false} CollapseFixed(s: string, i: nat)
    requires SingleSpaced(s) && i <= |s|
    ensures CollapseFrom(s, i) == s[i..]
    decreases |s| - i
  {
    if i < |s| {
      CollapseFixed(s, i + 1);
      if IsSpace(s[i]) {
        assert SkipSpaces(s, i) == i + 1;
      }
    }
  }

  /** Unifying dashes and collapsing whitespace commute. */
  lemma {:induction false} DashCollapseCommute(s: string, i: nat)
    requires i <= |s|
    ensures CollapseFrom(Dashed(s), i) == Dashed(CollapseFrom(s, i))
    decreases |s| - i
  {
    if i < |s| {
      if IsSpace(s[i]) {
        SkipDashed(s, i);
        var k := SkipSpaces(s, i);
        DashCollapseCommute(s, k);
        assert Dashed([' '] + CollapseFrom(s, k)) == [' '] + Dashed(CollapseFrom(s, k));
      } else {
        DashCollapseCommute(s, i + 1);
        assert Dashed([s[i]] + CollapseFrom(s, i + 1)) == [DashChar(s[i])] + Dashed(CollapseFrom(s, i + 1));
      }
    }
  }

  lemma {:induction false} SkipDashed(s: string, i: nat)
    requires i <= |s|
    ensures SkipSpaces(Dashed(s), i) == SkipSpaces(s, i)
    decreases |s| - i
  {
    if i < |s| && IsSpace(s[i]) {
      SkipDashed(s, i + 1);
    }
  }

  // ----- what the operations do to a text made of parts

  const BLANKS := " \t\n\U{B}\U{C}\r\U{85}\U{A0}"
  const DASHES := "\U{2011}\U{2013}\U{2014}"

  /** The letters of the two alphabets answer each other in order, and nothing else has a case. */
  lemma CaseByLetter(k: nat, c: char)
    ensures k < 26 ==> LowerChar('A' + k as char) == 'a' + k as char && UpperChar('a' + k as char) == 'A' + k as char
    ensures LowerChar('Ä') == 'ä' && LowerChar('Ö') == 'ö' && LowerChar('Ü') == 'ü'
    ensures LowerChar(c) != c ==> 'A' <= c <= 'Z' || c in ['Ä', 'Ö', 'Ü']
    ensures UpperChar(c) != c ==> LowerChar(UpperChar(c)) == c
    ensures LowerChar(c) != c ==> UpperChar(LowerChar(c)) == c
  {
    assert ['Ä', 'Ö', 'Ü'][0] == 'Ä' && ['Ä', 'Ö', 'Ü'][1] == 'Ö' && ['Ä', 'Ö', 'Ü'][2] == 'Ü';
  }

  /** The blanks are these eight, and exactly the three dashes become the hyphen. */
  lemma BlanksAndDashes(c: char)
    ensures IsSpace(c) <==> c in BLANKS
    ensures DashChar(c) == if c in DASHES then '-' else c
  {
    assert BLANKS[0] == ' ' && BLANKS[1] == '\t' && BLANKS[2] == '\n' && BLANKS[3] == '\U{B}';
    assert BLANKS[4] == '\U{C}' && BLANKS[5] == '\r' && BLANKS[6] == '\U{85}' && BLANKS[7] == '\U{A0}';
    assert DASHES[0] == '\U{2011}' && DASHES[1] == '\U{2013}' && DASHES[2] == '\U{2014}';
  }

  predicate AllSpaces(s: string) {
    forall i | 0 <= i < |s| :: IsSpace(s[i])
  }

  predicate NoSpaces(s: string) {
    forall i | 0 <= i < |s| :: !IsSpace(s[i])
  }

  /** Stripping takes the blanks off both ends and nothing else. */
  lemma StripTakesEnds(lead: string, t: string, trail: string)
    requires AllSpaces(lead) && AllSpaces(trail) && Trimmed(t)
    ensures Strip(lead + t + trail) == t
  {
    var s := lead + t + trail;
    var i, j := SkipSpaces(s, 0), DropSpaces(s, |s|);
    if t != "" {
      assert s[|lead|] == t[0] && s[|lead| + |t| - 1] == t[|t| - 1];
      assert i == |lead| && j == |lead| + |t|;
    } else {
      assert forall k | 0 <= k < |s| :: IsSpace(s[k]);
    }
  }

  lemma {:induction false} CollapseLater(a: string, b: string, i: nat)
    requires i <= |b|
    ensures CollapseFrom(a + b, |a| + i) == CollapseFrom(b, i)
    decreases |b| - i
  {
    if i < |b| {
      if IsSpace(b[i]) {
        SkipLater(a, b, i);
        CollapseLater(a, b, SkipSpaces(b, i));
      } else {
        CollapseLater(a, b, i + 1);
      }
    }
  }

  lemma {:induction false} SkipLater(a: string, b: string, i: nat)
    requires i <= |b|
    ensures SkipSpaces(a + b, |a| + i) == |a| + SkipSpaces(b, i)
    decreases |b| - i
  {
    if i < |b| && IsSpace(b[i]) {
      SkipLater(a, b, i + 1);
    }
  }

  /** Collapsing keeps a word as it is ... */
  lemma {:induction false} CollapseKeepsWord(word: string, rest: string, i: nat)
    requires NoSpaces(word) && i <= |word|
    ensures CollapseFrom(word + rest, i) == word[i..] + Collapse(rest)
    decreases |word| - i
  {
    if i < |word| {
      CollapseKeepsWord(word, rest, i + 1);
    } else {
      CollapseLater(word, rest, 0);
    }
  }

  /** ... and makes any gap before a word or the end one blank. */
  lemma CollapseGap(gap: string, rest: string)
    requires AllSpaces(gap) && gap != "" && (rest != "" ==> !IsSpace(rest[0]))
    ensures Collapse(gap + rest) == " " + Collapse(rest)
  {
    var k := SkipSpaces(gap + rest, 0);
    assert rest != "" ==> (gap + rest)[|gap|] == rest[0];
    assert k == |gap|;
    CollapseLater(gap, rest, 0);
  }

  // ----- the four normalizers

  /** The bank builder's `normalize_text` and the ambiguity scan's `norm`: strip, lower, unify dashes, collapse. */
  function Normalize(s: string): string {
    Collapse(Dashed(Lower(Strip(s))))
  }

  /** The audit's `normalize`: strip, lower, collapse, unify dashes. */
  function AuditNormalize(s: string): string {
    Dashed(Collapse(Lower(Strip(s))))
  }

  /** The import's `_norm`: strip, lower, collapse; dashes are left alone. */
  function ImportNormalize(s: string): string {
    Collapse(Lower(Strip(s)))
  }

  /** The scan and the audit agree on every text, and both are the import's normal form with its dashes unified. */
  lemma NormalizersAgree(s: string)
    ensures Normalize(s) == AuditNormalize(s) == Dashed(ImportNormalize(s))
  {
    DashCollapseCommute(Lower(Strip(s)), 0);
  }

  /** What normalization produces, and leaves alone. */
  predicate IsNormal(s: string) {
    Trimmed(s) && SingleSpaced(s) && Lower(s) == s && Dashed(s) == s
  }

  lemma NormalizeIsNormal(s: string)
    ensures IsNormal(Normalize(s))
  {
    var t := LowerDashed(Strip(s));
    CollapseIsSingleSpaced(t, 0);
    CollapseKeepsFixed(LowerChar, t, 0);
    CollapseKeepsFixed(DashChar, t, 0);
  }

  /** Lowering and unifying dashes is idempotent and moves no whitespace. */
  lemma LowerDashed(s: string) returns (t: string)
    ensures t == Dashed(Lower(s))
    ensures Lower(t) == t && Dashed(t) == t
    ensures Trimmed(s) ==> Trimmed(t)
  {
    t := Dashed(Lower(s));
    assert forall i | 0 <= i < |s| :: t[i] == DashChar(LowerChar(s[i]));
  }

  lemma NormalFixed(s: string)
    requires IsNormal(s)
    ensures Normalize(s) == s
  {
    StripTrimmed(s);
    CollapseFixed(s, 0);
  }

  /** Stripping first changes no normal form. */
  lemma NormalizeStripped(s: string)
    ensures Normalize(Strip(s)) == Normalize(s) && ImportNormalize(Strip(s)) == ImportNormalize(s)
  {
    StripTrimmed(Strip(s));
  }

  lemma SliceOfNormal(s: string, i: nat, j: nat)
    requires IsNormal(s) && i <= j <= |s|
    ensures SingleSpaced(s[i..j]) && Lower(s[i..j]) == s[i..j] && Dashed(s[i..j]) == s[i..j]
  {
    forall k | 0 <= k < j - i
      ensures s[i..j][k] == s[i + k] == Lower(s)[i + k] == Dashed(s)[i + k]
    {
    }
  }

  /** Any suffix of a normal text is normal again once stripped. */
  lemma SuffixNormal(s: string, i: nat)
    requires IsNormal(s) && i <= |s|
    ensures IsNormal(Strip(s[i..]))
  {
    var t := s[i..];
    var a, b := SkipSpaces(t, 0), DropSpaces(t, |t|);
    if a < b {
      assert Strip(t) == s[i + a..i + b];
      SliceOfNormal(s, i + a, i + b);
    }
  }
}
