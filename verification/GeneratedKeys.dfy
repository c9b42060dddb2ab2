/** The bank builder's family check on its own output: what `key_family` makes of the generated keys. */
module GeneratedKeys {
  import opened BankBuilder
  import opened BankOutput
  import opened Decimal
  import opened Sorting
  import opened Text

  /** A family that is nothing but a version tag: v and digits. */
  predicate BareVersion(f: string) {
    2 <= |f| && f[0] == 'v' && AllDigits(f[1..])
  }

  /** What `key_family` can return: lower-cased, no leading whitespace. */
  predicate FamilyShaped(f: string) {
    Lower(f) == f && (f != "" ==> !IsSpace(f[0]))
  }

  /** Cutting off an end keeps the shape. */
  lemma ShapedPrefix(s: string, n: nat)
    requires FamilyShaped(s) && n <= |s|
    ensures FamilyShaped(s[..n])
  {
    assert forall i | 0 <= i < n :: Lower(s[..n])[i] == Lower(s)[i] == s[i];
  }

  lemma LowerShaped(t: string)
    requires Trimmed(t)
    ensures FamilyShaped(Lower(t))
  {
    assert forall i | 0 <= i < |t| :: Lower(t)[i] == LowerChar(t[i]);
  }

  lemma KeyFamilyShaped(value: string)
    ensures FamilyShaped(KeyFamily(value))
  {
    var s := Lower(Strip(value));
    LowerShaped(Strip(value));
    ShapedPrefix(s, |DropVersion(s)|);
    ShapedPrefix(DropVersion(s), |KeyFamily(value)|);
  }

  /** s ends in t, and a joiner stands right before t. */
  ghost predicate JoinedAt(s: string, m: nat, t: string) {
    1 <= m && |s| == m + |t| && s[m - 1] == '_' && forall i | 0 <= i < |t| :: s[m + i] == t[i]
  }

  lemma {:induction false} DigitsFromBehind(s: string, m: nat, t: string, j: nat)
    requires JoinedAt(s, m, t) && j <= |t|
    ensures DigitsFrom(s, m + j) == m + DigitsFrom(t, j)
  {
    if j != 0 {
      assert s[m + (j - 1)] == t[j - 1];
      DigitsFromBehind(s, m, t, j - 1);
    }
  }

  lemma NumberStartBehind(s: string, m: nat, t: string)
    requires JoinedAt(s, m, t)
    ensures NumberStart(s) == if t != "" && AllDigits(t) then m - 1 else m + NumberStart(t)
  {
    var k := DigitsFrom(t, |t|);
    DigitsFromBehind(s, m, t, |t|);
    if 1 <= k {
      assert s[m + (k - 1)] == t[k - 1];
    }
  }

  lemma VersionStartBehind(s: string, m: nat, t: string)
    requires JoinedAt(s, m, t)
    ensures VersionStart(s) == if BareVersion(t) then m - 1 else m + VersionStart(t)
  {
    var k := DigitsFrom(t, |t|);
    DigitsFromBehind(s, m, t, |t|);
    BareVersionIff(t);
    if 1 <= k {
      assert s[m + (k - 1)] == t[k - 1];
    }
    if 2 <= k {
      assert s[m + (k - 2)] == t[k - 2];
    }
  }

  lemma Joined(h: string, t: string)
    requires h != "" && h[|h| - 1] == '_'
    ensures JoinedAt(h + t, |h|, t)
  {
  }

  lemma CutJoined(h: string, t: string, n: nat)
    requires n <= |h| + |t|
    ensures (h + t)[..n] == if n <= |h| then h[..n] else h + t[..n - |h|]
  {
  }

  /** Dropping a suffix from head + tail, where the head ends in a joiner, happens inside the tail or takes all of it. */
  lemma DropNumberBehind(h: string, t: string)
    requires h != "" && h[|h| - 1] == '_'
    ensures DropNumber(h + t) == if t != "" && AllDigits(t) then h[..|h| - 1] else h + DropNumber(t)
  {
    Joined(h, t);
    NumberStartBehind(h + t, |h|, t);
    CutJoined(h, t, NumberStart(h + t));
  }

  lemma DropVersionBehind(h: string, t: string)
    requires h != "" && h[|h| - 1] == '_'
    ensures DropVersion(h + t) == if BareVersion(t) then h[..|h| - 1] else h + DropVersion(t)
  {
    Joined(h, t);
    VersionStartBehind(h + t, |h|, t);
    CutJoined(h, t, VersionStart(h + t));
  }

  lemma BareVersionIff(t: string)
    ensures BareVersion(t) <==> 2 <= |t| && t[0] == 'v' && DigitsFrom(t, |t|) == 1
  {
    var k := DigitsFrom(t, |t|);
    if 2 <= |t| {
      assert forall i | 0 <= i < |t| - 1 :: t[1..][i] == t[i + 1];
      if 1 < k {
        assert !IsDigit(t[1..][k - 2]);
      }
    }
  }

  /** The head of every generated key. */
  function Head(idx: nat): string {
    QuizId(idx) + "_"
  }

  lemma QuizIdDrops(idx: nat)
    ensures DropNumber(QuizId(idx)) == "logik500"
  {
    DropNumberBehind(QUIZ_PREFIX, Padded(idx, 4));
  }

  lemma StripShaped(f: string)
    requires f != "" ==> !IsSpace(f[0])
    ensures Strip(f) == f[..DropSpaces(f, |f|)]
  {
    if f != "" {
      assert SkipSpaces(f, 0) == 0;
    }
  }

  lemma StripBehind(h: string, f: string)
    requires h != "" && Trimmed(h) && (f != "" ==> !IsSpace(f[0]))
    ensures Strip(h + f) == h + Strip(f)
  {
    DropSpacesBehind(h, f, |f|);
    StripShaped(f);
    StripShaped(h + f);
  }

  /** Stripping and lowering a generated key only strips the family's own trailing whitespace. */
  lemma KeyNormalForm(idx: nat, f: string)
    requires FamilyShaped(f)
    ensures Lower(Strip(OutputKey(idx, f))) == Head(idx) + Strip(f)
  {
    var h, n := Head(idx), DropSpaces(f, |f|);
    assert h[0] == 'l' && h[|h| - 1] == '_';
    StripBehind(h, f);
    StripShaped(f);
    LowerHead(idx);
    LowerJoined(h, f[..n]);
    ShapedPrefix(f, n);
  }

  lemma LowerJoined(h: string, t: string)
    ensures Lower(h + t) == Lower(h) + Lower(t)
  {
  }

  lemma {:induction false} DropSpacesBehind(h: string, t: string, j: nat)
    requires h != "" && !IsSpace(h[|h| - 1]) && j <= |t|
    ensures DropSpaces(h + t, |h| + j) == |h| + DropSpaces(t, j)
  {
    if j != 0 {
      assert (h + t)[|h| + j - 1] == t[j - 1];
      DropSpacesBehind(h, t, j - 1);
    }
  }

  lemma LowerHead(idx: nat)
    ensures Lower(Head(idx)) == Head(idx)
  {
    var h, p := Head(idx), Padded(idx, 4);
    assert h == QUIZ_PREFIX + p + "_";
    forall i | 0 <= i < |h|
      ensures LowerChar(h[i]) == h[i]
    {
      if i < |QUIZ_PREFIX| {
        assert h[i] == QUIZ_PREFIX[i];
        assert h[i] in "logik50_";
      } else if i < |h| - 1 {
        assert h[i] == p[i - |QUIZ_PREFIX|] && IsDigit(h[i]);
      }
    }
  }

  /** The family of a generated key: it keeps the number unless the item's family was a bare version tag. */
  lemma FamilyOfOutputKey(idx: nat, f: string)
    requires FamilyShaped(f)
    ensures var t := Strip(f);
            var u := DropVersion(t);
            KeyFamily(OutputKey(idx, f)) == if BareVersion(t) then "logik500"
                                            else if u != "" && AllDigits(u) then QuizId(idx)
                                            else OutputKey(idx, DropNumber(u))
  {
    var t, h := Strip(f), Head(idx);
    KeyNormalForm(idx, f);
    DropVersionBehind(h, t);
    assert h[..|h| - 1] == QuizId(idx);
    QuizIdDrops(idx);
    DropNumberBehind(h, DropVersion(t));
  }

  /**
   The duplicate-family check after numbering: two generated keys of different items clash exactly when both items' families
   are bare version tags (up to trailing whitespace), however distinct those are.
   */
  lemma FamilyClashIff(a: nat, b: nat, f: string, g: string)
    requires a != b && FamilyShaped(f) && FamilyShaped(g)
    ensures KeyFamily(OutputKey(a, f)) == KeyFamily(OutputKey(b, g)) <==> BareVersion(Strip(f)) && BareVersion(Strip(g))
  {
    FamilyOfOutputKey(a, f);
    FamilyOfOutputKey(b, g);
    var x, y := KeyFamily(OutputKey(a, f)), KeyFamily(OutputKey(b, g));
    QuizIdLength(a);
    QuizIdLength(b);
    if x == y && !(BareVersion(Strip(f)) && BareVersion(Strip(g))) {
      if x == QuizId(a) && y == QuizId(b) {
        QuizIdInjective(a, b);
      } else if x == QuizId(a) {
        QuizIdIsNoKey(a, b, DropNumber(DropVersion(Strip(g))));
      } else if y == QuizId(b) {
        QuizIdIsNoKey(b, a, DropNumber(DropVersion(Strip(f))));
      } else {
        OutputKeyInjective(a, b, DropNumber(DropVersion(Strip(f))), DropNumber(DropVersion(Strip(g))));
      }
    }
  }

  lemma QuizIdLength(idx: nat)
    ensures |QuizId(idx)| > |"logik500"|
  {
  }

  lemma QuizIdInjective(a: nat, b: nat)
    requires QuizId(a) == QuizId(b)
    ensures a == b
  {
    var p, q := Padded(a, 4), Padded(b, 4);
    assert QuizId(a)[|QUIZ_PREFIX|..] == p && QuizId(b)[|QUIZ_PREFIX|..] == q;
    PaddedInjective(a, b, 4);
  }

  /** A bare quiz id is no generated key: behind the prefix it has digits only. */
  lemma QuizIdIsNoKey(a: nat, b: nat, g: string)
    ensures QuizId(a) != OutputKey(b, g)
  {
    var n, q, key := |QUIZ_PREFIX|, Padded(b, 4), OutputKey(b, g);
    assert key[n + |q|] == '_';
    if |key| == |QuizId(a)| {
      assert QuizId(a)[n + |q|] == Padded(a, 4)[|q|];
    }
  }

  /** Under this family function, two generated keys clash exactly when both items' families are bare. */
  ghost predicate ClashesAreBare(family: string -> string, bare: string -> bool) {
    forall a: nat, b: nat, f, g | a != b && FamilyShaped(f) && FamilyShaped(g) ::
      family(OutputKey(a, f)) == family(OutputKey(b, g)) <==> bare(f) && bare(g)
  }

  lemma FamilyAt(family: string -> string, items: seq<Item>, i: nat)
    requires i < |items|
    ensures FamiliesOf(family, OutRows(items))[i] == family(OutputKey(i + 1, items[i].family))
  {
  }

  lemma RepeatsIffBarePair(family: string -> string, bare: string -> bool, items: seq<Item>)
    requires ClashesAreBare(family, bare)
    requires forall i | 0 <= i < |items| :: FamilyShaped(items[i].family)
    ensures HasRepeats(FamiliesOf(family, OutRows(items)))
       <==> exists i, j | 0 <= i < j < |items| :: bare(items[i].family) && bare(items[j].family)
  {
    var families := FamiliesOf(family, OutRows(items));
    forall i, j | 0 <= i < j < |items|
      ensures families[i] == families[j] <==> bare(items[i].family) && bare(items[j].family)
    {
      FamilyAt(family, items, i);
      FamilyAt(family, items, j);
    }
  }

  predicate IsBare(f: string) {
    BareVersion(Strip(f))
  }

  lemma BareClashes()
    ensures ClashesAreBare(KeyFamily, IsBare)
  {
    forall a: nat, b: nat, f, g | a != b && FamilyShaped(f) && FamilyShaped(g)
      ensures KeyFamily(OutputKey(a, f)) == KeyFamily(OutputKey(b, g)) <==> IsBare(f) && IsBare(g)
    {
      FamilyClashIff(a, b, f, g);
    }
  }

  /** So the check on the output fires exactly when two selected items have bare version tags for families. */
  lemma FamilyCheckFiresIff(items: seq<Item>)
    requires forall i | 0 <= i < |items| :: FamilyShaped(items[i].family)
    ensures HasRepeats(FamiliesOf(KeyFamily, OutRows(items)))
       <==> exists i, j | 0 <= i < j < |items| :: IsBare(items[i].family) && IsBare(items[j].family)
  {
    BareClashes();
    RepeatsIffBarePair(KeyFamily, IsBare, items);
  }
}
