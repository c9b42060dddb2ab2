/**
 The question signature: the normalized stem with its instruction cues ("was passt logisch?" and the like) and leading
 separators stripped until a pass over the cue list changes nothing.
 */
module CueStripping {
  import opened Text

  predicate IsSeparator(c: char) {
    c in ":-,; "
  }

  /** A cue list: no cue is empty or begins with a separator. */
  type Cues = cues: seq<string> | forall k | 0 <= k < |cues| :: cues[k] != "" && !IsSeparator(cues[k][0]) witness []

  const CUE_PREFIXES: Cues := [
    "was passt logisch?",
    "was passt inhaltlich?",
    "was passt semantisch?",
    "sinnvoll ergänzen:",
    "sinnvoll ergaenzen:",
    "inhaltlich richtig:",
    "inhaltlich logisch:",
    "inhaltlich stimmig ergänzen:",
    "inhaltlich stimmig ergaenzen:",
    "logisch ergänzen:",
    "logisch ergaenzen:"
  ]

  function SkipSeparators(s: string, i: nat): (k: nat)
    requires i <= |s|
    ensures i <= k <= |s| && (k < |s| ==> !IsSeparator(s[k]))
    ensures k == i <==> i == |s| || !IsSeparator(s[i])
    decreases |s| - i
  {
    if i == |s| || !IsSeparator(s[i]) then i else SkipSeparators(s, i + 1)
  }

  /** `text.lstrip(":-,; ").strip()`. */
  function DropSeparators(s: string): (t: string)
    ensures |t| <= |s|
  {
    Strip(s[SkipSeparators(s, 0)..])
  }

  /** One cue, with a following blank if there is one, taken off the front. */
  function StripCue(text: string, cue: string): (t: string)
    ensures |t| <= |text| && (cue <= text && cue != "" ==> |t| < |text|) && (!(cue <= text) ==> t == text)
  {
    if cue + " " <= text then Strip(text[|cue| + 1..])
    else if cue <= text then Strip(text[|cue|..])
    else text
  }

  /** One pass over the cue list from position k on. */
  function Pass(cues: Cues, text: string, k: nat): string
    requires k <= |cues|
    decreases |cues| - k
  {
    if k == |cues| then text else Pass(cues, StripCue(text, cues[k]), k + 1)
  }

  /** Whether that pass strips anything. */
  predicate Changes(cues: Cues, text: string, k: nat)
    requires k <= |cues|
    decreases |cues| - k
  {
    k < |cues| && (cues[k] <= text || Changes(cues, StripCue(text, cues[k]), k + 1))
  }

  /** A pass never lengthens the text, shortens it when it strips a cue, and otherwise leaves it alone. */
  lemma {:induction false} PassShrinks(cues: Cues, text: string, k: nat)
    requires k <= |cues|
    ensures |Pass(cues, text, k)| <= |text|
    ensures Changes(cues, text, k) ==> |Pass(cues, text, k)| < |text|
    ensures !Changes(cues, text, k) ==> Pass(cues, text, k) == text && forall j | k <= j < |cues| :: !(cues[j] <= text)
    decreases |cues| - k
  {
    if k < |cues| {
      PassShrinks(cues, StripCue(text, cues[k]), k + 1);
    }
  }

  /** The whole rewriting loop; it terminates because every repeated pass has shortened the text. */
  function StripCues(cues: Cues, text: string): string
    decreases |text|
  {
    PassShrinks(cues, text, 0);
    var t := DropSeparators(Pass(cues, text, 0));
    if Changes(cues, text, 0) then StripCues(cues, t) else t
  }

  function Signature(cues: Cues, value: string): string {
    StripCues(cues, Normalize(value))
  }

  /** One cue test as the builder runs it. */
  method TakeCue(start: string, cue: string) returns (text: string, found: bool)
    ensures text == StripCue(start, cue) && found == (cue <= start)
  {
    text, found := start, false;
    if cue + " " <= text {
      assert cue <= cue + " ";
      text := Strip(text[|cue| + 1..]);
      found := true;
    } else if cue <= text {
      text := Strip(text[|cue|..]);
      found := true;
    }
  }

  /** One pass as the builder runs it. */
  method RunPass(cues: Cues, start: string) returns (text: string, changed: bool)
    ensures text == Pass(cues, start, 0) && changed == Changes(cues, start, 0)
  {
    text, changed := start, false;
    for k := 0 to |cues|
      invariant Pass(cues, text, k) == Pass(cues, start, 0)
      invariant (changed || Changes(cues, text, k)) == Changes(cues, start, 0)
    {
      var found;
      text, found := TakeCue(text, cues[k]);
      changed := changed || found;
    }
  }

  /** The whole loop as the builder runs it. */
  method ComputeSignature(cues: Cues, value: string) returns (text: string)
    ensures text == Signature(cues, value)
  {
    text := Normalize(value);
    var changed := true;
    while changed
      invariant (if changed then StripCues(cues, text) else text) == Signature(cues, value)
      decreases changed, |text|
    {
      PassShrinks(cues, text, 0);
      text, changed := RunPass(cues, text);
      text := DropSeparators(text);
    }
  }

  predicate StartsWithSeparator(s: string) {
    s != "" && (s[0] == ':' || s[0] == '-' || s[0] == ',' || s[0] == ';' || s[0] == ' ')
  }

  predicate StartsWithCue(cues: Cues, s: string) {
    exists k | 0 <= k < |cues| :: cues[k] <= s
  }

  /** A text the rewriting leaves alone. */
  predicate Settled(cues: Cues, s: string) {
    IsNormal(s) && !StartsWithSeparator(s) && !StartsWithCue(cues, s)
  }

  lemma DropSeparatorsNormal(s: string)
    requires IsNormal(s)
    ensures IsNormal(DropSeparators(s)) && !StartsWithSeparator(DropSeparators(s))
    ensures !StartsWithSeparator(s) ==> DropSeparators(s) == s
  {
    var k := SkipSeparators(s, 0);
    SuffixNormal(s, k);
    if k < |s| {
      StripTrimmed(s[k..]);
    }
  }

  lemma {:induction false} PassNormal(cues: Cues, text: string, k: nat)
    requires IsNormal(text) && k <= |cues|
    ensures IsNormal(Pass(cues, text, k))
    decreases |cues| - k
  {
    if k < |cues| {
      StripCueNormal(text, cues[k]);
      PassNormal(cues, StripCue(text, cues[k]), k + 1);
    }
  }

  lemma ChangesIffCue(cues: Cues, text: string)
    ensures Changes(cues, text, 0) <== StartsWithCue(cues, text)
    ensures !Changes(cues, text, 0) ==> Pass(cues, text, 0) == text
  {
    PassShrinks(cues, text, 0);
  }

  /** From a normal text without a leading separator, or whenever the first pass strips a cue, the loop settles. */
  lemma {:induction false} StripCuesSettles(cues: Cues, text: string)
    requires IsNormal(text)
    ensures IsNormal(StripCues(cues, text)) && !StartsWithSeparator(StripCues(cues, text))
    ensures !StartsWithSeparator(text) || Changes(cues, text, 0) ==> Settled(cues, StripCues(cues, text))
    ensures Settled(cues, text) ==> StripCues(cues, text) == text
    ensures !StartsWithSeparator(text) && StartsWithCue(cues, text) ==> |StripCues(cues, text)| < |text|
    decreases |text|
  {
    PassShrinks(cues, text, 0);
    PassNormal(cues, text, 0);
    DropSeparatorsNormal(Pass(cues, text, 0));
    ChangesIffCue(cues, text);
    var t := DropSeparators(Pass(cues, text, 0));
    if Changes(cues, text, 0) {
      StripCuesSettles(cues, t);
      StripCuesNoLonger(cues, t);
    } else {
      assert !StartsWithCue(cues, text);
    }
    if Settled(cues, text) {
      NoCueNoChange(cues, text, 0);
    }
  }

  lemma {:induction false} NoCueNoChange(cues: Cues, text: string, k: nat)
    requires k <= |cues| && forall j | k <= j < |cues| :: !(cues[j] <= text)
    ensures !Changes(cues, text, k)
    decreases |cues| - k
  {
    if k < |cues| {
      NoCueNoChange(cues, text, k + 1);
    }
  }

  lemma {:induction false} StripCuesNoLonger(cues: Cues, text: string)
    ensures |StripCues(cues, text)| <= |text|
    decreases |text|
  {
    PassShrinks(cues, text, 0);
    if Changes(cues, text, 0) {
      StripCuesNoLonger(cues, DropSeparators(Pass(cues, text, 0)));
    }
  }

  /** The signature of a signature is the rewriting loop run once more: normalization has nothing left to do. */
  lemma SignatureIsNormal(cues: Cues, value: string)
    ensures IsNormal(Signature(cues, value)) && !StartsWithSeparator(Signature(cues, value))
    ensures Normalize(Signature(cues, value)) == Signature(cues, value)
  {
    NormalizeIsNormal(value);
    StripCuesSettles(cues, Normalize(value));
    NormalFixed(Signature(cues, value));
  }

  /** Two applications always reach a fixpoint: a third changes nothing. */
  lemma SignatureTwiceIsFixpoint(cues: Cues, value: string)
    ensures Settled(cues, Signature(cues, Signature(cues, value)))
    ensures Signature(cues, Signature(cues, Signature(cues, value))) == Signature(cues, Signature(cues, value))
  {
    SignatureIsNormal(cues, value);
    SignatureIsNormal(cues, Signature(cues, value));
    StripCuesSettles(cues, Signature(cues, value));
    StripCuesSettles(cues, Signature(cues, Signature(cues, value)));
  }

  // ----- what comes off

  /** No cue begins another. */
  ghost predicate PrefixFree(cues: Cues) {
    forall j, k | 0 <= j < |cues| && 0 <= k < |cues| && j != k :: !(cues[j] <= cues[k])
  }

  /** The text is t behind any number of cues and separators. */
  ghost predicate Behind(cues: Cues, text: string, t: string)
    decreases |text|
  {
    || text == t
    || (StartsWithSeparator(text) && Behind(cues, text[1..], t))
    || (exists k | 0 <= k < |cues| :: cues[k] <= text && Behind(cues, text[|cues[k]|..], t))
  }

  /** Of a prefix-free list at most one cue begins a text. */
  lemma OnlyCue(cues: Cues, text: string, j: nat, k: nat)
    requires PrefixFree(cues) && j < |cues| && k < |cues| && cues[j] <= text && cues[k] <= text
    ensures j == k
  {
    PrefixesCompare(cues[j], cues[k], text);
  }

  lemma PrefixesCompare(a: string, b: string, text: string)
    requires a <= text && b <= text
    ensures a <= b || b <= a
  {
  }

  lemma NoCueAtSeparator(cues: Cues, text: string)
    requires StartsWithSeparator(text)
    ensures !StartsWithCue(cues, text)
  {
    assert forall k | 0 <= k < |cues| :: cues[k][0] != text[0];
  }

  lemma {:induction false} BehindEnds(cues: Cues, text: string, t: string)
    requires Behind(cues, text, t) && t != ""
    ensures text != "" && text[|text| - 1] == t[|t| - 1]
    decreases |text|
  {
    if text != t {
      if StartsWithSeparator(text) && Behind(cues, text[1..], t) {
        BehindEnds(cues, text[1..], t);
      } else {
        var k :| 0 <= k < |cues| && cues[k] <= text && Behind(cues, text[|cues[k]|..], t);
        BehindEnds(cues, text[|cues[k]|..], t);
      }
    }
  }

  /** A separator in front belongs to the stack, not to a cue or to t. */
  lemma BehindSeparator(cues: Cues, text: string, t: string)
    requires Behind(cues, text, t) && StartsWithSeparator(text) && Settled(cues, t)
    ensures Behind(cues, text[1..], t)
  {
    NoCueAtSeparator(cues, text);
  }

  /** So does a cue in front, where the list is prefix-free. */
  lemma BehindCue(cues: Cues, text: string, t: string, k: nat)
    requires Behind(cues, text, t) && PrefixFree(cues) && Settled(cues, t) && k < |cues| && cues[k] <= text
    ensures Behind(cues, text[|cues[k]|..], t)
  {
    if StartsWithSeparator(text) {
      NoCueAtSeparator(cues, text);
    }
    var j :| 0 <= j < |cues| && cues[j] <= text && Behind(cues, text[|cues[j]|..], t);
    OnlyCue(cues, text, j, k);
  }

  /** With neither in front, the stack is bare. */
  lemma BehindNothing(cues: Cues, text: string, t: string)
    requires Behind(cues, text, t) && !StartsWithSeparator(text) && !StartsWithCue(cues, text)
    ensures text == t
  {
  }

  /** The texts from which a separator may be taken, and which end in something else than a blank. */
  ghost predicate Peelable(b: string -> bool) {
    && (forall u | b(u) && StartsWithSeparator(u) :: b(u[1..]))
    && (forall u | b(u) :: u != "" && !IsSpace(u[|u| - 1]))
  }

  lemma BehindPeelable(cues: Cues, t: string)
    requires t != "" && Settled(cues, t)
    ensures Peelable(u => Behind(cues, u, t))
  {
    forall u | Behind(cues, u, t)
      ensures u != "" && !IsSpace(u[|u| - 1])
      ensures StartsWithSeparator(u) ==> Behind(cues, u[1..], t)
    {
      BehindEnds(cues, u, t);
      if StartsWithSeparator(u) {
        BehindSeparator(cues, u, t);
      }
    }
  }

  lemma {:induction false} PeelSeparators(b: string -> bool, text: string, i: nat)
    requires Peelable(b) && i <= |text| && b(text[i..])
    ensures b(text[SkipSeparators(text, i)..])
    decreases |text| - i
  {
    if i < |text| && IsSeparator(text[i]) {
      assert text[i..][1..] == text[i + 1..];
      PeelSeparators(b, text, i + 1);
    }
  }

  lemma {:induction false} PeelBlanks(b: string -> bool, text: string, i: nat)
    requires Peelable(b) && SingleSpaced(text) && i <= |text| && b(text[i..])
    ensures b(text[SkipSpaces(text, i)..])
    decreases |text| - i
  {
    if i < |text| && IsSpace(text[i]) {
      assert text[i..][1..] == text[i + 1..];
      PeelBlanks(b, text, i + 1);
    }
  }

  lemma PeelStrip(b: string -> bool, text: string)
    requires Peelable(b) && SingleSpaced(text) && b(text)
    ensures b(Strip(text))
  {
    assert text[0..] == text;
    PeelBlanks(b, text, 0);
    var i := SkipSpaces(text, 0);
    assert text[i..] != "" && DropSpaces(text, |text|) == |text|;
    assert Strip(text) == text[i..];
  }

  lemma PeelDropSeparators(b: string -> bool, text: string)
    requires Peelable(b) && IsNormal(text) && b(text)
    ensures b(DropSeparators(text))
  {
    assert text[0..] == text;
    PeelSeparators(b, text, 0);
    PeelSuffix(b, text, SkipSeparators(text, 0));
  }

  lemma PeelSuffix(b: string -> bool, text: string, n: nat)
    requires Peelable(b) && IsNormal(text) && n <= |text| && b(text[n..])
    ensures b(Strip(text[n..]))
  {
    SliceOfNormal(text, n, |text|);
    assert text[n..|text|] == text[n..];
    PeelStrip(b, text[n..]);
  }

  lemma PeelBlank(b: string -> bool, text: string, n: nat)
    requires Peelable(b) && n < |text| && b(text[n..]) && text[n] == ' '
    ensures b(text[n + 1..])
  {
    assert text[n..][1..] == text[n + 1..];
  }

  lemma PeelStripCue(b: string -> bool, text: string, cue: string)
    requires Peelable(b) && IsNormal(text) && cue <= text && b(text[|cue|..])
    ensures b(StripCue(text, cue))
  {
    var n := |cue|;
    if cue + " " <= text {
      assert (cue + " ")[n] == ' ';
      PeelBlank(b, text, n);
      PeelSuffix(b, text, n + 1);
    } else {
      PeelSuffix(b, text, n);
    }
  }

  lemma StripCueNormal(text: string, cue: string)
    requires IsNormal(text)
    ensures IsNormal(StripCue(text, cue))
  {
    if cue <= text {
      SuffixNormal(text, |cue|);
      if cue + " " <= text {
        SuffixNormal(text, |cue| + 1);
      }
    }
  }

  lemma {:induction false} PassBehind(cues: Cues, text: string, t: string, k: nat)
    requires PrefixFree(cues) && IsNormal(text) && t != "" && Settled(cues, t) && Behind(cues, text, t)
    requires k <= |cues|
    ensures Behind(cues, Pass(cues, text, k), t)
    decreases |cues| - k
  {
    if k < |cues| {
      StripCueNormal(text, cues[k]);
      if cues[k] <= text {
        BehindCue(cues, text, t, k);
        BehindPeelable(cues, t);
        PeelStripCue(u => Behind(cues, u, t), text, cues[k]);
      }
      PassBehind(cues, StripCue(text, cues[k]), t, k + 1);
    }
  }

  /** Any stack of cues and separators, with a cue outermost, comes off and leaves exactly the text behind it. */
  lemma {:induction false} StackComesOff(cues: Cues, text: string, t: string)
    requires PrefixFree(cues) && IsNormal(text) && t != "" && Settled(cues, t) && Behind(cues, text, t)
    requires !StartsWithSeparator(text)
    ensures StripCues(cues, text) == t
    decreases |text|
  {
    PassShrinks(cues, text, 0);
    PassNormal(cues, text, 0);
    PassBehind(cues, text, t, 0);
    var passed := Pass(cues, text, 0);
    BehindPeelable(cues, t);
    PeelDropSeparators(u => Behind(cues, u, t), passed);
    DropSeparatorsNormal(passed);
    if Changes(cues, text, 0) {
      StackComesOff(cues, DropSeparators(passed), t);
    } else {
      ChangesIffCue(cues, text);
      BehindNothing(cues, text, t);
    }
  }

  /** So a normal question behind a cue, one blank and whatever other cues and separators has the signature of the question. */
  lemma SignatureOfStack(cues: Cues, value: string, t: string)
    requires PrefixFree(cues) && t != "" && Settled(cues, t) && Behind(cues, Normalize(value), t)
    requires !StartsWithSeparator(Normalize(value))
    ensures Signature(cues, value) == t
  {
    NormalizeIsNormal(value);
    StackComesOff(cues, Normalize(value), t);
  }

  predicate SetApart(a: string, b: string) {
    !(a <= b) && !(b <= a)
  }

  lemma ApartAt(a: string, b: string, i: nat)
    requires i < |a| && i < |b| && a[i] != b[i]
    ensures SetApart(a, b)
  {
  }

  /** A letter of each of the builder's cues by which it differs from the others with the same first letter. */
  lemma BuilderCueLetters()
    ensures |CUE_PREFIXES| == 11
    ensures CUE_PREFIXES[0][0] == CUE_PREFIXES[1][0] == CUE_PREFIXES[2][0] == 'w'
    ensures |CUE_PREFIXES[0]| > 10 && |CUE_PREFIXES[1]| > 10 && |CUE_PREFIXES[2]| > 10
    ensures CUE_PREFIXES[0][10] == 'l' && CUE_PREFIXES[1][10] == 'i' && CUE_PREFIXES[2][10] == 's'
    ensures CUE_PREFIXES[3][0] == CUE_PREFIXES[4][0] == 's' && |CUE_PREFIXES[3]| > 12 && |CUE_PREFIXES[4]| > 12
    ensures CUE_PREFIXES[3][12] == 'ä' && CUE_PREFIXES[4][12] == 'a'
    ensures CUE_PREFIXES[5][0] == CUE_PREFIXES[6][0] == CUE_PREFIXES[7][0] == CUE_PREFIXES[8][0] == 'i'
    ensures |CUE_PREFIXES[5]| > 11 && |CUE_PREFIXES[6]| > 11 && |CUE_PREFIXES[7]| > 22 && |CUE_PREFIXES[8]| > 22
    ensures CUE_PREFIXES[5][11] == 'r' && CUE_PREFIXES[6][11] == 'l' && CUE_PREFIXES[7][11] == CUE_PREFIXES[8][11] == 's'
    ensures CUE_PREFIXES[7][22] == 'ä' && CUE_PREFIXES[8][22] == 'a'
    ensures CUE_PREFIXES[9][0] == CUE_PREFIXES[10][0] == 'l' && |CUE_PREFIXES[9]| > 11 && |CUE_PREFIXES[10]| > 11
    ensures CUE_PREFIXES[9][11] == 'ä' && CUE_PREFIXES[10][11] == 'a'
  {
  }

  lemma BuilderCuesApart(j: nat, k: nat)
    requires j < k < |CUE_PREFIXES|
    ensures SetApart(CUE_PREFIXES[j], CUE_PREFIXES[k])
  {
    BuilderCueLetters();
    var i := if CUE_PREFIXES[j][0] != CUE_PREFIXES[k][0] then 0
             else if k <= 2 then 10 else if k <= 4 then 12 else if j == 7 then 22 else 11;
    ApartAt(CUE_PREFIXES[j], CUE_PREFIXES[k], i);
  }

  lemma BuilderCuesPrefixFree()
    ensures PrefixFree(CUE_PREFIXES)
  {
    forall j, k | 0 <= j < |CUE_PREFIXES| && 0 <= k < |CUE_PREFIXES| && j != k
      ensures !(CUE_PREFIXES[j] <= CUE_PREFIXES[k])
    {
      BuilderCuesApart(if j < k then j else k, if j < k then k else j);
    }
  }

  /** The builder's cues come off so: behind any of them and a blank, a settled question is its own signature. */
  lemma BuilderCueComesOff(value: string, k: nat, t: string)
    requires k < |CUE_PREFIXES| && t != "" && Settled(CUE_PREFIXES, t)
    requires Normalize(value) == CUE_PREFIXES[k] + " " + t
    ensures Signature(CUE_PREFIXES, value) == t
  {
    BuilderCuesPrefixFree();
    BehindCueAndBlank(CUE_PREFIXES, k, t);
    SignatureOfStack(CUE_PREFIXES, value, t);
  }

  lemma BehindCueAndBlank(cues: Cues, k: nat, t: string)
    requires k < |cues|
    ensures Behind(cues, cues[k] + " " + t, t) && !StartsWithSeparator(cues[k] + " " + t)
  {
    var text := cues[k] + " " + t;
    assert text[|cues[k]|..] == " " + t;
    assert (" " + t)[1..] == t;
    assert Behind(cues, t, t);
    assert Behind(cues, " " + t, t);
  }

  /** A separator in front of a cue: the pass that could strip the cue has already run when the separator goes. */
  predicate HiddenCue(cues: Cues, normalized: string) {
    StartsWithSeparator(normalized) && StartsWithCue(cues, DropSeparators(normalized))
  }

  /** One application is a fixpoint exactly when no cue hides behind leading separators; then no cue is left in front. */
  lemma SignatureIdempotentIff(cues: Cues, value: string)
    ensures Signature(cues, Signature(cues, value)) == Signature(cues, value) <==> !HiddenCue(cues, Normalize(value))
    ensures StartsWithCue(cues, Signature(cues, value)) <==> HiddenCue(cues, Normalize(value))
  {
    var n := Normalize(value);
    NormalizeIsNormal(value);
    SignatureIsNormal(cues, value);
    StripCuesSettles(cues, n);
    StripCuesSettles(cues, Signature(cues, value));
    if StartsWithSeparator(n) {
      assert forall k | 0 <= k < |cues| :: !(cues[k] <= n);
      NoCueNoChange(cues, n, 0);
      ChangesIffCue(cues, n);
      assert Signature(cues, value) == DropSeparators(n);
    }
  }

  /** Such texts exist: any normal cue behind a colon. */
  lemma HiddenCueExample(cues: Cues, k: nat)
    requires k < |cues| && IsNormal(cues[k])
    ensures HiddenCue(cues, Normalize(":" + cues[k]))
  {
    var s := ":" + cues[k];
    BehindColonNormal(cues[k]);
    NormalFixed(s);
    assert SkipSeparators(s, 1) == 1;
    assert s[1..] == cues[k];
    StripTrimmed(cues[k]);
  }

  /** With the builder's own cues: the first one behind a colon takes two applications. */
  lemma ColonHidesFirstCue()
    ensures var s := ":" + CUE_PREFIXES[0];
            Signature(CUE_PREFIXES, Signature(CUE_PREFIXES, s)) != Signature(CUE_PREFIXES, s)
  {
    FirstCueNormal();
    HiddenCueExample(CUE_PREFIXES, 0);
    SignatureIdempotentIff(CUE_PREFIXES, ":" + CUE_PREFIXES[0]);
  }

  const FIRST_CUE := "was passt logisch?"

  /** It is made of small letters, with single blanks inside. */
  lemma FirstCueLetters(i: nat)
    requires i < |FIRST_CUE|
    ensures 'a' <= FIRST_CUE[i] <= 'z' || FIRST_CUE[i] == '?' || (FIRST_CUE[i] == ' ' && (i == 3 || i == 9))
  {
  }

  lemma FirstCueNormal()
    ensures CUE_PREFIXES[0] == FIRST_CUE && IsNormal(FIRST_CUE)
  {
    forall i | 0 <= i < |FIRST_CUE|
      ensures LowerChar(FIRST_CUE[i]) == FIRST_CUE[i] == DashChar(FIRST_CUE[i])
      ensures IsSpace(FIRST_CUE[i]) ==> FIRST_CUE[i] == ' ' && (i == 3 || i == 9)
    {
      FirstCueLetters(i);
    }
    assert !IsSpace(FIRST_CUE[4]) && !IsSpace(FIRST_CUE[10]);
  }

  lemma BehindColonNormal(s: string)
    requires IsNormal(s)
    ensures IsNormal(":" + s)
  {
    var t := ":" + s;
    assert forall i | 0 < i < |t| :: t[i] == s[i - 1];
    forall i | 0 <= i < |t|
      ensures LowerChar(t[i]) == t[i] && DashChar(t[i]) == t[i]
    {
      if 0 < i {
        assert t[i] == Lower(s)[i - 1] == Dashed(s)[i - 1];
      }
    }
  }
}
