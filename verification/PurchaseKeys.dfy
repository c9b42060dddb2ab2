/** Offer attribution through text: buy callbacks, purchase keys, and reading the offer's impression id back out of either. */
module PurchaseKeys {
  import opened Decimal
  import opened Options
  import opened Text

  // ----- splitting

  predicate NoColon(s: string) {
    ':' !in s
  }

  function FirstColon(s: string, i: nat): (k: nat)
    requires i <= |s|
    ensures i <= k <= |s| && (k < |s| ==> s[k] == ':') && forall j | i <= j < k :: s[j] != ':'
    decreases |s| - i
  {
    if i == |s| || s[i] == ':' then i else FirstColon(s, i + 1)
  }

  /** `text.split(":")`. */
  function Split(s: string): (parts: seq<string>)
    ensures parts != []
    decreases |s|
  {
    var k := FirstColon(s, 0);
    if k == |s| then [s] else [s[..k]] + Split(s[k + 1..])
  }

  /** Pieces with colons in between. */
  function Join(parts: seq<string>): string
    requires parts != []
    decreases |parts|
  {
    if |parts| == 1 then parts[0] else parts[0] + ":" + Join(parts[1..])
  }

  lemma SplitCons(p: string, rest: string)
    requires NoColon(p)
    ensures Split(p + ":" + rest) == [p] + Split(rest)
  {
    var s := p + ":" + rest;
    assert s[|p|] == ':';
    assert forall j | 0 <= j < |p| :: s[j] == p[j] && p[j] in p;
    assert FirstColon(s, 0) == |p|;
    assert s[..|p|] == p && s[|p| + 1..] == rest;
  }

  lemma SplitWhole(p: string)
    requires NoColon(p)
    ensures Split(p) == [p]
  {
    assert forall j | 0 <= j < |p| :: p[j] in p;
  }

  lemma ColonSplits(s: string)
    requires !NoColon(s)
    ensures |Split(s)| >= 2
  {
    var i :| 0 <= i < |s| && s[i] == ':';
    assert FirstColon(s, 0) <= i;
  }

  lemma Regroup(a: string, b: string, c: string)
    ensures (a + ":" + b) + ":" + c == a + ":" + (b + ":" + c)
  {
  }

  /** A colon between two texts separates their parts. */
  lemma {:induction false} SplitConcat(p: string, rest: string)
    ensures Split(p + ":" + rest) == Split(p) + Split(rest)
    decreases |p|
  {
    var k := FirstColon(p, 0);
    if k == |p| {
      SplitWhole(p);
      SplitCons(p, rest);
    } else {
      var head, tail := p[..k], p[k + 1..];
      assert p == head + ":" + tail;
      Regroup(head, tail, rest);
      SplitConcat(tail, rest);
      SplitCons(head, tail + ":" + rest);
      assert [head] + (Split(tail) + Split(rest)) == ([head] + Split(tail)) + Split(rest);
    }
  }

  /** Splitting undoes joining, for pieces without colons. */
  lemma {:induction false} SplitJoin(parts: seq<string>)
    requires parts != [] && forall k | 0 <= k < |parts| :: NoColon(parts[k])
    ensures Split(Join(parts)) == parts
    decreases |parts|
  {
    if |parts| == 1 {
      SplitWhole(parts[0]);
    } else {
      SplitJoin(parts[1..]);
      SplitCons(parts[0], Join(parts[1..]));
    }
  }

  /** A colon inside a piece gives more parts than there were pieces. */
  lemma {:induction false} ColonInPieceSplits(parts: seq<string>)
    requires parts != []
    ensures |Split(Join(parts))| >= |parts|
    ensures (exists k :: 0 <= k < |parts| && !NoColon(parts[k])) ==> |Split(Join(parts))| > |parts|
    decreases |parts|
  {
    if !NoColon(parts[0]) {
      ColonSplits(parts[0]);
    }
    if |parts| > 1 {
      ColonInPieceSplits(parts[1..]);
      SplitConcat(parts[0], Join(parts[1..]));
      assert forall k | 1 <= k < |parts| :: parts[k] == parts[1..][k - 1];
    }
  }

  /** The pieces a text is split into have no colon, and joined they give the text back. */
  lemma {:induction false} JoinSplit(s: string)
    ensures Join(Split(s)) == s
    ensures forall k | 0 <= k < |Split(s)| :: NoColon(Split(s)[k])
    decreases |s|
  {
    var k := FirstColon(s, 0);
    if k < |s| {
      JoinSplit(s[k + 1..]);
      JoinTwo(s[..k], Split(s[k + 1..]));
      assert s == s[..k] + ":" + s[k + 1..];
    }
  }

  lemma JoinTwo(a: string, rest: seq<string>)
    requires rest != []
    ensures Join([a] + rest) == a + ":" + Join(rest)
  {
    assert ([a] + rest)[1..] == rest;
  }

  lemma JoinOfTwo(a: string, b: string)
    ensures Join([a, b]) == a + ":" + b
  {
    JoinTwo(a, [b]);
  }

  lemma JoinOfFour(a: string, b: string, c: string, d: string)
    ensures Join([a, b, c, d]) == a + ":" + b + ":" + c + ":" + d
  {
    JoinTwo(c, [d]);
    JoinTwo(b, [c, d]);
    JoinTwo(a, [b, c, d]);
    assert a + ":" + (b + ":" + (c + ":" + d)) == a + ":" + b + ":" + c + ":" + d;
  }

  lemma JoinOfFive(a: string, b: string, c: string, d: string, e: string)
    ensures Join([a, b, c, d, e]) == a + ":" + b + ":" + c + ":" + d + ":" + e
  {
    JoinOfFour(b, c, d, e);
    JoinTwo(a, [b, c, d, e]);
    assert a + ":" + (b + ":" + c + ":" + d + ":" + e) == a + ":" + b + ":" + c + ":" + d + ":" + e;
  }

  // ----- reading integers

  /** Digits with single underscores between them. */
  predicate Groupable(s: string, n: nat)
    requires n <= |s|
  {
    n != 0 && IsDigit(s[n - 1]) && (n == 1 || (if s[n - 2] == '_' then Groupable(s, n - 2) else Groupable(s, n - 1)))
  }

  function GroupValue(s: string, n: nat): nat
    requires n <= |s| && Groupable(s, n)
  {
    DigitValue(s[n - 1])
    + if n == 1 then 0 else 10 * (if s[n - 2] == '_' then GroupValue(s, n - 2) else GroupValue(s, n - 1))
  }

  /** `int(text)`, None for a ValueError. */
  function ParseInt(text: string): Option<int> {
    var t := Strip(text);
    var signed := t != "" && (t[0] == '-' || t[0] == '+');
    var body := if signed then t[1..] else t;
    if !Groupable(body, |body|) then None
    else
      var value: int := GroupValue(body, |body|);
      Some(if signed && t[0] == '-' then -value else value)
  }

  lemma {:induction false} DigitsGroup(s: string, n: nat)
    requires AllDigits(s) && 1 <= n <= |s|
    ensures Groupable(s, n) && GroupValue(s, n) == Value(s, n)
  {
    if n > 1 {
      DigitsGroup(s, n - 1);
    }
  }

  lemma PrintedShape(n: int)
    ensures var s := Printed(n);
            Trimmed(s) && NoColon(s) && s[0] != '+' && (s[0] == '-' <==> n < 0) && (n < 0 ==> s[1..] == Digits(-n))
  {
  }

  /** Every integer is read back from what is printed for it. */
  lemma PrintedParses(n: int)
    ensures ParseInt(Printed(n)) == Some(n)
  {
    var s := Printed(n);
    var body := Digits(if n < 0 then -n else n);
    PrintedShape(n);
    StripTrimmed(s);
    DigitsGroup(body, |body|);
    DigitsValue(if n < 0 then -n else n);
  }

  /** Numerals: digits, with single underscores between digits. */
  ghost predicate Numeral(s: string) {
    && s != "" && IsDigit(s[0]) && IsDigit(s[|s| - 1])
    && (forall i | 0 <= i < |s| :: IsDigit(s[i]) || s[i] == '_')
    && (forall i | 0 <= i < |s| - 1 :: IsDigit(s[i]) || IsDigit(s[i + 1]))
  }

  lemma {:induction false} GroupableIff(s: string, n: nat)
    requires n <= |s|
    ensures Groupable(s, n) <==> Numeral(s[..n])
    decreases n
  {
    if n >= 1 && IsDigit(s[n - 1]) {
      if n >= 2 {
        var m := if s[n - 2] == '_' then n - 2 else n - 1;
        GroupableIff(s, m);
        NumeralLonger(s, m, n);
      }
    }
  }

  lemma NumeralLonger(s: string, m: nat, n: nat)
    requires 2 <= n <= |s| && IsDigit(s[n - 1]) && m == if s[n - 2] == '_' then n - 2 else n - 1
    ensures Numeral(s[..n]) <==> Numeral(s[..m])
  {
    var long, short := s[..n], s[..m];
    assert forall i | 0 <= i < m :: long[i] == short[i];
    assert forall i | 0 <= i < n :: long[i] == s[i];
    if Numeral(long) && m == n - 2 && m > 0 {
      assert !IsDigit(long[m]) && IsDigit(long[m - 1]);
    }
  }

  /** The first n characters without their underscores. */
  function WithoutUnderscores(s: string, n: nat): string
    requires n <= |s|
  {
    if n == 0 then "" else WithoutUnderscores(s, n - 1) + if s[n - 1] == '_' then "" else [s[n - 1]]
  }

  lemma {:induction false} NumeralDigits(s: string, n: nat)
    requires n <= |s| && forall i | 0 <= i < n :: IsDigit(s[i]) || s[i] == '_'
    ensures AllDigits(WithoutUnderscores(s, n))
  {
    if n != 0 {
      NumeralDigits(s, n - 1);
    }
  }

  lemma ValueAppend(d: string, c: char)
    requires AllDigits(d) && IsDigit(c)
    ensures Value(d + [c], |d| + 1) == 10 * Value(d, |d|) + DigitValue(c)
  {
    ValueOfPrefix(d + [c], d, |d|);
  }

  /** Underscores do not count. */
  lemma {:induction false} GroupValueIs(s: string, n: nat)
    requires n <= |s| && Groupable(s, n)
    ensures var d := WithoutUnderscores(s, n); AllDigits(d) && GroupValue(s, n) == Value(d, |d|)
    decreases n
  {
    if n == 1 {
      assert WithoutUnderscores(s, 0) == "" && WithoutUnderscores(s, 1) == "" + [s[0]];
      ValueAppend("", s[0]);
    } else {
      var m := if s[n - 2] == '_' then n - 2 else n - 1;
      GroupValueIs(s, m);
      assert WithoutUnderscores(s, n - 1) == WithoutUnderscores(s, m);
      ValueAppend(WithoutUnderscores(s, m), s[n - 1]);
    }
  }

  /** The number a numeral denotes: its underscores do not count. */
  function NumeralValue(s: string): nat
    requires Numeral(s)
  {
    NumeralDigits(s, |s|);
    Value(WithoutUnderscores(s, |s|), |WithoutUnderscores(s, |s|)|)
  }

  lemma NumeralParses(s: string)
    requires Numeral(s)
    ensures Groupable(s, |s|) && GroupValue(s, |s|) == NumeralValue(s)
  {
    assert s[..|s|] == s;
    GroupableIff(s, |s|);
    GroupValueIs(s, |s|);
  }

  lemma NumeralTrimmed(s: string)
    requires Numeral(s)
    ensures Trimmed(s) && s[0] != '+' && s[0] != '-'
    ensures Trimmed("+" + s) && Trimmed("-" + s)
  {
    assert ("+" + s)[|s|] == s[|s| - 1] && ("-" + s)[|s|] == s[|s| - 1];
  }

  lemma UnsignedParses(t: string)
    requires Trimmed(t) && Numeral(t) && t[0] != '+' && t[0] != '-'
    ensures ParseInt(t) == Some(NumeralValue(t))
  {
    NumeralParses(t);
    StripTrimmed(t);
  }

  lemma SignParses(t: string, numeral: string)
    requires Trimmed(t) && t != "" && (t[0] == '+' || t[0] == '-') && t[1..] == numeral && Numeral(numeral)
    ensures ParseInt(t) == Some(if t[0] == '-' then -(NumeralValue(numeral) as int) else NumeralValue(numeral))
  {
    NumeralParses(numeral);
    StripTrimmed(t);
  }

  /** A numeral with or without a sign reads as its value; a minus sign negates it. */
  lemma SignedParses(sign: string, numeral: string)
    requires Numeral(numeral) && (sign == "" || sign == "+" || sign == "-")
    ensures var n: int := NumeralValue(numeral); ParseInt(sign + numeral) == Some(if sign == "-" then -n else n)
  {
    NumeralTrimmed(numeral);
    if sign == "" {
      assert sign + numeral == numeral;
      UnsignedParses(numeral);
    } else {
      SignParses(sign + numeral, numeral);
    }
  }

  /** Whitespace around it does not matter. */
  lemma SpacesAround(lead: string, text: string, trail: string)
    requires AllSpaces(lead) && AllSpaces(trail) && Trimmed(text)
    ensures ParseInt(lead + text + trail) == ParseInt(text)
  {
    StripTakesEnds(lead, text, trail);
    StripTrimmed(text);
  }

  /** Nothing else is an integer. */
  lemma ParsesIff(text: string)
    ensures ParseInt(text).Some? <==> || Numeral(Strip(text))
                                      || (Strip(text) != "" && (Strip(text)[0] == '+' || Strip(text)[0] == '-') && Numeral(Strip(text)[1..]))
  {
    var t := Strip(text);
    GroupableIff(t, |t|);
    assert t[..|t|] == t;
    if t != "" {
      GroupableIff(t[1..], |t[1..]|);
      assert t[1..][..|t[1..]|] == t[1..];
    }
  }

  // ----- callbacks

  /** What a buy callback asks for. */
  datatype Callback<+U> = Callback(product: string, redemption: Option<U>, impression: Option<int>)

  /** The offer keyboard's callback data. */
  function OfferCallback(product: string, impression: int): string {
    Join(["buy", product, "offer", Printed(impression)])
  }

  /** `parse_buy_callback_data`; None for a ValueError. `uuid` reads a redemption id. */
  function ParseCallback<U>(uuid: string -> Option<U>, data: string): Option<Callback<U>> {
    var parts := Split(data);
    if |parts| == 2 then Some(Callback(parts[1], None, None))
    else if |parts| == 4 && parts[2] == "promo" then
      if uuid(parts[3]).None? then None else Some(Callback(parts[1], uuid(parts[3]), None))
    else if |parts| == 4 && parts[2] == "offer" then
      if ParseInt(parts[3]).None? then None else Some(Callback(parts[1], None, ParseInt(parts[3])))
    else None
  }

  /** The callback is read back exactly when the product code has no colon; otherwise it is refused, never misread. */
  lemma OfferCallbackParsesIff<U>(uuid: string -> Option<U>, product: string, impression: int)
    ensures NoColon(product) ==> ParseCallback(uuid, OfferCallback(product, impression)) == Some(Callback(product, None, Some(impression)))
    ensures !NoColon(product) ==> ParseCallback(uuid, OfferCallback(product, impression)) == None
  {
    var pieces := ["buy", product, "offer", Printed(impression)];
    PrintedShape(impression);
    if NoColon(product) {
      SplitJoin(pieces);
      PrintedParses(impression);
    } else {
      assert !NoColon(pieces[1]);
      ColonInPieceSplits(pieces);
    }
  }

  /** Two parts name a product, whatever stands first. */
  lemma PlainCallbackParses<U>(uuid: string -> Option<U>, head: string, product: string)
    requires NoColon(head) && NoColon(product)
    ensures ParseCallback(uuid, head + ":" + product) == Some(Callback(product, None, None))
  {
    JoinOfTwo(head, product);
    SplitJoin([head, product]);
  }

  /** Four parts name a product and, third, what the fourth is: a redemption id or an impression id. */
  lemma FourPartsParse<U>(uuid: string -> Option<U>, head: string, product: string, kind: string, value: string)
    requires NoColon(head) && NoColon(product) && NoColon(kind) && NoColon(value)
    ensures ParseCallback(uuid, head + ":" + product + ":" + kind + ":" + value)
         == if kind == "promo" && uuid(value).Some? then Some(Callback(product, uuid(value), None))
            else if kind == "offer" && ParseInt(value).Some? then Some(Callback(product, None, ParseInt(value)))
            else None
  {
    JoinOfFour(head, product, kind, value);
    SplitJoin([head, product, kind, value]);
    assert "promo"[0] != "offer"[0];
  }

  /** What is read at all is of one of these forms. */
  lemma ParsedCallbackShape<U>(uuid: string -> Option<U>, data: string)
    requires ParseCallback(uuid, data).Some?
    ensures || (exists head, product | NoColon(head) && NoColon(product) :: data == head + ":" + product)
            || (exists head, product, kind, value | NoColon(head) && NoColon(product) && NoColon(kind) && NoColon(value) ::
                  data == head + ":" + product + ":" + kind + ":" + value)
  {
    var parts := Split(data);
    JoinSplit(data);
    if |parts| == 2 {
      JoinOfTwo(parts[0], parts[1]);
      assert parts == [parts[0], parts[1]];
    } else {
      JoinOfFour(parts[0], parts[1], parts[2], parts[3]);
      assert parts == [parts[0], parts[1], parts[2], parts[3]];
    }
  }

  /** What the offer keyboard sends. */
  lemma OfferCallbackIs(product: string, impression: int)
    ensures OfferCallback(product, impression) == "buy:" + product + ":offer:" + Printed(impression)
  {
    var n := Printed(impression);
    JoinOfFour("buy", product, "offer", n);
    assert "buy" + ":" + product + ":" + "offer" + ":" + n == "buy:" + product + ":offer:" + n;
  }

  // ----- purchase keys

  /** A hash printed in hexadecimal: 64 digits, none of them a colon. */
  ghost predicate IsHexDigest(digest: string -> string) {
    forall s :: |digest(s)| == 64 && NoColon(digest(s))
  }

  function Token(digest: string -> string, value: string, length: nat): string
    requires |digest(value)| >= length
  {
    digest(value)[..length]
  }

  /** `build_purchase_idempotency_key`. */
  function PurchaseKey(digest: string -> string, product: string, callbackId: string, impression: Option<int>): string
    requires |digest(product)| >= 8 && |digest(callbackId)| >= 10
  {
    var p, c := Token(digest, product, 8), Token(digest, callbackId, 10);
    Join(if impression.Some? then ["buy", p, "offer", Printed(impression.value), c] else ["buy", p, c])
  }

  /** `extract_offer_impression_id_from_purchase_idempotency_key`. */
  function ExtractImpression(key: string): Option<int> {
    var parts := Split(key);
    if |parts| != 5 || parts[0] != "buy" || parts[2] != "offer" then None else ParseInt(parts[3])
  }

  /** How a key is written: the first 8 and 10 digits of the two hashes, and the impression id if there is one. */
  lemma PurchaseKeyIs(digest: string -> string, product: string, callbackId: string, impression: Option<int>)
    requires IsHexDigest(digest)
    ensures PurchaseKey(digest, product, callbackId, impression)
         == if impression.Some? then "buy:" + digest(product)[..8] + ":offer:" + Printed(impression.value) + ":" + digest(callbackId)[..10]
            else "buy:" + digest(product)[..8] + ":" + digest(callbackId)[..10]
  {
    var p, c := digest(product)[..8], digest(callbackId)[..10];
    if impression.Some? {
      var n := Printed(impression.value);
      JoinOfFive("buy", p, "offer", n, c);
      assert "buy" + ":" + p + ":" + "offer" + ":" + n + ":" + c == "buy:" + p + ":offer:" + n + ":" + c;
    } else {
      JoinTwo(p, [c]);
      JoinTwo("buy", [p, c]);
      assert "buy" + ":" + (p + ":" + c) == "buy:" + p + ":" + c;
    }
  }

  /** A key of five parts of which the first is buy, the third offer and the fourth this. */
  ghost predicate OfferKey(key: string, m: string) {
    exists p, c | NoColon(p) && NoColon(m) && NoColon(c) :: key == "buy" + ":" + p + ":" + "offer" + ":" + m + ":" + c
  }

  lemma OfferKeyIff(key: string)
    ensures var parts := Split(key);
            |parts| == 5 && parts[0] == "buy" && parts[2] == "offer" ==> OfferKey(key, parts[3])
    ensures forall m | OfferKey(key, m) ::
              var parts := Split(key); |parts| == 5 && parts[0] == "buy" && parts[2] == "offer" && parts[3] == m
  {
    var parts := Split(key);
    JoinSplit(key);
    if |parts| == 5 {
      JoinOfFive(parts[0], parts[1], parts[2], parts[3], parts[4]);
      assert parts == [parts[0], parts[1], parts[2], parts[3], parts[4]];
    }
    forall m | OfferKey(key, m)
      ensures |parts| == 5 && parts[0] == "buy" && parts[2] == "offer" && parts[3] == m
    {
      var p, c :| NoColon(p) && NoColon(m) && NoColon(c) && key == "buy" + ":" + p + ":" + "offer" + ":" + m + ":" + c;
      JoinOfFive("buy", p, "offer", m, c);
      SplitJoin(["buy", p, "offer", m, c]);
    }
  }

  /** An impression id is read from exactly the keys whose fourth part reads as it. */
  lemma ExtractedIff(key: string, n: int)
    ensures ExtractImpression(key) == Some(n) <==> exists m :: OfferKey(key, m) && ParseInt(m) == Some(n)
  {
    OfferKeyIff(key);
  }

  lemma TokenNoColon(digest: string -> string, value: string, length: nat)
    requires IsHexDigest(digest) && length <= 64
    ensures NoColon(Token(digest, value, length)) && |Token(digest, value, length)| == length
  {
    var s, t := digest(value), Token(digest, value, length);
    assert NoColon(s);
    assert forall j | 0 <= j < length :: t[j] == s[j] && s[j] in s;
  }

  /** The parts of a purchase key. */
  lemma KeyParts(digest: string -> string, product: string, callbackId: string, impression: Option<int>)
    requires IsHexDigest(digest)
    ensures var p, c := Token(digest, product, 8), Token(digest, callbackId, 10);
            Split(PurchaseKey(digest, product, callbackId, impression))
            == if impression.Some? then ["buy", p, "offer", Printed(impression.value), c] else ["buy", p, c]
  {
    var p, c := Token(digest, product, 8), Token(digest, callbackId, 10);
    TokenNoColon(digest, product, 8);
    TokenNoColon(digest, callbackId, 10);
    if impression.Some? {
      PrintedShape(impression.value);
      SplitJoin(["buy", p, "offer", Printed(impression.value), c]);
    } else {
      SplitJoin(["buy", p, c]);
    }
  }

  /** The key gives back the offer it was built with, and none if it was built without one. */
  lemma ExtractUndoesBuild(digest: string -> string, product: string, callbackId: string, impression: Option<int>)
    requires IsHexDigest(digest)
    ensures ExtractImpression(PurchaseKey(digest, product, callbackId, impression)) == impression
  {
    KeyParts(digest, product, callbackId, impression);
    if impression.Some? {
      PrintedParses(impression.value);
    }
  }

  /** The whole chain: from the printed callback through the purchase key the same impression id comes out. */
  lemma OfferSurvivesChain<U>(uuid: string -> Option<U>, digest: string -> string, product: string, callbackId: string, impression: int)
    requires IsHexDigest(digest) && NoColon(product)
    ensures var callback := ParseCallback(uuid, OfferCallback(product, impression));
            callback.Some?
            && ExtractImpression(PurchaseKey(digest, callback.value.product, callbackId, callback.value.impression)) == Some(impression)
  {
    OfferCallbackParsesIff(uuid, product, impression);
    ExtractUndoesBuild(digest, product, callbackId, Some(impression));
  }

  /** Two keys are equal exactly when both tokens and the offer agree. */
  lemma KeysEqualIff(digest: string -> string, p: string, q: string, c: string, d: string, i: Option<int>, j: Option<int>)
    requires IsHexDigest(digest)
    ensures PurchaseKey(digest, p, c, i) == PurchaseKey(digest, q, d, j)
       <==> Token(digest, p, 8) == Token(digest, q, 8) && Token(digest, c, 10) == Token(digest, d, 10) && i == j
  {
    if PurchaseKey(digest, p, c, i) == PurchaseKey(digest, q, d, j) {
      KeyParts(digest, p, c, i);
      KeyParts(digest, q, d, j);
      ExtractUndoesBuild(digest, p, c, i);
      ExtractUndoesBuild(digest, q, d, j);
      var parts := Split(PurchaseKey(digest, p, c, i));
      assert parts[1] == Token(digest, p, 8) == Token(digest, q, 8);
      assert parts[|parts| - 1] == Token(digest, c, 10) == Token(digest, d, 10);
    }
  }

  function PowerOfTen(k: nat): nat {
    if k == 0 then 1 else 10 * PowerOfTen(k - 1)
  }

  lemma {:induction false} DigitsLength(n: nat, k: nat)
    requires n < PowerOfTen(k) && k > 0
    ensures |Digits(n)| <= k
    decreases k
  {
    if n >= 10 {
      DigitsLength(n / 10, k - 1);
    }
  }

  const BIGINT := 0x8000_0000_0000_0000

  lemma NineteenDigits()
    ensures PowerOfTen(19) == 10_000_000_000_000_000_000
  {
    assert PowerOfTen(4) == 10_000;
    assert PowerOfTen(8) == 100_000_000 by { assert PowerOfTen(6) == 1_000_000; }
    assert PowerOfTen(12) == 1_000_000_000_000 by { assert PowerOfTen(10) == 10_000_000_000; }
    assert PowerOfTen(16) == 10_000_000_000_000_000 by { assert PowerOfTen(14) == 100_000_000_000_000; }
    assert PowerOfTen(18) == 1_000_000_000_000_000_000;
  }

  lemma PrintedLength(n: int)
    requires -BIGINT <= n < BIGINT
    ensures |Printed(n)| <= 20
  {
    NineteenDigits();
    DigitsLength(if n < 0 then -n else n, 19);
  }

  /** The key of any 64-bit impression id fits the 64-character key column. */
  lemma KeyFits(digest: string -> string, product: string, callbackId: string, impression: Option<int>)
    requires IsHexDigest(digest) && (impression.Some? ==> -BIGINT <= impression.value < BIGINT)
    ensures |PurchaseKey(digest, product, callbackId, impression)| <= 64
  {
    var p, c := Token(digest, product, 8), Token(digest, callbackId, 10);
    JoinTwo(p, [c]);
    JoinTwo("buy", [p, c]);
    if impression.Some? {
      var n := Printed(impression.value);
      PrintedLength(impression.value);
      JoinTwo(n, [c]);
      JoinTwo("offer", [n, c]);
      JoinTwo(p, ["offer", n, c]);
      JoinTwo("buy", [p, "offer", n, c]);
    }
  }
}
