/** What the highlighter's scan, classification and output promise, stated
    against reference grammars for the pattern's three alternatives. */
module HighlightProofs {
  import opened Wrappers
  import opened Escaping
  import opened Highlighter

  // ==== Quoted strings ====

  /** The language of `(\\u[a-zA-Z0-9]{4}|\\[^u]|[^\\"])*`, the inside of a quoted string. */
  predicate IsBody(t: string)
    decreases |t|
  {
    t == [] ||
    (|t| >= 6 && t[0] == '\\' && t[1] == 'u' &&
     IsAlnum(t[2]) && IsAlnum(t[3]) && IsAlnum(t[4]) && IsAlnum(t[5]) && IsBody(t[6..])) ||
    (|t| >= 2 && t[0] == '\\' && t[1] != 'u' && IsBody(t[2..])) ||
    (t[0] != '\\' && t[0] != '"' && IsBody(t[1..]))
  }

  /** A non-empty body starts with exactly the item the scanner takes. */
  lemma ItemStep(s: string, k: nat, m: nat)
    requires k < m <= |s| && IsBody(s[k..m])
    ensures ItemEnd(s, k).Some? && ItemEnd(s, k).value <= m && IsBody(s[ItemEnd(s, k).value..m])
  {
    var t := s[k..m];
    assert t[0] == s[k];
    if |t| >= 6 && t[0] == '\\' && t[1] == 'u' &&
       IsAlnum(t[2]) && IsAlnum(t[3]) && IsAlnum(t[4]) && IsAlnum(t[5]) && IsBody(t[6..]) {
      assert t[6..] == s[k + 6..m];
    } else if |t| >= 2 && t[0] == '\\' && t[1] != 'u' && IsBody(t[2..]) {
      assert t[2..] == s[k + 2..m];
    } else {
      assert t[1..] == s[k + 1..m];
    }
  }

  /** The item the scanner takes, followed by a body, is a body. */
  lemma ItemThenBody(s: string, k: nat, e: nat)
    requires k <= e <= |s| && ItemEnd(s, k).Some? && ItemEnd(s, k).value <= e
    requires IsBody(s[ItemEnd(s, k).value..e])
    ensures IsBody(s[k..e])
  {
    var n := ItemEnd(s, k).value;
    var t := s[k..e];
    assert t[n - k..] == s[n..e];
    assert t[0] == s[k];
    if n == k + 2 || n == k + 6 {
      assert t[1] == s[k + 1];
    }
    if n == k + 6 {
      assert t[2] == s[k + 2] && t[3] == s[k + 3] && t[4] == s[k + 4] && t[5] == s[k + 5];
    }
  }

  /** The scanner's body is in the language. */
  lemma {:induction false} BodyEndSound(s: string, k: nat)
    requires k <= |s|
    ensures IsBody(s[k..BodyEnd(s, k)])
    decreases |s| - k
  {
    match ItemEnd(s, k)
    case Some(n) =>
      BodyEndSound(s, n);
      ItemThenBody(s, k, BodyEnd(s, k));
    case None =>
  }

  /** A quoted string ends only at its first unescaped `"`: the one
      quote-terminated body starting at `k` is the one the scanner finds, so
      an escape such as `\"`, `\\` or `"` never ends the token. */
  lemma {:induction false} QuoteCloseUnique(s: string, k: nat, m: nat)
    requires k <= m < |s| && s[m] == '"' && IsBody(s[k..m])
    ensures BodyEnd(s, k) == m
    decreases m - k
  {
    if k < m {
      ItemStep(s, k, m);
      QuoteCloseUnique(s, ItemEnd(s, k).value, m);
    }
  }

  /** Inside a body every `"` is the second character of a backslash escape:
      the text before its backslash is itself a body, so that backslash
      opens an escape item rather than closing one such as `\\`. */
  lemma {:induction false} BodyQuotesEscaped(t: string, p: nat)
    requires IsBody(t) && p < |t| && t[p] == '"'
    ensures p > 0 && t[p - 1] == '\\' && IsBody(t[..p - 1])
    decreases |t|
  {
    if |t| >= 6 && t[0] == '\\' && t[1] == 'u' &&
       IsAlnum(t[2]) && IsAlnum(t[3]) && IsAlnum(t[4]) && IsAlnum(t[5]) && IsBody(t[6..]) {
      assert p >= 6;
      var u := t[6..];
      BodyQuotesEscaped(u, p - 6);
      var h := t[..p - 1];
      assert h[6..] == u[..p - 7];
      assert h[0] == t[0] && h[1] == t[1] && h[2] == t[2] && h[3] == t[3] && h[4] == t[4] && h[5] == t[5];
    } else if |t| >= 2 && t[0] == '\\' && t[1] != 'u' && IsBody(t[2..]) {
      if p >= 2 {
        var u := t[2..];
        BodyQuotesEscaped(u, p - 2);
        var h := t[..p - 1];
        assert h[2..] == u[..p - 3];
        assert h[0] == t[0] && h[1] == t[1];
      }
    } else {
      var u := t[1..];
      BodyQuotesEscaped(u, p - 1);
      var h := t[..p - 1];
      assert h[1..] == u[..p - 2];
      assert h[0] == t[0];
    }
  }

  predicate AllSpace(s: string, a: nat, b: nat)
    requires a <= b <= |s|
  {
    forall p | a <= p < b :: IsSpace(s[p])
  }

  lemma {:induction false} SpaceEndFacts(s: string, k: nat)
    requires k <= |s|
    ensures AllSpace(s, k, SpaceEnd(s, k))
    ensures SpaceEnd(s, k) < |s| ==> !IsSpace(s[SpaceEnd(s, k)])
    decreases |s| - k
  {
    if k < |s| && IsSpace(s[k]) {
      SpaceEndFacts(s, k + 1);
    }
  }

  lemma {:induction false} SpaceEndMax(s: string, k: nat, w: nat)
    requires k <= w <= |s| && AllSpace(s, k, w)
    ensures w <= SpaceEnd(s, k)
    decreases w - k
  {
    if k < w {
      SpaceEndMax(s, k + 1, w);
    }
  }

  /** A quoted match is `"`, a body, `"`, and then `\s*:` exactly when some
      run of whitespace followed by a colon comes next (the optional group
      is greedy, and whitespace may stand before the colon). */
  lemma QuotedMatchSound(s: string, i: nat)
    requires i <= |s| && QuotedMatch(s, i).Some?
    ensures
      var r := QuotedMatch(s, i).value;
      var m := r.alt.close;
      r.alt.QuotedAlt? && s[i] == '"' && i < m < |s| && s[m] == '"' && IsBody(s[i + 1..m]) &&
      (r.alt.colon ==> m + 1 < r.end && s[r.end - 1] == ':' && AllSpace(s, m + 1, r.end - 1)) &&
      (!r.alt.colon ==>
         r.end == m + 1 && forall w | m < w < |s| && AllSpace(s, m + 1, w) :: s[w] != ':')
  {
    var m := BodyEnd(s, i + 1);
    BodyEndSound(s, i + 1);
    var w := SpaceEnd(s, m + 1);
    SpaceEndFacts(s, m + 1);
    if !(w < |s| && s[w] == ':') {
      forall w' | m < w' < |s| && AllSpace(s, m + 1, w') ensures s[w'] != ':' {
        SpaceEndMax(s, m + 1, w');
        if w' < w {
          assert IsSpace(s[w']);
        }
      }
    }
  }

  /** Whenever a quote-terminated body follows a `"`, the scanner matches a
      quoted string closed by that very quote. */
  lemma QuotedMatchComplete(s: string, i: nat, m: nat)
    requires i < m < |s| && s[i] == '"' && s[m] == '"' && IsBody(s[i + 1..m])
    ensures QuotedMatch(s, i).Some? && QuotedMatch(s, i).value.alt.QuotedAlt?
    ensures QuotedMatch(s, i).value.alt.close == m
  {
    QuoteCloseUnique(s, i + 1, m);
  }

  /** At a `"` only the first alternative can match. */
  lemma MatchAtQuote(s: string, i: nat)
    requires i < |s| && s[i] == '"'
    ensures MatchAt(s, i) == QuotedMatch(s, i)
  {
    if QuotedMatch(s, i).None? {
      assert !LiteralAt(s, i, "true") && !LiteralAt(s, i, "false") && !LiteralAt(s, i, "null") by {
        assert i + 4 > |s| || s[i..i + 4][0] == s[i];
        assert i + 5 > |s| || s[i..i + 5][0] == s[i];
      }
      assert DigitsEnd(s, i) == i;
    }
  }

  // ==== Words ====

  /** A word match is one of the three literals, with no word character
      immediately before or after it. */
  lemma WordMatchSound(s: string, i: nat)
    requires i <= |s| && WordMatch(s, i).Some?
    ensures
      var j := WordMatch(s, i).value.end;
      (s[i..j] == "true" || s[i..j] == "false" || s[i..j] == "null") &&
      !WordAt(s, i - 1) && !WordAt(s, j)
  {
    var j := WordMatch(s, i).value.end;
    assert s[i..j][0] == s[i];
    assert IsWordChar(s[i]);
    assert s[i..j][j - i - 1] == s[j - 1];
    assert IsWordChar(s[j - 1]);
  }

  /** A literal standing alone is always matched, in full. */
  lemma WordMatchComplete(s: string, i: nat, w: string)
    requires w == "true" || w == "false" || w == "null"
    requires LiteralAt(s, i, w) && !WordAt(s, i - 1) && !WordAt(s, i + |w|)
    ensures MatchAt(s, i) == Some(Match(i + |w|, WordAlt))
  {
    assert s[i..i + |w|][0] == s[i];
    assert s[i..i + |w|][|w| - 1] == s[i + |w| - 1];
    assert IsWordChar(s[i]) && IsWordChar(s[i + |w| - 1]);
    assert s[i] != '"';
    if w == "false" {
      assert s[i..i + 4] != "true" by { assert s[i..i + 4][0] == s[i]; }
    } else if w == "null" {
      assert s[i..i + 4] != "true" by { assert s[i..i + 4][0] == s[i]; }
      assert !LiteralAt(s, i, "false") by { assert i + 5 > |s| || s[i..i + 5][0] == s[i]; }
    }
  }

  // ==== Numbers ====

  predicate AllDigits(t: string) { forall k | 0 <= k < |t| :: IsDigit(t[k]) }

  /** `[eE][+\-]?\d+` */
  predicate IsExponent(t: string)
  {
    |t| >= 2 && (t[0] == 'e' || t[0] == 'E') &&
    ((AllDigits(t[1..])) || (|t| >= 3 && (t[1] == '+' || t[1] == '-') && AllDigits(t[2..])))
  }

  /** What may follow the `.`: `\d*(?:[eE][+\-]?\d+)?` */
  predicate AfterDot(t: string)
    decreases |t|
  {
    t == [] || (IsDigit(t[0]) && AfterDot(t[1..])) || IsExponent(t)
  }

  /** What may follow a digit of the integer part: `\d*(?:\.\d*)?(?:[eE][+\-]?\d+)?` */
  predicate AfterDigit(t: string)
    decreases |t|
  {
    t == [] || (IsDigit(t[0]) && AfterDigit(t[1..])) || (t[0] == '.' && AfterDot(t[1..])) || IsExponent(t)
  }

  /** The language of `-?\d+(?:\.\d*)?(?:[eE][+\-]?\d+)?` */
  predicate IsNumber(t: string)
  {
    (|t| >= 2 && t[0] == '-' && IsDigit(t[1]) && AfterDigit(t[2..])) ||
    (|t| >= 1 && IsDigit(t[0]) && AfterDigit(t[1..]))
  }

  lemma {:induction false} DigitsEndFacts(s: string, k: nat)
    requires k <= |s|
    ensures AllDigits(s[k..DigitsEnd(s, k)])
    ensures DigitsEnd(s, k) < |s| ==> !IsDigit(s[DigitsEnd(s, k)])
    decreases |s| - k
  {
    if k < |s| && IsDigit(s[k]) {
      DigitsEndFacts(s, k + 1);
      assert s[k..DigitsEnd(s, k)] == [s[k]] + s[k + 1..DigitsEnd(s, k)];
    }
  }

  lemma {:induction false} DigitsEndMax(s: string, k: nat, j: nat)
    requires k <= j <= |s| && AllDigits(s[k..j])
    ensures j <= DigitsEnd(s, k)
    decreases j - k
  {
    if k < j {
      assert s[k..j][0] == s[k];
      assert s[k + 1..j] == s[k..j][1..];
      DigitsEndMax(s, k + 1, j);
    }
  }

  lemma ExponentSound(s: string, k: nat)
    requires k <= |s| && ExponentEnd(s, k) > k
    ensures IsExponent(s[k..ExponentEnd(s, k)])
  {
    var g := if k + 1 < |s| && (s[k + 1] == '+' || s[k + 1] == '-') then k + 2 else k + 1;
    var e := ExponentEnd(s, k);
    DigitsEndFacts(s, g);
    var t := s[k..e];
    assert t[0] == s[k];
    assert t[g - k..] == s[g..e];
    if g == k + 2 {
      assert t[1] == s[k + 1];
    }
  }

  lemma ExponentMax(s: string, k: nat, j: nat)
    requires k <= j <= |s| && IsExponent(s[k..j])
    ensures j <= ExponentEnd(s, k)
  {
    var t := s[k..j];
    assert t[0] == s[k] && t[1] == s[k + 1];
    if AllDigits(t[1..]) {
      assert t[1..] == s[k + 1..j];
      assert !(s[k + 1] == '+' || s[k + 1] == '-') by { assert IsDigit(t[1..][0]); }
      DigitsEndMax(s, k + 1, j);
    } else {
      assert t[2..] == s[k + 2..j];
      DigitsEndMax(s, k + 2, j);
    }
  }

  lemma {:induction false} AfterDotSound(s: string, k: nat)
    requires k <= |s|
    ensures AfterDot(s[k..ExponentEnd(s, DigitsEnd(s, k))])
    decreases |s| - k
  {
    var e := ExponentEnd(s, DigitsEnd(s, k));
    if k < |s| && IsDigit(s[k]) {
      AfterDotSound(s, k + 1);
      assert s[k..e][1..] == s[k + 1..e];
      assert s[k..e][0] == s[k];
    } else if e > k {
      ExponentSound(s, k);
    }
  }

  lemma {:induction false} AfterDotMax(s: string, k: nat, j: nat)
    requires k <= j <= |s| && AfterDot(s[k..j])
    ensures j <= ExponentEnd(s, DigitsEnd(s, k))
    decreases j - k
  {
    var t := s[k..j];
    if t == [] {
    } else if IsDigit(t[0]) && AfterDot(t[1..]) {
      assert t[0] == s[k] && t[1..] == s[k + 1..j];
      AfterDotMax(s, k + 1, j);
    } else {
      assert IsExponent(t);
      assert t[0] == s[k];
      ExponentMax(s, k, j);
    }
  }

  lemma {:induction false} AfterDigitSound(s: string, k: nat)
    requires k <= |s|
    ensures AfterDigit(s[k..ExponentEnd(s, FractionEnd(s, DigitsEnd(s, k)))])
    decreases |s| - k
  {
    var e := ExponentEnd(s, FractionEnd(s, DigitsEnd(s, k)));
    if k < |s| && IsDigit(s[k]) {
      AfterDigitSound(s, k + 1);
      assert s[k..e][1..] == s[k + 1..e];
      assert s[k..e][0] == s[k];
    } else if k < |s| && s[k] == '.' {
      AfterDotSound(s, k + 1);
      assert s[k..e][1..] == s[k + 1..e];
      assert s[k..e][0] == s[k];
    } else if e > k {
      ExponentSound(s, k);
    }
  }

  lemma {:induction false} AfterDigitMax(s: string, k: nat, j: nat)
    requires k <= j <= |s| && AfterDigit(s[k..j])
    ensures j <= ExponentEnd(s, FractionEnd(s, DigitsEnd(s, k)))
    decreases j - k
  {
    var t := s[k..j];
    if t == [] {
    } else if IsDigit(t[0]) && AfterDigit(t[1..]) {
      assert t[0] == s[k] && t[1..] == s[k + 1..j];
      AfterDigitMax(s, k + 1, j);
    } else if t[0] == '.' && AfterDot(t[1..]) {
      assert t[0] == s[k] && t[1..] == s[k + 1..j];
      AfterDotMax(s, k + 1, j);
    } else {
      assert IsExponent(t);
      assert t[0] == s[k];
      ExponentMax(s, k, j);
    }
  }

  /** A number match is in the language of the third alternative. */
  lemma NumberMatchSound(s: string, i: nat)
    requires i <= |s| && NumberMatch(s, i).Some?
    ensures IsNumber(s[i..NumberMatch(s, i).value.end])
  {
    var a := if i < |s| && s[i] == '-' then i + 1 else i;
    var j := NumberMatch(s, i).value.end;
    AfterDigitSound(s, a + 1);
    var t := s[i..j];
    assert t[0] == s[i];
    if a == i + 1 {
      assert t[1] == s[i + 1] && t[2..] == s[i + 2..j];
    } else {
      assert t[1..] == s[i + 1..j];
    }
  }

  /** A numeric literal starting at `i` is always matched, and the match is
      the longest one: it covers the whole literal. */
  lemma NumberMatchLongest(s: string, i: nat, j: nat)
    requires i < j <= |s| && IsNumber(s[i..j])
    ensures NumberMatch(s, i).Some? && j <= NumberMatch(s, i).value.end
  {
    var t := s[i..j];
    assert t[0] == s[i];
    if |t| >= 2 && t[0] == '-' && IsDigit(t[1]) && AfterDigit(t[2..]) {
      assert t[1] == s[i + 1] && t[2..] == s[i + 2..j];
      AfterDigitMax(s, i + 2, j);
    } else {
      assert t[1..] == s[i + 1..j];
      AfterDigitMax(s, i + 1, j);
    }
  }

  predicate IsNumberChar(c: char) { IsDigit(c) || c == '-' || c == '+' || c == '.' || c == 'e' || c == 'E' }

  predicate AllNumberChars(t: string) { forall k | 0 <= k < |t| :: IsNumberChar(t[k]) }

  lemma {:induction false} AfterDotChars(t: string)
    requires AfterDot(t)
    ensures AllNumberChars(t)
    decreases |t|
  {
    if t != [] && IsDigit(t[0]) && AfterDot(t[1..]) {
      AfterDotChars(t[1..]);
      assert forall k | 1 <= k < |t| :: t[k] == t[1..][k - 1];
    }
  }

  lemma {:induction false} AfterDigitChars(t: string)
    requires AfterDigit(t)
    ensures AllNumberChars(t)
    decreases |t|
  {
    if t != [] && IsDigit(t[0]) && AfterDigit(t[1..]) {
      AfterDigitChars(t[1..]);
      assert forall k | 1 <= k < |t| :: t[k] == t[1..][k - 1];
    } else if t != [] && t[0] == '.' && AfterDot(t[1..]) {
      AfterDotChars(t[1..]);
      assert forall k | 1 <= k < |t| :: t[k] == t[1..][k - 1];
    }
  }

  lemma NumberChars(t: string)
    requires IsNumber(t)
    ensures AllNumberChars(t)
  {
    if |t| >= 2 && t[0] == '-' && IsDigit(t[1]) && AfterDigit(t[2..]) {
      AfterDigitChars(t[2..]);
      assert forall k | 2 <= k < |t| :: t[k] == t[2..][k - 2];
    } else {
      AfterDigitChars(t[1..]);
      assert forall k | 1 <= k < |t| :: t[k] == t[1..][k - 1];
    }
  }

  // ==== Classification ====

  /** `/w/.test(m)` fails when the first character of `w` occurs nowhere in `m`. */
  lemma {:induction false} NotContains(m: string, w: string)
    requires |w| > 0 && forall k | 0 <= k < |m| :: m[k] != w[0]
    ensures !Contains(m, w)
    decreases |m|
  {
    if |w| <= |m| {
      assert m[..|w|][0] == m[0];
      NotContains(m[1..], w);
    }
  }

  /** The class the alternative that matched stands for. */
  function AltClass(s: string, i: nat, a: Alt): Class
    requires i < |s|
  {
    match a
    case QuotedAlt(_, colon) => if colon then Key else Str
    case WordAlt => if s[i] == 'n' then Null else Boolean
    case NumberAlt => Number
  }

  /** The three literals classify as boolean, boolean and null. */
  lemma ClassifyWord(t: string)
    requires t == "true" || t == "false" || t == "null"
    ensures Classify(t) == if t[0] == 'n' then Null else Boolean
  {
    if t == "null" {
      assert !Contains(t, "true") by {
        assert t[..4] != "true" by { assert t[0] != "true"[0]; }
      }
      assert !Contains(t, "false");
      assert t[..4] == "null";
    } else if t == "true" {
      assert t[..4] == "true";
    } else {
      assert t[..5] == "false";
    }
  }

  /** A numeric literal holds none of the words, so it classifies as a number. */
  lemma ClassifyNumber(t: string)
    requires IsNumber(t)
    ensures Classify(t) == Number
  {
    NumberChars(t);
    assert t[0] != '"' by { assert IsNumberChar(t[0]); }
    NotContains(t, "true");
    NotContains(t, "false");
    NotContains(t, "null");
  }

  /** The callback classifies every match as the alternative it came from:
      a quoted string followed by the colon group is a key, any other quoted
      string a string, `true`/`false` boolean, `null` null, and a numeric
      literal a number. */
  lemma ClassifyAgrees(s: string, i: nat)
    requires i < |s| && MatchAt(s, i).Some?
    ensures Classify(s[i..MatchAt(s, i).value.end]) == AltClass(s, i, MatchAt(s, i).value.alt)
  {
    var r := MatchAt(s, i).value;
    var t := s[i..r.end];
    assert t[0] == s[i];
    if QuotedMatch(s, i).Some? {
      QuotedMatchSound(s, i);
      assert t[|t| - 1] == s[r.end - 1];
    } else if WordMatch(s, i).Some? {
      WordMatchSound(s, i);
      ClassifyWord(t);
    } else {
      NumberMatchSound(s, i);
      ClassifyNumber(t);
    }
  }

  /** Key versus string: a match starting with `"` is a key exactly when it
      takes the colon group, and the colon is then the last character of the
      span; otherwise it is a string ending at its closing quote. */
  lemma KeyOrString(s: string, i: nat)
    requires i < |s| && s[i] == '"' && MatchAt(s, i).Some?
    ensures
      var r := MatchAt(s, i).value;
      var c := Classify(s[i..r.end]);
      r.alt.QuotedAlt? && (c == Key || c == Str) && (c == Key <==> r.alt.colon) &&
      (c == Key ==> s[r.end - 1] == ':') && (c == Str ==> s[r.end - 1] == '"' && r.end == r.alt.close + 1)
  {
    MatchAtQuote(s, i);
    QuotedMatchSound(s, i);
    ClassifyAgrees(s, i);
  }

  /** A well-formed quoted string becomes one span closed by its first
      unescaped quote `m`: a key running through the colon, or a string
      ending at the quote. */
  lemma StringToken(s: string, i: nat, m: nat)
    requires i < m < |s| && s[i] == '"' && s[m] == '"' && IsBody(s[i + 1..m])
    ensures MatchAt(s, i).Some? && MatchAt(s, i).value.alt == QuotedAlt(m, MatchAt(s, i).value.alt.colon)
    ensures var e := MatchAt(s, i).value.end;
      var c := Classify(s[i..e]);
      Tokens(s, i) == [Span(c, s[i..e])] + Tokens(s, e) &&
      (c == Key || c == Str) &&
      (c == Key ==> m + 1 < e && s[e - 1] == ':') &&
      (c == Str ==> e == m + 1)
  {
    QuotedMatchComplete(s, i, m);
    MatchAtQuote(s, i);
    KeyOrString(s, i);
  }

  /** A literal standing alone becomes one span of its own: `true` and
      `false` boolean, `null` null. */
  lemma WordToken(s: string, i: nat, w: string)
    requires w == "true" || w == "false" || w == "null"
    requires LiteralAt(s, i, w) && !WordAt(s, i - 1) && !WordAt(s, i + |w|)
    ensures Tokens(s, i) ==
      [Span(if w == "null" then Null else Boolean, w)] + Tokens(s, i + |w|)
  {
    WordMatchComplete(s, i, w);
    ClassifyWord(w);
  }

  /** A numeric literal starting at `i` becomes one number span covering at
      least that literal, and the span's text is itself a numeric literal. */
  lemma NumberToken(s: string, i: nat, j: nat)
    requires i < j <= |s| && IsNumber(s[i..j])
    ensures exists e | j <= e <= |s| ::
      IsNumber(s[i..e]) && Tokens(s, i) == [Span(Number, s[i..e])] + Tokens(s, e)
  {
    assert s[i..j][0] == s[i];
    assert MatchAt(s, i) == NumberMatch(s, i) by {
      assert !LiteralAt(s, i, "true") && !LiteralAt(s, i, "false") && !LiteralAt(s, i, "null") by {
        assert i + 4 > |s| || s[i..i + 4][0] == s[i];
        assert i + 5 > |s| || s[i..i + 5][0] == s[i];
      }
    }
    NumberMatchLongest(s, i, j);
    NumberMatchSound(s, i);
    var e := NumberMatch(s, i).value.end;
    ClassifyNumber(s[i..e]);
  }

  /** A `"` that opens no well-formed string is copied through, and the scan
      resumes at the next character. */
  lemma UnterminatedQuote(s: string, i: nat)
    requires i < |s| && s[i] == '"'
    requires forall m | i < m < |s| && s[m] == '"' :: !IsBody(s[i + 1..m])
    ensures Tokens(s, i) == [Plain('"')] + Tokens(s, i + 1)
  {
    MatchAtQuote(s, i);
    if QuotedMatch(s, i).Some? {
      QuotedMatchSound(s, i);
      assert false;
    }
  }

  /** Braces, brackets, commas, colons, whitespace and every other character
      that cannot start a token are copied through unwrapped. */
  lemma PassThrough(s: string, i: nat)
    requires i < |s|
    requires s[i] != '"' && s[i] != '-' && s[i] != 't' && s[i] != 'f' && s[i] != 'n' && !IsDigit(s[i])
    ensures Tokens(s, i) == [Plain(s[i])] + Tokens(s, i + 1)
  {
    assert MatchAt(s, i).None? by {
      assert !LiteralAt(s, i, "true") && !LiteralAt(s, i, "false") && !LiteralAt(s, i, "null") by {
        assert i + 4 > |s| || s[i..i + 4][0] == s[i];
        assert i + 5 > |s| || s[i..i + 5][0] == s[i];
      }
      assert DigitsEnd(s, i) == i;
    }
  }

  // ==== The output ====

  lemma TextOfAppend(a: seq<Piece>, b: seq<Piece>)
    ensures TextOf(a + b) == TextOf(a) + TextOf(b)
    decreases |a|
  {
    if a != [] {
      assert (a + b)[0] == a[0];
      assert (a + b)[1..] == a[1..] + b;
      TextOfAppend(a[1..], b);
    } else {
      assert a + b == b;
    }
  }

  /** The pieces cover the scanned text exactly, in order. */
  lemma {:induction false} TokensCover(s: string, i: nat)
    requires i <= |s|
    ensures TextOf(Tokens(s, i)) == s[i..]
    decreases |s| - i
  {
    if i < |s| {
      var r := MatchAt(s, i);
      var j := if r.Some? then r.value.end else i + 1;
      var head := if r.Some? then [Span(Classify(s[i..j]), s[i..j])] else [Plain(s[i])];
      assert Tokens(s, i) == head + Tokens(s, j);
      assert TextOf(head) == s[i..j] by {
        assert TextOf(head[1..]) == [];
      }
      TokensCover(s, j);
      TextOfAppend(head, Tokens(s, j));
      assert s[i..] == s[i..j] + s[j..];
    }
  }

  /** Every span carries the class the callback gives its text. */
  lemma {:induction false} TokensClassified(s: string, i: nat)
    requires i <= |s|
    ensures forall k | 0 <= k < |Tokens(s, i)| && Tokens(s, i)[k].Span? ::
      Tokens(s, i)[k].cls == Classify(Tokens(s, i)[k].text) && Tokens(s, i)[k].text != []
    decreases |s| - i
  {
    if i < |s| {
      match MatchAt(s, i)
      case Some(m) => TokensClassified(s, m.end);
      case None => TokensClassified(s, i + 1);
    }
  }

  lemma {:induction false} StripPlainPrefix(a: string, b: string)
    requires '<' !in a
    ensures StripTags(a + b) == a + StripTags(b)
    decreases |a|
  {
    if a != [] {
      assert (a + b)[0] == a[0] && a[0] != '<';
      assert (a + b)[1..] == a[1..] + b;
      assert '<' !in a[1..] by { assert forall k | 0 <= k < |a[1..]| :: a[1..][k] == a[k + 1]; }
      StripPlainPrefix(a[1..], b);
      assert a == [a[0]] + a[1..];
    } else {
      assert a + b == b;
    }
  }

  lemma {:induction false} SkipTagThrough(x: string, b: string)
    requires '>' !in x
    ensures SkipTag(x + ">" + b) == b
    decreases |x|
  {
    if x == [] {
      assert x + ">" + b == ['>'] + b;
    } else {
      assert (x + ">" + b)[1..] == x[1..] + ">" + b;
      SkipTagThrough(x[1..], b);
    }
  }

  /** Removing one tag `<x>` from the front. */
  lemma StripTag(x: string, b: string)
    requires '>' !in x
    ensures StripTags("<" + x + ">" + b) == StripTags(b)
  {
    var t := "<" + x + ">" + b;
    assert t[1..] == x + ">" + b;
    SkipTagThrough(x, b);
  }

  /** The opening tag of a span, removed from the front. */
  lemma StripOpen(c: Class, b: string)
    ensures StripTags(SpanOpen(c) + b) == StripTags(b)
  {
    var name := ClassName(c);
    var x := "span class=\"" + name + "\"";
    assert '>' !in name by {
      match c
      case Key =>
      case Str =>
      case Boolean =>
      case Null =>
      case Number =>
    }
    assert '>' !in "span class=\"" && '>' !in "\"";
    assert '>' !in x;
    assert "<span class=\"" == "<" + "span class=\"";
    assert "\">" == "\"" + ">";
    assert SpanOpen(c) + b == "<" + x + ">" + b;
    StripTag(x, b);
  }

  /** The closing tag of a span, removed from the front. */
  lemma StripClose(b: string)
    ensures StripTags(SpanClose + b) == StripTags(b)
  {
    assert SpanClose + b == "<" + "/span" + ">" + b;
    StripTag("/span", b);
  }

  lemma StripSpan(c: Class, text: string, rest: string)
    requires '<' !in text
    ensures StripTags(SpanOpen(c) + text + SpanClose + rest) == text + StripTags(rest)
  {
    var tail := SpanClose + rest;
    assert SpanOpen(c) + text + SpanClose + rest == SpanOpen(c) + (text + tail);
    StripOpen(c, text + tail);
    StripPlainPrefix(text, tail);
    StripClose(rest);
  }

  /** Markup round trip: deleting the span tags from the rendered pieces
      gives back the text they cover, provided the text has no `<` of its own. */
  lemma {:induction false} StripRender(ps: seq<Piece>)
    requires '<' !in TextOf(ps)
    ensures StripTags(Render(ps)) == TextOf(ps)
    decreases |ps|
  {
    if ps != [] {
      TextOfAppend([ps[0]], ps[1..]);
      assert ps == [ps[0]] + ps[1..];
      StripRender(ps[1..]);
      match ps[0]
      case Plain(c) =>
        StripPlainPrefix([c], Render(ps[1..]));
      case Span(cls, t) =>
        assert Render(ps) == SpanOpen(cls) + t + SpanClose + Render(ps[1..]);
        StripSpan(cls, t, Render(ps[1..]));
    }
  }

  /** Deleting every span tag from the highlighter's output gives back
      exactly the escaped input. */
  lemma HighlightStripsToEscaped(json: string)
    ensures StripTags(SyntaxHighlight(json)) == Escape(json)
  {
    var e := Escape(json);
    TokensCover(e, 0);
    assert e[0..] == e;
    EscapeNoAngles(json);
    StripRender(Tokens(e, 0));
  }

  /** And unescaping that gives back the original JSON text. */
  lemma HighlightRoundTrip(json: string)
    ensures Unescape(StripTags(SyntaxHighlight(json))) == json
  {
    HighlightStripsToEscaped(json);
    UnescapeEscape(json);
  }
}
