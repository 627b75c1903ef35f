/** The JSON syntax highlighter `syntaxHighlight`: the escape phase, then one
    left-to-right global scan for the pattern

      "(\\u[a-zA-Z0-9]{4}|\\[^u]|[^\\"])*"(\s*:)? | \b(true|false|null)\b | -?\d+(?:\.\d*)?(?:[eE][+\-]?\d+)?

    written out as an explicit scanner. Each match is classified by the
    replacement callback and wrapped in a span; every other character is
    copied unchanged. Positions index the whole (escaped) text, because the
    word boundaries `\b` look at the character before a match. */
module Highlighter {
  import opened Wrappers
  import opened Escaping

  /** The five CSS classes the callback assigns. */
  datatype Class = Key | Str | Boolean | Null | Number

  function ClassName(c: Class): string
  {
    match c
    case Key => "key"
    case Str => "string"
    case Boolean => "boolean"
    case Null => "null"
    case Number => "number"
  }

  // ---- character classes of the pattern (JavaScript, no `u` flag) ----

  /** `\d` */
  predicate IsDigit(c: char) { '0' <= c <= '9' }

  /** `[a-zA-Z0-9]` */
  predicate IsAlnum(c: char) { 'a' <= c <= 'z' || 'A' <= c <= 'Z' || IsDigit(c) }

  /** `\w`, the characters `\b` separates from the rest */
  predicate IsWordChar(c: char) { IsAlnum(c) || c == '_' }

  /** `\s`: the WhiteSpace and LineTerminator characters of ECMAScript */
  predicate IsSpace(c: char)
  {
    c == '\t' || c == '\n' || c == '\U{000B}' || c == '\U{000C}' || c == '\r' || c == ' ' ||
    c == '\U{00A0}' || c == '\U{1680}' || '\U{2000}' <= c <= '\U{200A}' ||
    c == '\U{2028}' || c == '\U{2029}' || c == '\U{202F}' || c == '\U{205F}' ||
    c == '\U{3000}' || c == '\U{FEFF}'
  }

  predicate WordAt(s: string, p: int) { 0 <= p < |s| && IsWordChar(s[p]) }

  /** `\b` at position `p`: a word character on exactly one side. */
  predicate Boundary(s: string, p: int) { WordAt(s, p - 1) != WordAt(s, p) }

  /** `s` holds the literal `w` at position `i`. */
  predicate LiteralAt(s: string, i: nat, w: string) { i + |w| <= |s| && s[i..i + |w|] == w }

  // ---- first alternative: a quoted string, optionally `\s*:` ----

  /** One repetition of `(\\u[a-zA-Z0-9]{4}|\\[^u]|[^\\"])` at `k`, if any
      branch matches; at most one branch can, so the choice is forced. */
  function ItemEnd(s: string, k: nat): (r: Option<nat>)
    requires k <= |s|
    ensures r.Some? ==> k < r.value <= |s|
  {
    if k == |s| || s[k] == '"' then None
    else if s[k] != '\\' then Some(k + 1)
    else if k + 1 == |s| then None
    else if s[k + 1] != 'u' then Some(k + 2)
    else if k + 6 <= |s| && IsAlnum(s[k + 2]) && IsAlnum(s[k + 3]) && IsAlnum(s[k + 4]) && IsAlnum(s[k + 5])
    then Some(k + 6)
    else None
  }

  /** Where the greedy repetition of items starting at `k` stops. */
  function BodyEnd(s: string, k: nat): (m: nat)
    requires k <= |s|
    ensures k <= m <= |s|
    decreases |s| - k
  {
    match ItemEnd(s, k)
    case Some(n) => BodyEnd(s, n)
    case None => k
  }

  /** Where the greedy `\s*` starting at `k` stops. */
  function SpaceEnd(s: string, k: nat): (w: nat)
    requires k <= |s|
    ensures k <= w <= |s|
    decreases |s| - k
  {
    if k < |s| && IsSpace(s[k]) then SpaceEnd(s, k + 1) else k
  }

  /** Which alternative of the pattern matched; for a quoted string, the
      position of the closing quote and whether `\s*:` was taken. */
  datatype Alt = QuotedAlt(close: nat, colon: bool) | WordAlt | NumberAlt

  /** A match ending (exclusively) at `end`. */
  datatype Match = Match(end: nat, alt: Alt)

  function QuotedMatch(s: string, i: nat): (r: Option<Match>)
    requires i <= |s|
    ensures r.Some? ==> i < r.value.end <= |s|
  {
    if i < |s| && s[i] == '"' then
      var m := BodyEnd(s, i + 1);
      if m < |s| && s[m] == '"' then
        var w := SpaceEnd(s, m + 1);
        if w < |s| && s[w] == ':' then Some(Match(w + 1, QuotedAlt(m, true)))
        else Some(Match(m + 1, QuotedAlt(m, false)))
      else None
    else None
  }

  // ---- second alternative: \b(true|false|null)\b ----

  function WordMatch(s: string, i: nat): (r: Option<Match>)
    requires i <= |s|
    ensures r.Some? ==> i < r.value.end <= |s|
  {
    if !Boundary(s, i) then None
    else if LiteralAt(s, i, "true") && Boundary(s, i + 4) then Some(Match(i + 4, WordAlt))
    else if LiteralAt(s, i, "false") && Boundary(s, i + 5) then Some(Match(i + 5, WordAlt))
    else if LiteralAt(s, i, "null") && Boundary(s, i + 4) then Some(Match(i + 4, WordAlt))
    else None
  }

  // ---- third alternative: -?\d+(?:\.\d*)?(?:[eE][+\-]?\d+)? ----

  /** Where the greedy `\d*` starting at `k` stops. */
  function DigitsEnd(s: string, k: nat): (d: nat)
    requires k <= |s|
    ensures k <= d <= |s|
    decreases |s| - k
  {
    if k < |s| && IsDigit(s[k]) then DigitsEnd(s, k + 1) else k
  }

  /** Where the optional `(?:\.\d*)?` starting at `k` stops. */
  function FractionEnd(s: string, k: nat): (f: nat)
    requires k <= |s|
    ensures k <= f <= |s|
  {
    if k < |s| && s[k] == '.' then DigitsEnd(s, k + 1) else k
  }

  /** Where the optional `(?:[eE][+\-]?\d+)?` starting at `k` stops: when
      no digit follows the letter (and its sign), the group matches empty. */
  function ExponentEnd(s: string, k: nat): (e: nat)
    requires k <= |s|
    ensures k <= e <= |s|
  {
    if k < |s| && (s[k] == 'e' || s[k] == 'E') then
      var g := if k + 1 < |s| && (s[k + 1] == '+' || s[k + 1] == '-') then k + 2 else k + 1;
      var h := DigitsEnd(s, g);
      if h > g then h else k
    else k
  }

  function NumberMatch(s: string, i: nat): (r: Option<Match>)
    requires i <= |s|
    ensures r.Some? ==> i < r.value.end <= |s|
  {
    var a := if i < |s| && s[i] == '-' then i + 1 else i;
    var d := DigitsEnd(s, a);
    if d == a then None
    else Some(Match(ExponentEnd(s, FractionEnd(s, d)), NumberAlt))
  }

  /** The pattern at position `i`, its alternatives tried in order. */
  function MatchAt(s: string, i: nat): (r: Option<Match>)
    requires i <= |s|
    ensures r.Some? ==> i < r.value.end <= |s|
  {
    match QuotedMatch(s, i)
    case Some(m) => Some(m)
    case None =>
      match WordMatch(s, i)
      case Some(m) => Some(m)
      case None => NumberMatch(s, i)
  }

  // ---- the replacement callback ----

  /** `/w/.test(m)`: `w` occurs somewhere in `m`. */
  predicate Contains(m: string, w: string)
    decreases |m|
  {
    |w| <= |m| && (m[..|w|] == w || Contains(m[1..], w))
  }

  /** The callback's classification of a matched text: `"` first and `:` last
      is a key, any other `"` first a string; otherwise `true`/`false`
      anywhere is boolean, `null` anywhere is null, anything else a number. */
  function Classify(m: string): Class
  {
    if |m| > 0 && m[0] == '"' then
      if m[|m| - 1] == ':' then Key else Str
    else if Contains(m, "true") || Contains(m, "false") then Boolean
    else if Contains(m, "null") then Null
    else Number
  }

  // ---- the scan and the output ----

  /** A piece of output: a character no match starts at, or a wrapped match. */
  datatype Piece = Plain(c: char) | Span(cls: Class, text: string)

  /** The global replace from position `i` on: at each position the pattern
      is tried; a match is wrapped and skipped, otherwise one character is
      copied and the scan moves on by one. */
  function Tokens(s: string, i: nat): seq<Piece>
    requires i <= |s|
    decreases |s| - i
  {
    if i == |s| then []
    else match MatchAt(s, i)
      case Some(m) => [Span(Classify(s[i..m.end]), s[i..m.end])] + Tokens(s, m.end)
      case None => [Plain(s[i])] + Tokens(s, i + 1)
  }

  /** `'<span class="' + cls + '">'` */
  function SpanOpen(c: Class): string
  {
    "<span class=\"" + ClassName(c) + "\">"
  }

  const SpanClose: string := "</span>"

  function Render(ps: seq<Piece>): string
  {
    if ps == [] then []
    else
      (match ps[0]
       case Plain(c) => [c]
       case Span(cls, t) => SpanOpen(cls) + t + SpanClose)
      + Render(ps[1..])
  }

  /** `syntaxHighlight(json)` */
  function SyntaxHighlight(json: string): string
  {
    Render(Tokens(Escape(json), 0))
  }

  // ---- reading the output back ----

  /** The text the pieces cover, markup removed. */
  function TextOf(ps: seq<Piece>): string
  {
    if ps == [] then []
    else
      (match ps[0]
       case Plain(c) => [c]
       case Span(_, t) => t)
      + TextOf(ps[1..])
  }

  /** Delete every markup tag: from each `<` through the next `>`. */
  function StripTags(t: string): string
    decreases |t|
  {
    if t == [] then []
    else if t[0] == '<' then StripTags(SkipTag(t[1..]))
    else [t[0]] + StripTags(t[1..])
  }

  function SkipTag(t: string): (r: string)
    ensures |r| <= |t|
  {
    if t == [] then [] else if t[0] == '>' then t[1..] else SkipTag(t[1..])
  }
}
