/** The regular expressions of extract_json_values, each written as an anchored scanner.
    For every pattern a predicate says declaratively when the regex matches s from
    position p to position e and what its group captures; the scanner ...At(s, p) is
    proved sound (what it returns is such a match) and complete (any such match is the
    one it returns). Completeness also says that a match is determined by where it
    starts, which is why greedy `\s*`, `[^"]+` and the lazy `.*?` need no backtracking. */
module Patterns {
  import opened Wrappers
  import opened Chars
  import opened Scan

  /** s holds lit from position p on. */
  predicate LiteralAt(s: string, p: nat, lit: string) {
    p + |lit| <= |s| && s[p..p + |lit|] == lit
  }

  /** Every character of s in [i, j) is whitespace: what `\s*` matches. */
  predicate SpacesBetween(s: string, i: nat, j: nat) {
    i <= j <= |s| && forall k :: i <= k < j ==> IsSpace(s[k])
  }

  /** The opening `"<key>":` of the keyed patterns. */
  function KeyColon(key: string): string {
    "\"" + key + "\":"
  }

  /** A greedy `\s*` from i stops at j when the characters in between are spaces and the
      one at j is not. */
  lemma SkipSpacesTo(s: string, i: nat, j: nat)
    requires SpacesBetween(s, i, j) && j < |s| && !IsSpace(s[j])
    ensures SkipSpaces(s, i) == j
  {
  }

  /** A run of characters other than c from i stops at j when c is not in between and s[j] is c. */
  lemma FindTo(s: string, i: nat, j: nat, c: char)
    requires i <= j < |s| && c !in s[i..j] && s[j] == c
    ensures Find(s, i, c) == j
  {
  }

  // ---------------------------------------------------------------------------------
  // open, a run of characters other than close (at least minLen of them), close:
  // `"([^"]+)"` is Delimited('"', '"', 1) and `\[(.*?)\]` under DOTALL is
  // Delimited('[', ']', 0), since a lazy `.*?` before `\]` stops at the first `]`.

  /** open, group v, close match s from p to e. */
  predicate Delimited(s: string, p: nat, e: nat, open: char, close: char, minLen: nat, v: string) {
    p + |v| + 2 == e <= |s| && s[p] == open && s[p + 1..e - 1] == v && s[e - 1] == close
    && |v| >= minLen && close !in v
  }

  function DelimitedAt(s: string, p: nat, open: char, close: char, minLen: nat): (r: Option<Step<string>>)
    ensures r.Some? ==> Delimited(s, p, r.value.end, open, close, minLen, r.value.data)
  {
    if p < |s| && s[p] == open then
      var c := Find(s, p + 1, close);
      if c < |s| && c - (p + 1) >= minLen then Some(Step(c + 1, s[p + 1..c])) else None
    else
      None
  }

  /** A delimited match is determined by where it starts. */
  lemma DelimitedComplete(s: string, p: nat, e: nat, open: char, close: char, minLen: nat, v: string)
    requires Delimited(s, p, e, open, close, minLen, v)
    ensures DelimitedAt(s, p, open, close, minLen) == Some(Step(e, v))
  {
    FindTo(s, p + 1, e - 1, close);
  }

  /** `"([^"]+)"`: a non-empty quoted run without quotes inside. */
  function QuotedAt(s: string, p: nat): (r: Option<Step<string>>)
    ensures r.Some? ==> Delimited(s, p, r.value.end, '"', '"', 1, r.value.data)
  {
    DelimitedAt(s, p, '"', '"', 1)
  }

  // ---------------------------------------------------------------------------------
  // `"<key>":\s*` followed by a delimited group: `"student_response":\s*"([^"]+)"` and
  // `"teacher_score":\s*"([^"]+)"` are Keyed(key, '"', '"', 1);
  // `"points_earned":\s*\[(.*?)\]` and `"misconceptions":\s*\[(.*?)\]` are
  // Keyed(key, '[', ']', 0).

  /** `"<key>":\s*` and then the delimited group v match s from p to e. */
  predicate Keyed(s: string, p: nat, e: nat, key: string, open: char, close: char, minLen: nat, v: string) {
    LiteralAt(s, p, KeyColon(key)) && p + |KeyColon(key)| + |v| + 2 <= e
    && SpacesBetween(s, p + |KeyColon(key)|, e - |v| - 2) && Delimited(s, e - |v| - 2, e, open, close, minLen, v)
  }

  function KeyedAt(s: string, p: nat, key: string, open: char, close: char, minLen: nat): (r: Option<Step<string>>)
    ensures r.Some? ==> Keyed(s, p, r.value.end, key, open, close, minLen, r.value.data)
  {
    if LiteralAt(s, p, KeyColon(key)) then
      DelimitedAt(s, SkipSpaces(s, p + |KeyColon(key)|), open, close, minLen)
    else
      None
  }

  /** A keyed match is determined by where it starts (the opening delimiter is not a
      space, so `\s*` cannot take it). */
  lemma KeyedComplete(s: string, p: nat, e: nat, key: string, open: char, close: char, minLen: nat, v: string)
    requires !IsSpace(open)
    requires Keyed(s, p, e, key, open, close, minLen, v)
    ensures KeyedAt(s, p, key, open, close, minLen) == Some(Step(e, v))
  {
    var d := e - |v| - 2;
    SkipSpacesTo(s, p + |KeyColon(key)|, d);
    DelimitedComplete(s, d, e, open, close, minLen, v);
  }

  // ---------------------------------------------------------------------------------
  // `"([^"]+)":\s*(true|false)`: a rubric pair.

  /** A `"name": true|false` pair; value is true exactly when the literal was `true`. */
  datatype Pair = Pair(key: string, value: bool)

  function Literal(b: bool): string {
    if b then "true" else "false"
  }

  /** `\s*(true|false)` matches s from i to e and its group is Literal(b). */
  predicate Flag(s: string, i: nat, e: nat, b: bool) {
    i + |Literal(b)| <= e && SpacesBetween(s, i, e - |Literal(b)|) && LiteralAt(s, e - |Literal(b)|, Literal(b))
  }

  function FlagAt(s: string, i: nat): (r: Option<Step<bool>>)
    requires i <= |s|
    ensures r.Some? ==> Flag(s, i, r.value.end, r.value.data)
  {
    var w := SkipSpaces(s, i);
    if LiteralAt(s, w, "true") then Some(Step(w + 4, true))
    else if LiteralAt(s, w, "false") then Some(Step(w + 5, false))
    else None
  }

  /** A flag match is determined by where it starts (`true` and `false` cannot both start
      at one position, and neither starts with a space). */
  lemma FlagComplete(s: string, i: nat, e: nat, b: bool)
    requires Flag(s, i, e, b)
    ensures FlagAt(s, i) == Some(Step(e, b))
  {
    if b {
      FlagTrue(s, i, e - 4);
    } else {
      FlagFalse(s, i, e - 5);
    }
  }

  lemma FlagTrue(s: string, i: nat, d: nat)
    requires SpacesBetween(s, i, d) && LiteralAt(s, d, "true")
    ensures FlagAt(s, i) == Some(Step(d + 4, true))
  {
    assert s[d] == s[d..d + 4][0];
    SkipSpacesTo(s, i, d);
  }

  lemma FlagFalse(s: string, i: nat, d: nat)
    requires SpacesBetween(s, i, d) && LiteralAt(s, d, "false")
    ensures FlagAt(s, i) == Some(Step(d + 5, false))
  {
    assert s[d] == s[d..d + 5][0];
    SkipSpacesTo(s, i, d);
    assert !LiteralAt(s, d, "true");
  }

  /** `"([^"]+)":\s*(true|false)` matches s from p to e with groups k and Literal(b). */
  predicate PairMatch(s: string, p: nat, e: nat, k: string, b: bool) {
    Delimited(s, p, p + |k| + 2, '"', '"', 1, k) && p + |k| + 2 < |s| && s[p + |k| + 2] == ':'
    && Flag(s, p + |k| + 3, e, b)
  }

  function PairAt(s: string, p: nat): (r: Option<Step<Pair>>)
    ensures r.Some? ==> PairMatch(s, p, r.value.end, r.value.data.key, r.value.data.value)
  {
    match QuotedAt(s, p)
      case None => None
      case Some(q) => PairTail(s, q)
  }

  /** The rest of a pair once the quoted key q has matched: `:` and then the flag. */
  function PairTail(s: string, q: Step<string>): (r: Option<Step<Pair>>)
    ensures r.Some? ==>
      q.end < |s| && s[q.end] == ':' && r.value.data.key == q.data
      && Flag(s, q.end + 1, r.value.end, r.value.data.value)
  {
    if q.end < |s| && s[q.end] == ':' then
      match FlagAt(s, q.end + 1)
        case None => None
        case Some(f) => Some(Step(f.end, Pair(q.data, f.data)))
    else
      None
  }

  /** A pair match is determined by where it starts. */
  lemma PairComplete(s: string, p: nat, e: nat, k: string, b: bool)
    requires PairMatch(s, p, e, k, b)
    ensures PairAt(s, p) == Some(Step(e, Pair(k, b)))
  {
    var c := p + |k| + 2;
    DelimitedComplete(s, p, c, '"', '"', 1, k);
    FlagComplete(s, p + |k| + 3, e, b);
    PairTailOf(s, c, e, k, b);
  }

  /** A colon and a flag after the key make the pair. */
  lemma PairTailOf(s: string, c: nat, e: nat, k: string, b: bool)
    requires c < |s| && s[c] == ':' && FlagAt(s, c + 1) == Some(Step(e, b))
    ensures PairTail(s, Step(c, k)) == Some(Step(e, Pair(k, b)))
  {
    var f := FlagAt(s, c + 1).value;
    assert f.end == e && f.data == b;
  }

  // ---------------------------------------------------------------------------------
  // The two alternatives of the fence pattern `^```json\s*|\s*```$`.

  /** Where `^```json\s*` stops matching at the start of t, or 0 when it does not match. */
  function OpenFenceEnd(t: string): (a: nat)
    ensures a <= |t|
    ensures a == 0 <==> !LiteralAt(t, 0, "```json")
    ensures a > 0 ==> 7 <= a && LiteralAt(t, 0, "```json") && SpacesBetween(t, 7, a) && (a == |t| || !IsSpace(t[a]))
  {
    if LiteralAt(t, 0, "```json") then SkipSpaces(t, 7) else 0
  }

  /** `\s*```$` matches s from p on. `$` is taken as the end of the text: the text is
      stripped, so it never ends in the newline before which `$` also matches. */
  predicate CloseFence(s: string, p: nat) {
    p + 3 <= |s| && SpacesBetween(s, p, |s| - 3) && LiteralAt(s, |s| - 3, "```")
  }

  function CloseFenceAt(s: string, p: nat): (r: Option<Step<()>>)
    ensures r.Some? ==> p < r.value.end == |s| && CloseFence(s, p)
  {
    if p + 3 <= |s| && LiteralAt(s, |s| - 3, "```") && SkipSpaces(s, p) == |s| - 3 then
      Some(Step(|s|, ()))
    else
      None
  }

  /** The scanner finds every match of `\s*```$`. */
  lemma CloseFenceComplete(s: string, p: nat)
    requires CloseFence(s, p)
    ensures CloseFenceAt(s, p) == Some(Step(|s|, ()))
  {
    assert s[|s| - 3..][0] == '`';
    SkipSpacesTo(s, p, |s| - 3);
  }

  // ---------------------------------------------------------------------------------
  // The patterns as matchers for Scan.Search and Scan.FindAll.

  function KeyedMatcher(key: string, open: char, close: char, minLen: nat): Matcher<string> {
    (s: string, p: nat) => KeyedAt(s, p, key, open, close, minLen)
  }

  function QuotedMatcher(): Matcher<string> {
    (s: string, p: nat) => QuotedAt(s, p)
  }

  function PairMatcher(): Matcher<Pair> {
    (s: string, p: nat) => PairAt(s, p)
  }

  function CloseFenceMatcher(): Matcher<()> {
    (s: string, p: nat) => CloseFenceAt(s, p)
  }

  /** A quoted run is never empty, so findall over it never meets an empty match. */
  lemma QuotedAdvances(s: string)
    ensures Advances(QuotedMatcher(), s)
  {
    forall p: nat | QuotedMatcher()(s, p).Some?
      ensures p < QuotedMatcher()(s, p).value.end <= |s|
    {
      var st := QuotedAt(s, p).value;
      assert Delimited(s, p, st.end, '"', '"', 1, st.data);
    }
  }

  /** A rubric pair is never empty. */
  lemma PairAdvances(s: string)
    ensures Advances(PairMatcher(), s)
  {
    forall p: nat | PairMatcher()(s, p).Some?
      ensures p < PairMatcher()(s, p).value.end <= |s|
    {
      var st := PairAt(s, p).value;
      assert PairMatch(s, p, st.end, st.data.key, st.data.value);
    }
  }

  /** Where there is no quote, no rubric pair starts. */
  lemma NoQuoteNoPair(s: string, lo: nat, hi: nat)
    requires lo <= hi <= |s| + 1 && forall k :: lo <= k < hi && k < |s| ==> s[k] != '"'
    ensures NoMatchIn(PairMatcher(), s, lo, hi)
  {
  }

  /** Where there is no quote, no quoted run starts. */
  lemma NoQuoteNoRun(s: string, lo: nat, hi: nat)
    requires lo <= hi <= |s| && forall k :: lo <= k < hi ==> s[k] != '"'
    ensures NoMatchIn(QuotedMatcher(), s, lo, hi)
  {
  }
}
