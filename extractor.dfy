/** extract_json_values: a best-effort reader of a language model's reply. It never
    parses JSON; it cuts the Markdown fences off, looks for a handful of patterns and
    fills a fixed five-field record, with "", an empty map or an empty list for any
    pattern that is not there. */
module Extractor {
  import opened Wrappers
  import opened Chars
  import opened Scan
  import opened Patterns
  import opened Fences

  /** The record extract_json_values returns. */
  datatype Extracted = Extracted(
    studentResponse: string,
    teacherScore: string,
    rubricPoints: map<string, bool>,
    misconceptions: seq<string>,
    pointsEarned: seq<string>)

  /** The six rubric criteria whose pairs are kept. */
  predicate IsRubricName(key: string) {
    key in ["purpose_regenerate_nad", "fermentation_oxidizes_nadh",
            "pyruvate_oxidizing_agent", "nad_needed_glycolysis",
            "atp_impact_no_nad", "o2_role_etc"]
  }

  /** The text every pattern is searched in: the reply stripped and without fences. */
  function Unfenced(content: string): (s: string)
    ensures forall c :: c in s ==> c in content
  {
    var t := Strip(content);
    var s := StripFences(t);
    forall c | c in s
      ensures c in content
    {
      var k :| 0 <= k < |s| && s[k] == c;
      assert t[OpenFenceEnd(t) + k] == c;
      StripKeeps(content, c);
    }
    s
  }

  // ---------------------------------------------------------------------------------
  // The leftmost keyed match: re.search of `"<key>":\s*` and a delimited group.

  /** The keyed pattern matches from p to e with group v, and it matches at no earlier
      position: the match re.search reports. */
  ghost predicate FirstKeyed(s: string, key: string, open: char, close: char, minLen: nat, p: nat, e: nat, v: string) {
    Keyed(s, p, e, key, open, close, minLen, v)
    && forall q: nat, e2: nat, v2: string :: q < p ==> !Keyed(s, q, e2, key, open, close, minLen, v2)
  }

  /** The scanner search reports exactly the first keyed match. */
  lemma KeyedSearchFirst(s: string, key: string, open: char, close: char, minLen: nat, p: nat, e: nat, v: string)
    requires !IsSpace(open)
    requires FirstKeyed(s, key, open, close, minLen, p, e, v)
    ensures Search(s, 0, KeyedMatcher(key, open, close, minLen)) == Some(Match(p, e, v))
  {
    var m := KeyedMatcher(key, open, close, minLen);
    assert NoMatchIn(m, s, 0, p);
    KeyedComplete(s, p, e, key, open, close, minLen, v);
    SearchLeftmost(s, 0, m, p);
  }

  /** Wherever the keyed pattern matches, the scanner search finds a match there or
      earlier. */
  lemma KeyedSearchBefore(s: string, key: string, open: char, close: char, minLen: nat, p: nat, e: nat, v: string)
    requires !IsSpace(open)
    requires Keyed(s, p, e, key, open, close, minLen, v)
    ensures Search(s, 0, KeyedMatcher(key, open, close, minLen)).Some?
      && Search(s, 0, KeyedMatcher(key, open, close, minLen)).value.start <= p
  {
    KeyedComplete(s, p, e, key, open, close, minLen, v);
    assert KeyedMatcher(key, open, close, minLen)(s, p).Some?;
  }

  /** What the scanner search reports is the first keyed match, and when it reports
      nothing the pattern matches nowhere. */
  lemma KeyedSearchFound(s: string, key: string, open: char, close: char, minLen: nat)
    requires !IsSpace(open)
    ensures match Search(s, 0, KeyedMatcher(key, open, close, minLen))
      case Some(x) => FirstKeyed(s, key, open, close, minLen, x.start, x.end, x.data)
      case None => forall p: nat, e: nat, v: string :: !Keyed(s, p, e, key, open, close, minLen, v)
  {
    forall p: nat, e: nat, v: string | Keyed(s, p, e, key, open, close, minLen, v)
      ensures Search(s, 0, KeyedMatcher(key, open, close, minLen)).Some?
      && Search(s, 0, KeyedMatcher(key, open, close, minLen)).value.start <= p
    {
      KeyedSearchBefore(s, key, open, close, minLen, p, e, v);
    }
  }

  // ---------------------------------------------------------------------------------
  // student_response and teacher_score: `"<key>":\s*"([^"]+)"`, or "" when absent.

  /** The group of the first `"<key>":\s*"([^"]+)"` match in s, or "". */
  function FieldValue(s: string, key: string): (r: string)
    ensures '"' !in r
  {
    match Search(s, 0, KeyedMatcher(key, '"', '"', 1))
      case Some(x) => x.data
      case None => ""
  }

  /** The first quoted value after the key is the field. */
  lemma FieldFirst(s: string, key: string, p: nat, e: nat, v: string)
    requires FirstKeyed(s, key, '"', '"', 1, p, e, v)
    ensures FieldValue(s, key) == v
  {
    KeyedSearchFirst(s, key, '"', '"', 1, p, e, v);
  }

  /** The field is "" exactly when the pattern matches nowhere; otherwise it is the group
      of the first match. */
  lemma FieldFound(s: string, key: string)
    ensures FieldValue(s, key) == "" <==> forall p: nat, e: nat, v: string :: !Keyed(s, p, e, key, '"', '"', 1, v)
    ensures FieldValue(s, key) != "" ==> exists p: nat, e: nat :: FirstKeyed(s, key, '"', '"', 1, p, e, FieldValue(s, key))
  {
    KeyedSearchFound(s, key, '"', '"', 1);
  }

  // ---------------------------------------------------------------------------------
  // points_earned and misconceptions: `"<key>":\s*\[(.*?)\]` under DOTALL, then
  // [x.strip().strip('"') for x in re.findall(r'"([^"]+)"', group)].

  /** The quoted runs of v, in order: re.findall(r'"([^"]+)"', v). */
  function QuotedRuns(v: string): (r: seq<string>)
    ensures forall i :: 0 <= i < |r| ==> r[i] != [] && '"' !in r[i]
  {
    QuotedAdvances(v);
    var ms := FindAll(v, 0, QuotedMatcher());
    forall i | 0 <= i < |ms|
      ensures ms[i].data != [] && '"' !in ms[i].data
    {
      assert Delimited(v, ms[i].start, ms[i].end, '"', '"', 1, ms[i].data);
    }
    Groups(ms)
  }

  /** No item holds a quote or starts or ends with whitespace. */
  predicate ItemsClean(items: seq<string>) {
    forall i :: 0 <= i < |items| ==>
      '"' !in items[i] && (items[i] == [] || (!IsSpace(items[i][0]) && !IsSpace(items[i][|items[i]| - 1])))
  }

  /** The list items read from a bracket group: each quoted run, whitespace-stripped and
      then stripped of quotes. The second strip never changes anything, since a run
      holds no quote; an item is empty when its run was all whitespace. */
  function Items(v: string): (r: seq<string>)
    ensures |r| == |QuotedRuns(v)|
    ensures forall i :: 0 <= i < |r| ==> r[i] == Strip(QuotedRuns(v)[i])
    ensures ItemsClean(r)
  {
    var g := QuotedRuns(v);
    forall i | 0 <= i < |g|
      ensures '"' !in Strip(g[i])
    {
      StripKeeps(g[i], '"');
    }
    seq(|g|, i requires 0 <= i < |g| => StripChar(Strip(g[i]), '"'))
  }

  /** The items of the first `"<key>": [...]` group, or [] when there is none. */
  function ListItems(s: string, key: string): (r: seq<string>)
    ensures ItemsClean(r)
  {
    match Search(s, 0, KeyedMatcher(key, '[', ']', 0))
      case Some(x) => Items(x.data)
      case None => []
  }

  /** The list is read from the first bracket group after the key, and only up to its
      first `]`. */
  lemma ListFirst(s: string, key: string, p: nat, e: nat, v: string)
    requires FirstKeyed(s, key, '[', ']', 0, p, e, v)
    ensures ListItems(s, key) == Items(v) && ']' !in v
  {
    KeyedSearchFirst(s, key, '[', ']', 0, p, e, v);
  }

  /** A missing list key gives [], whatever else the text holds. */
  lemma ListAbsent(s: string, key: string)
    requires forall p: nat, e: nat, v: string :: !Keyed(s, p, e, key, '[', ']', 0, v)
    ensures ListItems(s, key) == []
  {
    KeyedSearchFound(s, key, '[', ']', 0);
  }

  /** A non-empty list comes from the first bracket group after the key. */
  lemma ListFound(s: string, key: string)
    ensures ListItems(s, key) != [] ==>
      exists p: nat, e: nat, v: string :: FirstKeyed(s, key, '[', ']', 0, p, e, v) && ListItems(s, key) == Items(v)
  {
    KeyedSearchFound(s, key, '[', ']', 0);
  }

  // ---------------------------------------------------------------------------------
  // rubric_points: every `"([^"]+)":\s*(true|false)` pair in scan order, kept only for
  // the six rubric names, a later pair overwriting an earlier one.

  /** The pairs re.finditer reports in s, with where each lies. */
  function RubricMatches(s: string): (r: seq<Match<Pair>>)
    ensures forall i :: 0 <= i < |r| ==> PairMatch(s, r[i].start, r[i].end, r[i].data.key, r[i].data.value)
    ensures forall i, j :: 0 <= i < j < |r| ==> r[i].end <= r[j].start
  {
    PairAdvances(s);
    FindAll(s, 0, PairMatcher())
  }

  /** A pair is never passed over: where the pair pattern matches, a reported pair starts
      or one overlapping it was reported. */
  lemma PairsNotSkipped(s: string, p: nat, e: nat, k: string, b: bool)
    requires PairMatch(s, p, e, k, b)
    ensures exists i :: 0 <= i < |RubricMatches(s)| && Covers(RubricMatches(s)[i], p)
  {
    PairAdvances(s);
    PairComplete(s, p, e, k, b);
    FindAllCovers(s, 0, PairMatcher(), p);
    var i :| 0 <= i < |FindAll(s, 0, PairMatcher())| && Covers(FindAll(s, 0, PairMatcher())[i], p);
    assert RubricMatches(s)[i] == FindAll(s, 0, PairMatcher())[i];
  }

  /** The dictionary the loop builds from pairs ps: a left fold in which a pair with a
      rubric name sets that name and any other pair is ignored. */
  function Record(ps: seq<Pair>): (r: map<string, bool>)
    ensures forall k :: k in r ==> IsRubricName(k)
  {
    if ps == [] then map[]
    else
      var r := Record(ps[..|ps| - 1]);
      var last := ps[|ps| - 1];
      if IsRubricName(last.key) then r[last.key := last.value] else r
  }

  /** ps[i] is the last pair whose key is k. */
  predicate LastWith(ps: seq<Pair>, k: string, i: nat) {
    i < |ps| && ps[i].key == k && forall j :: i < j < |ps| ==> ps[j].key != k
  }

  /** A name is in the dictionary exactly when it is a rubric name that some pair carries. */
  lemma {:induction false} RecordKeys(ps: seq<Pair>, k: string)
    ensures k in Record(ps) <==> IsRubricName(k) && exists i :: 0 <= i < |ps| && ps[i].key == k
  {
    if ps != [] {
      var init := ps[..|ps| - 1];
      RecordKeys(init, k);
      if k != ps[|ps| - 1].key && exists i :: 0 <= i < |ps| && ps[i].key == k {
        var i :| 0 <= i < |ps| && ps[i].key == k;
        assert init[i].key == k;
      }
    }
  }

  /** The last pair with a name decides its value: true exactly when it read `true`. */
  lemma {:induction false} RecordValue(ps: seq<Pair>, k: string, i: nat)
    requires IsRubricName(k) && LastWith(ps, k, i)
    ensures k in Record(ps) && Record(ps)[k] == ps[i].value
  {
    var init := ps[..|ps| - 1];
    if i < |ps| - 1 {
      assert LastWith(init, k, i);
      RecordValue(init, k, i);
    }
  }

  /** One more pair: the dictionary after it is the dictionary before, with that pair's
      name set when it is a rubric name. */
  lemma RecordStep(ps: seq<Pair>, i: nat)
    requires i < |ps|
    ensures Record(ps[..i + 1]) ==
      if IsRubricName(ps[i].key) then Record(ps[..i])[ps[i].key := ps[i].value] else Record(ps[..i])
  {
    assert ps[..i + 1][..i] == ps[..i];
  }

  /** The loop over re.finditer's pairs that fills rubric_points in place. */
  method CollectRubricPoints(s: string) returns (points: map<string, bool>)
    ensures points == Record(Groups(RubricMatches(s)))
  {
    var pairs := Groups(RubricMatches(s));
    points := map[];
    for i := 0 to |pairs|
      invariant points == Record(pairs[..i])
    {
      RecordStep(pairs, i);
      var key, value := pairs[i].key, pairs[i].value;
      if IsRubricName(key) {
        points := points[key := value];
      }
    }
    assert pairs[..|pairs|] == pairs;
  }

  // ---------------------------------------------------------------------------------
  // The whole record.

  /** What every record satisfies, whatever the reply. */
  predicate WellFormed(r: Extracted) {
    '"' !in r.studentResponse && '"' !in r.teacherScore
    && (forall k :: k in r.rubricPoints ==> IsRubricName(k))
    && ItemsClean(r.misconceptions) && ItemsClean(r.pointsEarned)
  }

  /** extract_json_values as a function of the reply: defined, and well formed, for
      every input. */
  function Extraction(content: string): (r: Extracted)
    ensures WellFormed(r)
  {
    var s := Unfenced(content);
    Extracted(
      FieldValue(s, "student_response"),
      FieldValue(s, "teacher_score"),
      Record(Groups(RubricMatches(s))),
      ListItems(s, "misconceptions"),
      ListItems(s, "points_earned"))
  }

  /** The rubric points of a reply are the loop's dictionary over the pairs found in the
      text left after stripping and fence removal. */
  lemma ExtractionRubricPoints(content: string)
    ensures Extraction(content).rubricPoints == Record(Groups(RubricMatches(Unfenced(content))))
  {
  }

  /** extract_json_values, with its rubric loop. */
  method ExtractJsonValues(content: string) returns (r: Extracted)
    ensures r == Extraction(content) && WellFormed(r)
  {
    var s := Unfenced(content);
    var studentResponse := FieldValue(s, "student_response");
    var teacherScore := FieldValue(s, "teacher_score");
    var rubricPoints := CollectRubricPoints(s);
    var pointsEarned := ListItems(s, "points_earned");
    var misconceptions := ListItems(s, "misconceptions");
    r := Extracted(studentResponse, teacherScore, rubricPoints, misconceptions, pointsEarned);
  }

  /** Without a quote character no keyed pattern matches anywhere: each starts with one. */
  lemma NoQuoteNoKeyed(s: string, key: string, open: char, close: char, minLen: nat)
    requires '"' !in s
    ensures forall p: nat, e: nat, v: string :: !Keyed(s, p, e, key, open, close, minLen, v)
  {
    var kc := KeyColon(key);
    forall p: nat
      ensures !LiteralAt(s, p, kc)
    {
      if p + |kc| <= |s| {
        assert s[p..p + |kc|][0] == s[p];
        assert s[p] in s;
      }
    }
  }

  /** Without a quote character no rubric pair is found: each starts with one. */
  lemma NoQuoteNoPairs(s: string)
    requires '"' !in s
    ensures RubricMatches(s) == []
  {
    forall p: nat | p <= |s|
      ensures PairMatcher()(s, p).None?
    {
      if p < |s| {
        assert s[p] in s;
      }
    }
  }

  /** A reply without a single quote character yields the all-default record. */
  lemma NoQuotesNoValues(content: string)
    requires '"' !in content
    ensures Extraction(content) == Extracted("", "", map[], [], [])
  {
    var s := Unfenced(content);
    NoQuoteNoKeyed(s, "student_response", '"', '"', 1);
    NoQuoteNoKeyed(s, "teacher_score", '"', '"', 1);
    NoQuoteNoKeyed(s, "misconceptions", '[', ']', 0);
    NoQuoteNoKeyed(s, "points_earned", '[', ']', 0);
    FieldFound(s, "student_response");
    FieldFound(s, "teacher_score");
    ListAbsent(s, "misconceptions");
    ListAbsent(s, "points_earned");
    NoQuoteNoPairs(s);
  }
}
