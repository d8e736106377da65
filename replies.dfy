/** What extract_json_values gives back for replies laid out the way its prompt asks:
    a key followed by its value, lists whose items are quoted and separated, and a
    rubric object of `"<name>": true|false` pairs. */
module Replies {
  import opened Wrappers
  import opened Chars
  import opened Scan
  import opened Patterns
  import opened Fences
  import opened Extractor

  /** `"<key>":` does not start anywhere in u, nor straddle u's end into the key that
      follows it: the key written after u is its first occurrence. */
  predicate KeyFreeBefore(u: string, key: string) {
    forall q: nat :: q < |u| ==> !LiteralAt(u + KeyColon(key), q, KeyColon(key))
  }

  /** Text without quotes never holds a key (every key opens with a quote). */
  lemma QuoteFreeKeyFree(u: string, key: string)
    requires '"' !in u
    ensures KeyFreeBefore(u, key)
  {
    var kc := KeyColon(key);
    forall q: nat | q < |u|
      ensures !LiteralAt(u + kc, q, kc)
    {
      if q + |kc| <= |u + kc| {
        assert (u + kc)[q..q + |kc|][0] == (u + kc)[q] == u[q];
        assert u[q] in u;
        assert kc[0] == '"';
      }
    }
  }

  /** When the key does not occur before it, `"<key>":`, whitespace and a delimited group
      form the first keyed match. */
  lemma KeyedAfter(u: string, key: string, w: string, open: char, v: string, close: char, rest: string, minLen: nat)
    requires KeyFreeBefore(u, key) && AllSpaces(w) && |v| >= minLen && close !in v
    ensures var s := u + (KeyColon(key) + (w + ([open] + v + [close]) + rest));
      FirstKeyed(s, key, open, close, minLen, |u|, |u| + |KeyColon(key)| + |w| + |v| + 2, v)
  {
    var kc := KeyColon(key);
    var s := u + (kc + (w + ([open] + v + [close]) + rest));
    var p := |u|;
    var d := p + |kc| + |w|;
    var e := d + |v| + 2;
    assert s[p..p + |kc|] == kc;
    assert forall k :: p + |kc| <= k < d ==> s[k] == w[k - p - |kc|];
    assert s[d] == open;
    assert s[d + 1..e - 1] == v;
    assert s[e - 1] == close;
    assert Keyed(s, p, e, key, open, close, minLen, v);
    KeyFreePrefix(u, key, w + ([open] + v + [close]) + rest);
  }

  /** Whatever follows the key, it still does not occur earlier. */
  lemma KeyFreePrefix(u: string, key: string, y: string)
    requires KeyFreeBefore(u, key)
    ensures forall q: nat :: q < |u| ==> !LiteralAt(u + (KeyColon(key) + y), q, KeyColon(key))
  {
    var kc := KeyColon(key);
    var s := u + (kc + y);
    var t := u + kc;
    assert s == t + y;
    forall q: nat | q < |u|
      ensures !LiteralAt(s, q, kc)
    {
      if q + |kc| <= |s| {
        assert s[q..q + |kc|] == t[q..q + |kc|];
        assert !LiteralAt(t, q, kc);
      }
    }
  }

  /** `"<key>": "<v>"` with no earlier occurrence of the key gives v. */
  lemma FieldAfter(u: string, key: string, w: string, v: string, rest: string)
    requires KeyFreeBefore(u, key) && AllSpaces(w) && v != [] && '"' !in v
    ensures FieldValue(u + (KeyColon(key) + (w + ("\"" + v + "\"") + rest)), key) == v
  {
    KeyedAfter(u, key, w, '"', v, '"', rest, 1);
    FieldFirst(u + (KeyColon(key) + (w + ("\"" + v + "\"") + rest)), key, |u|, |u| + |KeyColon(key)| + |w| + |v| + 2, v);
  }

  /** `"<key>": [<v>]` with no earlier occurrence of the key and no `]` in v gives the
      items of v. */
  lemma ListAfter(u: string, key: string, w: string, v: string, rest: string)
    requires KeyFreeBefore(u, key) && AllSpaces(w) && ']' !in v
    ensures ListItems(u + (KeyColon(key) + (w + ("[" + v + "]") + rest)), key) == Items(v)
  {
    KeyedAfter(u, key, w, '[', v, ']', rest, 0);
    ListFirst(u + (KeyColon(key) + (w + ("[" + v + "]") + rest)), key, |u|, |u| + |KeyColon(key)| + |w| + |v| + 2, v);
  }

  // ---------------------------------------------------------------------------------
  // List bodies written item by item.

  function Quote(x: string): string {
    "\"" + x + "\""
  }

  /** xs written as a list body: each item quoted, sep between consecutive items. */
  function Rendered(xs: seq<string>, sep: string): string {
    if xs == [] then ""
    else if |xs| == 1 then Quote(xs[0])
    else Quote(xs[0]) + sep + Rendered(xs[1..], sep)
  }

  /** Items that are non-empty and quote-free, and a separator without quotes. */
  predicate Renderable(xs: seq<string>, sep: string) {
    '"' !in sep && forall i :: 0 <= i < |xs| ==> xs[i] != [] && '"' !in xs[i]
  }

  /** Each item with its surrounding whitespace removed. */
  function Stripped(xs: seq<string>): (r: seq<string>)
    ensures |r| == |xs| && forall i :: 0 <= i < |xs| ==> r[i] == Strip(xs[i])
  {
    seq(|xs|, i requires 0 <= i < |xs| => Strip(xs[i]))
  }

  /** A quoted item at |a| is the quoted run there. */
  lemma QuoteAt(a: string, x: string, b: string)
    requires x != [] && '"' !in x
    ensures QuotedAt(a + Quote(x) + b, |a|) == Some(Step(|a| + |x| + 2, x))
  {
    var s := a + Quote(x) + b;
    var p := |a|;
    assert s[p] == '"';
    assert s[p + 1..p + |x| + 1] == x;
    assert s[p + |x| + 1] == '"';
    DelimitedComplete(s, p, p + |x| + 2, '"', '"', 1, x);
  }

  lemma HeadFacts(a: string, x: string, sep: string, r: string)
    requires x != [] && '"' !in x && '"' !in sep
    ensures var s := a + Quote(x) + sep + r; var e := |a| + |x| + 2;
      |a + Quote(x) + sep| == e + |sep| <= |s|
      && QuotedMatcher()(s, |a|) == Some(Step(e, x)) && NoMatchIn(QuotedMatcher(), s, e, e + |sep|)
  {
    var s := a + Quote(x) + sep + r;
    assert s == a + Quote(x) + (sep + r);
    QuoteAt(a, x, sep + r);
    var e := |a| + |x| + 2;
    forall k | e <= k < e + |sep|
      ensures s[k] != '"'
    {
      assert s[k] == sep[k - e];
    }
    NoQuoteNoRun(s, e, e + |sep|);
  }

  /** A quoted item, then a separator without quotes: the scan reports the item and goes
      on after the separator. */
  lemma HeadRun(a: string, x: string, sep: string, r: string)
    requires x != [] && '"' !in x && '"' !in sep
    requires Advances(QuotedMatcher(), a + Quote(x) + sep + r)
    ensures var s := a + Quote(x) + sep + r;
      Groups(FindAll(s, |a|, QuotedMatcher())) == [x] + Groups(FindAll(s, |a + Quote(x) + sep|, QuotedMatcher()))
  {
    HeadFacts(a, x, sep, r);
    GroupsFrom(QuotedMatcher(), a + Quote(x) + sep + r, |a|, Step(|a| + |x| + 2, x), |a + Quote(x) + sep|);
  }

  lemma RenderedLast(a: string, x: string, sep: string)
    requires x != [] && '"' !in x
    requires Advances(QuotedMatcher(), a + Rendered([x], sep))
    ensures Groups(FindAll(a + Rendered([x], sep), |a|, QuotedMatcher())) == [x]
  {
    LastFacts(a, x, sep);
    var s := a + Rendered([x], sep);
    GroupsFrom(QuotedMatcher(), s, |a|, Step(|s|, x), |s| + 1);
  }

  lemma LastFacts(a: string, x: string, sep: string)
    requires x != [] && '"' !in x
    ensures var s := a + Rendered([x], sep);
      |s| == |a| + |x| + 2 && QuotedMatcher()(s, |a|) == Some(Step(|s|, x))
      && NoMatchIn(QuotedMatcher(), s, |s|, |s| + 1)
  {
    assert Rendered([x], sep) == Quote(x);
    assert a + Quote(x) == a + Quote(x) + "";
    QuoteAt(a, x, "");
  }

  lemma RenderedHead(a: string, xs: seq<string>, sep: string)
    requires |xs| >= 2 && Renderable(xs, sep)
    requires Advances(QuotedMatcher(), a + Rendered(xs, sep))
    ensures var a2 := a + Quote(xs[0]) + sep;
      a + Rendered(xs, sep) == a2 + Rendered(xs[1..], sep)
      && Groups(FindAll(a + Rendered(xs, sep), |a|, QuotedMatcher()))
         == [xs[0]] + Groups(FindAll(a2 + Rendered(xs[1..], sep), |a2|, QuotedMatcher()))
  {
    assert a + Rendered(xs, sep) == a + Quote(xs[0]) + sep + Rendered(xs[1..], sep);
    HeadRun(a, xs[0], sep, Rendered(xs[1..], sep));
  }

  /** Scanning a rendered body from where it starts gives back the items. */
  lemma {:induction false} RunsOfRendered(a: string, xs: seq<string>, sep: string)
    requires Renderable(xs, sep)
    requires Advances(QuotedMatcher(), a + Rendered(xs, sep))
    ensures Groups(FindAll(a + Rendered(xs, sep), |a|, QuotedMatcher())) == xs
    decreases |xs|
  {
    var m := QuotedMatcher();
    var s := a + Rendered(xs, sep);
    if xs == [] {
      assert Search(s, |a|, m).None?;
      assert FindAll(s, |a|, m) == [];
    } else if |xs| == 1 {
      RenderedLast(a, xs[0], sep);
    } else {
      var a2 := a + Quote(xs[0]) + sep;
      RenderedHead(a, xs, sep);
      RunsOfRendered(a2, xs[1..], sep);
    }
  }

  /** re.findall(r'"([^"]+)"', ...) over a rendered body returns the items. */
  lemma QuotedRunsRendered(xs: seq<string>, sep: string)
    requires Renderable(xs, sep)
    ensures QuotedRuns(Rendered(xs, sep)) == xs
  {
    var v := Rendered(xs, sep);
    QuotedAdvances(v);
    assert "" + v == v;
    RunsOfRendered("", xs, sep);
  }

  /** A rendered list reads back as its items, each whitespace-stripped. */
  lemma ItemsRendered(xs: seq<string>, sep: string)
    requires Renderable(xs, sep)
    ensures Items(Rendered(xs, sep)) == Stripped(xs)
  {
    QuotedRunsRendered(xs, sep);
  }

  /** `"<key>": [<rendered items>]` with no earlier occurrence of the key gives the
      stripped items, provided no `]` occurs inside the list. */
  lemma ListRendered(u: string, key: string, w: string, xs: seq<string>, sep: string, rest: string)
    requires KeyFreeBefore(u, key) && AllSpaces(w) && Renderable(xs, sep) && ']' !in Rendered(xs, sep)
    ensures ListItems(u + (KeyColon(key) + (w + ("[" + Rendered(xs, sep) + "]") + rest)), key) == Stripped(xs)
  {
    ListAfter(u, key, w, Rendered(xs, sep), rest);
    ItemsRendered(xs, sep);
  }

  // ---------------------------------------------------------------------------------
  // Rubric objects written pair by pair.

  /** A pair as the prompt asks for it: `"<key>":`, whitespace w, then `true` or `false`. */
  function PairText(x: Pair, w: string): string {
    KeyColon(x.key) + w + Literal(x.value)
  }

  /** ps written as the body of an object: sep between consecutive pairs. */
  function RenderedPairs(ps: seq<Pair>, w: string, sep: string): string {
    if ps == [] then ""
    else if |ps| == 1 then PairText(ps[0], w)
    else PairText(ps[0], w) + sep + RenderedPairs(ps[1..], w, sep)
  }

  /** Keys that are non-empty and quote-free, whitespace after each colon, and a separator
      without quotes. */
  predicate PairsRenderable(ps: seq<Pair>, w: string, sep: string) {
    AllSpaces(w) && '"' !in sep && forall i :: 0 <= i < |ps| ==> ps[i].key != [] && '"' !in ps[i].key
  }

  /** A text is found where it was put. */
  lemma LiteralInside(a: string, t: string, z: string)
    ensures LiteralAt(a + t + z, |a|, t)
  {
    assert (a + t + z)[|a|..|a| + |t|] == t;
  }

  /** Text found at p splits into its two parts. */
  lemma LiteralSplit(s: string, p: nat, u: string, v: string)
    requires LiteralAt(s, p, u + v)
    ensures LiteralAt(s, p, u) && LiteralAt(s, p + |u|, v)
  {
    assert s[p..p + |u|] == (u + v)[..|u|];
    assert s[p + |u|..p + |u| + |v|] == (u + v)[|u|..];
  }

  /** `"<k>":`, whitespace w and the literal of b, found one after the other from p,
      match the pair pattern. */
  lemma PairMatchWritten(s: string, p: nat, k: string, w: string, b: bool)
    requires k != [] && '"' !in k && AllSpaces(w)
    requires LiteralAt(s, p, KeyColon(k)) && LiteralAt(s, p + |k| + 3, w)
    requires LiteralAt(s, p + |k| + 3 + |w|, Literal(b))
    ensures PairMatch(s, p, p + |k| + 3 + |w| + |Literal(b)|, k, b)
  {
    var kc := KeyColon(k);
    var d := p + |k| + 3;
    assert s[p] == kc[0] == '"';
    assert kc[1..|k| + 1] == k;
    assert s[p + 1..p + |k| + 1] == s[p..p + |kc|][1..|k| + 1];
    assert s[p + |k| + 1] == kc[|k| + 1] == '"';
    assert s[p + |k| + 2] == kc[|k| + 2] == ':';
    forall j | d <= j < d + |w|
      ensures IsSpace(s[j])
    {
      assert s[j] == s[d..d + |w|][j - d] == w[j - d];
    }
  }

  /** A written pair found at p matches the pair pattern. */
  lemma PairTextMatch(s: string, p: nat, x: Pair, w: string)
    requires x.key != [] && '"' !in x.key && AllSpaces(w)
    requires LiteralAt(s, p, PairText(x, w))
    ensures PairMatch(s, p, p + |PairText(x, w)|, x.key, x.value)
  {
    LiteralSplit(s, p, KeyColon(x.key) + w, Literal(x.value));
    LiteralSplit(s, p, KeyColon(x.key), w);
    PairMatchWritten(s, p, x.key, w, x.value);
  }

  /** A pair match is what the pair matcher reports. */
  lemma PairMatcherOf(s: string, p: nat, e: nat, x: Pair)
    requires PairMatch(s, p, e, x.key, x.value)
    ensures PairMatcher()(s, p) == Some(Step(e, x))
  {
    PairComplete(s, p, e, x.key, x.value);
  }

  /** No quote occurs where quote-free text was found. */
  lemma LiteralNoQuote(s: string, q: nat, t: string)
    requires LiteralAt(s, q, t) && '"' !in t
    ensures forall k :: q <= k < q + |t| ==> s[k] != '"'
  {
    forall k | q <= k < q + |t|
      ensures s[k] != '"'
    {
      assert s[k] == s[q..q + |t|][k - q] == t[k - q];
      assert t[k - q] in t;
    }
  }

  /** A pair at p and no pair in [e, n): findall reports the pair and resumes at n. */
  lemma PairGroupsFrom(s: string, p: nat, x: Pair, e: nat, n: nat)
    requires Advances(PairMatcher(), s) && p <= e <= n <= |s| + 1
    requires PairMatcher()(s, p) == Some(Step(e, x)) && NoMatchIn(PairMatcher(), s, e, n)
    ensures Groups(FindAll(s, p, PairMatcher())) == [x] + Groups(FindAll(s, n, PairMatcher()))
    ensures n > |s| ==> Groups(FindAll(s, p, PairMatcher())) == [x]
  {
    PairAdvances(s);
    GroupsFrom(PairMatcher(), s, p, Step(e, x), n);
  }

  /** A written pair, then a separator without quotes: the pair is what the matcher
      reports, and no pair starts in the separator. */
  lemma PairHeadFacts(s: string, p: nat, x: Pair, w: string, sep: string, e: nat, n: nat)
    requires x.key != [] && '"' !in x.key && AllSpaces(w) && '"' !in sep
    requires LiteralAt(s, p, PairText(x, w) + sep) && e == p + |PairText(x, w)| && n == e + |sep|
    ensures p <= e <= n <= |s|
    ensures PairMatcher()(s, p) == Some(Step(e, x))
    ensures NoMatchIn(PairMatcher(), s, e, n)
  {
    LiteralSplit(s, p, PairText(x, w), sep);
    PairTextMatch(s, p, x, w);
    PairMatcherOf(s, p, e, x);
    LiteralNoQuote(s, e, sep);
    NoQuoteNoPair(s, e, n);
  }

  /** The last written pair, with no pair starting after it, is the last one reported. */
  lemma PairLastRun(s: string, p: nat, x: Pair, w: string)
    requires x.key != [] && '"' !in x.key && AllSpaces(w)
    requires Advances(PairMatcher(), s) && LiteralAt(s, p, PairText(x, w))
    requires NoMatchIn(PairMatcher(), s, p + |PairText(x, w)|, |s| + 1)
    ensures Groups(FindAll(s, p, PairMatcher())) == [x]
  {
    PairTextMatch(s, p, x, w);
    PairMatcherOf(s, p, p + |PairText(x, w)|, x);
    PairGroupsFrom(s, p, x, p + |PairText(x, w)|, |s| + 1);
  }

  /** Written pairs found at p: the first pair with its separator, then the others from n. */
  lemma RenderedSplit(s: string, p: nat, ps: seq<Pair>, w: string, sep: string, n: nat)
    requires |ps| >= 2 && PairsRenderable(ps, w, sep) && LiteralAt(s, p, RenderedPairs(ps, w, sep))
    requires n == p + |PairText(ps[0], w)| + |sep|
    ensures LiteralAt(s, p, PairText(ps[0], w) + sep) && PairsRenderable(ps[1..], w, sep)
    ensures LiteralAt(s, n, RenderedPairs(ps[1..], w, sep))
    ensures n + |RenderedPairs(ps[1..], w, sep)| == p + |RenderedPairs(ps, w, sep)|
  {
    var head := PairText(ps[0], w) + sep;
    assert RenderedPairs(ps, w, sep) == head + RenderedPairs(ps[1..], w, sep);
    LiteralSplit(s, p, head, RenderedPairs(ps[1..], w, sep));
    assert PairsRenderable(ps[1..], w, sep);
  }

  /** Scanning from where a rubric object's pairs are written gives back the pairs, when no
      pair starts after them. */
  lemma {:induction false} PairsOfRendered(s: string, p: nat, ps: seq<Pair>, w: string, sep: string)
    requires PairsRenderable(ps, w, sep)
    requires Advances(PairMatcher(), s) && LiteralAt(s, p, RenderedPairs(ps, w, sep))
    requires NoMatchIn(PairMatcher(), s, p + |RenderedPairs(ps, w, sep)|, |s| + 1)
    ensures Groups(FindAll(s, p, PairMatcher())) == ps
    decreases |ps|
  {
    if ps == [] {
      assert Search(s, p, PairMatcher()).None?;
    } else if |ps| == 1 {
      PairLastRun(s, p, ps[0], w);
    } else {
      var e := p + |PairText(ps[0], w)|;
      var n := e + |sep|;
      RenderedSplit(s, p, ps, w, sep, n);
      PairHeadFacts(s, p, ps[0], w, sep, e, n);
      PairGroupsFrom(s, p, ps[0], e, n);
      PairsOfRendered(s, n, ps[1..], w, sep);
    }
  }

  /** A rubric object written pair by pair, in a reply where the pair pattern matches
      nowhere before it (u) or after it (z), yields exactly its pairs, in order. */
  lemma RubricPairsRendered(u: string, ps: seq<Pair>, w: string, sep: string, z: string)
    requires PairsRenderable(ps, w, sep)
    requires NoMatchIn(PairMatcher(), u + RenderedPairs(ps, w, sep) + z, 0, |u|)
    requires NoMatchIn(PairMatcher(), u + RenderedPairs(ps, w, sep) + z,
      |u + RenderedPairs(ps, w, sep)|, |u + RenderedPairs(ps, w, sep) + z| + 1)
    ensures Groups(RubricMatches(u + RenderedPairs(ps, w, sep) + z)) == ps
  {
    var m := PairMatcher();
    var s := u + RenderedPairs(ps, w, sep) + z;
    PairAdvances(s);
    LiteralInside(u, RenderedPairs(ps, w, sep), z);
    SearchSkip(m, s, 0, |u|);
    FindAllSameSearch(m, s, 0, |u|);
    PairsOfRendered(s, |u|, ps, w, sep);
  }

  /** The same between quote-free text, such as the braces of the object. */
  lemma RubricPairsBetween(u: string, ps: seq<Pair>, w: string, sep: string, z: string)
    requires PairsRenderable(ps, w, sep) && '"' !in u && '"' !in z
    ensures Groups(RubricMatches(u + RenderedPairs(ps, w, sep) + z)) == ps
  {
    var s := u + RenderedPairs(ps, w, sep) + z;
    var n := |u + RenderedPairs(ps, w, sep)|;
    forall k | 0 <= k < |u|
      ensures s[k] != '"'
    {
      assert s[k] == u[k] && u[k] in u;
    }
    forall k | n <= k < |s|
      ensures s[k] != '"'
    {
      assert s[k] == z[k - n] && z[k - n] in z;
    }
    NoQuoteNoPair(s, 0, |u|);
    NoQuoteNoPair(s, n, |s| + 1);
    RubricPairsRendered(u, ps, w, sep, z);
  }

  /** In the dictionary built from such an object, a name is present exactly when it is a
      rubric name written in the object. */
  lemma RubricKeysRendered(u: string, ps: seq<Pair>, w: string, sep: string, z: string, k: string)
    requires PairsRenderable(ps, w, sep)
    requires NoMatchIn(PairMatcher(), u + RenderedPairs(ps, w, sep) + z, 0, |u|)
    requires NoMatchIn(PairMatcher(), u + RenderedPairs(ps, w, sep) + z,
      |u + RenderedPairs(ps, w, sep)|, |u + RenderedPairs(ps, w, sep) + z| + 1)
    ensures k in Record(Groups(RubricMatches(u + RenderedPairs(ps, w, sep) + z)))
      <==> IsRubricName(k) && exists i :: 0 <= i < |ps| && ps[i].key == k
  {
    RubricPairsRendered(u, ps, w, sep, z);
    RecordKeys(ps, k);
  }

  /** ... and a written rubric name gets the value of its last occurrence. */
  lemma RubricValueRendered(u: string, ps: seq<Pair>, w: string, sep: string, z: string, k: string, i: nat)
    requires PairsRenderable(ps, w, sep) && IsRubricName(k) && LastWith(ps, k, i)
    requires NoMatchIn(PairMatcher(), u + RenderedPairs(ps, w, sep) + z, 0, |u|)
    requires NoMatchIn(PairMatcher(), u + RenderedPairs(ps, w, sep) + z,
      |u + RenderedPairs(ps, w, sep)|, |u + RenderedPairs(ps, w, sep) + z| + 1)
    ensures k in Record(Groups(RubricMatches(u + RenderedPairs(ps, w, sep) + z)))
    ensures Record(Groups(RubricMatches(u + RenderedPairs(ps, w, sep) + z)))[k] == ps[i].value
  {
    RubricPairsRendered(u, ps, w, sep, z);
    RecordValue(ps, k, i);
  }

  /** A fenced reply holding a rubric object `{<pairs>}` yields, as its rubric points,
      the dictionary the loop builds from exactly those pairs. */
  lemma FencedRubricObject(u: string, w1: string, ps: seq<Pair>, w: string, sep: string, w2: string, v: string)
    requires AllSpaces(u) && AllSpaces(w1) && AllSpaces(w2) && AllSpaces(v) && PairsRenderable(ps, w, sep)
    ensures Extraction(u + ("```json" + w1 + ("{" + RenderedPairs(ps, w, sep) + "}") + w2 + "```") + v).rubricPoints
      == Record(ps)
  {
    var x := "{" + RenderedPairs(ps, w, sep) + "}";
    var content := u + ("```json" + w1 + x + w2 + "```") + v;
    assert x[0] == '{' && x[|x| - 1] == '}';
    FencedReply(u, w1, x, w2, v);
    RubricPairsBetween("{", ps, w, sep, "}");
    ExtractionRubricPoints(content);
  }

  // ---------------------------------------------------------------------------------
  // An empty item: `[^"]+` cannot match "", so the quote that closes it opens a run
  // instead, and the pairing of quotes shifts.

  /** The list body `"", "x"` reads as the single item `,`. */
  lemma EmptyItem(v: string)
    requires v == "\"\", \"x\""
    ensures Items(v) == [","]
  {
    EmptyItemRuns(v);
    StripSurrounded("", ",", " ");
    assert "" + "," + " " == ", ";
  }

  lemma EmptyItemRuns(v: string)
    requires v == "\"\", \"x\""
    ensures QuotedRuns(v) == [", "]
  {
    var m := QuotedMatcher();
    QuotedAdvances(v);
    EmptyItemFacts(v);
    SearchSkip(m, v, 0, 1);
    FindAllSameSearch(m, v, 0, 1);
    GroupsFrom(m, v, 1, Step(5, ", "), 8);
  }

  lemma EmptyItemFacts(v: string)
    requires v == "\"\", \"x\""
    ensures var m := QuotedMatcher();
      m(v, 0).None? && m(v, 1) == Some(Step(5, ", ")) && NoMatchIn(m, v, 0, 1) && NoMatchIn(m, v, 5, 8)
  {
    assert v[2..4] == ", ";
    DelimitedComplete(v, 1, 5, '"', '"', 1, ", ");
  }
}
