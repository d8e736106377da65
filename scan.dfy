/** Python's leftmost matching, independent of any one pattern.
    A pattern is given as an anchored matcher: a function that says whether the pattern
    matches the text at one position, where that match ends and what its group captured.
    `re.search` is the leftmost position with a match; `re.finditer` and `re.findall`
    take the leftmost match, then resume at its end, and so on. */
module Scan {
  import opened Wrappers

  /** What an anchored pattern yields at a position: the end of the match and its group. */
  datatype Step<T> = Step(end: nat, data: T)

  /** One match as `re` reports it: where it starts, where it ends, its group. */
  datatype Match<T> = Match(start: nat, end: nat, data: T)

  /** An anchored pattern: m(s, p) tries to match s from position p. */
  type Matcher<T> = (string, nat) -> Option<Step<T>>

  /** Every match of m in s is non-empty and ends within s. All the patterns of the
      extractor are of this kind, so finditer never meets Python's empty-match rule. */
  ghost predicate Advances<T>(m: Matcher<T>, s: string) {
    forall p: nat :: m(s, p).Some? ==> p < m(s, p).value.end <= |s|
  }

  /** The pattern matches at no position in [lo, hi). */
  ghost predicate NoMatchIn<T>(m: Matcher<T>, s: string, lo: nat, hi: nat) {
    forall p: nat :: lo <= p < hi ==> m(s, p).None?
  }

  /** `re.search(pattern, s[from..])`-style lookup: the leftmost position at or after
      `from` at which m matches (Python also tries the position |s|). */
  function Search<T>(s: string, from: nat, m: Matcher<T>): (r: Option<Match<T>>)
    ensures r.Some? ==> from <= r.value.start <= |s|
    ensures r.Some? ==> m(s, r.value.start) == Some(Step(r.value.end, r.value.data))
    ensures r.Some? ==> forall p :: from <= p < r.value.start ==> m(s, p).None?
    ensures r.None? <==> forall p :: from <= p <= |s| ==> m(s, p).None?
    decreases |s| + 1 - from
  {
    if from > |s| then None
    else match m(s, from)
      case Some(st) => Some(Match(from, st.end, st.data))
      case None => Search(s, from + 1, m)
  }

  /** Search returns the leftmost match: a position where m matches with no match
      between `from` and it. */
  lemma SearchLeftmost<T>(s: string, from: nat, m: Matcher<T>, p: nat)
    requires from <= p <= |s| && m(s, p).Some? && NoMatchIn(m, s, from, p)
    ensures Search(s, from, m) == Some(Match(p, m(s, p).value.end, m(s, p).value.data))
  {
  }

  /** `re.finditer(pattern, s)` from position `from`: the leftmost match, then the
      leftmost match from the end of that one, and so on. */
  function FindAll<T>(s: string, from: nat, m: Matcher<T>): (r: seq<Match<T>>)
    requires Advances(m, s)
    ensures forall i :: 0 <= i < |r| ==> from <= r[i].start < r[i].end <= |s|
    ensures forall i :: 0 <= i < |r| ==> m(s, r[i].start) == Some(Step(r[i].end, r[i].data))
    ensures forall i, j :: 0 <= i < j < |r| ==> r[i].end <= r[j].start
    decreases |s| + 1 - from
  {
    match Search(s, from, m)
      case None => []
      case Some(h) => [h] + FindAll(s, h.end, m)
  }

  /** The captured groups of a run of matches, in order: what re.findall returns. */
  function Groups<T>(ms: seq<Match<T>>): (r: seq<T>)
    ensures |r| == |ms| && forall i :: 0 <= i < |ms| ==> r[i] == ms[i].data
  {
    seq(|ms|, i requires 0 <= i < |ms| => ms[i].data)
  }

  /** Where the scan that found ms[i] began: `from` for the first match, the end of the
      previous match for the others. */
  function Resume<T>(ms: seq<Match<T>>, from: nat, i: nat): nat
    requires i <= |ms|
  {
    if i == 0 then from else ms[i - 1].end
  }

  /** finditer skips nothing: between the resume point and the next match, and after the
      last match, the pattern matches nowhere. */
  lemma {:induction false} FindAllLeftmost<T>(s: string, from: nat, m: Matcher<T>)
    requires Advances(m, s)
    ensures forall i :: 0 <= i < |FindAll(s, from, m)| ==>
      NoMatchIn(m, s, Resume(FindAll(s, from, m), from, i), FindAll(s, from, m)[i].start)
    ensures NoMatchIn(m, s, Resume(FindAll(s, from, m), from, |FindAll(s, from, m)|), |s| + 1)
    decreases |s| + 1 - from
  {
    var r := FindAll(s, from, m);
    match Search(s, from, m)
      case None =>
      case Some(h) =>
        FindAllLeftmost(s, h.end, m);
        var rest := FindAll(s, h.end, m);
        assert r == [h] + rest;
        forall i | 0 <= i < |r|
          ensures NoMatchIn(m, s, Resume(r, from, i), r[i].start)
        {
          if i > 0 {
            assert r[i] == rest[i - 1];
            assert Resume(r, from, i) == Resume(rest, h.end, i - 1);
          }
        }
        assert Resume(r, from, |r|) == Resume(rest, h.end, |rest|);
  }

  /** The match x spans position p. */
  predicate Covers<T>(x: Match<T>, p: nat) {
    x.start <= p < x.end
  }

  /** A position where the pattern matches is never passed over: it is the start of a
      reported match or lies inside one (an earlier, overlapping match consumed it). */
  lemma {:induction false} FindAllCovers<T>(s: string, from: nat, m: Matcher<T>, p: nat)
    requires Advances(m, s)
    requires from <= p <= |s| && m(s, p).Some?
    ensures exists i :: 0 <= i < |FindAll(s, from, m)| && Covers(FindAll(s, from, m)[i], p)
    decreases |s| + 1 - from
  {
    var r := FindAll(s, from, m);
    match Search(s, from, m)
      case None =>
      case Some(h) =>
        var rest := FindAll(s, h.end, m);
        assert r == [h] + rest;
        if p < h.end {
          assert !(p < h.start);
          assert r[0] == h;
          assert Covers(r[0], p);
        } else {
          FindAllCovers(s, h.end, m, p);
          var i :| 0 <= i < |rest| && Covers(rest[i], p);
          assert r[i + 1] == rest[i];
        }
  }

  /** A search that meets no match between f1 and f2 finds what a search from f2 finds. */
  lemma {:induction false} SearchSkip<T>(m: Matcher<T>, s: string, f1: nat, f2: nat)
    requires f1 <= f2 <= |s| + 1 && NoMatchIn(m, s, f1, f2)
    ensures Search(s, f1, m) == Search(s, f2, m)
    decreases f2 - f1
  {
    if f1 < f2 {
      SearchSkip(m, s, f1 + 1, f2);
    }
  }

  /** Two scans that begin with the same search report the same matches. */
  lemma FindAllSameSearch<T>(m: Matcher<T>, s: string, f1: nat, f2: nat)
    requires Advances(m, s) && Search(s, f1, m) == Search(s, f2, m)
    ensures FindAll(s, f1, m) == FindAll(s, f2, m)
  {
  }

  lemma GroupsCons<T>(h: Match<T>, r: seq<Match<T>>)
    ensures Groups([h] + r) == [h.data] + Groups(r)
  {
  }

  /** The groups of a scan are the first match's group, then those of the scan that
      resumes at its end. */
  lemma GroupsUnfold<T>(s: string, from: nat, m: Matcher<T>, h: Match<T>)
    requires Advances(m, s) && Search(s, from, m) == Some(h)
    ensures from < h.end <= |s|
    ensures Groups(FindAll(s, from, m)) == [h.data] + Groups(FindAll(s, h.end, m))
  {
    assert FindAll(s, from, m) == [h] + FindAll(s, h.end, m);
    GroupsCons(h, FindAll(s, h.end, m));
  }

  /** A match at `from` and none from its end up to `next`: the scan reports that match's
      group and goes on as a scan from `next` (which reports nothing past the end). */
  lemma GroupsFrom<T>(m: Matcher<T>, s: string, from: nat, st: Step<T>, next: nat)
    requires Advances(m, s) && from <= |s| && m(s, from) == Some(st)
    requires st.end <= next <= |s| + 1 && NoMatchIn(m, s, st.end, next)
    ensures Groups(FindAll(s, from, m)) == [st.data] + Groups(FindAll(s, next, m))
    ensures next > |s| ==> Groups(FindAll(s, from, m)) == [st.data]
  {
    SearchLeftmost(s, from, m, from);
    GroupsUnfold(s, from, m, Match(from, st.end, st.data));
    SearchSkip(m, s, st.end, next);
    FindAllSameSearch(m, s, st.end, next);
    if next > |s| {
      assert FindAll(s, next, m) == [];
    }
  }
}
