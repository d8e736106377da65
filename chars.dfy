/** Option, the one wrapper the extractor needs for "this pattern did not match". */
module Wrappers {
  datatype Option<+T> = None | Some(value: T)
}

/** Character classes and whitespace trimming as Python's str methods and `re` see them. */
module Chars {

  /** The characters for which Python's str.isspace() holds: what `\s` matches in a
      str pattern and what str.strip() with no argument removes. */
  predicate IsSpace(c: char) {
    ('\t' <= c <= '\r') || ('\U{1C}' <= c <= '\U{1F}') || c == ' '
    || c == '\U{85}' || c == '\U{A0}' || c == '\U{1680}'
    || ('\U{2000}' <= c <= '\U{200A}') || c == '\U{2028}' || c == '\U{2029}'
    || c == '\U{202F}' || c == '\U{205F}' || c == '\U{3000}'
  }

  predicate AllSpaces(s: string) {
    forall k :: 0 <= k < |s| ==> IsSpace(s[k])
  }

  /** Where a greedy `\s*` starting at i stops: the first non-space at or after i, or |s|. */
  function SkipSpaces(s: string, i: nat): (j: nat)
    requires i <= |s|
    ensures i <= j <= |s|
    ensures forall k :: i <= k < j ==> IsSpace(s[k])
    ensures j == |s| || !IsSpace(s[j])
    decreases |s| - i
  {
    if i < |s| && IsSpace(s[i]) then SkipSpaces(s, i + 1) else i
  }

  /** The first position at or after i that holds c, or |s|: where a run `[^c]*` stops. */
  function Find(s: string, i: nat, c: char): (j: nat)
    requires i <= |s|
    ensures i <= j <= |s|
    ensures forall k :: i <= k < j ==> s[k] != c
    ensures j == |s| || s[j] == c
    decreases |s| - i
  {
    if i < |s| && s[i] != c then Find(s, i + 1, c) else i
  }

  /** The length of s without its trailing whitespace. */
  function TrimmedEnd(s: string): (n: nat)
    ensures n <= |s|
    ensures forall k :: n <= k < |s| ==> IsSpace(s[k])
    ensures n == 0 || !IsSpace(s[n - 1])
  {
    if s != [] && IsSpace(s[|s| - 1]) then TrimmedEnd(s[..|s| - 1]) else |s|
  }

  /** Python's str.strip(): s without its leading and trailing whitespace. */
  function Strip(s: string): (r: string)
    ensures SkipSpaces(s, 0) + |r| <= |s| && r == s[SkipSpaces(s, 0)..SkipSpaces(s, 0) + |r|]
    ensures forall k :: 0 <= k < SkipSpaces(s, 0) ==> IsSpace(s[k])
    ensures forall k :: SkipSpaces(s, 0) + |r| <= k < |s| ==> IsSpace(s[k])
    ensures r == [] || (!IsSpace(r[0]) && !IsSpace(r[|r| - 1]))
    ensures r == [] <==> AllSpaces(s)
  {
    var a := SkipSpaces(s, 0);
    s[a..][..TrimmedEnd(s[a..])]
  }

  /** The first position at or after i that does not hold c, or |s|. */
  function SkipChar(s: string, i: nat, c: char): (j: nat)
    requires i <= |s|
    ensures i <= j <= |s|
    ensures forall k :: i <= k < j ==> s[k] == c
    ensures j == |s| || s[j] != c
    decreases |s| - i
  {
    if i < |s| && s[i] == c then SkipChar(s, i + 1, c) else i
  }

  /** The length of s without its trailing copies of c. */
  function TrimmedChar(s: string, c: char): (n: nat)
    ensures n <= |s|
    ensures forall k :: n <= k < |s| ==> s[k] == c
    ensures n == 0 || s[n - 1] != c
  {
    if s != [] && s[|s| - 1] == c then TrimmedChar(s[..|s| - 1], c) else |s|
  }

  /** Python's str.strip(c) for a one-character argument: s without the copies of c at
      either end. */
  function StripChar(s: string, c: char): (r: string)
    ensures SkipChar(s, 0, c) + |r| <= |s| && r == s[SkipChar(s, 0, c)..SkipChar(s, 0, c) + |r|]
    ensures forall k :: 0 <= k < SkipChar(s, 0, c) ==> s[k] == c
    ensures forall k :: SkipChar(s, 0, c) + |r| <= k < |s| ==> s[k] == c
    ensures r == [] || (r[0] != c && r[|r| - 1] != c)
    ensures c !in s ==> r == s
  {
    var a := SkipChar(s, 0, c);
    var r := s[a..][..TrimmedChar(s[a..], c)];
    assert c !in s ==> a == 0 && TrimmedChar(s, c) == |s| by {
      if c !in s && s != [] {
        assert s[0] in s && s[|s| - 1] in s;
      }
    }
    r
  }

  /** Whitespace around a text with non-space ends is what str.strip() removes. */
  lemma StripSurrounded(u: string, x: string, v: string)
    requires AllSpaces(u) && AllSpaces(v)
    requires x != [] && !IsSpace(x[0]) && !IsSpace(x[|x| - 1])
    ensures Strip(u + x + v) == x
  {
    var s := u + x + v;
    var r := Strip(s);
    var a := SkipSpaces(s, 0);
    assert s[|u|] == x[0];
    assert a == |u|;
    assert s[|u| + |x| - 1] == x[|x| - 1];
    assert |r| == |x|;
    assert r == s[|u|..|u| + |x|];
  }

  /** Copies of c around a text that neither starts nor ends with c are what str.strip(c)
      removes. */
  lemma StripCharSurrounded(u: string, x: string, v: string, c: char)
    requires (forall k :: 0 <= k < |u| ==> u[k] == c) && (forall k :: 0 <= k < |v| ==> v[k] == c)
    requires x != [] && x[0] != c && x[|x| - 1] != c
    ensures StripChar(u + x + v, c) == x
  {
    var s := u + x + v;
    var r := StripChar(s, c);
    assert s[|u|] == x[0];
    assert SkipChar(s, 0, c) == |u|;
    assert s[|u| + |x| - 1] == x[|x| - 1];
    assert |r| == |x|;
    assert r == s[|u|..|u| + |x|];
  }

  /** Stripping removes characters, never adds any. */
  lemma StripKeeps(s: string, c: char)
    ensures c in Strip(s) ==> c in s
  {
    var a := SkipSpaces(s, 0);
    var r := Strip(s);
    if c in r {
      var k :| 0 <= k < |r| && r[k] == c;
      assert s[a + k] == c;
    }
  }

  /** str.strip() is idempotent. */
  lemma StripIdempotent(s: string)
    ensures Strip(Strip(s)) == Strip(s)
  {
    var r := Strip(s);
    assert SkipSpaces(r, 0) == 0;
    if r != [] {
      assert TrimmedEnd(r) == |r|;
    }
  }
}
