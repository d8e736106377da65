/** The first line of extract_json_values:
    content = re.sub(r'^```json\s*|\s*```$', '', content.strip()).
    re.sub scans left to right and removes every match of either alternative. On a
    stripped text this is at most two cuts: `^```json\s*` can only match at position 0,
    and `\s*```$` only in front of the end, so once it has matched the scan is over. */
module Fences {
  import opened Wrappers
  import opened Chars
  import opened Scan
  import opened Patterns

  /** The stripped text t with its opening fence (and the whitespace after it) and its
      closing fence (and the whitespace before it) cut off. */
  function StripFences(t: string): (r: string)
    ensures OpenFenceEnd(t) + |r| <= |t| && r == t[OpenFenceEnd(t)..OpenFenceEnd(t) + |r|]
    ensures OpenFenceEnd(t) + |r| == |t| || CloseFence(t, OpenFenceEnd(t) + |r|)
    ensures forall p: nat :: OpenFenceEnd(t) <= p < OpenFenceEnd(t) + |r| ==> !CloseFence(t, p)
  {
    var a := OpenFenceEnd(t);
    CloseFenceCompleteAll(t);
    match Search(t, a, CloseFenceMatcher())
      case Some(m) => t[a..m.start]
      case None => t[a..]
  }

  lemma CloseFenceCompleteAll(t: string)
    ensures forall p: nat :: CloseFence(t, p) ==> CloseFenceMatcher()(t, p).Some?
  {
    forall p: nat | CloseFence(t, p)
      ensures CloseFenceMatcher()(t, p).Some?
    {
      CloseFenceComplete(t, p);
    }
  }

  /** Fence removal only trims the ends, and a closing fence is cut exactly when the text
      after the opening fence ends in ```. */
  lemma {:induction false} StripFencesCutsClose(t: string)
    ensures var a := OpenFenceEnd(t); var r := StripFences(t);
      a + |r| < |t| <==> (|t| >= a + 3 && LiteralAt(t, |t| - 3, "```"))
  {
    var a := OpenFenceEnd(t);
    var r := StripFences(t);
    if |t| >= a + 3 && LiteralAt(t, |t| - 3, "```") {
      assert CloseFence(t, |t| - 3);
    }
  }

  /** A reply without fences is only whitespace-trimmed. */
  lemma {:induction false} UnfencedReply(content: string)
    requires var t := Strip(content); !LiteralAt(t, 0, "```json") && !(|t| >= 3 && LiteralAt(t, |t| - 3, "```"))
    ensures StripFences(Strip(content)) == Strip(content)
  {
    StripFencesCutsClose(Strip(content));
  }

  /** When t opens with ```json and whitespace up to a, and from b on holds only
      whitespace and the closing ```, with non-space characters at a and b - 1, then
      fence removal keeps exactly t[a..b]. */
  lemma FencedBody(t: string, a: nat, b: nat)
    requires LiteralAt(t, 0, "```json") && SpacesBetween(t, 7, a)
    requires a < b && CloseFence(t, b) && !IsSpace(t[a]) && !IsSpace(t[b - 1])
    ensures StripFences(t) == t[a..b]
  {
    SkipSpacesTo(t, 7, a);
    CloseFenceComplete(t, b);
    assert NoMatchIn(CloseFenceMatcher(), t, a, b);
    SearchLeftmost(t, a, CloseFenceMatcher(), b);
  }

  /** A fenced reply ```json <body> ``` (with any whitespace around the fences and around
      the whole reply) gives back the body, for any body that starts and ends with a
      non-space character. */
  lemma {:induction false} FencedReply(u: string, w1: string, x: string, w2: string, v: string)
    requires AllSpaces(u) && AllSpaces(w1) && AllSpaces(w2) && AllSpaces(v)
    requires x != [] && !IsSpace(x[0]) && !IsSpace(x[|x| - 1])
    ensures StripFences(Strip(u + ("```json" + w1 + x + w2 + "```") + v)) == x
  {
    var t := "```json" + w1 + x + w2 + "```";
    assert t[0] == '`' && t[|t| - 1] == '`';
    StripSurrounded(u, t, v);
    FencedText(w1, x, w2);
  }

  lemma FencedText(w1: string, x: string, w2: string)
    requires AllSpaces(w1) && AllSpaces(w2)
    requires x != [] && !IsSpace(x[0]) && !IsSpace(x[|x| - 1])
    ensures StripFences("```json" + w1 + x + w2 + "```") == x
  {
    var t := "```json" + w1 + x + w2 + "```";
    var a := 7 + |w1|;
    var b := a + |x|;
    assert t[..7] == "```json";
    assert forall k :: 7 <= k < a ==> t[k] == w1[k - 7];
    assert forall k :: a <= k < b ==> t[k] == x[k - a];
    assert forall k :: b <= k < |t| - 3 ==> t[k] == w2[k - b];
    assert t[|t| - 3..] == "```";
    assert t[a..b] == x;
    assert SpacesBetween(t, 7, a);
    assert CloseFence(t, b);
    assert !IsSpace(t[a]) && !IsSpace(t[b - 1]);
    FencedBody(t, a, b);
  }

  /** The example reply "```json\n{X}\n```" gives "{X}". */
  lemma FencedExample(reply: string)
    requires reply == "```json\n{X}\n```"
    ensures StripFences(Strip(reply)) == "{X}"
  {
    var w, x := "\n", "{X}";
    var t := "```json" + w + x + w + "```";
    ExampleParts(reply, t);
    assert t[0] == '`' && t[|t| - 1] == '`';
    StripSurrounded("", t, "");
    assert "" + t + "" == t;
    FencedText(w, x, w);
  }

  lemma ExampleParts(reply: string, t: string)
    requires reply == "```json\n{X}\n```" && t == "```json" + "\n" + "{X}" + "\n" + "```"
    ensures reply == t
  {
  }
}
