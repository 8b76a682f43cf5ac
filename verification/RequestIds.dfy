/**
 Rewriting the text of every closed RequestId element of a response body.  Everything here holds
 for any pair of non-empty tags; `REQUEST_ID` is the pair that the server uses.
 */
module RequestIds {
  import opened Wrappers

  datatype TagPair = TagPair(open: string, close: string)

  type Tags = t: TagPair | t.open != "" && t.close != "" witness TagPair("(", ")")

  const REQUEST_ID: Tags := TagPair("<RequestId>", "</RequestId>")

  // str::find: the first position at which the pattern occurs.
  function FindText(s: string, pattern: string): (r: Option<nat>)
    ensures r.Some? ==> r.value + |pattern| <= |s|
  {
    if pattern <= s then Some(0)
    else if s == [] then None
    else
      var r := FindText(s[1..], pattern);
      if r.None? then None else Some(r.value + 1)
  }

  /** The position found is the first at which the pattern occurs; none is found exactly when it occurs nowhere. */
  lemma {:induction false} FoundFirst(s: string, pattern: string)
    ensures match FindText(s, pattern)
            case Some(i) => i <= |s| && pattern <= s[i..] && forall k :: 0 <= k < i ==> !(pattern <= s[k..])
            case None => forall k :: 0 <= k <= |s| ==> !(pattern <= s[k..])
  {
    assert s[0..] == s;
    if !(pattern <= s) && s != [] {
      FoundFirst(s[1..], pattern);
      assert forall k :: 1 <= k <= |s| ==> s[k..] == s[1..][k - 1..];
    }
  }

  lemma {:induction false} FoundThere(s: string, pattern: string)
    requires FindText(s, pattern).Some?
    ensures var i := FindText(s, pattern).value;
            s[..i + |pattern|] == s[..i] + pattern && s == s[..i] + pattern + s[i + |pattern|..]
  {
    FoundPrefix(s, pattern);
    CutAt(s, FindText(s, pattern).value, pattern);
  }

  lemma {:induction false} FoundPrefix(s: string, pattern: string)
    requires FindText(s, pattern).Some?
    ensures pattern <= s[FindText(s, pattern).value..]
  {
    var i := FindText(s, pattern).value;
    if i != 0 {
      FoundPrefix(s[1..], pattern);
      assert s[1..][i - 1..] == s[i..];
    }
  }

  lemma CutAt(s: string, i: nat, pattern: string)
    requires i <= |s| && pattern <= s[i..]
    ensures s[..i + |pattern|] == s[..i] + pattern && s == s[..i] + pattern + s[i + |pattern|..]
  {
    assert s[i..][..|pattern|] == s[i..i + |pattern|];
    assert s[..i + |pattern|] == s[..i] + s[i..i + |pattern|];
    assert s == s[..i + |pattern|] + s[i + |pattern|..];
  }

  // The first closed element of a body: what is before it, inside it and after it.
  datatype Element = Element(before: string, inside: string, after: string)

  function FirstElement(body: string, tags: Tags): (r: Option<Element>)
    ensures r.Some? ==> |r.value.after| < |body|
  {
    var start := FindText(body, tags.open);
    if start.None? then None
    else
      var afterOpen := body[start.value + |tags.open|..];
      var end := FindText(afterOpen, tags.close);
      if end.None? then None
      else Some(Element(body[..start.value], afterOpen[..end.value], afterOpen[end.value + |tags.close|..]))
  }

  // A body taken apart: the texts outside its closed elements and the texts inside them.
  datatype Parts = Parts(outside: seq<string>, inside: seq<string>)

  ghost predicate Balanced(p: Parts) {
    |p.outside| == |p.inside| + 1
  }

  ghost function PartsOf(body: string, tags: Tags): (p: Parts)
    ensures Balanced(p)
    decreases |body|
  {
    var e := FirstElement(body, tags);
    if e.None? then Parts([body], [])
    else
      var rest := PartsOf(e.value.after, tags);
      Parts([e.value.before] + rest.outside, [e.value.inside] + rest.inside)
  }

  ghost function Weave(p: Parts, tags: Tags): string
    requires Balanced(p)
    decreases |p.inside|
  {
    if p.inside == [] then p.outside[0]
    else p.outside[0] + tags.open + p.inside[0] + tags.close + Weave(Parts(p.outside[1..], p.inside[1..]), tags)
  }

  ghost function Copies(id: string, n: nat): (c: seq<string>)
    ensures |c| == n
  {
    if n == 0 then [] else [id] + Copies(id, n - 1)
  }

  ghost function Refilled(p: Parts, id: string): (q: Parts)
    requires Balanced(p)
    ensures Balanced(q)
  {
    Parts(p.outside, Copies(id, |p.inside|))
  }

  // The body with every inside text replaced and everything else kept.
  ghost function Rewritten(body: string, tags: Tags, id: string): string {
    Weave(Refilled(PartsOf(body, tags), id), tags)
  }

  lemma WeaveStep(before: string, inside: string, rest: Parts, tags: Tags)
    requires Balanced(rest)
    ensures Weave(Parts([before] + rest.outside, [inside] + rest.inside), tags) ==
            before + tags.open + inside + tags.close + Weave(rest, tags)
  {
  }

  lemma RewrittenStep(body: string, tags: Tags, id: string)
    requires FirstElement(body, tags).Some?
    ensures var e := FirstElement(body, tags).value;
            Rewritten(body, tags, id) == e.before + tags.open + id + tags.close + Rewritten(e.after, tags, id)
  {
  }

  lemma RewrittenUnchanged(body: string, tags: Tags, id: string)
    requires FirstElement(body, tags).None?
    ensures Rewritten(body, tags, id) == body
  {
  }

  lemma Regroup(out: string, a: string, b: string, c: string, d: string, e: string)
    ensures out + (a + b + c + d + e) == out + a + b + c + d + e
  {
  }

  lemma Slices(a: string, b: string, c: string)
    ensures (a + b + c)[..|a|] == a && (a + b + c)[..|a| + |b|] == a + b && (a + b + c)[|a| + |b|..] == c
  {
  }

  lemma Nest(a: string, b: string, c: string, d: string, e: string)
    ensures a + b + (c + d + e) == a + b + c + d + e
  {
  }

  // The output so far, with the rest still to be rewritten.
  ghost predicate Done(output: string, remaining: string, body: string, tags: Tags, id: string) {
    output + Rewritten(remaining, tags, id) == Rewritten(body, tags, id)
  }

  lemma DoneNothing(body: string, tags: Tags, id: string)
    ensures Done("", body, body, tags, id)
  {
    assert "" + Rewritten(body, tags, id) == Rewritten(body, tags, id);
  }

  lemma FirstElementIs(body: string, tags: Tags, i: nat, afterOpen: string, j: nat)
    requires FindText(body, tags.open) == Some(i) && afterOpen == body[i + |tags.open|..]
    requires FindText(afterOpen, tags.close) == Some(j)
    ensures FirstElement(body, tags) == Some(Element(body[..i], afterOpen[..j], afterOpen[j + |tags.close|..]))
  {
  }

  lemma DoneFirst(
      output: string, remaining: string, body: string, tags: Tags, id: string, before: string, after: string)
    requires Done(output, remaining, body, tags, id)
    requires var e := FirstElement(remaining, tags); e.Some? && e.value.before == before && e.value.after == after
    ensures Done(output + before + tags.open + id + tags.close, after, body, tags, id)
  {
    RewrittenStep(remaining, tags, id);
    Regroup(output, before, tags.open, id, tags.close, Rewritten(after, tags, id));
  }

  lemma DoneUnclosed(
      output: string, remaining: string, body: string, tags: Tags, id: string, before: string, afterOpen: string)
    requires Done(output, remaining, body, tags, id) && FindText(remaining, tags.open).Some?
    requires var i := FindText(remaining, tags.open).value;
             before == remaining[..i] && afterOpen == remaining[i + |tags.open|..]
    requires FindText(afterOpen, tags.close).None?
    ensures output + before + tags.open + afterOpen == Rewritten(body, tags, id)
  {
    var i := FindText(remaining, tags.open).value;
    RewrittenUnchanged(remaining, tags, id);
    FoundThere(remaining, tags.open);
    Nest("", output, remaining[..i], tags.open, remaining[i + |tags.open|..]);
    assert "" + output == output;
  }

  lemma DoneAll(output: string, remaining: string, body: string, tags: Tags, id: string)
    requires Done(output, remaining, body, tags, id) && FindText(remaining, tags.open).None?
    ensures output + remaining == Rewritten(body, tags, id)
  {
    RewrittenUnchanged(remaining, tags, id);
  }

  method ReplaceElements(body: string, tags: Tags, id: string) returns (output: string)
    ensures output == Rewritten(body, tags, id)
  {
    output := "";
    DoneNothing(body, tags, id);
    var remaining := body;
    var start := FindText(remaining, tags.open);
    while start.Some?
      invariant start == FindText(remaining, tags.open)
      invariant Done(output, remaining, body, tags, id)
      decreases |remaining|
    {
      var before := remaining[..start.value];
      var afterOpen := remaining[start.value + |tags.open|..];
      var end := FindText(afterOpen, tags.close);
      if end.None? {
        DoneUnclosed(output, remaining, body, tags, id, before, afterOpen);
        output := output + before;
        output := output + tags.open;
        output := output + afterOpen;
        return;
      }
      var after := afterOpen[end.value + |tags.close|..];
      FirstElementIs(remaining, tags, start.value, afterOpen, end.value);
      DoneFirst(output, remaining, body, tags, id, before, after);
      output := output + before;
      output := output + tags.open;
      output := output + id;
      output := output + tags.close;
      remaining := after;
      start := FindText(remaining, tags.open);
    }
    DoneAll(output, remaining, body, tags, id);
    output := output + remaining;
  }

  method ReplaceXmlRequestIds(body: string, id: string) returns (output: string)
    ensures output == Rewritten(body, TagPair("<RequestId>", "</RequestId>"), id)
  {
    output := ReplaceElements(body, REQUEST_ID, id);
  }

  // ----- the parts and the body -----

  lemma ElementAddsUp(body: string, tags: Tags)
    requires FirstElement(body, tags).Some?
    ensures var e := FirstElement(body, tags).value;
            body == e.before + tags.open + e.inside + tags.close + e.after
  {
    var start := FindText(body, tags.open).value;
    var afterOpen := body[start + |tags.open|..];
    var end := FindText(afterOpen, tags.close).value;
    FoundThere(body, tags.open);
    FoundThere(afterOpen, tags.close);
    Nest(body[..start], tags.open, afterOpen[..end], tags.close, afterOpen[end + |tags.close|..]);
  }

  /** The parts add up to the body, so a rewrite keeps everything outside the closed elements. */
  lemma {:induction false} WeaveInvertsParts(body: string, tags: Tags)
    ensures Weave(PartsOf(body, tags), tags) == body
    decreases |body|
  {
    var e := FirstElement(body, tags);
    if e.Some? {
      ElementAddsUp(body, tags);
      WeaveInvertsParts(e.value.after, tags);
      WeaveStep(e.value.before, e.value.inside, PartsOf(e.value.after, tags), tags);
    }
  }

  // ----- finding again -----

  lemma {:induction false} FindInPrefix(s: string, pattern: string, tail: string)
    requires FindText(s, pattern).Some?
    ensures var i := FindText(s, pattern).value;
            FindText(s[..i + |pattern|] + tail, pattern) == Some(i)
  {
    var i := FindText(s, pattern).value;
    var t := s[..i + |pattern|] + tail;
    assert t[..|pattern|] == s[..|pattern|];
    assert pattern <= t <==> pattern <= s by {
      assert pattern <= t <==> t[..|pattern|] == pattern;
      assert pattern <= s <==> s[..|pattern|] == pattern;
    }
    if i != 0 {
      assert t[1..] == s[1..][..i - 1 + |pattern|] + tail;
      FindInPrefix(s[1..], pattern, tail);
    }
  }

  // Followed by a closing tag, the first closing tag is the one that follows.
  ghost predicate Clean(id: string, tags: Tags) {
    FindText(id + tags.close, tags.close) == Some(|id|)
  }

  lemma {:induction false} PlainIdIsClean(id: string, tags: Tags)
    requires tags.close[0] !in id
    ensures Clean(id, tags)
  {
    var s := id + tags.close;
    if id == "" {
      assert s == tags.close;
    } else {
      assert s[1..] == id[1..] + tags.close;
      assert s[0] == id[0] && !(tags.close <= s);
      PlainIdIsClean(id[1..], tags);
    }
  }

  lemma FirstElementOf(before: string, id: string, tail: string, tags: Tags)
    requires FindText(before + tags.open, tags.open) == Some(|before|) && Clean(id, tags)
    ensures FirstElement(before + tags.open + id + tags.close + tail, tags) == Some(Element(before, id, tail))
  {
    var body := before + tags.open + id + tags.close + tail;
    var afterOpen := id + tags.close + tail;
    FoundAtEnd(before, tags.open, afterOpen);
    Nest(before, tags.open, id, tags.close, tail);
    Slices(before, tags.open, afterOpen);
    assert body == before + tags.open + afterOpen;
    FoundAtEnd(id, tags.close, tail);
    Slices(id, tags.close, tail);
    ElementBetween(body, before, afterOpen, tags, id, tail);
  }

  lemma ElementBetween(body: string, before: string, afterOpen: string, tags: Tags, inside: string, tail: string)
    requires FindText(body, tags.open) == Some(|before|) && body[..|before|] == before
    requires body[|before| + |tags.open|..] == afterOpen
    requires FindText(afterOpen, tags.close) == Some(|inside|) && afterOpen[..|inside|] == inside
    requires afterOpen[|inside| + |tags.close|..] == tail
    ensures FirstElement(body, tags) == Some(Element(before, inside, tail))
  {
  }

  lemma FoundAtEnd(head: string, pattern: string, tail: string)
    requires FindText(head + pattern, pattern) == Some(|head|)
    ensures FindText(head + pattern + tail, pattern) == Some(|head|)
  {
    FindInPrefix(head + pattern, pattern, tail);
    assert (head + pattern)[..|head| + |pattern|] == head + pattern;
  }

  lemma OpeningFoundAgain(body: string, tags: Tags)
    requires FirstElement(body, tags).Some?
    ensures var before := FirstElement(body, tags).value.before;
            FindText(before + tags.open, tags.open) == Some(|before|)
  {
    var start := FindText(body, tags.open).value;
    FindInPrefix(body, tags.open, "");
    FoundThere(body, tags.open);
    assert body[..start + |tags.open|] + "" == body[..start + |tags.open|];
  }

  /** After rewriting with a clean id the same texts are outside and the id is everywhere inside. */
  lemma {:induction false} PartsOfRewritten(body: string, tags: Tags, id: string)
    requires Clean(id, tags)
    ensures PartsOf(Rewritten(body, tags, id), tags) == Refilled(PartsOf(body, tags), id)
    decreases |body|
  {
    var e := FirstElement(body, tags);
    if e.None? {
      RewrittenUnchanged(body, tags, id);
    } else {
      RewrittenStep(body, tags, id);
      PartsOfRewritten(e.value.after, tags, id);
      OpeningFoundAgain(body, tags);
      FirstElementOf(e.value.before, id, Rewritten(e.value.after, tags, id), tags);
    }
  }

  ghost predicate LastRewriteWins(x: string, tags: Tags) {
    forall body, y :: Rewritten(Rewritten(body, tags, x), tags, y) == Rewritten(body, tags, y)
  }

  lemma NothingVanishes(body: string, tags: Tags, y: string)
    requires body != ""
    ensures Rewritten(body, tags, y) != ""
  {
  }

  lemma {:induction false} FindsSomething(id: string, pattern: string)
    ensures FindText(id + pattern, pattern).Some? && FindText(id + pattern, pattern).value <= |id|
  {
    if id == "" {
      assert id + pattern == pattern;
    } else {
      assert (id + pattern)[1..] == id[1..] + pattern;
      FindsSomething(id[1..], pattern);
    }
  }

  lemma EmptyElement(tags: Tags)
    ensures FirstElement(tags.open + tags.close, tags) == Some(Element("", "", ""))
  {
  }

  // One empty element, rewritten.
  lemma OneElement(tags: Tags, z: string)
    ensures Rewritten(tags.open + tags.close, tags, z) == tags.open + z + tags.close
  {
    EmptyElement(tags);
    RewrittenStep(tags.open + tags.close, tags, z);
    RewrittenUnchanged("", tags, z);
    Unpad(tags.open, z, tags.close);
  }

  lemma Unpad(a: string, b: string, c: string)
    ensures "" + a + b + c + "" == a + b + c
  {
  }

  lemma UncleanRest(tags: Tags, x: string)
    requires !Clean(x, tags)
    ensures var e := FirstElement(tags.open + x + tags.close, tags);
            e.Some? && e.value.before == "" && e.value.after != ""
  {
    var once := tags.open + x + tags.close;
    assert once[|tags.open|..] == x + tags.close;
    assert tags.open <= once;
    FindsSomething(x, tags.close);
  }

  lemma UncleanIdLingers(x: string, tags: Tags)
    requires !Clean(x, tags)
    ensures !LastRewriteWins(x, tags)
  {
    var body, y := tags.open + tags.close, "";
    var once := tags.open + x + tags.close;
    OneElement(tags, x);
    OneElement(tags, y);
    UncleanRest(tags, x);
    RewrittenStep(once, tags, y);
    NothingVanishes(FirstElement(once, tags).value.after, tags, y);
    assert |Rewritten(once, tags, y)| > |tags.open + y + tags.close|;
    assert Rewritten(Rewritten(body, tags, x), tags, y) != Rewritten(body, tags, y);
  }

  /** A later rewrite undoes an earlier one on every body exactly when the earlier id is clean. */
  lemma LastRewriteWinsIff(x: string, tags: Tags)
    ensures LastRewriteWins(x, tags) <==> Clean(x, tags)
  {
    if Clean(x, tags) {
      forall body, y ensures Rewritten(Rewritten(body, tags, x), tags, y) == Rewritten(body, tags, y) {
        PartsOfRewritten(body, tags, x);
      }
    } else {
      UncleanIdLingers(x, tags);
    }
  }

  /** In particular for every request id without '<'. */
  lemma RequestIdRewriteWins(x: string)
    requires '<' !in x
    ensures LastRewriteWins(x, TagPair("<RequestId>", "</RequestId>"))
  {
    PlainIdIsClean(x, REQUEST_ID);
    LastRewriteWinsIff(x, REQUEST_ID);
  }
}
