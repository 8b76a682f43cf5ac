/**
 The canonical request of AWS Signature Version 4.  The payload hash is a parameter: any function
 from bodies to texts without a newline.
 */
module CanonicalRequest {
  import opened Wrappers
  import opened Texts
  import opened Sorting
  import opened Splits
  import opened UriEncoding
  import opened CanonicalQuery
  import opened SignedHeaders

  datatype Request = Request(
    verb: Text,
    path: Text,
    query: Option<Text>,
    headers: map<Text, Text>,
    body: Text)

  datatype AuthError = MissingSignedHeader(name: Text)

  const NEWLINE: Byte := '\n'

  function CanonicalUri(path: Text): Text {
    if path == [] then ['/'] else Encode(path, false)
  }

  function HeaderLine(name: Text, value: Text): Text {
    name + [':'] + NormalizeValue(value)
  }

  ghost predicate AllPresent(headers: map<Text, Text>, names: seq<Text>) {
    forall i :: 0 <= i < |names| ==> names[i] in headers
  }

  function HeaderLines(headers: map<Text, Text>, names: seq<Text>): (lines: seq<Text>)
    requires AllPresent(headers, names)
    ensures |lines| == |names|
  {
    seq(|names|, i requires 0 <= i < |names| && names[i] in headers => HeaderLine(names[i], headers[names[i]]))
  }

  method ExtractSignedHeaders(headers: map<Text, Text>, names: seq<Text>) returns (r: Result<Text, AuthError>)
    ensures r.Ok? <==> AllPresent(headers, names)
    ensures r.Ok? ==> r.value == Join<Byte>(HeaderLines(headers, names), [NEWLINE])
    ensures r.Err? ==> exists i :: 0 <= i < |names| && r.error == MissingSignedHeader(names[i])
                                   && names[i] !in headers && AllPresent(headers, names[..i])
  {
    var lines: seq<Text> := [];
    for i := 0 to |names|
      invariant AllPresent(headers, names[..i])
      invariant lines == HeaderLines(headers, names[..i])
    {
      if names[i] !in headers {
        return Err(MissingSignedHeader(names[i]));
      }
      lines := lines + [HeaderLine(names[i], headers[names[i]])];
    }
    assert names[..|names|] == names;
    r := Ok(Join<Byte>(lines, [NEWLINE]));
  }

  // The lines of a canonical request.  No signed header still takes one empty line.
  function RequestLines(r: Request, names: seq<Text>, hash: Text -> Text): seq<Text>
    requires AllPresent(r.headers, names)
  {
    [r.verb, CanonicalUri(r.path), QueryString(r.query)]
    + (if names == [] then [[]] else HeaderLines(r.headers, names))
    + [[], Join<Byte>(names, [';']), hash(r.body)]
  }

  function CanonicalText(r: Request, names: seq<Text>, hash: Text -> Text): Text
    requires AllPresent(r.headers, names)
  {
    Join<Byte>(RequestLines(r, names, hash), [NEWLINE])
  }

  lemma JoinThree(x: Text, y: Text, z: Text)
    ensures Join<Byte>([x, y, z], [NEWLINE]) == x + [NEWLINE] + y + [NEWLINE] + z
  {
    assert [x, y, z][1..] == [y, z] && [y, z][1..] == [z];
    assert Join<Byte>([y, z], [NEWLINE]) == y + [NEWLINE] + z;
  }

  lemma CanonicalTextPieces(r: Request, names: seq<Text>, hash: Text -> Text)
    requires AllPresent(r.headers, names)
    ensures CanonicalText(r, names, hash) ==
            r.verb + [NEWLINE] + CanonicalUri(r.path) + [NEWLINE] + QueryString(r.query) + [NEWLINE]
            + Join<Byte>(HeaderLines(r.headers, names), [NEWLINE]) + [NEWLINE] + [NEWLINE]
            + Join<Byte>(names, [';']) + [NEWLINE] + hash(r.body)
  {
    var start := [r.verb, CanonicalUri(r.path), QueryString(r.query)];
    var lines := if names == [] then [[]] else HeaderLines(r.headers, names);
    var end := [[], Join<Byte>(names, [';']), hash(r.body)];
    JoinConcat<Byte>(start + lines, end, [NEWLINE]);
    JoinConcat<Byte>(start, lines, [NEWLINE]);
    JoinThree(r.verb, CanonicalUri(r.path), QueryString(r.query));
    JoinThree([], Join<Byte>(names, [';']), hash(r.body));
    var prefix := Join<Byte>(start, [NEWLINE]) + [NEWLINE] + Join<Byte>(lines, [NEWLINE]);
    Reassociate(prefix, Join<Byte>(names, [';']), hash(r.body));
    assert RequestLines(r, names, hash) == start + lines + end;
  }

  lemma Reassociate(prefix: Text, y: Text, z: Text)
    ensures prefix + [NEWLINE] + ([] + [NEWLINE] + y + [NEWLINE] + z) ==
            prefix + [NEWLINE] + [NEWLINE] + y + [NEWLINE] + z
  {
  }

  method CreateCanonicalRequest(request: Request, signedHeaders: seq<Text>, hash: Text -> Text)
      returns (r: Result<Text, AuthError>)
    ensures r.Ok? <==> AllPresent(request.headers, CanonicalNames(signedHeaders))
    ensures r.Ok? ==> r.value == CanonicalText(request, CanonicalNames(signedHeaders), hash)
    ensures r.Err? ==> exists name: Text ::
                name in CanonicalNames(signedHeaders) && name !in request.headers
                && r.error == MissingSignedHeader(name)
  {
    var canonical: Text := request.verb;
    canonical := canonical + [NEWLINE];
    canonical := canonical + CanonicalUri(request.path);
    canonical := canonical + [NEWLINE];
    var params := ExtractQueryParams(request.query);
    AnySortGivesQueryString(request.query, params);
    canonical := canonical + RenderAll(params);
    canonical := canonical + [NEWLINE];
    var names := CanonicalizeSignedHeaders(signedHeaders);
    var headers := ExtractSignedHeaders(request.headers, names);
    if headers.Err? {
      return Err(headers.error);
    }
    canonical := canonical + headers.value;
    canonical := canonical + [NEWLINE];
    canonical := canonical + [NEWLINE];
    canonical := canonical + Join<Byte>(names, [';']);
    canonical := canonical + [NEWLINE];
    canonical := canonical + hash(request.body);
    CanonicalTextPieces(request, names, hash);
    r := Ok(canonical);
  }

  // ----- equal canonical requests -----

  ghost predicate TokenName(name: Text) {
    name != [] && ';' !in name && '\n' !in name
  }

  ghost predicate Signable(r: Request, names: seq<Text>, hash: Text -> Text) {
    && NEWLINE !in r.verb
    && NEWLINE !in hash(r.body)
    && AllPresent(r.headers, names)
    && forall i :: 0 <= i < |names| ==> TokenName(names[i])
  }

  lemma RequestLinesFree(r: Request, names: seq<Text>, hash: Text -> Text)
    requires Signable(r, names, hash)
    ensures FreeOf<Byte>(RequestLines(r, names, hash), NEWLINE)
  {
    CanonicalUriFree(r.path);
    QueryStringFree(r.query, NEWLINE);
    NamesFree(names);
    HeaderLinesFree(r.headers, names);
    var start := [r.verb, CanonicalUri(r.path), QueryString(r.query)];
    var lines := if names == [] then [[]] else HeaderLines(r.headers, names);
    FreeThree(r.verb, CanonicalUri(r.path), QueryString(r.query));
    FreeThree([], Join<Byte>(names, [';']), hash(r.body));
    FreeConcat(start, lines);
    FreeConcat(start + lines, [[], Join<Byte>(names, [';']), hash(r.body)]);
  }

  lemma CanonicalUriFree(path: Text)
    ensures NEWLINE !in CanonicalUri(path)
  {
    EncodedFree(path, false, NEWLINE);
  }

  lemma FreeThree(x: Text, y: Text, z: Text)
    requires NEWLINE !in x && NEWLINE !in y && NEWLINE !in z
    ensures FreeOf<Byte>([x, y, z], NEWLINE)
  {
  }

  lemma FreeConcat(a: seq<Text>, b: seq<Text>)
    requires FreeOf<Byte>(a, NEWLINE) && FreeOf<Byte>(b, NEWLINE)
    ensures FreeOf<Byte>(a + b, NEWLINE)
  {
  }

  lemma HeaderLinesFree(headers: map<Text, Text>, names: seq<Text>)
    requires AllPresent(headers, names)
    requires forall i :: 0 <= i < |names| ==> TokenName(names[i])
    ensures FreeOf<Byte>(HeaderLines(headers, names), NEWLINE)
  {
    forall i | 0 <= i < |names| ensures NEWLINE !in HeaderLines(headers, names)[i] {
      assert TokenName(names[i]);
      NormalizedFree(headers[names[i]], NEWLINE);
    }
  }

  lemma NamesFree(names: seq<Text>)
    requires forall i :: 0 <= i < |names| ==> TokenName(names[i])
    ensures NEWLINE !in Join<Byte>(names, [';'])
  {
  }

  lemma JoinedNamesInjective(a: seq<Text>, b: seq<Text>)
    requires forall i :: 0 <= i < |a| ==> TokenName(a[i])
    requires forall i :: 0 <= i < |b| ==> TokenName(b[i])
    requires Join<Byte>(a, [';']) == Join<Byte>(b, [';'])
    ensures a == b
  {
    assert a != [] ==> TokenName(a[0]);
    assert b != [] ==> TokenName(b[0]);
    if a != [] && b != [] {
      JoinInjective<Byte>(a, b, ';');
    }
  }

  function EffectivePath(path: Text): Text {
    if path == [] then ['/'] else path
  }

  lemma CanonicalUriIff(a: Text, b: Text)
    ensures CanonicalUri(a) == CanonicalUri(b) <==> EffectivePath(a) == EffectivePath(b)
  {
    assert CanonicalUri([]) == Encode(['/'], false) by { assert Encode([], false) == []; }
    if CanonicalUri(a) == CanonicalUri(b) {
      EncodeInjective(EffectivePath(a), EffectivePath(b), false);
    }
  }

  // ----- reading a canonical request -----

  // The lines that a verifier of the signature sees.
  ghost predicate Spells(lines: seq<Text>, r: Request, names: seq<Text>, hash: Text -> Text)
    requires AllPresent(r.headers, names)
  {
    var h := if names == [] then 1 else |names|;
    && |lines| == h + 6
    && lines[0] == r.verb
    && lines[1] == Encode(EffectivePath(r.path), false)
    && lines[2] == QueryString(r.query)
    && (forall i :: 0 <= i < |names| ==> lines[3 + i] == names[i] + ":" + NormalizeValue(r.headers[names[i]]))
    && (names == [] ==> lines[3] == [] && lines[h + 4] == [])
    && lines[h + 3] == []
    && (names != [] ==> Split<Byte>(lines[h + 4], ';') == names)
    && lines[h + 5] == hash(r.body)
  }

  lemma CanonicalUriIs(path: Text)
    ensures CanonicalUri(path) == Encode(EffectivePath(path), false)
  {
    assert Encode(['/'], false) == ['/'] by { assert Encode([], false) == []; }
  }

  /**
   Split at its newlines, a canonical request spells out the method, the encoded path, the canonical
   query, one line "name:value" per signed header, an empty line, the names between semicolons and the
   body hash, and nothing else.
   */
  lemma CanonicalTextReadsBack(r: Request, names: seq<Text>, hash: Text -> Text)
    requires Signable(r, names, hash)
    ensures Spells(Split<Byte>(CanonicalText(r, names, hash), '\n'), r, names, hash)
  {
    RequestLinesFree(r, names, hash);
    SplitJoin<Byte>(RequestLines(r, names, hash), NEWLINE);
    CanonicalUriIs(r.path);
    if names != [] {
      forall i | 0 <= i < |names| ensures ';' !in names[i] { assert TokenName(names[i]); }
      SplitJoin<Byte>(names, ';');
    }
    LinesSpell(r, names, hash);
  }

  lemma LinesSpell(r: Request, names: seq<Text>, hash: Text -> Text)
    requires AllPresent(r.headers, names)
    requires CanonicalUri(r.path) == Encode(EffectivePath(r.path), false)
    requires names != [] ==> Split<Byte>(Join<Byte>(names, [';']), ';') == names
    ensures Spells(RequestLines(r, names, hash), r, names, hash)
  {
    var lines := RequestLines(r, names, hash);
    var h := if names == [] then 1 else |names|;
    var headers := if names == [] then [[]] else HeaderLines(r.headers, names);
    assert |headers| == h && lines[3..h + 3] == headers;
    forall i | 0 <= i < |names| ensures lines[3 + i] == names[i] + ":" + NormalizeValue(r.headers[names[i]]) {
      assert lines[3 + i] == headers[i] == HeaderLine(names[i], r.headers[names[i]]);
    }
    assert names == [] ==> lines[3] == headers[0];
  }

  // What two requests have in common when their signatures cover the same content.
  ghost predicate SameContent(r: Request, names: seq<Text>, s: Request, others: seq<Text>, hash: Text -> Text)
    requires AllPresent(r.headers, names) && AllPresent(s.headers, others)
  {
    && r.verb == s.verb
    && EffectivePath(r.path) == EffectivePath(s.path)
    && multiset(QueryPairs(r.query)) == multiset(QueryPairs(s.query))
    && names == others
    && (forall i :: 0 <= i < |names| ==> Words(r.headers[names[i]]) == Words(s.headers[names[i]]))
    && hash(r.body) == hash(s.body)
  }

  lemma SameLines(r: Request, names: seq<Text>, s: Request, others: seq<Text>, hash: Text -> Text)
    requires Signable(r, names, hash) && Signable(s, others, hash)
    requires RequestLines(r, names, hash) == RequestLines(s, others, hash)
    ensures r.verb == s.verb && CanonicalUri(r.path) == CanonicalUri(s.path)
    ensures QueryString(r.query) == QueryString(s.query)
    ensures names == others && HeaderLines(r.headers, names) == HeaderLines(s.headers, others)
    ensures hash(r.body) == hash(s.body)
  {
    var a, b := RequestLines(r, names, hash), RequestLines(s, others, hash);
    assert a[0] == b[0] && a[1] == b[1] && a[2] == b[2];
    assert a[|a| - 1] == b[|b| - 1] && a[|a| - 2] == b[|b| - 2];
    JoinedNamesInjective(names, others);
    if names != [] {
      assert HeaderLines(r.headers, names) == a[3..3 + |names|];
      assert HeaderLines(s.headers, names) == b[3..3 + |names|];
    }
  }

  lemma HeaderLineIff(name: Text, v: Text, w: Text)
    ensures HeaderLine(name, v) == HeaderLine(name, w) <==> Words(v) == Words(w)
  {
    NormalizeIff(v, w);
    assert NormalizeValue(v) == HeaderLine(name, v)[|name| + 1..];
    assert NormalizeValue(w) == HeaderLine(name, w)[|name| + 1..];
  }

  /**
   Two requests have the same canonical text exactly when they agree on the method, the path (an
   empty one counting as "/"), the multiset of query pairs, the list of signed headers, the words
   of every signed value and the body hash.
   */
  lemma CanonicalTextIff(r: Request, names: seq<Text>, s: Request, others: seq<Text>, hash: Text -> Text)
    requires Signable(r, names, hash) && Signable(s, others, hash)
    ensures CanonicalText(r, names, hash) == CanonicalText(s, others, hash)
            <==> SameContent(r, names, s, others, hash)
  {
    CanonicalUriIff(r.path, s.path);
    QueryStringIff(r.query, s.query);
    if CanonicalText(r, names, hash) == CanonicalText(s, others, hash) {
      RequestLinesFree(r, names, hash);
      RequestLinesFree(s, others, hash);
      JoinInjective<Byte>(RequestLines(r, names, hash), RequestLines(s, others, hash), NEWLINE);
      SameLines(r, names, s, others, hash);
      forall i | 0 <= i < |names| ensures Words(r.headers[names[i]]) == Words(s.headers[names[i]]) {
        assert HeaderLines(r.headers, names)[i] == HeaderLines(s.headers, names)[i];
        HeaderLineIff(names[i], r.headers[names[i]], s.headers[names[i]]);
      }
    }
    if SameContent(r, names, s, others, hash) {
      forall i | 0 <= i < |names| ensures HeaderLines(r.headers, names)[i] == HeaderLines(s.headers, names)[i] {
        HeaderLineIff(names[i], r.headers[names[i]], s.headers[names[i]]);
      }
      assert HeaderLines(r.headers, names) == HeaderLines(s.headers, others);
    }
  }

  ghost predicate TokenNames(names: seq<Text>) {
    forall i :: 0 <= i < |names| ==> TokenName(names[i])
  }

  lemma LowerIsToken(name: Text)
    requires TokenName(name)
    ensures TokenName(Lower(name))
  {
  }

  lemma CanonicalNamesAreTokens(names: seq<Text>)
    requires TokenNames(names)
    ensures TokenNames(CanonicalNames(names))
  {
    var canonical := CanonicalNames(names);
    CanonicalNamesAscend(names);
    forall i | 0 <= i < |canonical| ensures TokenName(canonical[i]) {
      assert canonical[i] in Map(names, Lower);
      var j :| 0 <= j < |names| && Map(names, Lower)[j] == canonical[i];
      LowerIsToken(names[j]);
    }
  }

  /** The same for the header names as a client lists them: only which headers they name matters, not the case. */
  lemma CanonicalRequestIff(r: Request, signed: seq<Text>, s: Request, others: seq<Text>, hash: Text -> Text)
    requires NEWLINE !in r.verb && NEWLINE !in hash(r.body) && TokenNames(signed)
    requires NEWLINE !in s.verb && NEWLINE !in hash(s.body) && TokenNames(others)
    requires AllPresent(r.headers, CanonicalNames(signed)) && AllPresent(s.headers, CanonicalNames(others))
    ensures CanonicalText(r, CanonicalNames(signed), hash) == CanonicalText(s, CanonicalNames(others), hash)
            <==> SameContent(r, CanonicalNames(signed), s, CanonicalNames(others), hash)
    ensures CanonicalNames(signed) == CanonicalNames(others)
            <==> SameNames(signed, others)
  {
    CanonicalNamesAreTokens(signed);
    CanonicalNamesAreTokens(others);
    CanonicalTextIff(r, CanonicalNames(signed), s, CanonicalNames(others), hash);
    CanonicalNamesIff(signed, others);
  }
}
