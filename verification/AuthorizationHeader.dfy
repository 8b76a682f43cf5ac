/** Parsing the `Authorization` header of a signed request. */
module AuthorizationHeader {
  import opened Wrappers
  import opened Texts
  import opened Sorting
  import opened Splits
  import opened Tokens
  import opened SignedHeaders
  import opened Trims

  const ALGORITHM: Text := "AWS4-HMAC-SHA256"
  const TERMINATOR: Text := "aws4_request"
  const CREDENTIAL: Text := "Credential"
  const SIGNED_HEADERS: Text := "SignedHeaders"
  const SIGNATURE: Text := "Signature"

  datatype Params = Params(
    accessKey: Text,
    date: Text,
    region: Text,
    service: Text,
    signedHeaders: seq<Text>,
    signature: Text)

  datatype HeaderError =
    | FormatInvalid
    | UnsupportedAlgorithm
    | MalformedParameter
    | CredentialMissing
    | ScopeFormatInvalid
    | ScopeTerminatorInvalid
    | SignedHeadersMissing
    | SignedHeadersEmpty
    | SignatureMissing
    | SignatureEmpty

  function TrimSpace(s: Text): Text {
    Trim<Byte>(s, IsSpace)
  }

  // ----- parsing -----

  predicate HasKey(pair: Text) {
    '=' in pair
  }

  function KeyOf(pair: Text): Text {
    pair[..Find<Byte>(pair, '=')]
  }

  function ValueOf(pair: Text): Text
    requires HasKey(pair)
  {
    pair[Find<Byte>(pair, '=') + 1..]
  }

  // The value of the last pair with the given key.
  function LastValue(pairs: seq<Text>, key: Text): Option<Text>
    requires forall i :: 0 <= i < |pairs| ==> HasKey(pairs[i])
  {
    if pairs == [] then None
    else
      var n := |pairs| - 1;
      if KeyOf(pairs[n]) == key then Some(ValueOf(pairs[n])) else LastValue(pairs[..n], key)
  }

  function NonEmpty(parts: seq<Text>): seq<Text> {
    if parts == [] then []
    else if parts[0] == [] then NonEmpty(parts[1..])
    else [parts[0]] + NonEmpty(parts[1..])
  }

  function Assemble(credential: Option<Text>, signedHeaders: Option<Text>, signature: Option<Text>)
    : Result<Params, HeaderError>
  {
    if credential.None? then Err(CredentialMissing)
    else
      var parts := Split<Byte>(credential.value, '/');
      if |parts| != 5 then Err(ScopeFormatInvalid)
      else if parts[4] != TERMINATOR then Err(ScopeTerminatorInvalid)
      else if signedHeaders.None? then Err(SignedHeadersMissing)
      else
        var names := NonEmpty(Split<Byte>(signedHeaders.value, ';'));
        if names == [] then Err(SignedHeadersEmpty)
        else if signature.None? then Err(SignatureMissing)
        else if signature.value == [] then Err(SignatureEmpty)
        else Ok(Params(parts[0], parts[1], parts[2], parts[3], names, signature.value))
  }

  ghost predicate AllKeyed(pairs: seq<Text>) {
    forall i :: 0 <= i < |pairs| ==> HasKey(pairs[i])
  }

  function Pairs(list: Text): seq<Text> {
    Map(Split<Byte>(TrimSpace(list), ','), TrimSpace)
  }

  // What the header means: the pairs may come in any order and the last one of each key counts.
  ghost function Parsed(header: Text): Result<Params, HeaderError> {
    var i := Find<Byte>(header, ' ');
    if i == |header| then Err(FormatInvalid)
    else if header[..i] != ALGORITHM then Err(UnsupportedAlgorithm)
    else
      var pairs := Pairs(header[i + 1..]);
      if !AllKeyed(pairs) then Err(MalformedParameter)
      else Assemble(LastValue(pairs, CREDENTIAL), LastValue(pairs, SIGNED_HEADERS), LastValue(pairs, SIGNATURE))
  }

  // The loop over the pairs, for three distinct keys.
  method LastValues(pairs: seq<Text>, k1: Text, k2: Text, k3: Text)
      returns (keyed: bool, v1: Option<Text>, v2: Option<Text>, v3: Option<Text>)
    requires k1 != k2 && k1 != k3 && k2 != k3
    ensures keyed <==> AllKeyed(pairs)
    ensures keyed ==> v1 == LastValue(pairs, k1) && v2 == LastValue(pairs, k2) && v3 == LastValue(pairs, k3)
  {
    keyed, v1, v2, v3 := true, None, None, None;
    for k := 0 to |pairs|
      invariant keyed && AllKeyed(pairs[..k])
      invariant v1 == LastValue(pairs[..k], k1)
      invariant v2 == LastValue(pairs[..k], k2)
      invariant v3 == LastValue(pairs[..k], k3)
    {
      var pair := pairs[k];
      if !HasKey(pair) {
        keyed := false;
        return;
      }
      assert pairs[..k + 1][..k] == pairs[..k];
      var key, value := KeyOf(pair), ValueOf(pair);
      if key == k1 {
        v1 := Some(value);
      } else if key == k2 {
        v2 := Some(value);
      } else if key == k3 {
        v3 := Some(value);
      }
    }
    assert pairs[..|pairs|] == pairs;
  }

  method ExtractParams(header: Text) returns (r: Result<Params, HeaderError>)
    ensures r == Parsed(header)
  {
    var i := Find<Byte>(header, ' ');
    if i == |header| { return Err(FormatInvalid); }
    if header[..i] != ALGORITHM { return Err(UnsupportedAlgorithm); }
    var pairs := Pairs(header[i + 1..]);
    assert |CREDENTIAL| == 10 && |SIGNED_HEADERS| == 13 && |SIGNATURE| == 9;
    var keyed, credential, signedHeaders, signature := LastValues(pairs, CREDENTIAL, SIGNED_HEADERS, SIGNATURE);
    if !keyed { return Err(MalformedParameter); }
    r := Assemble(credential, signedHeaders, signature);
  }

  // ----- trimming before splitting changes nothing -----

  lemma TrimAppendLast(parts: seq<Text>, b: Byte)
    requires parts != [] && IsSpace(b)
    ensures var n := |parts| - 1; Map(parts[n := parts[n] + [b]], TrimSpace) == Map(parts, TrimSpace)
  {
    TrimAppend<Byte>(parts[|parts| - 1], b, IsSpace);
  }

  lemma {:induction false} SplitTrimEnd(s: Text)
    ensures Map(Split<Byte>(TrimEnd<Byte>(s, IsSpace), ','), TrimSpace) == Map(Split<Byte>(s, ','), TrimSpace)
  {
    if s != [] && IsSpace(s[|s| - 1]) {
      var t, b := s[..|s| - 1], s[|s| - 1];
      SplitTrimEnd(t);
      assert s == t + [b];
      SplitSnoc<Byte>(t, b, ',');
      TrimAppendLast(Split<Byte>(t, ','), b);
    }
  }

  lemma {:induction false} SplitTrimStart(s: Text)
    ensures Map(Split<Byte>(TrimStart<Byte>(s, IsSpace), ','), TrimSpace) == Map(Split<Byte>(s, ','), TrimSpace)
  {
    if s != [] && IsSpace(s[0]) {
      SplitTrimStart(s[1..]);
      var rest := Split<Byte>(s[1..], ',');
      TrimPrepend<Byte>(s[0], rest[0], IsSpace);
      assert Split<Byte>(s, ',') == [[s[0]] + rest[0]] + rest[1..];
    }
  }

  lemma PairsOfList(list: Text)
    ensures Pairs(list) == Map(Split<Byte>(list, ','), TrimSpace)
  {
    SplitTrimEnd(TrimStart<Byte>(list, IsSpace));
    SplitTrimStart(list);
  }

  // ----- printing -----

  datatype Field = Field(key: Text, value: Text, before: Text, after: Text)

  ghost predicate Printable(f: Field) {
    && All<Byte>(f.before, IsSpace) && All<Byte>(f.after, IsSpace)
    && '=' !in f.key && ',' !in f.key && ',' !in f.value
    && (f.key != [] ==> !IsSpace(f.key[0]))
    && (f.value != [] ==> !IsSpace(f.value[|f.value| - 1]))
  }

  function Core(f: Field): Text {
    f.key + ['='] + f.value
  }

  function Padded(f: Field): Text {
    f.before + Core(f) + f.after
  }

  function Print(fields: seq<Field>): Text {
    "AWS4-HMAC-SHA256" + [' '] + Join<Byte>(Map(fields, Padded), [','])
  }

  // The value of the last field with the given key.
  function LastField(fields: seq<Field>, key: Text): Option<Text> {
    if fields == [] then None
    else
      var n := |fields| - 1;
      if fields[n].key == key then Some(fields[n].value) else LastField(fields[..n], key)
  }

  // What the last field of each key says.
  ghost function Meaning(fields: seq<Field>): Result<Params, HeaderError> {
    Assemble(LastField(fields, "Credential"), LastField(fields, "SignedHeaders"), LastField(fields, "Signature"))
  }

  ghost predicate AllPrintable(fields: seq<Field>) {
    forall i :: 0 <= i < |fields| ==> Printable(fields[i])
  }

  lemma CoreParts(f: Field)
    requires Printable(f)
    ensures HasKey(Core(f)) && KeyOf(Core(f)) == f.key && ValueOf(Core(f)) == f.value
    ensures TrimSpace(Padded(f)) == Core(f)
    ensures ',' !in Padded(f)
  {
    FindAt<Byte>(f.key, '=', f.value);
    assert Core(f)[|f.key|] == '=';
    TrimPadded<Byte>(f.before, Core(f), f.after, IsSpace);
    assert ',' !in f.before && ',' !in f.after;
  }

  lemma {:induction false} LastValueOfCores(fields: seq<Field>, pairs: seq<Text>, key: Text)
    requires AllPrintable(fields) && pairs == Map(fields, Core)
    requires AllKeyed(pairs)
    ensures LastValue(pairs, key) == LastField(fields, key)
  {
    if fields != [] {
      var n := |fields| - 1;
      CoreParts(fields[n]);
      if fields[n].key != key {
        assert pairs[..n] == Map(fields[..n], Core);
        LastValueOfCores(fields[..n], pairs[..n], key);
      }
    }
  }

  /**
   Parsing a printed header gives the parameters assembled from the last field of each key, for
   any list of fields, in any order, with other keys among them and any padding around the commas.
   */
  lemma ParsePrinted(fields: seq<Field>)
    requires fields != [] && AllPrintable(fields)
    ensures Parsed(Print(fields)) == Meaning(fields)
  {
    PairsOfPrinted(fields);
    HeadOfPrinted(Join<Byte>(Map(fields, Padded), [',']));
    LastValueOfCores(fields, Map(fields, Core), CREDENTIAL);
    LastValueOfCores(fields, Map(fields, Core), SIGNED_HEADERS);
    LastValueOfCores(fields, Map(fields, Core), SIGNATURE);
  }

  lemma HeadOfPrinted(list: Text)
    ensures var header := ALGORITHM + [' '] + list; var i := Find<Byte>(header, ' ');
            i < |header| && header[..i] == ALGORITHM && header[i + 1..] == list
  {
    assert ' ' !in ALGORITHM;
    FindAt<Byte>(ALGORITHM, ' ', list);
  }

  lemma PairsOfPrinted(fields: seq<Field>)
    requires fields != [] && AllPrintable(fields)
    ensures Pairs(Join<Byte>(Map(fields, Padded), [','])) == Map(fields, Core)
    ensures AllKeyed(Map(fields, Core))
  {
    var pieces := Map(fields, Padded);
    forall i | 0 <= i < |fields|
      ensures ',' !in pieces[i] && TrimSpace(pieces[i]) == Core(fields[i]) && HasKey(Core(fields[i]))
    {
      CoreParts(fields[i]);
    }
    SplitJoin<Byte>(pieces, ',');
    PairsOfList(Join<Byte>(pieces, [',']));
  }

  // ----- round trip -----

  ghost predicate Plain(s: Text) {
    && (forall b :: b in s ==> !IsSpace(b))
    && ',' !in s && '/' !in s && ';' !in s
  }

  ghost predicate PlainParams(p: Params) {
    && Plain(p.accessKey) && Plain(p.date) && Plain(p.region) && Plain(p.service)
    && p.signedHeaders != []
    && (forall i :: 0 <= i < |p.signedHeaders| ==> p.signedHeaders[i] != [] && Plain(p.signedHeaders[i]))
    && p.signature != [] && Plain(p.signature)
  }

  function CredentialText(p: Params): Text {
    Join<Byte>([p.accessKey, p.date, p.region, p.service, "aws4_request"], ['/'])
  }

  lemma {:induction false} NonEmptyKeeps(parts: seq<Text>)
    requires forall i :: 0 <= i < |parts| ==> parts[i] != []
    ensures NonEmpty(parts) == parts
  {
    if parts != [] { NonEmptyKeeps(parts[1..]); }
  }

  lemma AssembleParams(p: Params)
    requires PlainParams(p)
    ensures Assemble(Some(CredentialText(p)), Some(Join<Byte>(p.signedHeaders, [';'])), Some(p.signature)) == Ok(p)
  {
    assert '/' !in TERMINATOR;
    SplitJoin<Byte>([p.accessKey, p.date, p.region, p.service, TERMINATOR], '/');
    SplitJoin<Byte>(p.signedHeaders, ';');
    NonEmptyKeeps(p.signedHeaders);
  }

  lemma {:induction false} LastFieldOfOne(fields: seq<Field>, f: Field)
    requires f in fields
    requires forall g :: g in fields && g.key == f.key ==> g.value == f.value
    ensures LastField(fields, f.key) == Some(f.value)
  {
    var n := |fields| - 1;
    assert fields[n] in fields;
    if fields[n].key != f.key {
      assert fields == fields[..n] + [fields[n]];
      LastFieldOfOne(fields[..n], f);
    }
  }

  ghost predicate SpaceFree(s: Text) {
    forall b :: b in s ==> !IsSpace(b)
  }

  lemma JoinPlain(parts: seq<Text>, sep: Byte)
    requires !IsSpace(sep) && sep != ','
    requires forall i :: 0 <= i < |parts| ==> SpaceFree(parts[i]) && ',' !in parts[i]
    ensures SpaceFree(Join<Byte>(parts, [sep])) && ',' !in Join<Byte>(parts, [sep])
  {
  }

  ghost predicate PlainKey(k: Text) {
    k != [] && SpaceFree(k) && '=' !in k && ',' !in k
  }

  lemma PlainFieldPrintable(f: Field)
    requires All<Byte>(f.before, IsSpace) && All<Byte>(f.after, IsSpace)
    requires PlainKey(f.key) && SpaceFree(f.value) && ',' !in f.value
    ensures Printable(f)
  {
    assert f.key[0] in f.key;
    if f.value != [] { assert f.value[|f.value| - 1] in f.value; }
  }

  lemma PlainFieldsPrintable(p: Params, c: Field, h: Field, s: Field)
    requires PlainParams(p) && IsPrintOf(p, c, h, s)
    ensures Printable(c) && Printable(h) && Printable(s)
  {
    CredentialIsPlain();
    SignedHeadersIsPlain();
    SignatureIsPlain();
    TerminatorIsPlain();
    JoinPlain([p.accessKey, p.date, p.region, p.service, TERMINATOR], '/');
    JoinPlain(p.signedHeaders, ';');
    PlainFieldPrintable(c);
    PlainFieldPrintable(h);
    PlainFieldPrintable(s);
  }

  lemma CredentialIsPlain()
    ensures PlainKey(CREDENTIAL)
  {
  }

  lemma SignedHeadersIsPlain()
    ensures PlainKey(SIGNED_HEADERS)
  {
  }

  lemma SignatureIsPlain()
    ensures PlainKey(SIGNATURE)
  {
  }

  lemma TerminatorIsPlain()
    ensures SpaceFree(TERMINATOR) && ',' !in TERMINATOR
  {
  }

  // The three fields of the parameters, each padded with white space.
  ghost predicate IsPrintOf(p: Params, c: Field, h: Field, s: Field) {
    && c.key == "Credential" && c.value == CredentialText(p)
    && h.key == "SignedHeaders" && h.value == Join<Byte>(p.signedHeaders, [';'])
    && s.key == "Signature" && s.value == p.signature
    && (forall f :: f in [c, h, s] ==> All<Byte>(f.before, IsSpace) && All<Byte>(f.after, IsSpace))
  }

  /** Printing parameters in any order of the three fields, with any padding, and parsing them again. */
  lemma HeaderRoundTrip(p: Params, fields: seq<Field>, c: Field, h: Field, s: Field)
    requires PlainParams(p)
    requires multiset(fields) == multiset([c, h, s]) && IsPrintOf(p, c, h, s)
    ensures Parsed(Print(fields)) == Ok(p)
  {
    PlainFieldsPrintable(p, c, h, s);
    AnyOrder(fields, c, h, s);
    ParsePrinted(fields);
    AssembleParams(p);
  }

  lemma AnyOrder(fields: seq<Field>, c: Field, h: Field, s: Field)
    requires multiset(fields) == multiset([c, h, s])
    requires c.key == CREDENTIAL && h.key == SIGNED_HEADERS && s.key == SIGNATURE
    requires Printable(c) && Printable(h) && Printable(s)
    ensures fields != [] && AllPrintable(fields)
    ensures LastField(fields, CREDENTIAL) == Some(c.value)
    ensures LastField(fields, SIGNED_HEADERS) == Some(h.value)
    ensures LastField(fields, SIGNATURE) == Some(s.value)
  {
    assert |CREDENTIAL| == 10 && |SIGNED_HEADERS| == 13 && |SIGNATURE| == 9;
    ThreeMembers(fields, c, h, s);
    ThreeFields(fields, c, h, s);
  }

  lemma ThreeMembers(fields: seq<Field>, c: Field, h: Field, s: Field)
    requires multiset(fields) == multiset([c, h, s])
    ensures forall f :: f in fields <==> f == c || f == h || f == s
  {
    forall f ensures f in fields <==> f == c || f == h || f == s {
      SameMembers(fields, [c, h, s], f);
    }
  }

  lemma ThreeFields(fields: seq<Field>, c: Field, h: Field, s: Field)
    requires forall f :: f in fields <==> f == c || f == h || f == s
    requires c.key != h.key && c.key != s.key && h.key != s.key
    ensures LastField(fields, c.key) == Some(c.value)
    ensures LastField(fields, h.key) == Some(h.value)
    ensures LastField(fields, s.key) == Some(s.value)
  {
    LastFieldOfOne(fields, c);
    LastFieldOfOne(fields, h);
    LastFieldOfOne(fields, s);
  }

  // ----- what every header parses to -----

  // Five texts without a slash, with slashes between them.
  ghost predicate IsScope(credential: Text, a: Text, b: Text, c: Text, d: Text, e: Text) {
    && credential == a + "/" + b + "/" + c + "/" + d + "/" + e
    && '/' !in a && '/' !in b && '/' !in c && '/' !in d && '/' !in e
  }

  lemma JoinFive(a: Text, b: Text, c: Text, d: Text, e: Text)
    ensures Join<Byte>([a, b, c, d, e], ['/']) == a + "/" + b + "/" + c + "/" + d + "/" + e
  {
    JoinConcat<Byte>([a, b, c], [d, e], ['/']);
    assert [a, b, c] + [d, e] == [a, b, c, d, e];
    assert [a, b, c][1..] == [b, c] && [b, c][1..] == [c] && [d, e][1..] == [e];
    assert Join<Byte>([b, c], ['/']) == b + ['/'] + c && Join<Byte>([d, e], ['/']) == d + ['/'] + e;
    assert a + ['/'] + (b + ['/'] + c) + ['/'] + (d + ['/'] + e) == a + "/" + b + "/" + c + "/" + d + "/" + e;
  }

  lemma ScopeIff(credential: Text, a: Text, b: Text, c: Text, d: Text, e: Text)
    ensures IsScope(credential, a, b, c, d, e) <==> Split<Byte>(credential, '/') == [a, b, c, d, e]
  {
    JoinFive(a, b, c, d, e);
    if IsScope(credential, a, b, c, d, e) {
      SplitJoin<Byte>([a, b, c, d, e], '/');
    }
    if Split<Byte>(credential, '/') == [a, b, c, d, e] {
      JoinSplit<Byte>(credential, '/');
      SplitPieces<Byte>(credential, '/');
      FreeFive(a, b, c, d, e);
    }
  }

  lemma FreeFive(a: Text, b: Text, c: Text, d: Text, e: Text)
    requires FreeOf<Byte>([a, b, c, d, e], '/')
    ensures '/' !in a && '/' !in b && '/' !in c && '/' !in d && '/' !in e
  {
    var parts := [a, b, c, d, e];
    assert '/' !in parts[0] && '/' !in parts[1] && '/' !in parts[2] && '/' !in parts[3] && '/' !in parts[4];
  }

  ghost predicate HasFiveParts(credential: Text) {
    exists a, b, c, d, e :: IsScope(credential, a, b, c, d, e)
  }

  ghost predicate EndsInTerminator(credential: Text) {
    exists a, b, c, d :: IsScope(credential, a, b, c, d, "aws4_request")
  }

  lemma FivePartsIff(credential: Text)
    ensures HasFiveParts(credential) <==> |Split<Byte>(credential, '/')| == 5
    ensures EndsInTerminator(credential) <==>
            |Split<Byte>(credential, '/')| == 5 && Split<Byte>(credential, '/')[4] == "aws4_request"
  {
    var parts := Split<Byte>(credential, '/');
    if |parts| == 5 {
      assert parts == [parts[0], parts[1], parts[2], parts[3], parts[4]];
      ScopeIff(credential, parts[0], parts[1], parts[2], parts[3], parts[4]);
    }
    if a, b, c, d, e :| IsScope(credential, a, b, c, d, e) {
      ScopeIff(credential, a, b, c, d, e);
    }
    if a, b, c, d :| IsScope(credential, a, b, c, d, "aws4_request") {
      ScopeIff(credential, a, b, c, d, "aws4_request");
    }
  }

  predicate IsSemicolon(b: Byte) {
    b == ';'
  }

  lemma {:induction false} NonEmptyIsTokens(s: Text)
    ensures NonEmpty(Split<Byte>(s, ';')) == TokensOf<Byte>(s, IsSemicolon)
    decreases |s|
  {
    if s != [] {
      if s[0] == ';' {
        NonEmptyIsTokens(s[1..]);
        assert ([[]] + Split<Byte>(s[1..], ';'))[1..] == Split<Byte>(s[1..], ';');
      } else {
        SplitAtToken(s);
      }
    }
  }

  // A text that starts with a name splits into the name and the rest.
  lemma SplitAtToken(s: Text)
    requires s != [] && s[0] != ';'
    ensures NonEmpty(Split<Byte>(s, ';')) == TokensOf<Byte>(s, IsSemicolon)
    decreases |s|, 0
  {
    var n := TokenLength<Byte>(s, IsSemicolon);
    var head := s[..n];
    assert ';' !in head;
    if n == |s| {
      assert s == head;
      SplitFree<Byte>(s, ';');
      assert NonEmpty([s]) == [s] by { assert [s][1..] == []; }
      assert TokensOf<Byte>(s[n..], IsSemicolon) == [];
    } else {
      assert s == head + [';'] + s[n + 1..];
      SplitHead<Byte>(head, ';', s[n + 1..]);
      NonEmptyIsTokens(s[n + 1..]);
      assert ([head] + Split<Byte>(s[n + 1..], ';'))[1..] == Split<Byte>(s[n + 1..], ';');
      assert s[n..][1..] == s[n + 1..];
    }
  }

  // The names of a list, with semicolons between and around them.
  ghost predicate IsNameList(list: Text, names: seq<Text>) {
    SeparatedBy<Byte>(list, names, IsSemicolon)
  }

  lemma NamesIff(list: Text, names: seq<Text>)
    ensures NonEmpty(Split<Byte>(list, ';')) == names <==> IsNameList(list, names)
  {
    NonEmptyIsTokens(list);
    TokensIff<Byte>(list, names, IsSemicolon);
  }

  lemma NoNamesIff(list: Text)
    ensures IsNameList(list, []) <==> forall i :: 0 <= i < |list| ==> list[i] == ';'
  {
    if forall i :: 0 <= i < |list| ==> list[i] == ';' {
      assert Gapped<Byte>(list, [], [], IsSemicolon) && list == Woven<Byte>(list, []);
    }
    if first, pieces :| Gapped<Byte>(first, pieces, [], IsSemicolon) && list == Woven<Byte>(first, pieces) {
      assert pieces == [];
    }
  }

  /** The parameters are accepted exactly when they spell these fields. */
  lemma AssembleOkIff(credential: Option<Text>, signedHeaders: Option<Text>, signature: Option<Text>, p: Params)
    ensures Assemble(credential, signedHeaders, signature) == Ok(p) <==>
            && credential.Some? && signedHeaders.Some? && signature == Some(p.signature)
            && IsScope(credential.value, p.accessKey, p.date, p.region, p.service, "aws4_request")
            && p.signedHeaders != [] && IsNameList(signedHeaders.value, p.signedHeaders)
            && p.signature != []
  {
    if credential.Some? && signedHeaders.Some? {
      ScopeIff(credential.value, p.accessKey, p.date, p.region, p.service, "aws4_request");
      NamesIff(signedHeaders.value, p.signedHeaders);
    }
  }

  /** The error reported for the first thing that is wrong, in the order of the checks. */
  lemma AssembleErrors(credential: Option<Text>, signedHeaders: Option<Text>, signature: Option<Text>)
    ensures var r := Assemble(credential, signedHeaders, signature);
            && (credential.None? ==> r == Err(CredentialMissing))
            && (credential.Some? ==>
                  && (!HasFiveParts(credential.value) ==> r == Err(ScopeFormatInvalid))
                  && (HasFiveParts(credential.value) && !EndsInTerminator(credential.value) ==>
                        r == Err(ScopeTerminatorInvalid))
                  && (EndsInTerminator(credential.value) ==>
                        && (signedHeaders.None? ==> r == Err(SignedHeadersMissing))
                        && (signedHeaders.Some? ==>
                              if forall i :: 0 <= i < |signedHeaders.value| ==> signedHeaders.value[i] == ';'
                              then r == Err(SignedHeadersEmpty)
                              else if signature.None? then r == Err(SignatureMissing)
                              else if signature.value == [] then r == Err(SignatureEmpty)
                              else r.Ok?)))
  {
    if credential.Some? {
      FivePartsIff(credential.value);
    }
    if signedHeaders.Some? {
      NamesIff(signedHeaders.value, []);
      NoNamesIff(signedHeaders.value);
    }
  }

  // Every piece with a key is a printed field.
  lemma FieldOfPiece(piece: Text) returns (f: Field)
    requires HasKey(piece) && ',' !in piece
    ensures Printable(f) && Padded(f) == piece
  {
    var before, after := TrimParts<Byte>(piece, IsSpace);
    var core := TrimSpace(piece);
    assert '=' in core by {
      assert '=' in before + core + after;
      assert '=' !in before && '=' !in after;
    }
    f := Field(KeyOf(core), ValueOf(core), before, after);
    assert core == f.key + ['='] + f.value;
    FieldIsPrintable(f, core);
  }

  lemma FieldIsPrintable(f: Field, core: Text)
    requires core == f.key + ['='] + f.value && Trimmed<Byte>(core, IsSpace)
    requires '=' !in f.key && All<Byte>(f.before, IsSpace) && All<Byte>(f.after, IsSpace)
    requires ',' !in f.before + core + f.after
    ensures Printable(f)
  {
    assert f.key != [] ==> core[0] == f.key[0];
    assert f.value != [] ==> core[|core| - 1] == f.value[|f.value| - 1];
    assert ',' !in core;
  }

  lemma {:induction false} FieldsOfPieces(pieces: seq<Text>) returns (fields: seq<Field>)
    requires FreeOf<Byte>(pieces, ',') && forall i :: 0 <= i < |pieces| ==> HasKey(pieces[i])
    ensures |fields| == |pieces| && AllPrintable(fields) && Map(fields, Padded) == pieces
  {
    if pieces == [] {
      fields := [];
    } else {
      var n := |pieces| - 1;
      var rest := FieldsOfPieces(pieces[..n]);
      var f := FieldOfPiece(pieces[n]);
      fields := rest + [f];
      assert pieces == pieces[..n] + [pieces[n]];
    }
  }

  // The algorithm and the space behind it.
  ghost predicate NamesAlgorithm(header: Text) {
    "AWS4-HMAC-SHA256" + [' '] <= header
  }

  lemma SpaceAfterWord(word: Text, header: Text)
    requires ' ' !in word && word + [' '] <= header
    ensures Find<Byte>(header, ' ') == |word| && header[..|word|] == word && |word| < |header|
  {
    var rest := header[|word| + 1..];
    assert header == header[..|word| + 1] + rest;
    assert header[..|word| + 1] == word + [' '];
    FindAt<Byte>(word, ' ', rest);
  }

  lemma WordThenSpace(header: Text)
    requires Find<Byte>(header, ' ') < |header|
    ensures header[..Find<Byte>(header, ' ')] + [' '] <= header
  {
    var i := Find<Byte>(header, ' ');
    PrefixMore(header, i);
  }

  lemma PrefixMore(s: Text, i: nat)
    requires i < |s|
    ensures s[..i] + [s[i]] <= s
  {
    assert s[..i + 1] == s[..i] + [s[i]];
  }

  lemma WordBeforeSpace(word: Text, header: Text)
    requires ' ' !in word
    ensures ' ' in header <==> Find<Byte>(header, ' ') < |header|
    ensures word + [' '] <= header <==> ' ' in header && header[..Find<Byte>(header, ' ')] == word
    ensures word + [' '] <= header ==> Find<Byte>(header, ' ') == |word|
  {
    var i := Find<Byte>(header, ' ');
    assert i == |header| ==> header[..i] == header;
    if word + [' '] <= header { SpaceAfterWord(word, header); }
    if i < |header| { WordThenSpace(header); }
  }

  lemma AlgorithmIsPlain()
    ensures ' ' !in ALGORITHM && |ALGORITHM| == 16
  {
  }

  ghost predicate IsPrintedAs(header: Text, fields: seq<Field>) {
    fields != [] && AllPrintable(fields) && header == Print(fields)
  }

  /**
   Every header: without a space its form is wrong, with another word before the first space the
   algorithm is, and with a piece between commas that has no '=' a parameter is.  Any other header is a
   list of printed fields, so that its meaning is given by the last field of each key.
   */
  lemma HeaderOutcome(header: Text)
    ensures ' ' !in header ==> Parsed(header) == Err(FormatInvalid)
    ensures ' ' in header && !NamesAlgorithm(header) ==> Parsed(header) == Err(UnsupportedAlgorithm)
    ensures NamesAlgorithm(header) ==>
              if HasKeylessPiece(header[17..]) then Parsed(header) == Err(MalformedParameter)
              else exists fields :: IsPrintedAs(header, fields) && Parsed(header) == Meaning(fields)
  {
    AlgorithmIsPlain();
    WordBeforeSpace(ALGORITHM, header);
    if NamesAlgorithm(header) {
      var list := header[17..];
      if HasKeylessPiece(list) {
        KeylessList(list);
      } else {
        var fields := FieldsOfList(list);
        PrintedHeader(header, fields);
        ParsePrinted(fields);
      }
    }
  }

  ghost predicate HasKeylessPiece(list: Text) {
    var pieces := Split<Byte>(list, ',');
    exists i :: 0 <= i < |pieces| && '=' !in pieces[i]
  }

  lemma KeylessList(list: Text)
    requires HasKeylessPiece(list)
    ensures !AllKeyed(Pairs(list))
  {
    var pieces := Split<Byte>(list, ',');
    PairsOfList(list);
    var i :| 0 <= i < |pieces| && '=' !in pieces[i];
    KeylessPiece(pieces, i);
  }

  lemma FieldsOfList(list: Text) returns (fields: seq<Field>)
    requires !HasKeylessPiece(list)
    ensures fields != [] && AllPrintable(fields) && list == Join<Byte>(Map(fields, Padded), [','])
  {
    SplitPieces<Byte>(list, ',');
    JoinSplit<Byte>(list, ',');
    fields := FieldsOfPieces(Split<Byte>(list, ','));
  }

  lemma PrintedHeader(header: Text, fields: seq<Field>)
    requires NamesAlgorithm(header) && |header| >= 17 && |ALGORITHM| == 16
    requires fields != [] && AllPrintable(fields) && header[17..] == Join<Byte>(Map(fields, Padded), [','])
    ensures IsPrintedAs(header, fields)
  {
    assert header == header[..17] + header[17..];
    assert header[..17] == ALGORITHM + [' '];
  }

  lemma KeylessPiece(pieces: seq<Text>, i: nat)
    requires i < |pieces| && '=' !in pieces[i]
    ensures !AllKeyed(Map(pieces, TrimSpace))
  {
    var before, after := TrimParts<Byte>(pieces[i], IsSpace);
    assert '=' !in TrimSpace(pieces[i]);
    assert Map(pieces, TrimSpace)[i] == TrimSpace(pieces[i]);
  }
}
