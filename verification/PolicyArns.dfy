/** Printing and parsing the ARN of a managed policy, and the two normal forms of its path. */
module PolicyArns {
  import opened Wrappers
  import opened Splits
  import opened Trims

  datatype PolicyArn = PolicyArn(accountId: string, path: string, name: string)

  datatype ArnError = InvalidArn | InvalidPolicyArn

  // char::is_whitespace
  predicate IsWhite(c: char) {
    var n := c as int;
    || 0x9 <= n <= 0xD || n == 0x20 || n == 0x85 || n == 0xA0 || n == 0x1680
    || 0x2000 <= n <= 0x200A || n == 0x2028 || n == 0x2029 || n == 0x202F || n == 0x205F || n == 0x3000
  }

  predicate IsSlash(c: char) {
    c == '/'
  }

  // ----- printing -----

  function NormalizeUserPath(path: string): string {
    var trimmed := Trim(path, IsWhite);
    if trimmed == "" || trimmed == "/" then "/" else "/" + Trim(trimmed, IsSlash) + "/"
  }

  function Print(accountId: string, path: string, name: string): string {
    "arn:aws:iam::" + accountId + ":policy" + NormalizeUserPath(path) + name
  }

  // ----- parsing -----

  function ParseResource(accountId: string, resource: string): Result<PolicyArn, ArnError> {
    var parts := Split(resource, '/');
    var n := |parts| - 1;
    if n < 1 || parts[0] != "policy" || parts[n] == "" then Err(InvalidPolicyArn)
    else
      Ok(PolicyArn(accountId, if n == 1 then "/" else "/" + Join(parts[1..n], "/") + "/", parts[n]))
  }

  function Parse(arn: string): Result<PolicyArn, ArnError> {
    var parts := Split(arn, ':');
    if |parts| != 6 || parts[0] != "arn" || parts[1] != "aws" || parts[2] != "iam" then Err(InvalidArn)
    else ParseResource(parts[4], parts[5])
  }

  // ----- what an ARN is -----

  // The ARN of an IAM resource; what stands for the region is not looked at.
  ghost predicate IsIamArn(arn: string, region: string, accountId: string, resource: string) {
    && arn == "arn" + ":" + "aws" + ":" + "iam" + ":" + region + ":" + accountId + ":" + resource
    && ':' !in region && ':' !in accountId && ':' !in resource
  }

  // The resource "policy", a path that begins and ends with a slash, and a name without one.
  ghost predicate IsPolicyResource(resource: string, path: string, name: string) {
    && resource == "policy" + path + name
    && path != "" && path[0] == '/' && path[|path| - 1] == '/'
    && name != "" && '/' !in name
  }

  // ----- round trip -----

  lemma {:induction false} TrimFree(s: string, drop: char -> bool, x: char)
    requires x !in s
    ensures x !in Trim(s, drop)
  {
    var before, after := TrimParts(s, drop);
  }

  lemma ParsePlainResource(accountId: string, name: string)
    requires name != "" && '/' !in name
    ensures ParseResource(accountId, "policy" + "/" + name) == Ok(PolicyArn(accountId, "/", name))
  {
    assert '/' !in "policy";
    assert Join(["policy", name], "/") == "policy" + "/" + name by { assert ["policy", name][1..] == [name]; }
    SplitJoin(["policy", name], '/');
  }

  lemma ParsePathResource(accountId: string, middle: string, name: string)
    requires name != "" && '/' !in name
    ensures ParseResource(accountId, "policy" + ("/" + middle + "/") + name) ==
            Ok(PolicyArn(accountId, "/" + middle + "/", name))
  {
    var inner := Split(middle, '/');
    var parts := ["policy"] + inner + [name];
    assert '/' !in "policy";
    SplitPieces(middle, '/');
    JoinSplit(middle, '/');
    JoinConcat(["policy"] + inner, [name], "/");
    JoinConcat(["policy"], inner, "/");
    assert "policy" + "/" + middle + "/" + name == "policy" + ("/" + middle + "/") + name;
    SplitJoin(parts, '/');
    assert parts[1..|parts| - 1] == inner;
  }

  lemma PrintedParts(accountId: string, resource: string)
    requires ':' !in accountId && ':' !in resource
    ensures Split("arn:aws:iam::" + accountId + ":" + resource, ':') == ["arn", "aws", "iam", "", accountId, resource]
  {
    var parts := ["arn", "aws", "iam", "", accountId, resource];
    JoinConcat(["arn", "aws", "iam", ""], [accountId, resource], ":");
    assert Join([accountId, resource], ":") == accountId + ":" + resource by {
      assert [accountId, resource][1..] == [resource];
    }
    assert Join(["arn", "aws", "iam", ""], ":") == "arn:aws:iam:" by { JoinFour("arn", "aws", "iam", ""); }
    assert parts == ["arn", "aws", "iam", ""] + [accountId, resource];
    assert Join(parts, ":") == "arn:aws:iam:" + ":" + (accountId + ":" + resource);
    assert "arn:aws:iam:" + ":" + (accountId + ":" + resource) == "arn:aws:iam::" + accountId + ":" + resource;
    assert FreeOf(parts, ':');
    SplitJoin(parts, ':');
  }

  lemma JoinFour(a: string, b: string, c: string, d: string)
    ensures Join([a, b, c, d], ":") == a + ":" + (b + ":" + (c + ":" + d))
  {
    assert [a, b, c, d][1..] == [b, c, d] && [b, c, d][1..] == [c, d] && [c, d][1..] == [d];
    assert Join([c, d], ":") == c + ":" + d;
    assert Join([b, c, d], ":") == b + ":" + Join([c, d], ":");
  }

  lemma PrintedIsIamArn(accountId: string, resource: string)
    requires ':' !in accountId && ':' !in resource
    ensures IsIamArn("arn:aws:iam::" + accountId + ":" + resource, "", accountId, resource)
  {
    assert "arn" + ":" + "aws" + ":" + "iam" + ":" + "" + ":" == "arn:aws:iam::";
  }

  /** Parsing a printed ARN gives back the account, the normalised path and the name. */
  lemma ParseInvertsPrint(accountId: string, path: string, name: string)
    requires ':' !in accountId && ':' !in path && ':' !in name
    requires name != "" && '/' !in name
    ensures Parse(Print(accountId, path, name)) == Ok(PolicyArn(accountId, NormalizeUserPath(path), name))
    ensures exists resource :: IsIamArn(Print(accountId, path, name), "", accountId, resource)
                               && IsPolicyResource(resource, NormalizeUserPath(path), name)
  {
    var trimmed := Trim(path, IsWhite);
    TrimFree(path, IsWhite, ':');
    TrimFree(trimmed, IsSlash, ':');
    var normal := NormalizeUserPath(path);
    var resource := "policy" + normal + name;
    assert Print(accountId, path, name) == "arn:aws:iam::" + accountId + ":" + resource;
    PrintedParts(accountId, resource);
    PrintedIsIamArn(accountId, resource);
    assert IsPolicyResource(resource, normal, name);
    if trimmed == "" || trimmed == "/" {
      ParsePlainResource(accountId, name);
    } else {
      ParsePathResource(accountId, Trim(trimmed, IsSlash), name);
    }
  }

  // ----- the stored form of the path -----

  function NormalizePolicyPath(path: Option<string>): string {
    if path.Some? && Trim(path.value, IsWhite) != "" then
      var trimmed := Trim(path.value, IsWhite);
      WithTrailing(WithLeading(trimmed))
    else "/"
  }

  function WithLeading(s: string): (r: string)
    requires s != ""
    ensures r != ""
  {
    if s[0] == '/' then s else "/" + s
  }

  function WithTrailing(s: string): string
    requires s != ""
  {
    if s[|s| - 1] == '/' then s else s + "/"
  }

  // No doubled slash at either end, or nothing but a doubled slash.
  predicate SingleEndSlashes(t: string) {
    (!("//" <= t) && !(|t| >= 2 && t[|t| - 2..] == "//")) || t == "//"
  }

  /** The stored path is the printed one exactly when the trimmed path has no doubled slash at its ends. */
  lemma StoredPathIsPrintedIff(path: string)
    ensures NormalizePolicyPath(Some(path)) == NormalizeUserPath(path) <==> SingleEndSlashes(Trim(path, IsWhite))
  {
    var t := Trim(path, IsWhite);
    if t != "" && t != "/" {
      StoredFormIff(t);
    }
  }

  lemma StoredFormIff(t: string)
    requires t != "" && t != "/"
    ensures WithTrailing(WithLeading(t)) == "/" + Trim(t, IsSlash) + "/" <==> SingleEndSlashes(t)
  {
    var before, after := TrimParts(t, IsSlash);
    var core := Trim(t, IsSlash);
    if core == "" {
      assert t == before + after;
      OnlySlashes(t, before, after);
    } else {
      PathForms(t, before, core, after);
    }
  }

  lemma OnlySlashes(t: string, before: string, after: string)
    requires t == before + after && All(before, IsSlash) && All(after, IsSlash) && t != "" && t != "/"
    ensures WithTrailing(WithLeading(t)) == t && "//" <= t
    ensures t == "/" + "" + "/" <==> t == "//"
  {
  }

  function Slash(padding: string): string {
    if padding == "" then "/" else padding
  }

  lemma Front(before: string, rest: string)
    requires All(before, IsSlash) && rest != "" && rest[0] != '/'
    ensures "//" <= before + rest <==> |before| >= 2
    ensures WithLeading(before + rest) == Slash(before) + rest
  {
    var t := before + rest;
    if before == "" {
      assert t == rest;
    } else {
      assert t[0] == before[0];
      assert |before| >= 2 ==> t[1] == before[1];
      assert |before| == 1 ==> t[1] == rest[0];
    }
  }

  lemma Back(rest: string, after: string)
    requires All(after, IsSlash) && rest != "" && rest[|rest| - 1] != '/'
    ensures var t := rest + after;
            && (|t| >= 2 && t[|t| - 2..] == "//" <==> |after| >= 2)
            && WithTrailing(t) == rest + Slash(after)
  {
    var t := rest + after;
    if after == "" {
      assert t == rest;
    } else {
      assert t[|t| - 1] == after[|after| - 1];
      assert |after| >= 2 ==> t[|t| - 2] == after[|after| - 2];
      assert |after| == 1 ==> t[|t| - 2] == rest[|rest| - 1];
    }
  }

  lemma PathForms(t: string, before: string, core: string, after: string)
    requires t == before + core + after && core != "" && Trimmed(core, IsSlash)
    requires All(before, IsSlash) && All(after, IsSlash)
    ensures WithTrailing(WithLeading(t)) == "/" + core + "/" <==> SingleEndSlashes(t)
  {
    SlashesAtEnds(t, before, core, after);
    Filled(t, before, core, after);
    FilledIff(before, core, after);
  }

  lemma FilledIff(before: string, core: string, after: string)
    requires All(before, IsSlash) && All(after, IsSlash)
    ensures Slash(before) + core + Slash(after) == "/" + core + "/" <==> |before| < 2 && |after| < 2
  {
    SameEnds(Slash(before), core, Slash(after));
  }

  lemma SlashesAtEnds(t: string, before: string, core: string, after: string)
    requires t == before + core + after && core != "" && Trimmed(core, IsSlash)
    requires All(before, IsSlash) && All(after, IsSlash)
    ensures SingleEndSlashes(t) <==> |before| < 2 && |after| < 2
  {
    assert t == before + (core + after);
    Front(before, core + after);
    Back(before + core, after);
    NotOnlySlashes(t, before, core, after);
  }

  lemma NotOnlySlashes(t: string, before: string, core: string, after: string)
    requires t == before + core + after && core != "" && Trimmed(core, IsSlash)
    ensures t != "//"
  {
    assert t[|before|] == core[0];
  }

  lemma Filled(t: string, before: string, core: string, after: string)
    requires t == before + core + after
    requires core != "" && Trimmed(core, IsSlash) && All(before, IsSlash) && All(after, IsSlash)
    ensures WithTrailing(WithLeading(t)) == Slash(before) + core + Slash(after)
  {
    assert t == before + (core + after);
    Front(before, core + after);
    assert Slash(before) + (core + after) == Slash(before) + core + after;
    Back(Slash(before) + core, after);
  }

  lemma SameEnds(a: string, core: string, b: string)
    requires a != "" && b != "" && All(a, IsSlash) && All(b, IsSlash)
    ensures a + core + b == "/" + core + "/" <==> |a| == 1 && |b| == 1
  {
  }

  // ----- from a created policy to its ARN and back -----

  // The ARN that responses show for a policy stored under a path.
  function ArnOfStored(accountId: string, stored: string, name: string): string {
    Print(accountId, NormalizePolicyPath(Some(stored)), name)
  }

  lemma StoredEnds(path: Option<string>)
    ensures var w := NormalizePolicyPath(path); w != "" && w[0] == '/' && w[|w| - 1] == '/'
  {
  }

  lemma TrimmedIsKept(w: string, drop: char -> bool)
    requires Trimmed(w, drop)
    ensures Trim(w, drop) == w
  {
    assert [] + w + [] == w;
    TrimPadded([], w, [], drop);
  }

  lemma StoredIsKept(path: Option<string>)
    ensures var w := NormalizePolicyPath(path); Trim(w, IsWhite) == w && NormalizePolicyPath(Some(w)) == w
  {
    StoredEnds(path);
    TrimmedIsKept(NormalizePolicyPath(path), IsWhite);
  }

  lemma SlashesTrimmedAlike(t: string)
    requires t != ""
    ensures Trim(WithTrailing(WithLeading(t)), IsSlash) == Trim(t, IsSlash)
  {
    TrimPrepend('/', t, IsSlash);
    TrimAppend(WithLeading(t), '/', IsSlash);
  }

  /** Printing the stored path prints the path that the client gave. */
  lemma StoredPrintsAlike(path: string)
    ensures NormalizeUserPath(NormalizePolicyPath(Some(path))) == NormalizeUserPath(path)
  {
    var t, w := Trim(path, IsWhite), NormalizePolicyPath(Some(path));
    StoredIsKept(Some(path));
    if t != "" {
      SlashesTrimmedAlike(t);
    }
  }

  lemma TrimKeeps(s: string, drop: char -> bool, x: char)
    requires !drop(x)
    ensures x in Trim(s, drop) <==> x in s
  {
    var before, after := TrimParts(s, drop);
    assert x !in before && x !in after;
  }

  // Storing and printing a path add slashes and drop slashes and white space, so they keep a colon.
  lemma StoredKeepsColon(path: Option<string>)
    ensures ':' in NormalizePolicyPath(path) <==> path.Some? && ':' in path.value
  {
    if path.Some? { TrimKeeps(path.value, IsWhite, ':'); }
  }

  lemma PrintedKeepsColon(path: string)
    ensures ':' in NormalizeUserPath(path) <==> ':' in path
  {
    var trimmed := Trim(path, IsWhite);
    TrimKeeps(path, IsWhite, ':');
    TrimKeeps(trimmed, IsSlash, ':');
  }

  predicate Reachable(path: Option<string>) {
    path.None? || SingleEndSlashes(Trim(path.value, IsWhite))
  }

  lemma StoredIsPrinted(path: Option<string>)
    ensures NormalizeUserPath(NormalizePolicyPath(path)) == NormalizePolicyPath(path) <==> Reachable(path)
  {
    if path.Some? {
      StoredPrintsAlike(path.value);
      StoredPathIsPrintedIff(path.value);
    } else {
      StoredIsKept(None);
    }
  }

  // An ARN that parses has no colon in its account or its resource.
  lemma ParsedIsColonFree(accountId: string, resource: string)
    requires Parse("arn:aws:iam::" + accountId + ":" + resource).Ok?
    ensures ':' !in accountId && ':' !in resource
  {
    var arn := "arn:aws:iam::" + accountId + ":" + resource;
    var tail := accountId + [':'] + resource;
    assert arn == "arn:aws:iam:" + [':'] + tail;
    SplitSizes("arn:aws:iam:", ':', tail);
    SplitSizes(accountId, ':', resource);
    HeadParts();
    SplitAlone(accountId, ':');
    SplitAlone(resource, ':');
  }

  lemma HeadParts()
    ensures |Split("arn:aws:iam:", ':')| == 4
  {
    PrintedHead("arn", "aws", "iam");
    assert "arn" + ":" + ("aws" + ":" + ("iam" + ":" + "")) == "arn:aws:iam:";
  }

  lemma PrintedHead(a: string, b: string, c: string)
    requires ':' !in a && ':' !in b && ':' !in c
    ensures |Split(a + ":" + (b + ":" + (c + ":" + "")), ':')| == 4
  {
    JoinFour(a, b, c, "");
    SplitJoin([a, b, c, ""], ':');
  }

  lemma ParsedName(accountId: string, resource: string)
    requires ParseResource(accountId, resource).Ok?
    ensures var name := ParseResource(accountId, resource).value.name; name != "" && '/' !in name
  {
    SplitPieces(resource, '/');
  }

  // Only a plain name between colon-free parts can come back.
  lemma FoundIsPlain(accountId: string, path: string, name: string, found: string)
    requires Parse(Print(accountId, path, name)) == Ok(PolicyArn(accountId, found, name))
    ensures ':' !in accountId && ':' !in path && ':' !in name && name != "" && '/' !in name
  {
    var resource := "policy" + NormalizeUserPath(path) + name;
    assert Print(accountId, path, name) == "arn:aws:iam::" + accountId + ":" + resource;
    ParsedIsColonFree(accountId, resource);
    PrintedParts(accountId, resource);
    ParsedName(accountId, resource);
    PrintedKeepsColon(path);
  }

  /**
   A created policy is found again by the ARN that responses show for it exactly when its trimmed path
   has no doubled slash at its ends, or is "//", and no colon, and account and name are plain.
   */
  lemma CreatedPolicyIsFoundIff(accountId: string, path: Option<string>, name: string)
    ensures var stored := NormalizePolicyPath(path);
            Parse(ArnOfStored(accountId, stored, name)) == Ok(PolicyArn(accountId, stored, name)) <==>
            && Reachable(path) && (path.Some? ==> ':' !in path.value)
            && ':' !in accountId && ':' !in name && name != "" && '/' !in name
  {
    var stored := NormalizePolicyPath(path);
    StoredIsKept(path);
    StoredKeepsColon(path);
    StoredIsPrinted(path);
    if Parse(Print(accountId, stored, name)) == Ok(PolicyArn(accountId, stored, name)) {
      FoundIsPlain(accountId, stored, name, stored);
    }
    if ':' !in accountId && ':' !in stored && ':' !in name && name != "" && '/' !in name {
      ParseInvertsPrint(accountId, stored, name);
    }
  }

  // What is asked of the stored path when a policy is created.
  predicate ValidPath(path: string) {
    && 1 <= |path| <= 512 && path[0] == '/' && path[|path| - 1] == '/'
    && forall c :: c in path ==> '!' <= c <= '~'
  }

  /** A path that validation accepts and that the ARN of the policy cannot lead back to. */
  lemma ColonPathIsLost(accountId: string, name: string)
    ensures var stored := NormalizePolicyPath(Some("/a:b/"));
            && ValidPath(stored) && Reachable(Some("/a:b/"))
            && Parse(ArnOfStored(accountId, stored, name)) != Ok(PolicyArn(accountId, stored, name))
  {
    var path := "/a:b/";
    TrimmedIsKept(path, IsWhite);
    assert path[2] == ':';
    CreatedPolicyIsFoundIff(accountId, Some(path), name);
  }

  // ----- exactly which ARNs parse -----

  lemma JoinSix(a: string, b: string, c: string, d: string, e: string, f: string)
    ensures Join([a, b, c, d, e, f], ":") == a + ":" + b + ":" + c + ":" + d + ":" + e + ":" + f
  {
    JoinConcat([a, b, c, d], [e, f], ":");
    JoinFour(a, b, c, d);
    assert [a, b, c, d] + [e, f] == [a, b, c, d, e, f] && [e, f][1..] == [f];
    assert Join([e, f], ":") == e + ":" + f;
    Flatten(a, b, c, d, e, f);
  }

  lemma Flatten(a: string, b: string, c: string, d: string, e: string, f: string)
    ensures a + ":" + (b + ":" + (c + ":" + d)) + ":" + (e + ":" + f) ==
            a + ":" + b + ":" + c + ":" + d + ":" + e + ":" + f
  {
  }

  lemma SixPartsIff(arn: string, a: string, b: string, c: string, d: string, e: string, f: string)
    ensures Split(arn, ':') == [a, b, c, d, e, f] <==>
            && arn == a + ":" + b + ":" + c + ":" + d + ":" + e + ":" + f
            && ':' !in a && ':' !in b && ':' !in c && ':' !in d && ':' !in e && ':' !in f
  {
    var parts := [a, b, c, d, e, f];
    JoinSix(a, b, c, d, e, f);
    if Split(arn, ':') == parts {
      JoinSplit(arn, ':');
      SplitPieces(arn, ':');
      assert ':' !in parts[0] && ':' !in parts[1] && ':' !in parts[2];
      assert ':' !in parts[3] && ':' !in parts[4] && ':' !in parts[5];
    } else if arn == Join(parts, ":") {
      if FreeOf(parts, ':') { SplitJoin(parts, ':'); }
    }
  }

  lemma IamArnIff(arn: string, region: string, accountId: string, resource: string)
    ensures IsIamArn(arn, region, accountId, resource) <==>
            Split(arn, ':') == ["arn", "aws", "iam", region, accountId, resource]
  {
    SixPartsIff(arn, "arn", "aws", "iam", region, accountId, resource);
    assert ':' !in "arn" && ':' !in "aws" && ':' !in "iam";
  }

  ghost predicate HasIamForm(arn: string) {
    exists region, accountId, resource :: IsIamArn(arn, region, accountId, resource)
  }

  lemma PolicyResourceParses(accountId: string, resource: string, path: string, name: string)
    requires IsPolicyResource(resource, path, name)
    ensures ParseResource(accountId, resource) == Ok(PolicyArn(accountId, path, name))
  {
    if path == "/" {
      ParsePlainResource(accountId, name);
    } else {
      var middle := path[1..|path| - 1];
      assert path == "/" + middle + "/";
      ParsePathResource(accountId, middle, name);
    }
  }

  lemma ParsedResourceIsPolicy(accountId: string, resource: string)
    requires ParseResource(accountId, resource).Ok?
    ensures var a := ParseResource(accountId, resource).value;
            a.accountId == accountId && IsPolicyResource(resource, a.path, a.name)
  {
    var parts := Split(resource, '/');
    var n := |parts| - 1;
    JoinSplit(resource, '/');
    ParsedName(accountId, resource);
    if n == 1 {
      assert parts == ["policy", parts[1]];
      assert [parts[0], parts[1]][1..] == [parts[1]];
      assert resource == "policy" + "/" + parts[1];
    } else {
      var inner := parts[1..n];
      assert parts == ["policy"] + inner + [parts[n]];
      JoinConcat(["policy"] + inner, [parts[n]], "/");
      JoinConcat(["policy"], inner, "/");
      assert resource == "policy" + "/" + Join(inner, "/") + "/" + parts[n];
      assert resource == "policy" + ("/" + Join(inner, "/") + "/") + parts[n];
    }
  }

  /**
   An ARN parses exactly when it is "arn:aws:iam", anything, an account, and "policy" with a path and a
   name; the parts come back as they stand.  Of the others, those that are no ARN of an IAM resource
   are reported as such.
   */
  lemma ParseOkIff(arn: string, a: PolicyArn)
    ensures Parse(arn) == Ok(a) <==>
            exists region, resource ::
              IsIamArn(arn, region, a.accountId, resource) && IsPolicyResource(resource, a.path, a.name)
    ensures Parse(arn) == Err(InvalidArn) <==> !HasIamForm(arn)
  {
    var parts := Split(arn, ':');
    if |parts| == 6 {
      assert parts == [parts[0], parts[1], parts[2], parts[3], parts[4], parts[5]];
      IamArnIff(arn, parts[3], parts[4], parts[5]);
    }
    if region, accountId, resource :| IsIamArn(arn, region, accountId, resource) {
      IamArnIff(arn, region, accountId, resource);
    }
    if region, resource :| IsIamArn(arn, region, a.accountId, resource) && IsPolicyResource(resource, a.path, a.name) {
      IamArnIff(arn, region, a.accountId, resource);
      PolicyResourceParses(a.accountId, resource, a.path, a.name);
    }
    if Parse(arn).Ok? { ParsedResourceIsPolicy(parts[4], parts[5]); }
  }

  // ----- the two forms of a path, piece by piece -----

  // The characters of the Unicode property White_Space.
  ghost predicate UnicodeSpace(c: char) {
    c as int in [0x9, 0xA, 0xB, 0xC, 0xD, 0x20, 0x85, 0xA0, 0x1680,
                 0x2000, 0x2001, 0x2002, 0x2003, 0x2004, 0x2005, 0x2006, 0x2007, 0x2008, 0x2009, 0x200A,
                 0x2028, 0x2029, 0x202F, 0x205F, 0x3000]
  }

  lemma WhiteIsUnicodeSpace(c: char)
    ensures IsWhite(c) <==> UnicodeSpace(c)
  {
  }

  ghost predicate Blank(s: string) {
    forall i :: 0 <= i < |s| ==> UnicodeSpace(s[i])
  }

  ghost predicate Slashes(s: string) {
    forall i :: 0 <= i < |s| ==> s[i] == '/'
  }

  // A text that a slash neither begins nor ends.
  ghost predicate SlashFreeEnds(s: string) {
    s != "" && s[0] != '/' && s[|s| - 1] != '/'
  }

  lemma TrimBlank(before: string, core: string, after: string)
    requires Blank(before) && Blank(after)
    requires core != "" ==> !UnicodeSpace(core[0]) && !UnicodeSpace(core[|core| - 1])
    ensures Trim(before + core + after, IsWhite) == core
  {
    forall i | 0 <= i < |before| ensures IsWhite(before[i]) { WhiteIsUnicodeSpace(before[i]); }
    forall i | 0 <= i < |after| ensures IsWhite(after[i]) { WhiteIsUnicodeSpace(after[i]); }
    if core != "" {
      WhiteIsUnicodeSpace(core[0]);
      WhiteIsUnicodeSpace(core[|core| - 1]);
    }
    TrimPadded(before, core, after, IsWhite);
  }

  lemma PathEnds(left: string, core: string, right: string)
    requires Slashes(left) && Slashes(right) && core != ""
    requires (left == "" ==> !UnicodeSpace(core[0])) && (right == "" ==> !UnicodeSpace(core[|core| - 1]))
    ensures var t := left + core + right; t != "" && !UnicodeSpace(t[0]) && !UnicodeSpace(t[|t| - 1])
  {
    var t := left + core + right;
    assert t[0] == if left == "" then core[0] else left[0];
    assert t[|t| - 1] == if right == "" then core[|core| - 1] else right[|right| - 1];
  }

  /**
   Between blanks that do not count, the printed form of a path puts one slash on either side of what is
   between its outer slashes; the stored form keeps the outer slashes and adds one where there is none.
   */
  lemma PathFormsAre(before: string, left: string, core: string, right: string, after: string)
    requires Blank(before) && Blank(after) && Slashes(left) && Slashes(right) && SlashFreeEnds(core)
    requires (left == "" ==> !UnicodeSpace(core[0])) && (right == "" ==> !UnicodeSpace(core[|core| - 1]))
    ensures var path := before + (left + core + right) + after;
            && NormalizeUserPath(path) == "/" + core + "/"
            && NormalizePolicyPath(Some(path)) ==
               (if left == "" then "/" else left) + core + (if right == "" then "/" else right)
  {
    var t := left + core + right;
    PathEnds(left, core, right);
    TrimBlank(before, t, after);
    TrimPadded(left, core, right, IsSlash);
    NotOneSlash(t, left, core, right);
    Filled(t, left, core, right);
  }

  lemma NotOneSlash(t: string, left: string, core: string, right: string)
    requires t == left + core + right && SlashFreeEnds(core)
    ensures t != "" && t != "/"
  {
    assert t[|left|] == core[0];
  }

  /** Of slashes alone the stored form keeps all, and the printed form at most two; of nothing both make one. */
  lemma SlashOnlyForms(before: string, slashes: string, after: string)
    requires Blank(before) && Blank(after) && Slashes(slashes)
    ensures var path := before + slashes + after;
            && NormalizeUserPath(path) == (if |slashes| <= 1 then "/" else "//")
            && NormalizePolicyPath(Some(path)) == (if slashes == "" then "/" else slashes)
    ensures NormalizePolicyPath(None) == "/"
  {
    TrimBlank(before, slashes, after);
    if slashes == "" {
    } else if |slashes| == 1 {
      assert slashes == "/";
    } else {
      assert slashes + [] + [] == slashes;
      TrimPadded(slashes, [], [], IsSlash);
      assert "/" + [] + "/" == "//";
    }
  }
}
