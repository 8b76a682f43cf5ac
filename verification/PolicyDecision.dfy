/**
 Deciding a request against inline, managed and resource policies.  Wildcard matching and the
 parsing of stored policy documents are parameters.
 */
module PolicyDecision {
  import opened Wrappers
  import opened Sorting

  datatype Principal =
    | AnyPrincipal
    | Account(accountId: string)
    | User(accountId: string, userName: string)
    | Role(accountId: string, roleName: string)
    | AssumedRole(accountId: string, roleName: string, sessionName: string)
    | Service(serviceName: string)

  datatype Statement = Statement(
    effect: string,
    principals: seq<Principal>,
    actions: seq<string>,
    resources: seq<string>)

  type Policy = seq<Statement>

  datatype EvalResult = Allowed | Denied | NotApplicable

  datatype Mode = Enforce | Audit | Off

  datatype Decision = Allow | Deny

  type Wildcard = (string, string) -> bool

  // ----- matching one statement -----

  function AccountOf(p: Principal): Option<string> {
    if p.AnyPrincipal? || p.Service? then None else Some(p.accountId)
  }

  predicate PrincipalMatches(wild: Wildcard, pattern: Principal, p: Principal) {
    match pattern
    case AnyPrincipal => true
    case Account(account) => AccountOf(p).Some? && wild(account, AccountOf(p).value)
    case User(account, name) => p.User? && wild(account, p.accountId) && wild(name, p.userName)
    case Role(account, name) => p.Role? && wild(account, p.accountId) && wild(name, p.roleName)
    case AssumedRole(account, role, session) =>
      p.AssumedRole? && wild(account, p.accountId) && wild(role, p.roleName) && wild(session, p.sessionName)
    case Service(name) => p.Service? && wild(name, p.serviceName)
  }

  predicate AnyMatches(wild: Wildcard, patterns: seq<string>, value: string) {
    exists i :: 0 <= i < |patterns| && wild(patterns[i], value)
  }

  datatype Check = Check(action: string, resource: string)

  predicate IdentityMatches(wild: Wildcard, check: Check, s: Statement) {
    s.principals == [] && AnyMatches(wild, s.actions, check.action) && AnyMatches(wild, s.resources, check.resource)
  }

  predicate ResourceMatches(wild: Wildcard, check: Check, p: Principal, s: Statement) {
    && s.principals != [] && (exists i :: 0 <= i < |s.principals| && PrincipalMatches(wild, s.principals[i], p))
    && AnyMatches(wild, s.actions, check.action) && AnyMatches(wild, s.resources, check.resource)
  }

  function EvaluateStatement(s: Statement, matches: Statement -> bool): EvalResult {
    if !matches(s) then NotApplicable
    else if s.effect == "Allow" then Allowed
    else if s.effect == "Deny" then Denied
    else NotApplicable
  }

  // ----- the folds -----

  function Merge(acc: EvalResult, result: EvalResult): EvalResult {
    match (acc, result)
    case (Denied, _) => Denied
    case (_, Denied) => Denied
    case (Allowed, _) => Allowed
    case (_, Allowed) => Allowed
    case _ => NotApplicable
  }

  function Combine(results: seq<EvalResult>): EvalResult {
    if results == [] then NotApplicable
    else Merge(Combine(results[..|results| - 1]), results[|results| - 1])
  }

  function Evaluate(policy: Policy, matches: Statement -> bool): EvalResult {
    Combine(Map(policy, s => EvaluateStatement(s, matches)))
  }

  /** The fold is deny-overrides: a denial anywhere decides, then an allowance anywhere. */
  lemma {:induction false} CombineDecides(results: seq<EvalResult>)
    ensures Combine(results) ==
            if Denied in results then Denied else if Allowed in results then Allowed else NotApplicable
  {
    if results != [] {
      var n := |results| - 1;
      CombineDecides(results[..n]);
      assert results == results[..n] + [results[n]];
    }
  }

  predicate Denies(s: Statement, matches: Statement -> bool) {
    matches(s) && s.effect == "Deny"
  }

  predicate Allows(s: Statement, matches: Statement -> bool) {
    matches(s) && s.effect == "Allow"
  }

  lemma EvaluateDecides(policy: Policy, matches: Statement -> bool)
    ensures Evaluate(policy, matches) ==
            if exists s :: s in policy && Denies(s, matches) then Denied
            else if exists s :: s in policy && Allows(s, matches) then Allowed
            else NotApplicable
  {
    var results := Map(policy, s => EvaluateStatement(s, matches));
    CombineDecides(results);
    if s :| s in policy && Denies(s, matches) {
      var i :| 0 <= i < |policy| && policy[i] == s;
      assert results[i] == Denied;
    }
    if s :| s in policy && Allows(s, matches) {
      var i :| 0 <= i < |policy| && policy[i] == s;
      assert results[i] == Allowed;
    }
    if Denied in results {
      var i :| 0 <= i < |results| && results[i] == Denied;
      assert policy[i] in policy && Denies(policy[i], matches);
    }
    if Allowed in results {
      var i :| 0 <= i < |results| && results[i] == Allowed;
      assert policy[i] in policy && Allows(policy[i], matches);
    }
  }

  // ----- several policies -----

  function Concat(policies: seq<Policy>): Policy {
    if policies == [] then [] else Concat(policies[..|policies| - 1]) + policies[|policies| - 1]
  }

  lemma {:induction false} CombineConcat(a: seq<EvalResult>, b: seq<EvalResult>)
    ensures Combine(a + b) == Merge(Combine(a), Combine(b))
  {
    CombineDecides(a);
    CombineDecides(b);
    CombineDecides(a + b);
  }

  /** Evaluating policies one by one and combining equals evaluating all their statements at once. */
  lemma {:induction false} CombineEqualsFlat(policies: seq<Policy>, matches: Statement -> bool)
    ensures Combine(Map(policies, p => Evaluate(p, matches))) == Evaluate(Concat(policies), matches)
  {
    if policies != [] {
      var n := |policies| - 1;
      var f := (s: Statement) => EvaluateStatement(s, matches);
      CombineEqualsFlat(policies[..n], matches);
      assert Map(policies, p => Evaluate(p, matches))[..n] == Map(policies[..n], p => Evaluate(p, matches));
      MapConcat(Concat(policies[..n]), policies[n], f);
      CombineConcat(Map(Concat(policies[..n]), f), Map(policies[n], f));
    }
  }

  // ----- the decision -----

  type Parser = string -> Option<Policy>

  // The stored documents of one kind; None when reading them failed.
  type Documents = Option<seq<string>>

  datatype Config = Config(
    inlineDocs: Documents,
    managedDocs: Documents,
    resourcePrincipal: Option<Principal>,
    resourcePolicy: Option<Policy>)

  predicate AllParse(parse: Parser, docs: seq<string>) {
    forall i :: 0 <= i < |docs| ==> parse(docs[i]).Some?
  }

  function Parsed(parse: Parser, docs: seq<string>): seq<Policy>
    requires AllParse(parse, docs)
  {
    seq(|docs|, i requires 0 <= i < |docs| && parse(docs[i]).Some? => parse(docs[i]).value)
  }

  // An unreadable or unparsable set of documents counts as a denial.
  function EvaluateDocuments(wild: Wildcard, parse: Parser, check: Check, docs: Documents): EvalResult {
    if docs.None? || !AllParse(parse, docs.value) then Denied
    else Combine(Map(Parsed(parse, docs.value), p => Evaluate(p, s => IdentityMatches(wild, check, s))))
  }

  function EvaluateResource(wild: Wildcard, check: Check, c: Config): EvalResult {
    if c.resourcePrincipal.Some? && c.resourcePolicy.Some?
    then Evaluate(c.resourcePolicy.value, s => ResourceMatches(wild, check, c.resourcePrincipal.value, s))
    else NotApplicable
  }

  function Authorize(mode: Mode, wild: Wildcard, parse: Parser, check: Check, c: Config): Decision {
    var result := Combine([
      EvaluateDocuments(wild, parse, check, c.inlineDocs),
      EvaluateDocuments(wild, parse, check, c.managedDocs),
      EvaluateResource(wild, check, c)]);
    var decision := if result == Allowed then Allow else Deny;
    match mode
    case Enforce => decision
    case Audit => Allow
    case Off => Allow
  }

  ghost predicate Readable(parse: Parser, docs: Documents) {
    docs.Some? && AllParse(parse, docs.value)
  }

  ghost function StatementsOf(parse: Parser, docs: Documents): Policy
    requires Readable(parse, docs)
  {
    Concat(Parsed(parse, docs.value))
  }

  // ----- when a statement takes part, said of its lists alone -----

  ghost predicate Mentions(wild: Wildcard, patterns: seq<string>, value: string) {
    exists pattern :: pattern in patterns && wild(pattern, value)
  }

  ghost predicate HasAccount(p: Principal, wild: Wildcard, pattern: string) {
    || (p.Account? && wild(pattern, p.accountId))
    || (p.User? && wild(pattern, p.accountId))
    || (p.Role? && wild(pattern, p.accountId))
    || (p.AssumedRole? && wild(pattern, p.accountId))
  }

  // One of the listed principals is anyone, an account with the requester in it, or matches the requester in
  // every part: account and user name, account and role name, account, role and session name, or service.
  ghost predicate NamesRequester(wild: Wildcard, principals: seq<Principal>, p: Principal) {
    || AnyPrincipal in principals
    || (exists x :: Account(x) in principals && HasAccount(p, wild, x))
    || (p.User? && exists x, y :: User(x, y) in principals && wild(x, p.accountId) && wild(y, p.userName))
    || (p.Role? && exists x, y :: Role(x, y) in principals && wild(x, p.accountId) && wild(y, p.roleName))
    || (p.AssumedRole? && exists x, y, z ::
          AssumedRole(x, y, z) in principals && wild(x, p.accountId) && wild(y, p.roleName) && wild(z, p.sessionName))
    || (p.Service? && exists x :: Service(x) in principals && wild(x, p.serviceName))
  }

  ghost predicate IdentityApplies(wild: Wildcard, check: Check, s: Statement) {
    |s.principals| == 0 && Mentions(wild, s.actions, check.action) && Mentions(wild, s.resources, check.resource)
  }

  ghost predicate ResourceApplies(wild: Wildcard, check: Check, p: Principal, s: Statement) {
    && NamesRequester(wild, s.principals, p)
    && Mentions(wild, s.actions, check.action) && Mentions(wild, s.resources, check.resource)
  }

  lemma AnyMatchesIff(wild: Wildcard, patterns: seq<string>, value: string)
    ensures AnyMatches(wild, patterns, value) <==> Mentions(wild, patterns, value)
  {
    if pattern :| pattern in patterns && wild(pattern, value) {
      var i :| 0 <= i < |patterns| && patterns[i] == pattern;
    }
  }

  lemma MatchedIsNamed(wild: Wildcard, principals: seq<Principal>, p: Principal, pattern: Principal)
    requires pattern in principals && PrincipalMatches(wild, pattern, p)
    ensures NamesRequester(wild, principals, p)
  {
    match pattern
    case AnyPrincipal =>
    case Account(x) => assert Account(x) in principals && HasAccount(p, wild, x);
    case User(x, y) => assert User(x, y) in principals;
    case Role(x, y) => assert Role(x, y) in principals;
    case AssumedRole(x, y, z) => assert AssumedRole(x, y, z) in principals;
    case Service(x) => assert Service(x) in principals;
  }

  lemma NamedIsMatched(wild: Wildcard, principals: seq<Principal>, p: Principal) returns (pattern: Principal)
    requires NamesRequester(wild, principals, p)
    ensures pattern in principals && PrincipalMatches(wild, pattern, p)
  {
    if AnyPrincipal in principals {
      pattern := AnyPrincipal;
    } else if x :| Account(x) in principals && HasAccount(p, wild, x) {
      pattern := Account(x);
    } else if p.User? {
      var x, y :| User(x, y) in principals && wild(x, p.accountId) && wild(y, p.userName);
      pattern := User(x, y);
    } else if p.Role? {
      var x, y :| Role(x, y) in principals && wild(x, p.accountId) && wild(y, p.roleName);
      pattern := Role(x, y);
    } else if p.AssumedRole? {
      var x, y, z :| AssumedRole(x, y, z) in principals
                     && wild(x, p.accountId) && wild(y, p.roleName) && wild(z, p.sessionName);
      pattern := AssumedRole(x, y, z);
    } else {
      var x :| Service(x) in principals && wild(x, p.serviceName);
      pattern := Service(x);
    }
  }

  /** A statement of a resource policy takes part exactly when it names the requester, the action and the resource. */
  lemma ResourceMatchesIff(wild: Wildcard, check: Check, p: Principal, s: Statement)
    ensures ResourceMatches(wild, check, p, s) <==> ResourceApplies(wild, check, p, s)
  {
    AnyMatchesIff(wild, s.actions, check.action);
    AnyMatchesIff(wild, s.resources, check.resource);
    if i :| 0 <= i < |s.principals| && PrincipalMatches(wild, s.principals[i], p) {
      MatchedIsNamed(wild, s.principals, p, s.principals[i]);
    }
    if NamesRequester(wild, s.principals, p) {
      var pattern := NamedIsMatched(wild, s.principals, p);
      var i :| 0 <= i < |s.principals| && s.principals[i] == pattern;
    }
  }

  /** A statement of an identity policy takes part exactly when it names no principal, the action and the resource. */
  lemma IdentityMatchesIff(wild: Wildcard, check: Check, s: Statement)
    ensures IdentityMatches(wild, check, s) <==> IdentityApplies(wild, check, s)
  {
    AnyMatchesIff(wild, s.actions, check.action);
    AnyMatchesIff(wild, s.resources, check.resource);
  }

  /**
   With patterns that match only themselves, a statement with the action and the resource takes part
   exactly when it lists the requester, its account, or anyone.
   */
  lemma ExactPatterns(wild: Wildcard, check: Check, p: Principal, s: Statement)
    requires forall x, y :: wild(x, y) <==> x == y
    ensures ResourceMatches(wild, check, p, s) <==>
            && check.action in s.actions && check.resource in s.resources
            && (p in s.principals || AnyPrincipal in s.principals
                || (!p.AnyPrincipal? && !p.Service? && Account(p.accountId) in s.principals))
  {
    ResourceMatchesIff(wild, check, p, s);
    assert Mentions(wild, s.actions, check.action) <==> check.action in s.actions;
    assert Mentions(wild, s.resources, check.resource) <==> check.resource in s.resources;
  }

  // Statement s, of the identity or the resource kind, takes part in the decision.
  ghost predicate Applies(wild: Wildcard, parse: Parser, check: Check, c: Config, s: Statement)
    requires Readable(parse, c.inlineDocs) && Readable(parse, c.managedDocs)
  {
    || ((s in StatementsOf(parse, c.inlineDocs) || s in StatementsOf(parse, c.managedDocs))
        && IdentityApplies(wild, check, s))
    || (c.resourcePrincipal.Some? && c.resourcePolicy.Some? && s in c.resourcePolicy.value
        && ResourceApplies(wild, check, c.resourcePrincipal.value, s))
  }

  lemma DocumentsDecide(wild: Wildcard, parse: Parser, check: Check, docs: Documents)
    requires Readable(parse, docs)
    ensures EvaluateDocuments(wild, parse, check, docs) ==
            if exists s :: s in StatementsOf(parse, docs) && Denies(s, t => IdentityMatches(wild, check, t))
            then Denied
            else if exists s :: s in StatementsOf(parse, docs) && Allows(s, t => IdentityMatches(wild, check, t))
            then Allowed
            else NotApplicable
  {
    var matches := (s: Statement) => IdentityMatches(wild, check, s);
    CombineEqualsFlat(Parsed(parse, docs.value), matches);
    EvaluateDecides(StatementsOf(parse, docs), matches);
  }

  lemma CombineThree(a: EvalResult, b: EvalResult, c: EvalResult)
    ensures Combine([a, b, c]) == Allowed <==> Denied !in [a, b, c] && Allowed in [a, b, c]
  {
    CombineDecides([a, b, c]);
  }

  // The results of the three kinds of policy.
  ghost function Results(wild: Wildcard, parse: Parser, check: Check, c: Config): seq<EvalResult> {
    [EvaluateDocuments(wild, parse, check, c.inlineDocs),
     EvaluateDocuments(wild, parse, check, c.managedDocs),
     EvaluateResource(wild, check, c)]
  }

  lemma ResourceDecides(wild: Wildcard, check: Check, c: Config)
    requires c.resourcePrincipal.Some? && c.resourcePolicy.Some?
    ensures var matches := s => ResourceMatches(wild, check, c.resourcePrincipal.value, s);
            EvaluateResource(wild, check, c) ==
            if exists s :: s in c.resourcePolicy.value && Denies(s, matches) then Denied
            else if exists s :: s in c.resourcePolicy.value && Allows(s, matches) then Allowed
            else NotApplicable
  {
    EvaluateDecides(c.resourcePolicy.value, s => ResourceMatches(wild, check, c.resourcePrincipal.value, s));
  }

  // Applies, said with the matchers of the evaluation.
  ghost predicate TakesPart(wild: Wildcard, parse: Parser, check: Check, c: Config, s: Statement)
    requires Readable(parse, c.inlineDocs) && Readable(parse, c.managedDocs)
  {
    || ((s in StatementsOf(parse, c.inlineDocs) || s in StatementsOf(parse, c.managedDocs))
        && IdentityMatches(wild, check, s))
    || (c.resourcePrincipal.Some? && c.resourcePolicy.Some? && s in c.resourcePolicy.value
        && ResourceMatches(wild, check, c.resourcePrincipal.value, s))
  }

  lemma AppliesIff(wild: Wildcard, parse: Parser, check: Check, c: Config, s: Statement)
    requires Readable(parse, c.inlineDocs) && Readable(parse, c.managedDocs)
    ensures Applies(wild, parse, check, c, s) <==> TakesPart(wild, parse, check, c, s)
  {
    IdentityMatchesIff(wild, check, s);
    if c.resourcePrincipal.Some? { ResourceMatchesIff(wild, check, c.resourcePrincipal.value, s); }
  }

  lemma DeniedIff(wild: Wildcard, parse: Parser, check: Check, c: Config)
    requires Readable(parse, c.inlineDocs) && Readable(parse, c.managedDocs)
    ensures Denied in Results(wild, parse, check, c) <==>
            exists s :: TakesPart(wild, parse, check, c, s) && s.effect == "Deny"
  {
    DocumentsDecide(wild, parse, check, c.inlineDocs);
    DocumentsDecide(wild, parse, check, c.managedDocs);
    if c.resourcePrincipal.Some? && c.resourcePolicy.Some? { ResourceDecides(wild, check, c); }
  }

  lemma AllowedIf(wild: Wildcard, parse: Parser, check: Check, c: Config)
    requires Readable(parse, c.inlineDocs) && Readable(parse, c.managedDocs)
    ensures Denied !in Results(wild, parse, check, c) ==>
              (Allowed in Results(wild, parse, check, c) <==>
               exists s :: TakesPart(wild, parse, check, c, s) && s.effect == "Allow")
  {
    DocumentsDecide(wild, parse, check, c.inlineDocs);
    DocumentsDecide(wild, parse, check, c.managedDocs);
    if c.resourcePrincipal.Some? && c.resourcePolicy.Some? { ResourceDecides(wild, check, c); }
  }

  /**
   Enforcing allows a request exactly when every document was read and parsed, no applicable
   statement denies it and at least one allows it; the other modes allow every request.
   */
  lemma EnforceAllowsIff(mode: Mode, wild: Wildcard, parse: Parser, check: Check, c: Config)
    ensures mode != Enforce ==> Authorize(mode, wild, parse, check, c) == Allow
    ensures Authorize(Enforce, wild, parse, check, c) == Allow <==>
            && Readable(parse, c.inlineDocs) && Readable(parse, c.managedDocs)
            && (forall s :: Applies(wild, parse, check, c, s) ==> s.effect != "Deny")
            && (exists s :: Applies(wild, parse, check, c, s) && s.effect == "Allow")
  {
    var a := EvaluateDocuments(wild, parse, check, c.inlineDocs);
    var b := EvaluateDocuments(wild, parse, check, c.managedDocs);
    var r := EvaluateResource(wild, check, c);
    CombineThree(a, b, r);
    if Readable(parse, c.inlineDocs) && Readable(parse, c.managedDocs) {
      DeniedIff(wild, parse, check, c);
      AllowedIf(wild, parse, check, c);
      forall s ensures Applies(wild, parse, check, c, s) <==> TakesPart(wild, parse, check, c, s) {
        AppliesIff(wild, parse, check, c, s);
      }
    }
  }

  /**
   Only the set of identity statements matters: reordering or repeating statements and moving them
   between documents, or between inline and managed policies, never changes a decision.
   */
  lemma DecisionDependsOnStatementSet(mode: Mode, wild: Wildcard, parse: Parser, check: Check, c: Config, d: Config)
    requires Readable(parse, c.inlineDocs) && Readable(parse, c.managedDocs)
    requires Readable(parse, d.inlineDocs) && Readable(parse, d.managedDocs)
    requires forall s :: (s in StatementsOf(parse, c.inlineDocs) || s in StatementsOf(parse, c.managedDocs))
                         <==> (s in StatementsOf(parse, d.inlineDocs) || s in StatementsOf(parse, d.managedDocs))
    requires c.resourcePrincipal == d.resourcePrincipal
    requires c.resourcePolicy.Some? == d.resourcePolicy.Some?
    requires c.resourcePolicy.Some? ==> forall s :: s in c.resourcePolicy.value <==> s in d.resourcePolicy.value
    ensures Authorize(mode, wild, parse, check, c) == Authorize(mode, wild, parse, check, d)
  {
    EnforceAllowsIff(mode, wild, parse, check, c);
    EnforceAllowsIff(mode, wild, parse, check, d);
    assert forall s :: Applies(wild, parse, check, c, s) <==> Applies(wild, parse, check, d, s);
  }
}
