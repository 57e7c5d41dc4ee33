/** What conditions, executors and the order of policies mean, in terms of sets, names and numbers. */
module PolicyMeaning {
  import opened Text
  import opened Ordering
  import opened ClientPolicy
  import Glob

  function Elements<T>(xs: seq<T>): set<T> {
    set x | x in xs
  }

  // ----- Patterns, in their characters -----

  predicate IsLiteral(x: Bytes) {
    forall i :: 0 <= i < |x| ==> x[i] != '*' as int && x[i] != '?' as int
  }

  lemma {:induction false} LiteralThenStar(x: Bytes, v: Bytes)
    requires IsLiteral(x)
    ensures Glob.Matches(x + ['*' as int], v) <==> x <= v
  {
    var p := x + ['*' as int];
    if x == [] {
      Glob.StarMatchesAll(v);
      assert p == [Glob.STAR];
    } else {
      assert p[0] == x[0] && p[1..] == x[1..] + ['*' as int];
      if v != [] {
        LiteralThenStar(x[1..], v[1..]);
        assert x <= v <==> x[0] == v[0] && x[1..] <= v[1..];
      }
    }
  }

  lemma {:induction false} LiteralThenQuestion(x: Bytes, v: Bytes)
    requires IsLiteral(x)
    ensures Glob.Matches(x + ['?' as int], v) <==> |v| == |x| + 1 && x <= v
  {
    var p := x + ['?' as int];
    if x == [] {
      assert p == [Glob.QUESTION];
    } else {
      assert p[0] == x[0] && p[1..] == x[1..] + ['?' as int];
      if v != [] {
        LiteralThenQuestion(x[1..], v[1..]);
        assert x <= v <==> x[0] == v[0] && x[1..] <= v[1..];
      }
    }
  }

  /** For client identifiers without a star: `x*` means a prefix, and `x?` one more byte. */
  lemma PatternCharacters(x: Bytes, v: Bytes)
    requires IsLiteral(x) && '*' as int !in v
    ensures Glob.GlobMatches(x + ['*' as int], v) <==> x <= v
    ensures Glob.GlobMatches(x + ['?' as int], v) <==> |v| == |x| + 1 && x <= v
  {
    Glob.RightExactlyWithoutStars(v);
    LiteralThenStar(x, v);
    LiteralThenQuestion(x, v);
  }

  // ----- Conditions -----

  /** What each kind of condition asks of a client and of the context of its registration. */
  ghost predicate Meets(c: Condition, client: Client, context: RegistrationContext) {
    match c
    case Always => true
    case RegistrationContextIn(contexts) => exists i :: 0 <= i < |contexts| && contexts[i] == context
    case ClientTypeIs(t) => client.clientType == t
    case ClientIdLike(pattern) =>
      if '*' as int in client.clientId then Glob.GlobMatches(pattern, client.clientId)
      else Glob.Matches(pattern, client.clientId)
    case GrantTypes(values, Any) => Elements(values) * Elements(client.allowedGrantTypes) != {}
    case GrantTypes(values, All) => Elements(values) <= Elements(client.allowedGrantTypes)
    case Scopes(values, Any) => Elements(values) * Elements(client.allowedScopes) != {}
    case Scopes(values, All) => Elements(values) <= Elements(client.allowedScopes)
  }

  /** With `All` the expected values must be among the client's, with `Any` the two must have one in common. */
  lemma ModesAreSets(expected: seq<string>, actual: seq<string>)
    ensures MatchesValues(expected, actual, All) <==> Elements(expected) <= Elements(actual)
    ensures MatchesValues(expected, actual, Any) <==> Elements(expected) * Elements(actual) != {}
  {
    if v :| v in Elements(expected) * Elements(actual) {
      assert v in expected && v in actual;
    }
    if MatchesValues(expected, actual, Any) {
      var v :| v in expected && v in actual;
      assert v in Elements(expected) * Elements(actual);
    }
    assert forall v :: v in Elements(expected) <==> v in expected;
    assert forall v :: v in Elements(actual) <==> v in actual;
  }

  /** Nothing expected is met in full by everyone and in part by no one; one more expected value
      can only help `Any` and only hurt `All`. */
  lemma MoreExpected(expected: seq<string>, actual: seq<string>, v: string)
    ensures MatchesValues([], actual, All) && !MatchesValues([], actual, Any)
    ensures MatchesValues(expected + [v], actual, Any) <==> MatchesValues(expected, actual, Any) || v in actual
    ensures MatchesValues(expected + [v], actual, All) <==> MatchesValues(expected, actual, All) && v in actual
  {
    assert forall w :: w in expected + [v] <==> w in expected || w == v;
  }

  lemma ConditionMeaning(c: Condition, client: Client, context: RegistrationContext)
    ensures ConditionMatches(c, client, context) <==> Meets(c, client, context)
  {
    match c
    case RegistrationContextIn(contexts) =>
      assert context in contexts <==> exists i :: 0 <= i < |contexts| && contexts[i] == context;
    case ClientIdLike(pattern) => Glob.RightExactlyWithoutStars(client.clientId);
    case GrantTypes(values, _) => ModesAreSets(values, client.allowedGrantTypes);
    case Scopes(values, _) => ModesAreSets(values, client.allowedScopes);
    case _ =>
  }

  // ----- Executors -----

  /** What each kind of executor asks of a client. */
  ghost predicate Obeys(client: Client, x: Executor) {
    match x
    case RequirePkce => client.pkceRequired
    case SecureRedirectUris(loopback) =>
      forall u :: u in client.redirectUris ==>
        && u.url.Some?
        && (|| u.url.value.scheme == "https"
            || (&& loopback && u.url.value.scheme == "http"
                && u.url.value.host in {Some("localhost"), Some("127.0.0.1"), Some("::1")}))
    case AllowedGrantTypes(values) => Elements(client.allowedGrantTypes) <= Elements(values)
    case AllowedScopes(values) => Elements(client.allowedScopes) <= Elements(values)
    case AllowedClientAuthMethods(values) => client.authMethod in Elements(values)
    case RequireClientType(t) => client.clientType == t
    case MaximumRedirectUris(maximum) => |client.redirectUris| <= maximum
    case RequirePairwiseSubject => client.subjectType == "pairwise"
  }

  lemma ExecutorMeaning(client: Client, x: Executor)
    ensures Complies(client, x) <==> Obeys(client, x)
  {
    assert forall v :: v in Elements(client.allowedScopes) <==> v in client.allowedScopes;
    assert forall v :: v in Elements(client.allowedGrantTypes) <==> v in client.allowedGrantTypes;
    match x
    case AllowedGrantTypes(values) => assert forall v :: v in Elements(values) <==> v in values;
    case AllowedScopes(values) => assert forall v :: v in Elements(values) <==> v in values;
    case _ =>
  }

  /** `v` is the first of `actual` that is not in `allowed`. */
  ghost predicate FirstOutside(v: string, actual: seq<string>, allowed: seq<string>) {
    exists i :: 0 <= i < |actual| && actual[i] == v && v !in allowed && forall j :: 0 <= j < i ==> actual[j] in allowed
  }

  lemma {:induction false} FindsFirst(actual: seq<string>, allowed: seq<string>)
    requires FirstNotIn(actual, allowed).Some?
    ensures FirstOutside(FirstNotIn(actual, allowed).value, actual, allowed)
  {
    if actual[0] !in allowed {
      assert actual[0] == FirstNotIn(actual, allowed).value;
    } else {
      FindsFirst(actual[1..], allowed);
      var i :| 0 <= i < |actual[1..]| && actual[1..][i] == FirstNotIn(actual, allowed).value
        && forall j :: 0 <= j < i ==> actual[1..][j] in allowed;
      forall j | 0 <= j < i + 1
        ensures actual[j] in allowed
      {
        assert j > 0 ==> actual[j] == actual[1..][j - 1];
      }
      assert actual[i + 1] == FirstNotIn(actual, allowed).value;
    }
  }

  lemma {:induction false} UriAtFault(uris: seq<RedirectUri>, loopback: bool)
    requires FirstUriComplaint(uris, loopback).Some?
    ensures exists u :: u in uris && u.text == FirstUriComplaint(uris, loopback).value.subject
  {
    if UriComplaint(uris[0], loopback).None? {
      UriAtFault(uris[1..], loopback);
    } else {
      assert uris[0] in uris;
    }
  }

  /** What a violation names: the executor, and of several values the first one at fault. */
  lemma ComplaintNames(x: Executor, client: Client)
    requires ExecutorViolation(x, client).Some?
    ensures var c := ExecutorViolation(x, client).value;
            match x
            case RequirePkce => c == Complaint("require_pkce", "")
            case SecureRedirectUris(_) => exists u :: u in client.redirectUris && u.text == c.subject
            case AllowedGrantTypes(values) =>
              c.kind == "allowed_grant_types" && FirstOutside(c.subject, client.allowedGrantTypes, values)
            case AllowedScopes(values) =>
              c.kind == "allowed_scopes" && FirstOutside(c.subject, client.allowedScopes, values)
            case AllowedClientAuthMethods(_) => c == Complaint("allowed_client_auth_methods", client.authMethod)
            case RequireClientType(_) => c == Complaint("require_client_type", "")
            case MaximumRedirectUris(_) => c == Complaint("maximum_redirect_uris", "")
            case RequirePairwiseSubject => c == Complaint("require_pairwise_subject", "")
  {
    match x
    case SecureRedirectUris(loopback) => UriAtFault(client.redirectUris, loopback);
    case AllowedGrantTypes(values) => FindsFirst(client.allowedGrantTypes, values);
    case AllowedScopes(values) => FindsFirst(client.allowedScopes, values);
    case _ =>
  }

  /** The profile that `id` refers to: the first of the client's realm with that identifier. */
  ghost predicate RefersTo(profiles: seq<Profile>, id: Id, client: Client, k: int) {
    && 0 <= k < |profiles| && profiles[k].id == id && profiles[k].realmId == client.realmId
    && forall j :: 0 <= j < k ==> profiles[j].id != id || profiles[j].realmId != client.realmId
  }

  lemma {:induction false} FirstProfile(profiles: seq<Profile>, id: Id, client: Client) returns (k: int)
    requires FindProfile(profiles, id, client.realmId).Some?
    ensures RefersTo(profiles, id, client, k) && FindProfile(profiles, id, client.realmId) == Some(profiles[k])
  {
    if profiles[0].id == id && profiles[0].realmId == client.realmId {
      k := 0;
    } else {
      k := FirstProfile(profiles[1..], id, client);
      k := k + 1;
      assert forall j :: 0 < j < k ==> profiles[j] == profiles[1..][j - 1];
    }
  }

  /** The client has what the policy's profiles demand: each of them is there, and each executor is obeyed. */
  ghost predicate Satisfied(p: Policy, client: Client, profiles: seq<Profile>) {
    forall id :: id in p.profileIds ==>
      exists k :: RefersTo(profiles, id, client, k) && forall x :: x in profiles[k].executors ==> Obeys(client, x)
  }

  lemma ReferenceHolds(id: Id, client: Client, profiles: seq<Profile>)
    ensures ProfileHolds(id, client, profiles)
       <==> exists k :: RefersTo(profiles, id, client, k) && forall x :: x in profiles[k].executors ==> Obeys(client, x)
  {
    FoundProfile(profiles, id, client.realmId);
    if FindProfile(profiles, id, client.realmId).Some? {
      var k := FirstProfile(profiles, id, client);
      assert forall j :: RefersTo(profiles, id, client, j) ==> j == k;
    }
    forall x
      ensures Complies(client, x) <==> Obeys(client, x)
    {
      ExecutorMeaning(client, x);
    }
  }

  /** A client is allowed if and only if every enabled policy whose conditions it all meets is satisfied. */
  lemma AllowedMeans(client: Client, context: RegistrationContext, policies: seq<Policy>, profiles: seq<Profile>)
    ensures Evaluate(client, context, policies, profiles).allowed
       <==> forall p :: p in policies && p.enabled && (forall c :: c in p.conditions ==> Meets(c, client, context))
              ==> Satisfied(p, client, profiles)
  {
    AllowedExactly(client, context, policies, profiles);
    forall c
      ensures ConditionMatches(c, client, context) <==> Meets(c, client, context)
    {
      ConditionMeaning(c, client, context);
    }
    forall p
      ensures PolicyHolds(p, client, profiles) <==> Satisfied(p, client, profiles)
    {
      forall id
        ensures ProfileHolds(id, client, profiles)
           <==> exists k :: RefersTo(profiles, id, client, k)
                         && forall x :: x in profiles[k].executors ==> Obeys(client, x)
      {
        ReferenceHolds(id, client, profiles);
      }
    }
  }

  /** One scope of several is enough for `Any` and too little for `All`: the same policy with the same profile
      denies a client in the one mode and passes it in the other. */
  lemma ModeDecides(client: Client, context: RegistrationContext, values: seq<string>, name: string, profile: Profile)
    requires profile.realmId == client.realmId && profile.executors == [RequirePkce] && !client.pkceRequired
    requires Elements(values) * Elements(client.allowedScopes) != {}
    requires !(Elements(values) <= Elements(client.allowedScopes))
    ensures var any := Policy(name, true, 0, [Scopes(values, Any)], [profile.id]);
            !Evaluate(client, context, [any], [profile]).allowed
    ensures var all := Policy(name, true, 0, [Scopes(values, All)], [profile.id]);
            Evaluate(client, context, [all], [profile]).allowed
  {
    var any := Policy(name, true, 0, [Scopes(values, Any)], [profile.id]);
    var all := Policy(name, true, 0, [Scopes(values, All)], [profile.id]);
    AllowedMeans(client, context, [any], [profile]);
    AllowedMeans(client, context, [all], [profile]);
    assert Scopes(values, All) in all.conditions;
    assert any in [any] && profile.id in any.profileIds;
    assert !Obeys(client, RequirePkce) && RequirePkce in profile.executors;
    assert RefersTo([profile], profile.id, client, 0);
    assert !Satisfied(any, client, [profile]);
  }

  // ----- Order -----

  /** The order of strings: a prefix comes first, otherwise the first difference decides. */
  ghost predicate Precedes(a: string, b: string) {
    a <= b || exists k :: 0 <= k < |a| && k < |b| && a[..k] == b[..k] && a[k] < b[k]
  }

  lemma DifferenceMoves(a: string, b: string)
    requires a != [] && b != [] && a[0] == b[0]
    ensures Precedes(a[1..], b[1..]) <==> Precedes(a, b)
  {
    assert a <= b <==> a[1..] <= b[1..];
    if k :| 0 <= k < |a| && k < |b| && a[..k] == b[..k] && a[k] < b[k] {
      assert a[1..][..k - 1] == a[..k][1..] && b[1..][..k - 1] == b[..k][1..];
      assert a[1..][k - 1] < b[1..][k - 1];
    }
    if k :| 0 <= k < |a[1..]| && k < |b[1..]| && a[1..][..k] == b[1..][..k] && a[1..][k] < b[1..][k] {
      assert a[..k + 1] == [a[0]] + a[1..][..k] && b[..k + 1] == [b[0]] + b[1..][..k];
      assert a[k + 1] < b[k + 1];
    }
  }

  lemma {:induction false} TextOrder(a: string, b: string)
    ensures TextLeq(a, b) <==> Precedes(a, b)
  {
    if a != [] && b != [] {
      TextOrder(a[1..], b[1..]);
      assert a == [a[0]] + a[1..] && b == [b[0]] + b[1..];
      if a[0] < b[0] {
        assert a[..0] == b[..0];
      } else if a[0] == b[0] {
        DifferenceMoves(a, b);
      }
    }
  }

  /** The report names policies with a smaller priority number first, those of equal priority by name,
      and each of them is enabled and has all its conditions met. */
  lemma ReportedByPriority(
    client: Client, context: RegistrationContext, policies: seq<Policy>, profiles: seq<Profile>)
    returns (matched: seq<Policy>)
    ensures Evaluate(client, context, policies, profiles).matchedPolicies == Names(matched)
    ensures forall i, j :: 0 <= i < j < |matched| ==>
              || matched[i].priority < matched[j].priority
              || (matched[i].priority == matched[j].priority && Precedes(matched[i].name, matched[j].name))
    ensures forall p :: p in matched <==>
              p in policies && p.enabled && forall c :: c in p.conditions ==> Meets(c, client, context)
  {
    matched := MatchedPoliciesSorted(client, context, policies, profiles);
    SameElements(matched, Applying(policies, client, context));
    forall p
      ensures p in Applying(policies, client, context) <==>
                p in policies && p.enabled && forall c :: c in p.conditions ==> Meets(c, client, context)
    {
      CountApplying(policies, client, context, p);
      forall c
        ensures ConditionMatches(c, client, context) <==> Meets(c, client, context)
      {
        ConditionMeaning(c, client, context);
      }
    }
    forall i, j | 0 <= i < j < |matched|
      ensures || matched[i].priority < matched[j].priority
              || (matched[i].priority == matched[j].priority && Precedes(matched[i].name, matched[j].name))
    {
      TextOrder(matched[i].name, matched[j].name);
    }
  }
}
