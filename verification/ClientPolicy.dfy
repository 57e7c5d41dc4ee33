/** Ordered evaluation of client policies. */
module ClientPolicy {
  import opened Text
  import opened Ordering
  import Glob

  type Id = nat

  datatype ClientType = Public | Confidential

  datatype RegistrationContext = Admin | Dynamic

  datatype MatchMode = Any | All

  datatype Condition =
    | Always
    | RegistrationContextIn(contexts: seq<RegistrationContext>)
    | ClientTypeIs(clientType: ClientType)
    | ClientIdLike(pattern: Bytes)
    | GrantTypes(values: seq<string>, mode: MatchMode)
    | Scopes(values: seq<string>, mode: MatchMode)

  datatype Executor =
    | RequirePkce
    | SecureRedirectUris(allowLoopbackHttp: bool)
    | AllowedGrantTypes(values: seq<string>)
    | AllowedScopes(values: seq<string>)
    | AllowedClientAuthMethods(values: seq<string>)
    | RequireClientType(clientType: ClientType)
    | MaximumRedirectUris(maximum: nat)
    | RequirePairwiseSubject

  datatype Profile = Profile(id: Id, realmId: Id, name: string, executors: seq<Executor>)

  datatype Policy = Policy(
    name: string, enabled: bool, priority: int, conditions: seq<Condition>, profileIds: seq<Id>)

  datatype Url = Url(scheme: string, host: Option<string>)

  /** A redirect URI and what the URL parser makes of it. */
  datatype RedirectUri = RedirectUri(text: string, url: Option<Url>)

  datatype Client = Client(
    realmId: Id,
    clientId: Bytes,
    clientType: ClientType,
    redirectUris: seq<RedirectUri>,
    allowedScopes: seq<string>,
    allowedGrantTypes: seq<string>,
    pkceRequired: bool,
    authMethod: string,
    subjectType: string)

  /** What is wrong, and with which of the client's values. */
  datatype Complaint = Complaint(kind: string, subject: string)

  datatype Violation =
    | MissingProfile(policy: string, profileId: Id)
    | Broken(policy: string, profile: string, complaint: Complaint)

  datatype Evaluation = Evaluation(
    allowed: bool, matchedPolicies: seq<string>, matchedProfiles: seq<string>, violations: seq<Violation>)

  // ----- Conditions and executors -----

  predicate MatchesValues(expected: seq<string>, actual: seq<string>, mode: MatchMode) {
    match mode
    case Any => exists v :: v in expected && v in actual
    case All => forall v :: v in expected ==> v in actual
  }

  predicate ConditionMatches(condition: Condition, client: Client, context: RegistrationContext) {
    match condition
    case Always => true
    case RegistrationContextIn(contexts) => context in contexts
    case ClientTypeIs(t) => t == client.clientType
    case ClientIdLike(pattern) => Glob.GlobMatches(pattern, client.clientId)
    case GrantTypes(values, mode) => MatchesValues(values, client.allowedGrantTypes, mode)
    case Scopes(values, mode) => MatchesValues(values, client.allowedScopes, mode)
  }

  predicate Applies(policy: Policy, client: Client, context: RegistrationContext) {
    policy.enabled && forall c :: c in policy.conditions ==> ConditionMatches(c, client, context)
  }

  function FirstNotIn(actual: seq<string>, allowed: seq<string>): Option<string> {
    if actual == [] then None
    else if actual[0] !in allowed then Some(actual[0])
    else FirstNotIn(actual[1..], allowed)
  }

  const LOOPBACK: set<string> := {"localhost", "127.0.0.1", "::1"}

  predicate IsLoopback(url: Url) {
    url.host.Some? && url.host.value in LOOPBACK
  }

  function UriComplaint(uri: RedirectUri, allowLoopbackHttp: bool): Option<Complaint> {
    if uri.url.None? then Some(Complaint("secure_redirect_uris: invalid", uri.text))
    else
      var url := uri.url.value;
      if url.scheme != "https" && !(allowLoopbackHttp && IsLoopback(url) && url.scheme == "http")
      then Some(Complaint("secure_redirect_uris", uri.text))
      else None
  }

  function FirstUriComplaint(uris: seq<RedirectUri>, allowLoopbackHttp: bool): Option<Complaint> {
    if uris == [] then None
    else
      var first := UriComplaint(uris[0], allowLoopbackHttp);
      if first.Some? then first else FirstUriComplaint(uris[1..], allowLoopbackHttp)
  }

  function ExecutorViolation(executor: Executor, client: Client): Option<Complaint> {
    match executor
    case RequirePkce => if client.pkceRequired then None else Some(Complaint("require_pkce", ""))
    case SecureRedirectUris(loopback) => FirstUriComplaint(client.redirectUris, loopback)
    case AllowedGrantTypes(values) =>
      var v := FirstNotIn(client.allowedGrantTypes, values);
      if v.None? then None else Some(Complaint("allowed_grant_types", v.value))
    case AllowedScopes(values) =>
      var v := FirstNotIn(client.allowedScopes, values);
      if v.None? then None else Some(Complaint("allowed_scopes", v.value))
    case AllowedClientAuthMethods(values) =>
      if client.authMethod in values then None
      else Some(Complaint("allowed_client_auth_methods", client.authMethod))
    case RequireClientType(t) => if t == client.clientType then None else Some(Complaint("require_client_type", ""))
    case MaximumRedirectUris(maximum) =>
      if |client.redirectUris| <= maximum then None else Some(Complaint("maximum_redirect_uris", ""))
    case RequirePairwiseSubject =>
      if client.subjectType == "pairwise" then None else Some(Complaint("require_pairwise_subject", ""))
  }

  /** What each executor demands of a client. */
  predicate Complies(client: Client, executor: Executor) {
    match executor
    case RequirePkce => client.pkceRequired
    case SecureRedirectUris(loopback) =>
      forall u :: u in client.redirectUris ==>
        && u.url.Some?
        && (u.url.value.scheme == "https"
            || (loopback && u.url.value.scheme == "http" && IsLoopback(u.url.value)))
    case AllowedGrantTypes(values) => forall g :: g in client.allowedGrantTypes ==> g in values
    case AllowedScopes(values) => forall s :: s in client.allowedScopes ==> s in values
    case AllowedClientAuthMethods(values) => client.authMethod in values
    case RequireClientType(t) => client.clientType == t
    case MaximumRedirectUris(maximum) => |client.redirectUris| <= maximum
    case RequirePairwiseSubject => client.subjectType == "pairwise"
  }

  lemma {:induction false} FirstNotInFinds(actual: seq<string>, allowed: seq<string>)
    ensures FirstNotIn(actual, allowed).None? <==> forall v :: v in actual ==> v in allowed
  {
    if actual != [] {
      FirstNotInFinds(actual[1..], allowed);
      assert actual == [actual[0]] + actual[1..];
    }
  }

  lemma {:induction false} FirstUriComplaintFinds(uris: seq<RedirectUri>, loopback: bool)
    ensures FirstUriComplaint(uris, loopback).None? <==> forall u :: u in uris ==> UriComplaint(u, loopback).None?
  {
    if uris != [] {
      FirstUriComplaintFinds(uris[1..], loopback);
      assert uris == [uris[0]] + uris[1..];
    }
  }

  /** An executor is silent exactly on the clients that meet its demand. */
  lemma ViolationIsExact(executor: Executor, client: Client)
    ensures ExecutorViolation(executor, client).None? <==> Complies(client, executor)
  {
    match executor
    case SecureRedirectUris(loopback) => FirstUriComplaintFinds(client.redirectUris, loopback);
    case AllowedGrantTypes(values) => FirstNotInFinds(client.allowedGrantTypes, values);
    case AllowedScopes(values) => FirstNotInFinds(client.allowedScopes, values);
    case _ =>
  }

  // ----- Evaluation -----

  predicate PolicyLeq(p: Policy, q: Policy) {
    p.priority < q.priority || (p.priority == q.priority && TextLeq(p.name, q.name))
  }

  function Enabled(policies: seq<Policy>): seq<Policy> {
    if policies == [] then []
    else (if policies[0].enabled then [policies[0]] else []) + Enabled(policies[1..])
  }

  function Ordered(policies: seq<Policy>): seq<Policy> {
    Sort(Enabled(policies), PolicyLeq)
  }

  function FindProfile(profiles: seq<Profile>, id: Id, realmId: Id): Option<Profile> {
    if profiles == [] then None
    else if profiles[0].id == id && profiles[0].realmId == realmId then Some(profiles[0])
    else FindProfile(profiles[1..], id, realmId)
  }

  function RunExecutors(e: Evaluation, policy: string, profile: string, executors: seq<Executor>, client: Client):
    Evaluation
    decreases |executors|
  {
    if executors == [] then e
    else
      var complaint := ExecutorViolation(executors[0], client);
      var next := if complaint.None? then e
                  else e.(violations := e.violations + [Broken(policy, profile, complaint.value)]);
      RunExecutors(next, policy, profile, executors[1..], client)
  }

  function AddName(names: seq<string>, name: string): seq<string> {
    if name in names then names else names + [name]
  }

  function RunProfile(e: Evaluation, policy: string, id: Id, client: Client, profiles: seq<Profile>): Evaluation {
    var found := FindProfile(profiles, id, client.realmId);
    if found.None? then e.(violations := e.violations + [MissingProfile(policy, id)])
    else
      var listed := e.(matchedProfiles := AddName(e.matchedProfiles, found.value.name));
      RunExecutors(listed, policy, found.value.name, found.value.executors, client)
  }

  function RunProfiles(e: Evaluation, policy: string, ids: seq<Id>, client: Client, profiles: seq<Profile>):
    Evaluation
    decreases |ids|
  {
    if ids == [] then e
    else RunProfiles(RunProfile(e, policy, ids[0], client, profiles), policy, ids[1..], client, profiles)
  }

  function RunPolicy(
    e: Evaluation, p: Policy, client: Client, context: RegistrationContext, profiles: seq<Profile>): Evaluation
  {
    if !Applies(p, client, context) then e
    else RunProfiles(e.(matchedPolicies := e.matchedPolicies + [p.name]), p.name, p.profileIds, client, profiles)
  }

  function RunPolicies(
    e: Evaluation, policies: seq<Policy>, client: Client, context: RegistrationContext, profiles: seq<Profile>):
    Evaluation
    decreases |policies|
  {
    if policies == [] then e
    else RunPolicies(RunPolicy(e, policies[0], client, context, profiles), policies[1..], client, context, profiles)
  }

  const START: Evaluation := Evaluation(true, [], [], [])

  function Evaluate(client: Client, context: RegistrationContext, policies: seq<Policy>, profiles: seq<Profile>):
    Evaluation
  {
    var e := RunPolicies(START, Ordered(policies), client, context, profiles);
    e.(allowed := e.violations == [])
  }

  method CheckExecutors(start: Evaluation, policy: Policy, profile: Profile, client: Client)
    returns (result: Evaluation)
    ensures result == RunExecutors(start, policy.name, profile.name, profile.executors, client)
  {
    var executors := profile.executors;
    result := start;
    for i := 0 to |executors|
      invariant RunExecutors(result, policy.name, profile.name, executors[i..], client)
             == RunExecutors(start, policy.name, profile.name, executors, client)
    {
      assert executors[i..][1..] == executors[i + 1..];
      var complaint := ExecutorViolation(executors[i], client);
      if complaint.Some? {
        result := result.(violations := result.violations + [Broken(policy.name, profile.name, complaint.value)]);
      }
    }
  }

  method CheckProfiles(start: Evaluation, policy: Policy, client: Client, profiles: seq<Profile>)
    returns (result: Evaluation)
    ensures result == RunProfiles(start, policy.name, policy.profileIds, client, profiles)
  {
    var ids := policy.profileIds;
    result := start;
    for i := 0 to |ids|
      invariant RunProfiles(result, policy.name, ids[i..], client, profiles)
             == RunProfiles(start, policy.name, ids, client, profiles)
    {
      assert ids[i..][1..] == ids[i + 1..];
      var found := FindProfile(profiles, ids[i], client.realmId);
      if found.None? {
        result := result.(violations := result.violations + [MissingProfile(policy.name, ids[i])]);
        continue;
      }
      var profile := found.value;
      if profile.name !in result.matchedProfiles {
        result := result.(matchedProfiles := result.matchedProfiles + [profile.name]);
      }
      result := CheckExecutors(result, policy, profile, client);
    }
  }

  lemma {:induction false} EnabledMembers(policies: seq<Policy>)
    ensures forall p :: p in Enabled(policies) <==> p in policies && p.enabled
  {
    if policies != [] {
      EnabledMembers(policies[1..]);
      assert policies == [policies[0]] + policies[1..];
    }
  }

  lemma OrderedAreEnabled(policies: seq<Policy>)
    ensures forall p :: p in Ordered(policies) <==> p in policies && p.enabled
  {
    SortKeeps(Enabled(policies), PolicyLeq);
    SameElements(Ordered(policies), Enabled(policies));
    EnabledMembers(policies);
  }

  lemma NextPolicy(
    e: Evaluation, policies: seq<Policy>, i: nat, client: Client, context: RegistrationContext,
    profiles: seq<Profile>)
    requires i < |policies|
    ensures var next := RunPolicy(e, policies[i], client, context, profiles);
            RunPolicies(e, policies[i..], client, context, profiles)
            == RunPolicies(next, policies[i + 1..], client, context, profiles)
  {
    assert policies[i..][1..] == policies[i + 1..];
  }

  method EvaluateClientPolicies(
    client: Client, context: RegistrationContext, policies: seq<Policy>, profiles: seq<Profile>)
    returns (result: Evaluation)
    ensures result == Evaluate(client, context, policies, profiles)
  {
    var ordered := Ordered(policies);
    OrderedAreEnabled(policies);
    result := START;
    for i := 0 to |ordered|
      invariant RunPolicies(result, ordered[i..], client, context, profiles)
             == RunPolicies(START, ordered, client, context, profiles)
    {
      var policy := ordered[i];
      assert policy.enabled;
      NextPolicy(result, ordered, i, client, context, profiles);
      if !(forall c :: c in policy.conditions ==> ConditionMatches(c, client, context)) {
        continue;
      }
      result := result.(matchedPolicies := result.matchedPolicies + [policy.name]);
      result := CheckProfiles(result, policy, client, profiles);
    }
    result := result.(allowed := result.violations == []);
  }

  // ----- The verdict -----

  predicate ProfileHolds(id: Id, client: Client, profiles: seq<Profile>) {
    var found := FindProfile(profiles, id, client.realmId);
    found.Some? && forall x :: x in found.value.executors ==> Complies(client, x)
  }

  predicate PolicyHolds(policy: Policy, client: Client, profiles: seq<Profile>) {
    forall id :: id in policy.profileIds ==> ProfileHolds(id, client, profiles)
  }

  /** A reference is resolved within the client's realm, and fails only when nothing there has its id. */
  lemma {:induction false} FoundProfile(profiles: seq<Profile>, id: Id, realmId: Id)
    ensures var found := FindProfile(profiles, id, realmId);
            && (found.Some? ==> found.value in profiles && found.value.id == id && found.value.realmId == realmId)
            && (found.None? ==> forall p :: p in profiles ==> p.id != id || p.realmId != realmId)
  {
    if profiles != [] {
      FoundProfile(profiles[1..], id, realmId);
      assert profiles == [profiles[0]] + profiles[1..];
    }
  }

  lemma {:induction false} ExecutorsVerdict(
    e: Evaluation, policy: string, profile: string, executors: seq<Executor>, client: Client)
    ensures var r := RunExecutors(e, policy, profile, executors, client);
            && (r.violations == [] <==> e.violations == [] && forall x :: x in executors ==> Complies(client, x))
            && r.matchedPolicies == e.matchedPolicies && r.matchedProfiles == e.matchedProfiles
    decreases |executors|
  {
    if executors != [] {
      ViolationIsExact(executors[0], client);
      var complaint := ExecutorViolation(executors[0], client);
      var next := if complaint.None? then e
                  else e.(violations := e.violations + [Broken(policy, profile, complaint.value)]);
      ExecutorsVerdict(next, policy, profile, executors[1..], client);
      assert executors == [executors[0]] + executors[1..];
    }
  }

  lemma ProfileVerdict(e: Evaluation, policy: string, id: Id, client: Client, profiles: seq<Profile>)
    ensures var r := RunProfile(e, policy, id, client, profiles);
            var found := FindProfile(profiles, id, client.realmId);
            && (r.violations == [] <==> e.violations == [] && ProfileHolds(id, client, profiles))
            && r.matchedPolicies == e.matchedPolicies
            && r.matchedProfiles
               == if found.None? then e.matchedProfiles else AddName(e.matchedProfiles, found.value.name)
  {
    var found := FindProfile(profiles, id, client.realmId);
    if found.Some? {
      var listed := e.(matchedProfiles := AddName(e.matchedProfiles, found.value.name));
      ExecutorsVerdict(listed, policy, found.value.name, found.value.executors, client);
    }
  }

  lemma {:induction false} ProfilesVerdict(
    e: Evaluation, policy: string, ids: seq<Id>, client: Client, profiles: seq<Profile>)
    ensures var r := RunProfiles(e, policy, ids, client, profiles);
            && (r.violations == []
                <==> e.violations == [] && forall id :: id in ids ==> ProfileHolds(id, client, profiles))
            && r.matchedPolicies == e.matchedPolicies
    decreases |ids|
  {
    if ids != [] {
      ProfileVerdict(e, policy, ids[0], client, profiles);
      ProfilesVerdict(RunProfile(e, policy, ids[0], client, profiles), policy, ids[1..], client, profiles);
      assert ids == [ids[0]] + ids[1..];
    }
  }

  lemma PolicyVerdict(e: Evaluation, p: Policy, client: Client, context: RegistrationContext, profiles: seq<Profile>)
    ensures var r := RunPolicy(e, p, client, context, profiles);
            && (r.violations == []
                <==> e.violations == [] && (Applies(p, client, context) ==> PolicyHolds(p, client, profiles)))
            && r.matchedPolicies == e.matchedPolicies + if Applies(p, client, context) then [p.name] else []
  {
    if Applies(p, client, context) {
      ProfilesVerdict(e.(matchedPolicies := e.matchedPolicies + [p.name]), p.name, p.profileIds, client, profiles);
    }
  }

  function Applying(policies: seq<Policy>, client: Client, context: RegistrationContext): seq<Policy> {
    if policies == [] then []
    else
      var others := Applying(policies[1..], client, context);
      if Applies(policies[0], client, context) then [policies[0]] + others else others
  }

  function Names(policies: seq<Policy>): seq<string> {
    if policies == [] then [] else [policies[0].name] + Names(policies[1..])
  }

  lemma {:induction false} PoliciesVerdict(
    e: Evaluation, policies: seq<Policy>, client: Client, context: RegistrationContext, profiles: seq<Profile>)
    ensures var r := RunPolicies(e, policies, client, context, profiles);
            && (r.violations == [] <==>
                && e.violations == []
                && forall p :: p in policies && Applies(p, client, context) ==> PolicyHolds(p, client, profiles))
            && r.matchedPolicies == e.matchedPolicies + Names(Applying(policies, client, context))
    decreases |policies|
  {
    if policies != [] {
      var next := RunPolicy(e, policies[0], client, context, profiles);
      PolicyVerdict(e, policies[0], client, context, profiles);
      PoliciesVerdict(next, policies[1..], client, context, profiles);
      assert policies == [policies[0]] + policies[1..];
      var others := Applying(policies[1..], client, context);
      assert ([policies[0]] + others)[1..] == others;
    }
  }

  /** A client is allowed exactly when every policy that applies to it has only profiles of the client's
      realm whose executors the client complies with. */
  lemma AllowedExactly(client: Client, context: RegistrationContext, policies: seq<Policy>, profiles: seq<Profile>)
    ensures Evaluate(client, context, policies, profiles).allowed
       <==> forall p :: p in policies && Applies(p, client, context) ==> PolicyHolds(p, client, profiles)
  {
    PoliciesVerdict(START, Ordered(policies), client, context, profiles);
    OrderedAreEnabled(policies);
  }

  /** A verdict of denial survives any addition or reordering of policies. */
  lemma DenialIsFinal(
    client: Client, context: RegistrationContext, policies: seq<Policy>, more: seq<Policy>, profiles: seq<Profile>)
    requires forall p :: p in policies ==> p in more
    requires !Evaluate(client, context, policies, profiles).allowed
    ensures !Evaluate(client, context, more, profiles).allowed
  {
    AllowedExactly(client, context, policies, profiles);
    AllowedExactly(client, context, more, profiles);
  }

  /** The verdict depends on which policies there are, not on their order or repetition. */
  lemma VerdictIgnoresOrder(
    client: Client, context: RegistrationContext, policies: seq<Policy>, others: seq<Policy>, profiles: seq<Profile>)
    requires forall p :: p in policies <==> p in others
    ensures Evaluate(client, context, policies, profiles).allowed == Evaluate(client, context, others, profiles).allowed
  {
    AllowedExactly(client, context, policies, profiles);
    AllowedExactly(client, context, others, profiles);
  }

  // ----- The report -----

  lemma PolicyLeqIsTotal()
    ensures TotalPreorder(PolicyLeq)
  {
    forall p: Policy, q: Policy
      ensures PolicyLeq(p, q) || PolicyLeq(q, p)
    {
      TextLeqTotal(p.name, q.name);
    }
    forall p: Policy, q: Policy, r: Policy
      ensures PolicyLeq(p, q) && PolicyLeq(q, r) ==> PolicyLeq(p, r)
    {
      TextLeqTransitive(p.name, q.name, r.name);
    }
  }

  lemma {:induction false} ApplyingSorted(policies: seq<Policy>, client: Client, context: RegistrationContext)
    requires SortedBy(policies, PolicyLeq)
    ensures SortedBy(Applying(policies, client, context), PolicyLeq)
    ensures forall p :: p in Applying(policies, client, context) <==> p in policies && Applies(p, client, context)
  {
    if policies != [] {
      var tail := Applying(policies[1..], client, context);
      ApplyingSorted(policies[1..], client, context);
      assert policies == [policies[0]] + policies[1..];
      forall k | 0 <= k < |tail|
        ensures PolicyLeq(policies[0], tail[k])
      {
        assert tail[k] in policies[1..];
      }
    }
  }

  lemma {:induction false} CountApplying(policies: seq<Policy>, client: Client, context: RegistrationContext, p: Policy)
    ensures multiset(Applying(policies, client, context))[p]
         == if Applies(p, client, context) then multiset(policies)[p] else 0
  {
    if policies != [] {
      CountApplying(policies[1..], client, context, p);
      assert policies == [policies[0]] + policies[1..];
    }
  }

  lemma {:induction false} CountEnabled(policies: seq<Policy>, p: Policy)
    ensures multiset(Enabled(policies))[p] == if p.enabled then multiset(policies)[p] else 0
  {
    if policies != [] {
      CountEnabled(policies[1..], p);
      assert policies == [policies[0]] + policies[1..];
    }
  }

  lemma OrderingKeepsApplying(policies: seq<Policy>, client: Client, context: RegistrationContext)
    ensures multiset(Applying(Ordered(policies), client, context)) == multiset(Applying(policies, client, context))
  {
    SortKeeps(Enabled(policies), PolicyLeq);
    forall p
      ensures multiset(Applying(Ordered(policies), client, context))[p]
           == multiset(Applying(policies, client, context))[p]
    {
      CountApplying(Ordered(policies), client, context, p);
      CountApplying(policies, client, context, p);
      CountEnabled(policies, p);
    }
  }

  /** The matched policies reported are the names, by priority and then by name, of a sorted
      arrangement of exactly the policies that apply. */
  lemma MatchedPoliciesSorted(
    client: Client, context: RegistrationContext, policies: seq<Policy>, profiles: seq<Profile>)
    returns (matched: seq<Policy>)
    ensures Evaluate(client, context, policies, profiles).matchedPolicies == Names(matched)
    ensures SortedBy(matched, PolicyLeq)
    ensures multiset(matched) == multiset(Applying(policies, client, context))
  {
    matched := Applying(Ordered(policies), client, context);
    PoliciesVerdict(START, Ordered(policies), client, context, profiles);
    PolicyLeqIsTotal();
    SortSorts(Enabled(policies), PolicyLeq);
    ApplyingSorted(Ordered(policies), client, context);
    OrderingKeepsApplying(policies, client, context);
  }

  ghost predicate Distinct<T>(xs: seq<T>) {
    forall i, j :: 0 <= i < j < |xs| ==> xs[i] != xs[j]
  }

  /** `name` is the name of a profile that one of `ids` refers to. */
  ghost predicate Refers(ids: seq<Id>, name: string, client: Client, profiles: seq<Profile>) {
    exists id :: id in ids && FindProfile(profiles, id, client.realmId).Some?
              && FindProfile(profiles, id, client.realmId).value.name == name
  }

  lemma {:induction false} ProfilesListed(
    e: Evaluation, policy: string, ids: seq<Id>, client: Client, profiles: seq<Profile>)
    requires Distinct(e.matchedProfiles)
    ensures var r := RunProfiles(e, policy, ids, client, profiles);
            && Distinct(r.matchedProfiles)
            && forall n :: n in r.matchedProfiles <==> n in e.matchedProfiles || Refers(ids, n, client, profiles)
    decreases |ids|
  {
    if ids != [] {
      var next := RunProfile(e, policy, ids[0], client, profiles);
      ProfileVerdict(e, policy, ids[0], client, profiles);
      ProfilesListed(next, policy, ids[1..], client, profiles);
      forall n
        ensures Refers(ids, n, client, profiles)
           <==> Refers(ids[1..], n, client, profiles) || Refers([ids[0]], n, client, profiles)
      {
        assert ids == [ids[0]] + ids[1..];
      }
      forall n
        ensures n in next.matchedProfiles <==> n in e.matchedProfiles || Refers([ids[0]], n, client, profiles)
      {
        assert ids[0] in [ids[0]];
      }
    }
  }

  lemma {:induction false} PoliciesListed(
    e: Evaluation, policies: seq<Policy>, client: Client, context: RegistrationContext, profiles: seq<Profile>)
    requires Distinct(e.matchedProfiles)
    ensures var r := RunPolicies(e, policies, client, context, profiles);
            && Distinct(r.matchedProfiles)
            && forall n :: n in r.matchedProfiles <==>
                 || n in e.matchedProfiles
                 || exists p :: p in policies && Applies(p, client, context) && Refers(p.profileIds, n, client, profiles)
    decreases |policies|
  {
    if policies != [] {
      var p := policies[0];
      var next := RunPolicy(e, p, client, context, profiles);
      if Applies(p, client, context) {
        ProfilesListed(e.(matchedPolicies := e.matchedPolicies + [p.name]), p.name, p.profileIds, client, profiles);
      }
      PoliciesListed(next, policies[1..], client, context, profiles);
      assert policies == [p] + policies[1..];
    }
  }

  /** The matched profiles reported are exactly the names of the profiles that applying policies refer to
      in the client's realm, each once. */
  lemma MatchedProfilesExact(
    client: Client, context: RegistrationContext, policies: seq<Policy>, profiles: seq<Profile>)
    ensures var names := Evaluate(client, context, policies, profiles).matchedProfiles;
            && Distinct(names)
            && forall n :: n in names <==>
                 exists p :: p in policies && Applies(p, client, context) && Refers(p.profileIds, n, client, profiles)
  {
    PoliciesListed(START, Ordered(policies), client, context, profiles);
    OrderedAreEnabled(policies);
  }

  /** `v` is the report of one of `executors` about the client. */
  ghost predicate ExecutorBlames(
    v: Violation, policy: string, profile: string, executors: seq<Executor>, client: Client)
  {
    exists x :: x in executors && ExecutorViolation(x, client).Some?
             && v == Broken(policy, profile, ExecutorViolation(x, client).value)
  }

  ghost predicate ProfileBlames(v: Violation, policy: string, id: Id, client: Client, profiles: seq<Profile>) {
    var found := FindProfile(profiles, id, client.realmId);
    if found.None? then v == MissingProfile(policy, id)
    else ExecutorBlames(v, policy, found.value.name, found.value.executors, client)
  }

  ghost predicate PolicyBlames(v: Violation, p: Policy, client: Client, profiles: seq<Profile>) {
    exists id :: id in p.profileIds && ProfileBlames(v, p.name, id, client, profiles)
  }

  lemma {:induction false} ExecutorsReport(
    e: Evaluation, policy: string, profile: string, executors: seq<Executor>, client: Client, v: Violation)
    ensures v in RunExecutors(e, policy, profile, executors, client).violations
       <==> v in e.violations || ExecutorBlames(v, policy, profile, executors, client)
    decreases |executors|
  {
    if executors != [] {
      var complaint := ExecutorViolation(executors[0], client);
      var next := if complaint.None? then e
                  else e.(violations := e.violations + [Broken(policy, profile, complaint.value)]);
      ExecutorsReport(next, policy, profile, executors[1..], client, v);
      assert executors == [executors[0]] + executors[1..];
    }
  }

  lemma ProfileReport(e: Evaluation, policy: string, id: Id, client: Client, profiles: seq<Profile>, v: Violation)
    ensures v in RunProfile(e, policy, id, client, profiles).violations
       <==> v in e.violations || ProfileBlames(v, policy, id, client, profiles)
  {
    var found := FindProfile(profiles, id, client.realmId);
    if found.Some? {
      var listed := e.(matchedProfiles := AddName(e.matchedProfiles, found.value.name));
      ExecutorsReport(listed, policy, found.value.name, found.value.executors, client, v);
    }
  }

  lemma {:induction false} ProfilesReport(
    e: Evaluation, policy: string, ids: seq<Id>, client: Client, profiles: seq<Profile>, v: Violation)
    ensures v in RunProfiles(e, policy, ids, client, profiles).violations
       <==> v in e.violations || exists id :: id in ids && ProfileBlames(v, policy, id, client, profiles)
    decreases |ids|
  {
    if ids != [] {
      ProfileReport(e, policy, ids[0], client, profiles, v);
      ProfilesReport(RunProfile(e, policy, ids[0], client, profiles), policy, ids[1..], client, profiles, v);
      assert ids == [ids[0]] + ids[1..];
    }
  }

  lemma {:induction false} PoliciesReport(
    e: Evaluation, policies: seq<Policy>, client: Client, context: RegistrationContext, profiles: seq<Profile>,
    v: Violation)
    ensures v in RunPolicies(e, policies, client, context, profiles).violations
       <==> || v in e.violations
            || exists p :: p in policies && Applies(p, client, context) && PolicyBlames(v, p, client, profiles)
    decreases |policies|
  {
    if policies != [] {
      var p := policies[0];
      if Applies(p, client, context) {
        ProfilesReport(e.(matchedPolicies := e.matchedPolicies + [p.name]), p.name, p.profileIds, client, profiles, v);
      }
      PoliciesReport(RunPolicy(e, p, client, context, profiles), policies[1..], client, context, profiles, v);
      assert policies == [p] + policies[1..];
    }
  }

  /** The violations reported are exactly those of the applying policies: one for each unresolved profile
      reference, and for a resolved one those of its executors. */
  lemma ViolationsExact(
    client: Client, context: RegistrationContext, policies: seq<Policy>, profiles: seq<Profile>, v: Violation)
    ensures v in Evaluate(client, context, policies, profiles).violations
       <==> exists p :: p in policies && Applies(p, client, context) && PolicyBlames(v, p, client, profiles)
  {
    PoliciesReport(START, Ordered(policies), client, context, profiles, v);
    OrderedAreEnabled(policies);
  }

  /** What each executor in turn complains of. */
  function ExecutorReport(policy: string, profile: string, executors: seq<Executor>, client: Client): seq<Violation> {
    if executors == [] then []
    else
      ViolationIsExact(executors[0], client);
      (if Complies(client, executors[0]) then []
       else [Broken(policy, profile, ExecutorViolation(executors[0], client).value)])
      + ExecutorReport(policy, profile, executors[1..], client)
  }

  /** One entry for a reference that does not resolve, those of the executors for one that does. */
  function ProfileReports(policy: string, ids: seq<Id>, client: Client, profiles: seq<Profile>): seq<Violation> {
    if ids == [] then []
    else
      var found := FindProfile(profiles, ids[0], client.realmId);
      (if found.None? then [MissingProfile(policy, ids[0])]
       else ExecutorReport(policy, found.value.name, found.value.executors, client))
      + ProfileReports(policy, ids[1..], client, profiles)
  }

  function PolicyReports(policies: seq<Policy>, client: Client, profiles: seq<Profile>): seq<Violation> {
    if policies == [] then []
    else
      ProfileReports(policies[0].name, policies[0].profileIds, client, profiles)
      + PolicyReports(policies[1..], client, profiles)
  }

  lemma {:induction false} ExecutorsInOrder(
    e: Evaluation, policy: string, profile: string, executors: seq<Executor>, client: Client)
    ensures RunExecutors(e, policy, profile, executors, client).violations
         == e.violations + ExecutorReport(policy, profile, executors, client)
    decreases |executors|
  {
    if executors == [] {
      assert e.violations + [] == e.violations;
    } else {
      var complaint := ExecutorViolation(executors[0], client);
      var own := if complaint.None? then [] else [Broken(policy, profile, complaint.value)];
      ViolationIsExact(executors[0], client);
      assert complaint.None? ==> e.violations + own == e.violations;
      ExecutorsInOrder(e.(violations := e.violations + own), policy, profile, executors[1..], client);
      Regroup(e.violations, own, ExecutorReport(policy, profile, executors[1..], client));
    }
  }

  lemma {:induction false} ProfilesInOrder(
    e: Evaluation, policy: string, ids: seq<Id>, client: Client, profiles: seq<Profile>)
    ensures RunProfiles(e, policy, ids, client, profiles).violations
         == e.violations + ProfileReports(policy, ids, client, profiles)
    decreases |ids|
  {
    if ids == [] {
      assert e.violations + [] == e.violations;
    } else {
      var found := FindProfile(profiles, ids[0], client.realmId);
      var next := RunProfile(e, policy, ids[0], client, profiles);
      if found.Some? {
        var listed := e.(matchedProfiles := AddName(e.matchedProfiles, found.value.name));
        ExecutorsInOrder(listed, policy, found.value.name, found.value.executors, client);
      }
      var own := if found.None? then [MissingProfile(policy, ids[0])]
                 else ExecutorReport(policy, found.value.name, found.value.executors, client);
      ProfilesInOrder(next, policy, ids[1..], client, profiles);
      Regroup(e.violations, own, ProfileReports(policy, ids[1..], client, profiles));
    }
  }

  lemma {:induction false} PoliciesInOrder(
    e: Evaluation, policies: seq<Policy>, client: Client, context: RegistrationContext, profiles: seq<Profile>)
    ensures RunPolicies(e, policies, client, context, profiles).violations
         == e.violations + PolicyReports(Applying(policies, client, context), client, profiles)
    decreases |policies|
  {
    if policies == [] {
      assert e.violations + [] == e.violations;
    } else {
      var p, others := policies[0], Applying(policies[1..], client, context);
      var next := RunPolicy(e, p, client, context, profiles);
      PoliciesInOrder(next, policies[1..], client, context, profiles);
      if Applies(p, client, context) {
        ProfilesInOrder(e.(matchedPolicies := e.matchedPolicies + [p.name]), p.name, p.profileIds, client, profiles);
        assert ([p] + others)[1..] == others;
        Regroup(e.violations, ProfileReports(p.name, p.profileIds, client, profiles),
                PolicyReports(others, client, profiles));
      }
    }
  }

  /** The whole report, in order and with every repeat: for each applying policy by priority and name, for each
      of its profile references, one entry if it does not resolve, else one for each executor not complied with. */
  lemma ViolationsInOrder(
    client: Client, context: RegistrationContext, policies: seq<Policy>, profiles: seq<Profile>)
    returns (matched: seq<Policy>)
    ensures SortedBy(matched, PolicyLeq) && multiset(matched) == multiset(Applying(policies, client, context))
    ensures Evaluate(client, context, policies, profiles).matchedPolicies == Names(matched)
    ensures Evaluate(client, context, policies, profiles).violations == PolicyReports(matched, client, profiles)
  {
    matched := Applying(Ordered(policies), client, context);
    PoliciesVerdict(START, Ordered(policies), client, context, profiles);
    PolicyLeqIsTotal();
    SortSorts(Enabled(policies), PolicyLeq);
    ApplyingSorted(Ordered(policies), client, context);
    OrderingKeepsApplying(policies, client, context);
    PoliciesInOrder(START, Ordered(policies), client, context, profiles);
  }

  // ----- Enforcement -----

  function Enforce(client: Client, context: RegistrationContext, policies: seq<Policy>, profiles: seq<Profile>):
    (r: Result<Evaluation, Violation>)
    ensures r.Ok? <==> Evaluate(client, context, policies, profiles).allowed
    ensures r.Ok? ==> r.value == Evaluate(client, context, policies, profiles) && r.value.violations == []
    ensures r.Err? ==> [r.error] <= Evaluate(client, context, policies, profiles).violations
  {
    var e := Evaluate(client, context, policies, profiles);
    if e.violations != [] then Err(e.violations[0]) else Ok(e)
  }
}
