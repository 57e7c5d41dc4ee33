/** Organization scopes: which are allowed, and the claim that they resolve to. */
module Organization {
  import opened Text
  import opened ClaimTree

  type Id = nat

  datatype Organization = Organization(
    id: Id, name: string, alias: string, attributes: Json, claimAttributeNames: seq<string>)

  /** A user's groups and roles in one organization. */
  datatype Membership = Membership(groups: seq<string>, roles: seq<string>)

  datatype Entry = Entry(id: Id, name: string, attributes: Fields, membership: Membership)

  type Claim = map<string, Entry>

  datatype ScopeError =
    | EmptyAlias
    | MixedFormats
    | AccountSelectionRequired
    | NotAMember(missing: set<string>)

  const SCOPE: string := "organization"
  const PREFIX: string := "organization:"
  const ALL: string := "*"

  predicate IsScopeAllowed(requested: string, allowed: seq<string>) {
    requested in allowed || (PREFIX <= requested && SCOPE in allowed)
  }

  /** The attributes an organization has and lists as disclosed. */
  function Disclosed(attributes: Json, names: seq<string>): Fields {
    if !attributes.Object? then map[]
    else map name | name in attributes.fields && name in names :: attributes.fields[name]
  }

  function Describe(o: Organization, m: Id -> Membership): Entry {
    Entry(o.id, o.name, Disclosed(o.attributes, o.claimAttributeNames), m(o.id))
  }

  /** The aliases asked for by name; `*` is one of them here. */
  function Requested(scopes: seq<string>): set<string> {
    set s | s in scopes && PREFIX <= s :: s[|PREFIX|..]
  }

  function Aliases(orgs: seq<Organization>): set<string> {
    set o | o in orgs :: o.alias
  }

  /** The organization with this alias, the last one where two share it. */
  function LastWith(orgs: seq<Organization>, alias: string): (o: Option<Organization>)
    ensures o.Some? ==> o.value in orgs && o.value.alias == alias
    ensures o.None? ==> alias !in Aliases(orgs)
  {
    if orgs == [] then None
    else
      var front, last := orgs[..|orgs| - 1], orgs[|orgs| - 1];
      assert orgs == front + [last];
      if last.alias == alias then Some(last) else LastWith(front, alias)
  }

  /** `claim` describes exactly the organizations with an alias in `wanted`. */
  ghost predicate Describes(claim: Claim, orgs: seq<Organization>, wanted: set<string>, m: Id -> Membership) {
    && (forall a :: a in claim <==> a in wanted && LastWith(orgs, a).Some?)
    && (forall a :: a in claim && LastWith(orgs, a).Some? ==> claim[a] == Describe(LastWith(orgs, a).value, m))
  }

  /** The formats cannot be combined: the bare scope, `*`, and named aliases. */
  predicate Mixed(bare: bool, requested: set<string>) {
    (bare && requested != {}) || (ALL in requested && exists a :: a in requested && a != ALL)
  }

  /** Named aliases only, each of them some text. */
  predicate Named(bare: bool, requested: set<string>) {
    !bare && requested != {} && ALL !in requested && "" !in requested
  }

  /** What a request for organizations must lead to: when each answer is given, independently of the others. */
  ghost predicate Resolves(
    scopes: seq<string>, orgs: seq<Organization>, m: Id -> Membership, r: Result<Option<Claim>, ScopeError>)
  {
    var bare, requested, mine := SCOPE in scopes, Requested(scopes), Aliases(orgs);
    && (r == Ok(None) <==> !bare && requested == {})
    && (r == Err(EmptyAlias) <==> "" in requested)
    && (r == Err(MixedFormats) <==> "" !in requested && Mixed(bare, requested))
    && (r == Err(AccountSelectionRequired) <==> bare && requested == {} && |orgs| > 1)
    && (r.Err? && r.error.NotAMember? <==> Named(bare, requested) && !(requested <= mine))
    && (r.Err? && r.error.NotAMember? ==> r.error.missing == requested - mine)
    && (r.Ok? && r.value.Some? <==>
          || (bare && requested == {} && |orgs| <= 1)
          || (!bare && requested == {ALL})
          || (Named(bare, requested) && requested <= mine))
    && (r.Ok? && r.value.Some? ==>
          Describes(r.value.value, orgs, if Named(bare, requested) then requested else mine, m))
  }

  lemma AllAlone(requested: set<string>)
    ensures requested == {ALL} <==> ALL in requested && !exists a :: a in requested && a != ALL
  {
  }

  lemma RequestedOneMore(scopes: seq<string>, scope: string)
    ensures Requested(scopes + [scope])
         == Requested(scopes) + if PREFIX <= scope then {scope[|PREFIX|..]} else {}
  {
  }

  method RequestedAliases(scopes: seq<string>) returns (requested: seq<string>)
    ensures (set a | a in requested) == Requested(scopes)
  {
    requested := [];
    for i := 0 to |scopes|
      invariant (set a | a in requested) == Requested(scopes[..i])
    {
      var scope := scopes[i];
      assert scopes[..i + 1] == scopes[..i] + [scope];
      RequestedOneMore(scopes[..i], scope);
      if PREFIX <= scope {
        requested := requested + [scope[|PREFIX|..]];
      }
    }
    assert scopes[..|scopes|] == scopes;
  }

  /** The claim under construction after one more organization. */
  lemma OneMoreOrganization(
    claim: Claim, orgs: seq<Organization>, o: Organization, wanted: set<string>, m: Id -> Membership)
    requires Describes(claim, orgs, wanted, m)
    ensures Describes(
              if o.alias in wanted then claim[o.alias := Describe(o, m)] else claim, orgs + [o], wanted, m)
  {
  }

  /** The aliases described are those that are wanted and there. */
  lemma DescribedAliases(claim: Claim, orgs: seq<Organization>, wanted: set<string>, m: Id -> Membership)
    requires Describes(claim, orgs, wanted, m)
    ensures claim.Keys == Aliases(orgs) * wanted
  {
  }

  /** The claim is built by inserting each selected organization in turn. */
  method BuildClaim(orgs: seq<Organization>, all: bool, aliases: set<string>, m: Id -> Membership)
    returns (claim: Claim)
    ensures Describes(claim, orgs, if all then Aliases(orgs) else aliases, m)
  {
    ghost var wanted := if all then Aliases(orgs) else aliases;
    claim := map[];
    for i := 0 to |orgs|
      invariant Describes(claim, orgs[..i], wanted, m)
    {
      assert orgs[..i + 1] == orgs[..i] + [orgs[i]];
      assert orgs[i] in orgs;
      OneMoreOrganization(claim, orgs[..i], orgs[i], wanted, m);
      if all || orgs[i].alias in aliases {
        claim := claim[orgs[i].alias := Describe(orgs[i], m)];
      }
    }
    assert orgs[..|orgs|] == orgs;
  }

  method Resolve(scopes: seq<string>, orgs: seq<Organization>, m: Id -> Membership)
    returns (r: Result<Option<Claim>, ScopeError>)
    ensures Resolves(scopes, orgs, m, r)
  {
    var hasAny := SCOPE in scopes;
    var requested := RequestedAliases(scopes);
    var aliases := set a | a in requested;
    assert requested == [] <==> aliases == {} by {
      assert requested != [] ==> requested[0] in aliases;
    }
    if !hasAny && requested == [] {
      return Ok(None);
    }
    if "" in requested {
      return Err(EmptyAlias);
    }
    var allRequested := ALL in requested;
    var hasSpecific := exists a :: a in requested && a != ALL;
    assert forall a :: a in requested <==> a in aliases;
    assert hasSpecific <==> exists a :: a in aliases && a != ALL;
    AllAlone(aliases);
    if (hasAny && requested != []) || (allRequested && hasSpecific) {
      return Err(MixedFormats);
    }
    if hasAny && |orgs| > 1 {
      return Err(AccountSelectionRequired);
    }
    var claim := BuildClaim(orgs, hasAny || allRequested, aliases, m);
    DescribedAliases(claim, orgs, if hasAny || allRequested then Aliases(orgs) else aliases, m);
    if !allRequested {
      var missing := set a | a in aliases && a !in claim;
      assert hasAny ==> aliases == {};
      assert !hasAny ==> missing == aliases - Aliases(orgs);
      if missing != {} {
        return Err(NotAMember(missing));
      }
      assert forall a :: a in aliases ==> a !in missing;
      assert !hasAny ==> aliases <= Aliases(orgs);
    }
    r := Ok(Some(claim));
  }

  lemma SameClaim(c: Claim, d: Claim, orgs: seq<Organization>, wanted: set<string>, m: Id -> Membership)
    requires Describes(c, orgs, wanted, m) && Describes(d, orgs, wanted, m)
    ensures c == d
  {
    assert forall a :: a in c <==> a in d;
  }

  /** The answers exclude each other and cover every request: there is exactly one. */
  lemma OutcomeIsDetermined(
    scopes: seq<string>, orgs: seq<Organization>, m: Id -> Membership, r: Result<Option<Claim>, ScopeError>,
    q: Result<Option<Claim>, ScopeError>)
    requires Resolves(scopes, orgs, m, r) && Resolves(scopes, orgs, m, q)
    ensures r == q
  {
    if r.Ok? && r.value.Some? {
      var bare, requested := SCOPE in scopes, Requested(scopes);
      SameClaim(r.value.value, q.value.value, orgs,
                if Named(bare, requested) then requested else Aliases(orgs), m);
    }
  }

  /** Which requests get a claim, and for which aliases. */
  lemma ClaimExactly(
    scopes: seq<string>, orgs: seq<Organization>, m: Id -> Membership, r: Result<Option<Claim>, ScopeError>)
    requires Resolves(scopes, orgs, m, r)
    ensures var bare, requested := SCOPE in scopes, Requested(scopes);
            var named := !bare && requested != {} && ALL !in requested;
            && (r.Ok? && r.value.Some? <==>
                  || (bare && requested == {} && |orgs| <= 1)
                  || (!bare && requested == {ALL})
                  || (named && "" !in requested && requested <= Aliases(orgs)))
            && (r.Ok? && r.value.Some? ==>
                  r.value.value.Keys == if named then requested else Aliases(orgs))
  {
    if r.Ok? && r.value.Some? {
      var bare, requested := SCOPE in scopes, Requested(scopes);
      DescribedAliases(r.value.value, orgs, if Named(bare, requested) then requested else Aliases(orgs), m);
    }
  }

  /** The bare scope never discloses more than one organization. */
  lemma BareScopeYieldsAtMostOne(
    scopes: seq<string>, orgs: seq<Organization>, m: Id -> Membership, r: Result<Option<Claim>, ScopeError>)
    requires Resolves(scopes, orgs, m, r) && SCOPE in scopes && r.Ok? && r.value.Some?
    ensures |r.value.value| == |orgs| <= 1
  {
    ClaimExactly(scopes, orgs, m, r);
    var claim := r.value.value;
    if |orgs| == 0 {
      assert Aliases(orgs) == {};
      assert claim == map[];
    } else {
      assert orgs[0] in orgs && forall o :: o in orgs ==> o == orgs[0];
      assert Aliases(orgs) == {orgs[0].alias};
      assert |claim| == |claim.Keys|;
    }
  }

  /** Any two scopes of different formats make the whole request fail, whatever the user belongs to. */
  lemma MixedFormatsFail(
    scopes: seq<string>, orgs: seq<Organization>, m: Id -> Membership, r: Result<Option<Claim>, ScopeError>,
    alias: string)
    requires Resolves(scopes, orgs, m, r) && PREFIX + alias in scopes
    requires SCOPE in scopes || (PREFIX + ALL in scopes && alias != ALL)
    ensures r == Err(if "" in Requested(scopes) then EmptyAlias else MixedFormats)
  {
    assert (PREFIX + alias)[|PREFIX|..] == alias && (PREFIX + ALL)[|PREFIX|..] == ALL;
    assert alias in Requested(scopes);
    assert SCOPE !in scopes ==> ALL in Requested(scopes);
  }

  /** A client allowed only named aliases gets a claim only about those. */
  lemma ClaimStaysWithinAllowed(
    scopes: seq<string>, allowed: seq<string>, orgs: seq<Organization>, m: Id -> Membership,
    r: Result<Option<Claim>, ScopeError>)
    requires forall s :: s in scopes ==> IsScopeAllowed(s, allowed)
    requires SCOPE !in allowed && PREFIX + ALL !in allowed
    requires Resolves(scopes, orgs, m, r)
    ensures r.Ok? && r.value.Some? ==> forall a :: a in r.value.value ==> PREFIX + a in allowed
  {
    ClaimExactly(scopes, orgs, m, r);
    assert !(PREFIX <= SCOPE);
    forall a | a in Requested(scopes)
      ensures PREFIX + a in allowed
    {
      var s :| s in scopes && PREFIX <= s && s[|PREFIX|..] == a;
      assert s == PREFIX + a && IsScopeAllowed(s, allowed);
    }
  }

  lemma {:induction false} LastPlace(orgs: seq<Organization>, alias: string) returns (i: nat)
    requires LastWith(orgs, alias).Some?
    ensures i < |orgs| && orgs[i] == LastWith(orgs, alias).value
    ensures forall j :: i < j < |orgs| ==> orgs[j].alias != alias
    decreases |orgs|
  {
    var n := |orgs| - 1;
    if orgs[n].alias == alias {
      i := n;
    } else {
      i := LastPlace(orgs[..n], alias);
    }
  }

  lemma DisclosedAttributes(attributes: Json, names: seq<string>, name: string, value: Json)
    ensures name in Disclosed(attributes, names) && Disclosed(attributes, names)[name] == value <==>
              name in names && Lookup(attributes, [name]) == Some(value)
  {
    assert [name][1..] == [];
  }

  /** A claim shows of each organization, the last of the user's with that alias, its identifier, its name and the
      user's membership, and of its attributes exactly those that it lists for disclosure, unchanged. */
  lemma DisclosedExactly(
    scopes: seq<string>, orgs: seq<Organization>, m: Id -> Membership, claim: Claim, alias: string)
    returns (i: nat)
    requires Resolves(scopes, orgs, m, Ok(Some(claim))) && alias in claim
    ensures i < |orgs| && orgs[i].alias == alias && forall j :: i < j < |orgs| ==> orgs[j].alias != alias
    ensures claim[alias].id == orgs[i].id && claim[alias].name == orgs[i].name
    ensures claim[alias].membership == m(orgs[i].id)
    ensures forall name, value ::
              name in claim[alias].attributes && claim[alias].attributes[name] == value <==>
                name in orgs[i].claimAttributeNames && Lookup(orgs[i].attributes, [name]) == Some(value)
  {
    i := LastPlace(orgs, alias);
    forall name, value
      ensures name in claim[alias].attributes && claim[alias].attributes[name] == value <==>
                name in orgs[i].claimAttributeNames && Lookup(orgs[i].attributes, [name]) == Some(value)
    {
      DisclosedAttributes(orgs[i].attributes, orgs[i].claimAttributeNames, name, value);
    }
  }

  /** A scope may be asked for exactly when it is listed itself, or names an organization or all of them
      and the bare scope is listed. */
  lemma ScopeAllowedExactly(requested: string, allowed: seq<string>)
    ensures IsScopeAllowed(requested, allowed) <==>
              || (exists i :: 0 <= i < |allowed| && allowed[i] == requested)
              || (&& (exists alias :: requested == "organization:" + alias)
                  && exists i :: 0 <= i < |allowed| && allowed[i] == "organization")
  {
    if "organization:" <= requested {
      assert requested == "organization:" + requested[|"organization:"|..];
    }
  }
}
