/** What mapped claims say: the values found in a token, against roles and user data taken by themselves. */
module MappedValues {
  import opened Text
  import opened ClaimTree
  import opened ProtocolMappers

  // ----- Role lists -----

  predicate Increasing(at: seq<nat>) {
    forall i, j :: 0 <= i < j < |at| ==> at[i] < at[j]
  }

  /** `at` are the places, in order, of all roles that belong to `client`, or to no client. */
  ghost predicate Places(at: seq<nat>, roles: seq<Role>, client: Option<string>) {
    && Increasing(at)
    && forall j: nat :: j in at <==> j < |roles| && roles[j].client == client
  }

  predicate NamesAt(names: seq<Json>, at: seq<nat>, roles: seq<Role>) {
    |names| == |at| && forall k :: 0 <= k < |at| ==> at[k] < |roles| && names[k] == Str(roles[at[k]].name)
  }

  /** `names` lists in order exactly the names of the roles that belong to `client`, or to no client. */
  ghost predicate Lists(names: seq<Json>, roles: seq<Role>, client: Option<string>) {
    exists at :: Places(at, roles, client) && NamesAt(names, at, roles)
  }

  lemma HasElement(at: seq<nat>)
    requires at != []
    ensures exists j: nat :: j in at
  {
    assert at[0] in at;
  }

  lemma AllButLast(at: seq<nat>, j: nat)
    requires Increasing(at) && at != []
    ensures j in at[..|at| - 1] <==> j in at && j != at[|at| - 1]
  {
    var n := |at| - 1;
    assert at == at[..n] + [at[n]];
  }

  lemma SameLast(at: seq<nat>, other: seq<nat>)
    requires Increasing(at) && Increasing(other) && at != [] && other != []
    requires forall j: nat :: j in at <==> j in other
    ensures at[|at| - 1] == other[|other| - 1]
  {
    assert at[|at| - 1] in other;
    assert other[|other| - 1] in at;
  }

  lemma {:induction false} PlacesAreUnique(at: seq<nat>, other: seq<nat>)
    requires Increasing(at) && Increasing(other) && forall j: nat :: j in at <==> j in other
    ensures at == other
    decreases |at|
  {
    if at != [] {
      HasElement(at);
    }
    if other != [] {
      HasElement(other);
    }
    if at != [] && other != [] {
      var front, back := at[..|at| - 1], other[..|other| - 1];
      SameLast(at, other);
      forall j: nat
        ensures j in front <==> j in back
      {
        AllButLast(at, j);
        AllButLast(other, j);
      }
      PlacesAreUnique(front, back);
      assert at == front + [at[|at| - 1]] && other == back + [other[|other| - 1]];
    }
  }

  function Shifted(at: seq<nat>): (r: seq<nat>)
    ensures |r| == |at| && forall k :: 0 <= k < |at| ==> r[k] == at[k] + 1
  {
    seq(|at|, k requires 0 <= k < |at| => at[k] + 1)
  }

  lemma ShiftedMembers(at: seq<nat>, j: nat)
    ensures j in Shifted(at) <==> j >= 1 && j - 1 in at
  {
    if j >= 1 && j - 1 in at {
      var k :| 0 <= k < |at| && at[k] == j - 1;
      assert Shifted(at)[k] == j;
    }
  }

  lemma PlacesBehind(at: seq<nat>, roles: seq<Role>, client: Option<string>) returns (all: seq<nat>)
    requires roles != [] && Places(at, roles[1..], client)
    ensures all == (if roles[0].client == client then [0] else []) + Shifted(at) && Places(all, roles, client)
  {
    all := (if roles[0].client == client then [0] else []) + Shifted(at);
    forall j: nat
      ensures j in all <==> j < |roles| && roles[j].client == client
    {
      ShiftedMembers(at, j);
    }
  }

  lemma NamesBehind(names: seq<Json>, at: seq<nat>, roles: seq<Role>, all: seq<nat>, first: bool)
    requires roles != [] && NamesAt(names, at, roles[1..])
    requires all == (if first then [0] else []) + Shifted(at)
    ensures NamesAt((if first then [Str(roles[0].name)] else []) + names, all, roles)
  {
  }

  lemma {:induction false} RolesAreListed(roles: seq<Role>, client: Option<string>)
    ensures Lists(RoleNames(roles, client), roles, client)
  {
    if roles == [] {
      assert Places([], roles, client) && NamesAt([], [], roles);
    } else {
      RolesAreListed(roles[1..], client);
      var names := RoleNames(roles[1..], client);
      var at :| Places(at, roles[1..], client) && NamesAt(names, at, roles[1..]);
      var all := PlacesBehind(at, roles, client);
      NamesBehind(names, at, roles, all, roles[0].client == client);
    }
  }

  lemma ListIsUnique(names: seq<Json>, others: seq<Json>, roles: seq<Role>, client: Option<string>)
    requires Lists(names, roles, client) && Lists(others, roles, client)
    ensures names == others
  {
    var at :| Places(at, roles, client) && NamesAt(names, at, roles);
    var other :| Places(other, roles, client) && NamesAt(others, other, roles);
    PlacesAreUnique(at, other);
  }

  /** The list is the one that the mapper loop builds. */
  lemma ListExactly(names: seq<Json>, roles: seq<Role>, client: Option<string>)
    ensures names == RoleNames(roles, client) <==> Lists(names, roles, client)
  {
    RolesAreListed(roles, client);
    if Lists(names, roles, client) {
      ListIsUnique(names, RoleNames(roles, client), roles, client);
    }
  }

  // ----- Values -----

  /** What each kind of mapper takes its value from. */
  ghost predicate Takes(m: Mapper, user: Option<User>, roles: seq<Role>, v: Json) {
    match m.mapperType
    case UserProperty =>
      && user.Some? && m.source.Some? && m.source.value in USER_PROPERTIES
      && m.source.value in user.value.properties && v == user.value.properties[m.source.value]
    case UserAttribute =>
      && user.Some?
      && Some(v) == Lookup(user.value.attributes, if m.source.Some? then Parts(m.source.value) else [])
    case HardcodedClaim => m.claimValue == Some(v)
    case RealmRoles => v.Array? && Lists(v.items, roles, None)
    case ClientRoles => v.Array? && Lists(v.items, roles, Some(if m.source.Some? then m.source.value else ""))
    case Audience => false
  }

  /** The value as claimed: one that is not an array becomes the only item of one in a multivalued claim. */
  ghost predicate Yields(m: Mapper, user: Option<User>, roles: seq<Role>, v: Json) {
    exists raw :: Takes(m, user, roles, raw) && v == if m.multivalued && !raw.Array? then Array([raw]) else raw
  }

  lemma RawIsTaken(m: Mapper, user: Option<User>, roles: seq<Role>, v: Json)
    ensures RawValue(m, user, roles) == Some(v) <==> Takes(m, user, roles, v)
  {
    match m.mapperType
    case UserAttribute => assert Split("", '.') == [""] && NonEmpty([""]) == [];
    case RealmRoles => if v.Array? { ListExactly(v.items, roles, None); }
    case ClientRoles => if v.Array? { ListExactly(v.items, roles, Some(OrEmpty(m.source))); }
    case _ =>
  }

  lemma ValueIsYielded(m: Mapper, user: Option<User>, roles: seq<Role>, v: Json)
    ensures Value(m, user, roles) == Some(v) <==> Yields(m, user, roles, v)
  {
    var raw := RawValue(m, user, roles);
    if raw.Some? {
      RawIsTaken(m, user, roles, raw.value);
    }
    if Yields(m, user, roles, v) {
      var taken :| Takes(m, user, roles, taken)
        && v == if m.multivalued && !taken.Array? then Array([taken]) else taken;
      RawIsTaken(m, user, roles, taken);
    }
  }

  // ----- Claims -----

  /** The mapper's flag for the given target. */
  ghost predicate Feeds(m: Mapper, target: Target) {
    || (target == AccessToken && m.addToAccessToken)
    || (target == IdToken && m.addToIdToken)
    || (target == Userinfo && m.addToUserinfo)
  }

  /** The mapper claims `v` under its name in the given target. */
  ghost predicate Claims(m: Mapper, target: Target, user: Option<User>, roles: seq<Role>, v: Json) {
    Feeds(m, target) && m.claimName.Some? && Parts(m.claimName.value) != [] && Yields(m, user, roles, v)
  }

  lemma WritesExactly(m: Mapper, target: Target, user: Option<User>, roles: seq<Role>)
    ensures Writes(m, target, user, roles) <==> exists v :: Claims(m, target, user, roles, v)
  {
    var value := Value(m, user, roles);
    if value.Some? {
      ValueIsYielded(m, user, roles, value.value);
      assert Feeds(m, target) && m.claimName.Some? && Parts(m.claimName.value) != [] ==>
               Claims(m, target, user, roles, value.value);
    }
    if v :| Claims(m, target, user, roles, v) {
      ValueIsYielded(m, user, roles, v);
    }
  }

  /** What a target holds under a claim name after all mappers. */
  function Found(mappers: seq<Mapper>, target: Target, user: Option<User>, roles: seq<Role>, name: string):
    Option<Json>
  {
    Lookup(Object(Collect(map[], mappers, target, user, roles)), Parts(name))
  }

  /** Whatever later mappers claim in the target lies apart from the claim of the `i`-th. */
  ghost predicate StandsIn(mappers: seq<Mapper>, i: nat, target: Target, user: Option<User>, roles: seq<Role>)
    requires i < |mappers| && mappers[i].claimName.Some?
  {
    forall m, v :: m in mappers[i + 1..] && Claims(m, target, user, roles, v) ==>
      Diverge(Parts(m.claimName.value), Parts(mappers[i].claimName.value))
  }

  /** What a mapper claims is found under its name in each target that it feeds and that no later mapper
      disturbs there. */
  lemma ClaimIsFound(mappers: seq<Mapper>, i: nat, target: Target, user: Option<User>, roles: seq<Role>, v: Json)
    requires i < |mappers| && Claims(mappers[i], target, user, roles, v) && StandsIn(mappers, i, target, user, roles)
    ensures Found(mappers, target, user, roles, mappers[i].claimName.value) == Some(v)
  {
    ValueIsYielded(mappers[i], user, roles, v);
    WritesExactly(mappers[i], target, user, roles);
    forall m | m in mappers[i + 1..] && Writes(m, target, user, roles)
      ensures Diverge(Parts(m.claimName.value), Parts(mappers[i].claimName.value))
    {
      WritesExactly(m, target, user, roles);
    }
    LastWriterIsRead(mappers, i, target, user, roles);
  }

  /** A mapper leaves no trace in a target in which it claims nothing. */
  lemma NothingClaimed(mappers: seq<Mapper>, i: nat, target: Target, user: Option<User>, roles: seq<Role>)
    requires i < |mappers| && forall v :: !Claims(mappers[i], target, user, roles, v)
    ensures Collect(map[], mappers, target, user, roles)
         == Collect(map[], mappers[..i] + mappers[i + 1..], target, user, roles)
  {
    WritesExactly(mappers[i], target, user, roles);
    assert mappers == mappers[..i] + mappers[i..];
    CollectSplits(map[], mappers[..i], mappers[i..], target, user, roles);
    CollectSplits(map[], mappers[..i], mappers[i + 1..], target, user, roles);
    assert mappers[i..][1..] == mappers[i + 1..];
  }

  // ----- Roles in the token -----

  /** The array under the name of a realm-roles mapper lists in order exactly the user's roles without a client. */
  lemma RealmRolesFound(mappers: seq<Mapper>, i: nat, target: Target, user: User, userRoles: seq<Role>)
    requires i < |mappers| && mappers[i].mapperType == RealmRoles && Feeds(mappers[i], target)
    requires mappers[i].claimName.Some? && Parts(mappers[i].claimName.value) != []
    requires StandsIn(mappers, i, target, Some(user), EffectiveRoles(mappers, Some(user), userRoles))
    ensures var roles := EffectiveRoles(mappers, Some(user), userRoles);
            var found := Found(mappers, target, Some(user), roles, mappers[i].claimName.value);
            found.Some? && found.value.Array? && Lists(found.value.items, userRoles, None)
  {
    var names := Array(RoleNames(userRoles, None));
    assert EffectiveRoles(mappers, Some(user), userRoles) == userRoles;
    RolesAreListed(userRoles, None);
    assert Takes(mappers[i], Some(user), userRoles, names);
    ClaimIsFound(mappers, i, target, Some(user), userRoles, names);
  }

  /** The array under the name of a client-roles mapper lists in order exactly the user's roles of the client
      that is the mapper's source. */
  lemma ClientRolesFound(mappers: seq<Mapper>, i: nat, target: Target, user: User, userRoles: seq<Role>)
    requires i < |mappers| && mappers[i].mapperType == ClientRoles && Feeds(mappers[i], target)
    requires mappers[i].claimName.Some? && Parts(mappers[i].claimName.value) != [] && mappers[i].source.Some?
    requires StandsIn(mappers, i, target, Some(user), EffectiveRoles(mappers, Some(user), userRoles))
    ensures var roles := EffectiveRoles(mappers, Some(user), userRoles);
            var found := Found(mappers, target, Some(user), roles, mappers[i].claimName.value);
            found.Some? && found.value.Array? && Lists(found.value.items, userRoles, mappers[i].source)
  {
    var names := Array(RoleNames(userRoles, mappers[i].source));
    assert EffectiveRoles(mappers, Some(user), userRoles) == userRoles;
    RolesAreListed(userRoles, mappers[i].source);
    assert Takes(mappers[i], Some(user), userRoles, names);
    ClaimIsFound(mappers, i, target, Some(user), userRoles, names);
  }

  function AllNames(roles: seq<Role>): (names: seq<Json>)
    ensures |names| == |roles| && forall i :: 0 <= i < |roles| ==> names[i] == Str(roles[i].name)
  {
    seq(|roles|, i requires 0 <= i < |roles| => Str(roles[i].name))
  }

  function Joined(lists: seq<seq<Json>>): multiset<Json> {
    if lists == [] then multiset{} else multiset(lists[0]) + Joined(lists[1..])
  }

  predicate Distinct(clients: seq<string>) {
    forall i, j :: 0 <= i < j < |clients| ==> clients[i] != clients[j]
  }

  function ListsOf(roles: seq<Role>, clients: seq<string>): seq<seq<Json>> {
    if clients == [] then [] else [RoleNames(roles, Some(clients[0]))] + ListsOf(roles, clients[1..])
  }

  function OneIf(b: bool, v: Json): multiset<Json> {
    if b then multiset{v} else multiset{}
  }

  lemma NamesGrow(roles: seq<Role>, client: Option<string>)
    requires roles != []
    ensures multiset(RoleNames(roles, client))
         == OneIf(roles[0].client == client, Str(roles[0].name)) + multiset(RoleNames(roles[1..], client))
  {
  }

  lemma OneOfClients(role: Role, clients: seq<string>)
    requires clients != [] && Distinct(clients)
    ensures var v := Str(role.name);
            OneIf(role.client == Some(clients[0]), v) + OneIf(role.client.Some? && role.client.value in clients[1..], v)
            == OneIf(role.client.Some? && role.client.value in clients, v)
  {
    assert clients == [clients[0]] + clients[1..];
    assert clients[0] !in clients[1..];
  }

  lemma JoinedFirst(roles: seq<Role>, clients: seq<string>)
    requires clients != []
    ensures Joined(ListsOf(roles, clients))
         == multiset(RoleNames(roles, Some(clients[0]))) + Joined(ListsOf(roles, clients[1..]))
  {
    var others := ListsOf(roles, clients[1..]);
    assert ([RoleNames(roles, Some(clients[0]))] + others)[1..] == others;
  }

  lemma {:induction false} ListsGrow(roles: seq<Role>, clients: seq<string>)
    requires roles != [] && Distinct(clients)
    ensures Joined(ListsOf(roles, clients))
         == OneIf(roles[0].client.Some? && roles[0].client.value in clients, Str(roles[0].name))
            + Joined(ListsOf(roles[1..], clients))
  {
    if clients != [] {
      JoinedFirst(roles, clients);
      JoinedFirst(roles[1..], clients);
      NamesGrow(roles, Some(clients[0]));
      ListsGrow(roles, clients[1..]);
      OneOfClients(roles[0], clients);
    }
  }

  lemma {:induction false} NoLists(clients: seq<string>)
    ensures Joined(ListsOf([], clients)) == multiset{}
  {
    if clients != [] {
      NoLists(clients[1..]);
    }
  }

  lemma AllNamesGrow(roles: seq<Role>)
    requires roles != []
    ensures multiset(AllNames(roles)) == multiset{Str(roles[0].name)} + multiset(AllNames(roles[1..]))
  {
    assert AllNames(roles) == [Str(roles[0].name)] + AllNames(roles[1..]);
  }

  lemma PartsApart(a: multiset<Json>, b: multiset<Json>, rest: multiset<Json>, others: multiset<Json>)
    ensures (a + rest) + (b + others) == (a + b) + (rest + others)
  {
  }

  lemma OneOrOther(role: Role, clients: seq<string>)
    requires role.client.Some? ==> role.client.value in clients
    ensures OneIf(role.client == None, Str(role.name))
            + OneIf(role.client.Some? && role.client.value in clients, Str(role.name))
         == multiset{Str(role.name)}
  {
  }

  lemma {:induction false} NamesArePartitioned(roles: seq<Role>, clients: seq<string>)
    requires Distinct(clients) && forall r :: r in roles && r.client.Some? ==> r.client.value in clients
    ensures multiset(RoleNames(roles, None)) + Joined(ListsOf(roles, clients)) == multiset(AllNames(roles))
  {
    if roles == [] {
      NoLists(clients);
      assert AllNames(roles) == [];
    } else {
      assert roles == [roles[0]] + roles[1..];
      NamesArePartitioned(roles[1..], clients);
      NamesGrow(roles, None);
      ListsGrow(roles, clients);
      AllNamesGrow(roles);
      OneOrOther(roles[0], clients);
      var v, client := Str(roles[0].name), roles[0].client;
      PartsApart(OneIf(client == None, v), OneIf(client.Some? && client.value in clients, v),
                 multiset(RoleNames(roles[1..], None)), Joined(ListsOf(roles[1..], clients)));
    }
  }

  lemma {:induction false} ListsAreThose(lists: seq<seq<Json>>, roles: seq<Role>, clients: seq<string>)
    requires |lists| == |clients| && forall k :: 0 <= k < |clients| ==> Lists(lists[k], roles, Some(clients[k]))
    ensures lists == ListsOf(roles, clients)
  {
    if clients != [] {
      ListsAreThose(lists[1..], roles, clients[1..]);
      ListExactly(lists[0], roles, Some(clients[0]));
      assert lists == [lists[0]] + lists[1..];
    }
  }

  /** The realm's list and the lists of all clients together hold every role's name, once for each role. */
  lemma RolesArePartitioned(realm: seq<Json>, lists: seq<seq<Json>>, roles: seq<Role>, clients: seq<string>)
    requires Lists(realm, roles, None)
    requires |lists| == |clients| && forall k :: 0 <= k < |clients| ==> Lists(lists[k], roles, Some(clients[k]))
    requires Distinct(clients) && forall r :: r in roles && r.client.Some? ==> r.client.value in clients
    ensures multiset(realm) + Joined(lists) == multiset(AllNames(roles))
  {
    ListExactly(realm, roles, None);
    ListsAreThose(lists, roles, clients);
    NamesArePartitioned(roles, clients);
  }

  // ----- User data in the token -----

  /** A single value as a claim shows it. */
  function Wrapped(v: Json, multivalued: bool): Json {
    if !multivalued then v else match v case Array(_) => v case _ => Array([v])
  }

  /** A property mapper shows the property that its source names, if the user has it. */
  lemma PropertyFound(
    mappers: seq<Mapper>, i: nat, target: Target, user: User, roles: seq<Role>, name: string, property: string)
    requires i < |mappers| && mappers[i].mapperType == UserProperty && Feeds(mappers[i], target)
    requires mappers[i].claimName == Some(name) && Parts(name) != [] && mappers[i].source == Some(property)
    requires property in USER_PROPERTIES && property in user.properties
    requires StandsIn(mappers, i, target, Some(user), roles)
    ensures Found(mappers, target, Some(user), roles, name)
         == Some(Wrapped(user.properties[property], mappers[i].multivalued))
  {
    var raw := user.properties[property];
    assert Takes(mappers[i], Some(user), roles, raw);
    ClaimIsFound(mappers, i, target, Some(user), roles, Wrapped(raw, mappers[i].multivalued));
  }

  /** An attribute mapper reads the user's attributes at its source and shows what is there under its name. */
  lemma AttributeFound(
    mappers: seq<Mapper>, i: nat, target: Target, user: User, roles: seq<Role>, name: string, source: string)
    requires i < |mappers| && mappers[i].mapperType == UserAttribute && Feeds(mappers[i], target)
    requires mappers[i].claimName == Some(name) && Parts(name) != [] && mappers[i].source == Some(source)
    requires Lookup(user.attributes, Parts(source)).Some?
    requires StandsIn(mappers, i, target, Some(user), roles)
    ensures Found(mappers, target, Some(user), roles, name)
         == Some(Wrapped(Lookup(user.attributes, Parts(source)).value, mappers[i].multivalued))
  {
    var raw := Lookup(user.attributes, Parts(source)).value;
    assert Takes(mappers[i], Some(user), roles, raw);
    ClaimIsFound(mappers, i, target, Some(user), roles, Wrapped(raw, mappers[i].multivalued));
  }

  function Dotted(segments: seq<string>): string {
    if segments == [] then "" else if |segments| == 1 then segments[0] else segments[0] + "." + Dotted(segments[1..])
  }

  /** A dotted name of proper segments is the path of those segments. */
  lemma {:induction false} DottedParts(segments: seq<string>)
    requires forall k :: 0 <= k < |segments| ==> segments[k] != "" && '.' !in segments[k]
    ensures Parts(Dotted(segments)) == segments
  {
    if segments == [] {
      assert Split("", '.') == [""] && NonEmpty([""]) == [];
    } else if |segments| == 1 {
      SplitOne(segments[0], '.');
      assert NonEmpty([segments[0]]) == [segments[0]] + NonEmpty([]);
      assert segments == [segments[0]];
    } else {
      DottedParts(segments[1..]);
      SplitFirst(segments[0], '.', Dotted(segments[1..]));
      var tail := Split(Dotted(segments[1..]), '.');
      assert ([segments[0]] + tail)[1..] == tail;
      assert segments == [segments[0]] + segments[1..];
    }
  }

  /** Without a user, properties and attributes are never claimed, and role lists are empty. */
  lemma NoUserNoData(mappers: seq<Mapper>, m: Mapper, target: Target, userRoles: seq<Role>, v: Json)
    requires Claims(m, target, None, EffectiveRoles(mappers, None, userRoles), v)
    ensures m.mapperType in {HardcodedClaim, RealmRoles, ClientRoles}
    ensures m.mapperType != HardcodedClaim ==> v == Array([])
  {
    var roles := EffectiveRoles(mappers, None, userRoles);
    var raw :| Takes(m, None, roles, raw) && v == if m.multivalued && !raw.Array? then Array([raw]) else raw;
    RawIsTaken(m, None, roles, raw);
  }
}
