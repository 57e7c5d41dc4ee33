/** Protocol mappers: what validation lets through, and the claims the mapper loop builds. */
module ProtocolMappers {
  import opened Text
  import opened ClaimTree
  import opened Ordering

  datatype MapperType = UserProperty | UserAttribute | HardcodedClaim | Audience | RealmRoles | ClientRoles

  datatype Mapper = Mapper(
    name: string,
    mapperType: MapperType,
    claimName: Option<string>,
    source: Option<string>,
    claimValue: Option<Json>,
    multivalued: bool,
    addToAccessToken: bool,
    addToIdToken: bool,
    addToUserinfo: bool)

  // ----- Trimming -----

  /** Unicode white space. */
  predicate IsSpace(c: char) {
    var n := c as int;
    || 9 <= n <= 13 || n == 0x20 || n == 0x85 || n == 0xA0 || n == 0x1680
    || 0x2000 <= n <= 0x200A || n == 0x2028 || n == 0x2029 || n == 0x202F || n == 0x205F || n == 0x3000
  }

  function TrimStart(s: string): string {
    if s != [] && IsSpace(s[0]) then TrimStart(s[1..]) else s
  }

  function TrimEnd(s: string): string {
    if s != [] && IsSpace(s[|s| - 1]) then TrimEnd(s[..|s| - 1]) else s
  }

  function Trim(s: string): string {
    TrimEnd(TrimStart(s))
  }

  function OrEmpty(s: Option<string>): string {
    if s.Some? then s.value else ""
  }

  // ----- Validation -----

  const TOKEN_CLAIMS: seq<string> := [
    "iss", "sub", "aud", "exp", "iat", "jti", "scope", "azp", "nonce", "auth_time", "sid", "at_hash", "c_hash", "cnf"]

  const GRANT_CLAIMS: seq<string> := [
    "authorization_details", "organization", "realm_access", "resource_access", "roles", "groups", "acr", "amr"]

  const NAME_CLAIMS: seq<string> := [
    "address", "name", "given_name", "family_name", "middle_name", "nickname", "preferred_username", "profile",
    "picture", "website"]

  const CONTACT_CLAIMS: seq<string> := [
    "gender", "birthdate", "zoneinfo", "locale", "email", "email_verified", "phone_number",
    "phone_number_verified", "updated_at"]

  predicate IsProtected(root: string) {
    root in TOKEN_CLAIMS || root in GRANT_CLAIMS || root in NAME_CLAIMS || root in CONTACT_CLAIMS
  }

  const USER_PROPERTIES: seq<string> := [
    "id", "email", "email_verified", "username", "given_name", "family_name", "middle_name", "nickname",
    "preferred_username", "profile", "picture", "website", "gender", "birthdate", "zoneinfo", "locale",
    "phone_number", "phone_number_verified", "updated_at"]

  datatype MapperError =
    | EmptyName
    | AudienceNeedsString
    | EmptyClaimName
    | ProtectedClaim
    | SourceRequired
    | UnsupportedProperty
    | ValueRequired

  function Validate(m: Mapper): Result<(), MapperError> {
    if Trim(m.name) == "" then Err(EmptyName)
    else if m.mapperType == Audience then
      if m.claimValue.Some? && m.claimValue.value.Str? then Ok(()) else Err(AudienceNeedsString)
    else
      var claimName := Trim(OrEmpty(m.claimName));
      if claimName == "" then Err(EmptyClaimName)
      else if IsProtected(Split(claimName, '.')[0]) then Err(ProtectedClaim)
      else if m.mapperType in {UserProperty, UserAttribute, ClientRoles} && Trim(OrEmpty(m.source)) == "" then
        Err(SourceRequired)
      else if m.mapperType == UserProperty && !(m.source.Some? && m.source.value in USER_PROPERTIES) then
        Err(UnsupportedProperty)
      else if m.mapperType == HardcodedClaim && m.claimValue.None? then Err(ValueRequired)
      else Ok(())
  }

  /** Some character is not white space. */
  ghost predicate HasText(s: Option<string>) {
    s.Some? && exists i :: 0 <= i < |s.value| && !IsSpace(s.value[i])
  }

  lemma {:induction false} TrimStartKeepsText(s: string)
    ensures HasText(Some(TrimStart(s))) <==> HasText(Some(s))
    ensures TrimStart(s) == "" || !IsSpace(TrimStart(s)[0])
  {
    if s != "" && IsSpace(s[0]) {
      TrimStartKeepsText(s[1..]);
      assert s == [s[0]] + s[1..];
    }
  }

  lemma {:induction false} TrimEndKeepsText(s: string)
    ensures HasText(Some(TrimEnd(s))) <==> HasText(Some(s))
    ensures TrimEnd(s) == "" || !IsSpace(TrimEnd(s)[|TrimEnd(s)| - 1])
    decreases |s|
  {
    if s != "" && IsSpace(s[|s| - 1]) {
      TrimEndKeepsText(s[..|s| - 1]);
      assert s == s[..|s| - 1] + [s[|s| - 1]];
    }
  }

  lemma TrimsToText(s: Option<string>)
    ensures Trim(OrEmpty(s)) != "" <==> HasText(s)
  {
    var t := OrEmpty(s);
    TrimStartKeepsText(t);
    TrimEndKeepsText(TrimStart(t));
    assert HasText(Some(t)) <==> HasText(s);
  }

  lemma PropertyHasText(source: string)
    requires source in USER_PROPERTIES
    ensures HasText(Some(source))
  {
    assert source != "" && !IsSpace(source[0]);
  }

  /** A mapper is valid exactly when it has a name and all that its kind calls for: an audience a text, every other
      a claim that is not protected, properties, attributes and client roles a source, and a fixed claim its value. */
  lemma ValidExactly(m: Mapper)
    ensures Validate(m).Ok? <==>
              && HasText(Some(m.name))
              && if m.mapperType == Audience then m.claimValue.Some? && m.claimValue.value.Str?
                 else
                   && HasText(m.claimName) && !IsProtected(Split(Trim(m.claimName.value), '.')[0])
                   && (m.mapperType == UserProperty ==> m.source.Some? && m.source.value in USER_PROPERTIES)
                   && (m.mapperType == UserAttribute || m.mapperType == ClientRoles ==> HasText(m.source))
                   && (m.mapperType == HardcodedClaim ==> m.claimValue.Some?)
  {
    TrimsToText(Some(m.name));
    TrimsToText(m.claimName);
    TrimsToText(m.source);
    if m.source.Some? && m.source.value in USER_PROPERTIES {
      PropertyHasText(m.source.value);
    }
  }

  lemma ReadableNames(claim: string)
    requires claim in NAME_CLAIMS
    ensures claim in USER_PROPERTIES <==> claim != "address" && claim != "name"
  {
  }

  lemma ReadableContacts(claim: string)
    requires claim in CONTACT_CLAIMS
    ensures claim in USER_PROPERTIES
  {
  }

  lemma OtherProperties(property: string)
    requires property in USER_PROPERTIES && property !in NAME_CLAIMS
    ensures property in CONTACT_CLAIMS || property == "id" || property == "username"
  {
  }

  /** What a mapper may read of a user are the identifier, the login and the protected claims about a person, but
      for the address and the full name: none of the latter can be claimed again under its own name. */
  lemma PropertiesExactly(property: string)
    ensures property in USER_PROPERTIES <==>
              || property == "id" || property == "username"
              || (&& (property in NAME_CLAIMS || property in CONTACT_CLAIMS)
                  && property != "address" && property != "name")
  {
    if property in NAME_CLAIMS {
      ReadableNames(property);
    } else if property in CONTACT_CLAIMS {
      ReadableContacts(property);
    } else if property in USER_PROPERTIES {
      OtherProperties(property);
    }
  }

  /** Of the seven registered claims of section 4.1 of RFC 7519 all are protected but `nbf`. */
  lemma RegisteredClaims(claim: string)
    requires claim in ["iss", "sub", "aud", "exp", "nbf", "iat", "jti"]
    ensures IsProtected(claim) <==> claim != "nbf"
  {
  }

  // ----- The mapper loop -----

  /** A user's present properties by name, and the attribute document. */
  datatype User = User(properties: map<string, Json>, attributes: Json)

  /** An effective role; a realm role has no client. */
  datatype Role = Role(name: string, client: Option<string>)

  datatype Target = AccessToken | IdToken | Userinfo

  function RoleNames(roles: seq<Role>, client: Option<string>): seq<Json> {
    if roles == [] then []
    else (if roles[0].client == client then [Str(roles[0].name)] else []) + RoleNames(roles[1..], client)
  }

  /** The value a mapper contributes, before it is wrapped for a multivalued claim. */
  function RawValue(m: Mapper, user: Option<User>, roles: seq<Role>): Option<Json> {
    match m.mapperType
    case UserProperty =>
      if user.Some? && OrEmpty(m.source) in USER_PROPERTIES && OrEmpty(m.source) in user.value.properties
      then Some(user.value.properties[OrEmpty(m.source)])
      else None
    case UserAttribute => if user.Some? then Lookup(user.value.attributes, Parts(OrEmpty(m.source))) else None
    case HardcodedClaim => m.claimValue
    case RealmRoles => Some(Array(RoleNames(roles, None)))
    case ClientRoles => Some(Array(RoleNames(roles, Some(OrEmpty(m.source)))))
    case Audience => None
  }

  function Value(m: Mapper, user: Option<User>, roles: seq<Role>): Option<Json> {
    var raw := RawValue(m, user, roles);
    if raw.Some? && m.multivalued && !raw.value.Array? then Some(Array([raw.value])) else raw
  }

  predicate Adds(m: Mapper, target: Target) {
    match target
    case AccessToken => m.addToAccessToken
    case IdToken => m.addToIdToken
    case Userinfo => m.addToUserinfo
  }

  /** The mapper puts a value at its path in the given target. */
  predicate Writes(m: Mapper, target: Target, user: Option<User>, roles: seq<Role>) {
    && m.mapperType != Audience && m.claimName.Some? && Parts(m.claimName.value) != []
    && Value(m, user, roles).Some? && Adds(m, target)
  }

  function AddClaim(f: Fields, m: Mapper, target: Target, user: Option<User>, roles: seq<Role>): Fields {
    if Writes(m, target, user, roles) then Put(f, Parts(m.claimName.value), Value(m, user, roles).value) else f
  }

  /** One target's claims after all mappers. */
  function Collect(f: Fields, mappers: seq<Mapper>, target: Target, user: Option<User>, roles: seq<Role>): Fields
    decreases |mappers|
  {
    if mappers == [] then f
    else Collect(AddClaim(f, mappers[0], target, user, roles), mappers[1..], target, user, roles)
  }

  predicate NamesAudience(m: Mapper, audience: string) {
    && m.mapperType == Audience && m.claimValue.Some? && m.claimValue.value.Str?
    && m.claimValue.value.text == audience && audience != ""
  }

  /** Roles are only looked up when there is a user and a mapper that needs them. */
  function EffectiveRoles(mappers: seq<Mapper>, user: Option<User>, roles: seq<Role>): seq<Role> {
    if user.Some? && exists m :: m in mappers && (m.mapperType == RealmRoles || m.mapperType == ClientRoles)
    then roles
    else []
  }

  method ResolveMappedClaims(mappers: seq<Mapper>, user: Option<User>, userRoles: seq<Role>)
    returns (access: Fields, id: Fields, userinfo: Fields, accessAudiences: seq<string>, idAudiences: seq<string>)
    ensures var roles := EffectiveRoles(mappers, user, userRoles);
            && access == Collect(map[], mappers, AccessToken, user, roles)
            && id == Collect(map[], mappers, IdToken, user, roles)
            && userinfo == Collect(map[], mappers, Userinfo, user, roles)
    ensures Ascending(accessAudiences) && Ascending(idAudiences)
    ensures forall a :: a in accessAudiences <==> exists m :: m in mappers && m.addToAccessToken && NamesAudience(m, a)
    ensures forall a :: a in idAudiences <==> exists m :: m in mappers && m.addToIdToken && NamesAudience(m, a)
  {
    var roles := EffectiveRoles(mappers, user, userRoles);
    access, id, userinfo, accessAudiences, idAudiences := map[], map[], map[], [], [];
    for i := 0 to |mappers|
      invariant Collect(access, mappers[i..], AccessToken, user, roles) == Collect(map[], mappers, AccessToken, user, roles)
      invariant Collect(id, mappers[i..], IdToken, user, roles) == Collect(map[], mappers, IdToken, user, roles)
      invariant Collect(userinfo, mappers[i..], Userinfo, user, roles) == Collect(map[], mappers, Userinfo, user, roles)
      invariant Ascending(accessAudiences) && Ascending(idAudiences)
      invariant forall a :: a in accessAudiences <==>
                  exists m :: m in mappers[..i] && m.addToAccessToken && NamesAudience(m, a)
      invariant forall a :: a in idAudiences <==> exists m :: m in mappers[..i] && m.addToIdToken && NamesAudience(m, a)
    {
      var mapper := mappers[i];
      assert mappers[i..][0] == mapper && mappers[i..][1..] == mappers[i + 1..];
      assert mappers[..i + 1] == mappers[..i] + [mapper];
      if mapper.mapperType == Audience {
        if mapper.claimValue.Some? && mapper.claimValue.value.Str? && mapper.claimValue.value.text != "" {
          var audience := mapper.claimValue.value.text;
          if mapper.addToAccessToken {
            AddTextAdds(audience, accessAudiences);
            AddTextAscends(audience, accessAudiences);
            accessAudiences := AddText(audience, accessAudiences);
          }
          if mapper.addToIdToken {
            AddTextAdds(audience, idAudiences);
            AddTextAscends(audience, idAudiences);
            idAudiences := AddText(audience, idAudiences);
          }
        }
        continue;
      }
      if mapper.claimName.None? {
        continue;
      }
      var value := Value(mapper, user, roles);
      if value.None? {
        continue;
      }
      if mapper.addToAccessToken {
        access := PutClaim(access, mapper.claimName.value, value.value);
      }
      if mapper.addToIdToken {
        id := PutClaim(id, mapper.claimName.value, value.value);
      }
      if mapper.addToUserinfo {
        userinfo := PutClaim(userinfo, mapper.claimName.value, value.value);
      }
    }
    assert mappers[..|mappers|] == mappers;
  }

  // ----- What ends up in a target -----

  /** The top-level claims of a target are exactly the first segments of the mappers that write to it. */
  lemma {:induction false} TopLevelExact(
    f: Fields, mappers: seq<Mapper>, target: Target, user: Option<User>, roles: seq<Role>, key: string)
    ensures key in Collect(f, mappers, target, user, roles)
       <==> || key in f
            || exists m :: m in mappers && Writes(m, target, user, roles) && Parts(m.claimName.value)[0] == key
    decreases |mappers|
  {
    if mappers != [] {
      var m := mappers[0];
      var next := AddClaim(f, m, target, user, roles);
      if Writes(m, target, user, roles) {
        PutKeys(f, Parts(m.claimName.value), Value(m, user, roles).value);
      }
      TopLevelExact(next, mappers[1..], target, user, roles, key);
      assert mappers == [m] + mappers[1..];
    }
  }

  lemma {:induction false} LaterWritesElsewhere(
    f: Fields, mappers: seq<Mapper>, target: Target, user: Option<User>, roles: seq<Role>, path: Path)
    requires forall m :: m in mappers && Writes(m, target, user, roles) ==> Diverge(Parts(m.claimName.value), path)
    ensures Lookup(Object(Collect(f, mappers, target, user, roles)), path) == Lookup(Object(f), path)
    decreases |mappers|
  {
    if mappers != [] {
      var m := mappers[0];
      if Writes(m, target, user, roles) {
        PutElsewhere(f, Parts(m.claimName.value), Value(m, user, roles).value, path);
      }
      LaterWritesElsewhere(AddClaim(f, m, target, user, roles), mappers[1..], target, user, roles, path);
    }
  }

  lemma {:induction false} CollectSplits(
    f: Fields, first: seq<Mapper>, second: seq<Mapper>, target: Target, user: Option<User>, roles: seq<Role>)
    ensures Collect(f, first + second, target, user, roles)
         == Collect(Collect(f, first, target, user, roles), second, target, user, roles)
    decreases |first|
  {
    if first == [] {
      assert first + second == second;
    } else {
      assert (first + second)[0] == first[0] && (first + second)[1..] == first[1..] + second;
      CollectSplits(AddClaim(f, first[0], target, user, roles), first[1..], second, target, user, roles);
    }
  }

  /** A mapper's value is found at its path if every later mapper that writes to the target does so elsewhere. */
  lemma LastWriterIsRead(mappers: seq<Mapper>, i: nat, target: Target, user: Option<User>, roles: seq<Role>)
    requires i < |mappers| && Writes(mappers[i], target, user, roles)
    requires forall m :: m in mappers[i + 1..] && Writes(m, target, user, roles) ==>
               Diverge(Parts(m.claimName.value), Parts(mappers[i].claimName.value))
    ensures Lookup(Object(Collect(map[], mappers, target, user, roles)), Parts(mappers[i].claimName.value))
         == Value(mappers[i], user, roles)
  {
    var m, path := mappers[i], Parts(mappers[i].claimName.value);
    var before := Collect(map[], mappers[..i], target, user, roles);
    var written := AddClaim(before, m, target, user, roles);
    assert mappers == mappers[..i] + mappers[i..];
    CollectSplits(map[], mappers[..i], mappers[i..], target, user, roles);
    assert mappers[i..][0] == m && mappers[i..][1..] == mappers[i + 1..];
    LaterWritesElsewhere(written, mappers[i + 1..], target, user, roles, path);
    GetPut(before, path, Value(m, user, roles).value);
  }

  // ----- Protected claims -----

  /** Lower-case letters and underscores only. */
  predicate IsWord(s: string) {
    s != "" && forall i :: 0 <= i < |s| ==> 'a' <= s[i] <= 'z' || s[i] == '_'
  }

  lemma TokenClaimsAreWords(s: string)
    requires s in TOKEN_CLAIMS
    ensures IsWord(s)
  {
  }

  lemma GrantClaimsAreWords(s: string)
    requires s in GRANT_CLAIMS
    ensures IsWord(s)
  {
  }

  lemma NameClaimsAreWords(s: string)
    requires s in NAME_CLAIMS
    ensures IsWord(s)
  {
  }

  lemma ContactClaimsAreWords(s: string)
    requires s in CONTACT_CLAIMS
    ensures IsWord(s)
  {
  }

  lemma ProtectedAreWords(s: string)
    requires IsProtected(s)
    ensures IsWord(s)
  {
    if s in TOKEN_CLAIMS {
      TokenClaimsAreWords(s);
    } else if s in GRANT_CLAIMS {
      GrantClaimsAreWords(s);
    } else if s in NAME_CLAIMS {
      NameClaimsAreWords(s);
    } else {
      ContactClaimsAreWords(s);
    }
  }

  /** Leading dots only add empty segments, which insertion drops. */
  function DropDots(name: string): string {
    if name != "" && name[0] == '.' then DropDots(name[1..]) else name
  }

  /** The name starts with a dot, and behind its leading dots comes a protected segment. */
  predicate HidesProtected(name: string) {
    name != "" && name[0] == '.' && IsProtected(Split(DropDots(name), '.')[0])
  }

  lemma {:induction false} FirstSegment(name: string)
    ensures var first := Split(DropDots(name), '.')[0];
            if first == "" then Parts(name) == [] else Parts(name) != [] && Parts(name)[0] == first
  {
    if name == "" {
      assert Split(name, '.') == [""];
      assert NonEmpty([""]) == [];
    } else if name[0] == '.' {
      FirstSegment(name[1..]);
      assert Split(name, '.')[1..] == Split(name[1..], '.');
    }
  }

  /** Trimming white space behind a word leaves the word, and a dot directly behind it if there was one. */
  lemma {:induction false} TrimEndKeepsWord(word: string, tail: string) returns (rest: string)
    requires word != "" && !IsSpace(word[|word| - 1]) && (tail == "" || tail[0] == '.')
    ensures TrimEnd(word + tail) == word + rest && (rest == "" || rest[0] == '.')
    decreases |tail|
  {
    var s := word + tail;
    if tail == "" || !IsSpace(tail[|tail| - 1]) {
      rest := tail;
    } else {
      assert s[..|s| - 1] == word + tail[..|tail| - 1];
      rest := TrimEndKeepsWord(word, tail[..|tail| - 1]);
    }
  }

  lemma {:induction false} SplitHead(s: string) returns (tail: string)
    ensures s == Split(s, '.')[0] + tail && (tail == "" || tail[0] == '.')
  {
    if s == "" || s[0] == '.' {
      tail := s;
      assert "" + s == s;
    } else {
      tail := SplitHead(s[1..]);
      assert s == [s[0]] + s[1..];
    }
  }

  lemma SplitWord(word: string, rest: string)
    requires '.' !in word && (rest == "" || rest[0] == '.')
    ensures Split(word + rest, '.')[0] == word
  {
    if rest == "" {
      assert word + rest == word;
      SplitOne(word, '.');
    } else {
      SplitFirst(word, '.', rest[1..]);
      assert word + rest == word + ['.'] + rest[1..];
    }
  }

  /** Trimming does not hide a first segment that is a word. */
  lemma TrimKeepsFirstWord(name: string)
    requires IsWord(Split(name, '.')[0])
    ensures Split(Trim(name), '.')[0] == Split(name, '.')[0]
  {
    var word := Split(name, '.')[0];
    var tail := SplitHead(name);
    assert name[0] == word[0];
    assert TrimStart(name) == name;
    var rest := TrimEndKeepsWord(word, tail);
    SplitWord(word, rest);
  }

  /** Of the names that validation lets through, exactly those that hide a protected segment behind a
      leading dot are stored under a protected claim. */
  lemma ProtectedRootExactly(name: string)
    requires !IsProtected(Split(Trim(name), '.')[0])
    ensures Parts(name) != [] && IsProtected(Parts(name)[0]) <==> HidesProtected(name)
  {
    FirstSegment(name);
    var first := Split(DropDots(name), '.')[0];
    if IsProtected(first) {
      ProtectedAreWords(first);
      if name == "" || name[0] != '.' {
        TrimKeepsFirstWord(name);
      }
    }
  }

  lemma ValidatedRoot(m: Mapper)
    requires Validate(m).Ok? && m.mapperType != Audience && m.claimName.Some?
    ensures !IsProtected(Split(Trim(m.claimName.value), '.')[0])
  {
  }

  lemma ProtectedClaimIsHidden(
    mappers: seq<Mapper>, target: Target, user: Option<User>, roles: seq<Role>, key: string)
    requires forall m :: m in mappers ==> Validate(m).Ok?
    requires key in Collect(map[], mappers, target, user, roles) && IsProtected(key)
    ensures exists m :: m in mappers && Writes(m, target, user, roles) && HidesProtected(m.claimName.value)
  {
    TopLevelExact(map[], mappers, target, user, roles, key);
    var m :| m in mappers && Writes(m, target, user, roles) && Parts(m.claimName.value)[0] == key;
    ValidatedRoot(m);
    ProtectedRootExactly(m.claimName.value);
  }

  lemma HiddenIsWritten(mappers: seq<Mapper>, m: Mapper, target: Target, user: Option<User>, roles: seq<Role>)
    requires m in mappers && Validate(m).Ok? && Writes(m, target, user, roles) && HidesProtected(m.claimName.value)
    ensures exists key :: key in Collect(map[], mappers, target, user, roles) && IsProtected(key)
  {
    var key := Parts(m.claimName.value)[0];
    ValidatedRoot(m);
    ProtectedRootExactly(m.claimName.value);
    TopLevelExact(map[], mappers, target, user, roles, key);
    assert key in Collect(map[], mappers, target, user, roles) && IsProtected(key);
  }

  /** Validated mappers put a protected claim into a target exactly when one that writes there hides it
      behind a leading dot; whatever the user, the roles and the other mappers. */
  lemma ProtectedClaimsExactly(
    mappers: seq<Mapper>, target: Target, user: Option<User>, roles: seq<Role>)
    requires forall m :: m in mappers ==> Validate(m).Ok?
    ensures (exists key :: key in Collect(map[], mappers, target, user, roles) && IsProtected(key))
       <==> exists m :: m in mappers && Writes(m, target, user, roles) && HidesProtected(m.claimName.value)
  {
    if key :| key in Collect(map[], mappers, target, user, roles) && IsProtected(key) {
      ProtectedClaimIsHidden(mappers, target, user, roles, key);
    }
    if m :| m in mappers && Writes(m, target, user, roles) && HidesProtected(m.claimName.value) {
      HiddenIsWritten(mappers, m, target, user, roles);
    }
  }

  /** No protected claim is written when no claim name begins with a dot. */
  lemma NoLeadingDotNoProtectedClaim(mappers: seq<Mapper>, target: Target, user: Option<User>, roles: seq<Role>)
    requires forall m :: m in mappers ==> Validate(m).Ok?
    requires forall m :: m in mappers ==> !("." <= OrEmpty(m.claimName))
    ensures forall key :: key in Collect(map[], mappers, target, user, roles) ==> !IsProtected(key)
  {
    ProtectedClaimsExactly(mappers, target, user, roles);
    forall m | m in mappers && Writes(m, target, user, roles)
      ensures !HidesProtected(m.claimName.value)
    {
      assert !("." <= OrEmpty(m.claimName));
    }
  }

  lemma DotSub()
    ensures Parts(".sub") == ["sub"] && Trim(".sub") == ".sub" && !IsProtected(Split(".sub", '.')[0])
  {
    if IsProtected("") {
      ProtectedAreWords("");
    }
    SplitFirst("", '.', "sub");
    SplitOne("sub", '.');
    assert "" + ['.'] + "sub" == ".sub";
    assert Split(".sub", '.') == ["", "sub"];
    assert ["", "sub"][1..] == ["sub"] && ["sub"][1..] == [];
  }

  function Hardcoded(name: string, value: Json): Mapper {
    Mapper("m", HardcodedClaim, Some(name), None, Some(value), false, true, true, true)
  }

  lemma HardcodedValid(name: string, value: Json)
    requires Trim(name) == name != "" && !IsProtected(Split(name, '.')[0])
    ensures Validate(Hardcoded(name, value)).Ok?
  {
    assert Trim("m") == "m";
  }

  lemma HardcodedCollected(name: string, key: string, value: Json, user: Option<User>, roles: seq<Role>)
    requires Parts(name) == [key]
    ensures Collect(map[], [Hardcoded(name, value)], AccessToken, user, roles) == map[key := value]
  {
    assert [Hardcoded(name, value)][1..] == [];
  }

  /** `.sub` passes validation and is stored as `sub`, whatever the value. */
  lemma LeadingDotReachesSub(value: Json, user: Option<User>, roles: seq<Role>)
    ensures Validate(Hardcoded(".sub", value)).Ok?
    ensures Collect(map[], [Hardcoded(".sub", value)], AccessToken, user, roles) == map["sub" := value]
  {
    DotSub();
    HardcodedValid(".sub", value);
    HardcodedCollected(".sub", "sub", value, user, roles);
  }
}
