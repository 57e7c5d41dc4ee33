/** API keys: their text form, and their life from generation to expiry, rotation grace or revocation. */
module ApiKeys {
  import opened Text
  import Base64Url

  type Id = nat

  /** Seconds. */
  type Time = int

  const SECRET_BYTES := 36
  const PREFIX_LENGTH := 8
  const DAY := 24 * 60 * 60
  const ROTATION_GRACE := 24 * 60 * 60

  const SCHEME: string := "oidc_"

  // The text form.

  datatype Parts = Parts(prefix: string, env: string, secret: string)

  function Print(p: Parts): string {
    SCHEME + (p.env + ['.'] + (p.prefix + ['.'] + p.secret))
  }

  function ParseKey(raw: string): Option<Parts> {
    if !(SCHEME <= raw) then None
    else
      var first := SplitOnce(raw[|SCHEME|..], '.');
      if first.None? then None
      else
        var second := SplitOnce(first.value.1, '.');
        if second.None? then None
        else if ByteLength(second.value.0) != PREFIX_LENGTH then None
        else Some(Parts(second.value.0, first.value.0, second.value.1))
  }

  /** The parser accepts exactly the printed form of parts that have no separator in
      the wrong place and a prefix of the right length. */
  lemma ParsesExactly(raw: string, p: Parts)
    ensures ParseKey(raw) == Some(p) <==>
              && raw == "oidc_" + (p.env + "." + (p.prefix + "." + p.secret))
              && '.' !in p.env && '.' !in p.prefix && ByteLength(p.prefix) == 8
  {
    var inner := p.prefix + ['.'] + p.secret;
    var body := p.env + ['.'] + inner;
    assert SCHEME <= raw && raw[|SCHEME|..] == body <==> raw == SCHEME + body;
    if SCHEME <= raw {
      SplitOnceExactly(raw[|SCHEME|..], '.', p.env, inner);
      SplitOnceExactly(inner, '.', p.prefix, p.secret);
      var first := SplitOnce(raw[|SCHEME|..], '.');
      if first.Some? {
        SplitOnceExactly(raw[|SCHEME|..], '.', first.value.0, first.value.1);
        SplitOnceExactly(first.value.1, '.', p.prefix, p.secret);
      }
    }
  }

  /** The parts of a new key: the prefix repeats the start of the secret. */
  function FreshParts(env: string, random: Bytes): Parts
    requires |random| == SECRET_BYTES
  {
    Base64Url.EncodedLength(random);
    var secret := Base64Url.Encode(random);
    Parts(secret[..PREFIX_LENGTH], env, secret)
  }

  lemma FreshPrefix(env: string, random: Bytes)
    requires |random| == SECRET_BYTES
    ensures var p := FreshParts(env, random);
            |p.secret| == 48 && '.' !in p.prefix && '.' !in p.secret && ByteLength(p.prefix) == PREFIX_LENGTH
  {
    Base64Url.EncodedLength(random);
    Base64Url.DecodeEncode(random);
    Base64Url.EncodedIsAscii(random);
    BytesAndCharacters(FreshParts(env, random).prefix);
  }

  /** A new key parses back to its parts exactly when the environment name has no dot. */
  lemma FreshKeyParsesExactly(env: string, random: Bytes)
    requires |random| == SECRET_BYTES
    ensures ParseKey(Print(FreshParts(env, random))) == Some(FreshParts(env, random)) <==> '.' !in env
  {
    FreshPrefix(env, random);
    ParsesExactly(Print(FreshParts(env, random)), FreshParts(env, random));
  }

  // The stored keys.

  datatype Details = Details(realm: Id, name: string, scopes: seq<string>, createdBy: Option<Id>)

  datatype ApiKey = ApiKey(
    id: Id, details: Details, prefix: string, hash: string, revoked: bool, requests: nat,
    expiresAt: Option<Time>, lastUsedAt: Option<Time>, createdAt: Time, rotatedAt: Option<Time>)

  type Store = map<Id, ApiKey>

  /** Argon2: hashing may fail, and so may reading a stored hash. */
  datatype Hasher = Hasher(hash: (string, nat) -> Option<string>, verify: (string, string) -> Option<bool>)

  ghost predicate AcceptsWhatItHashed(h: Hasher) {
    forall text, salt :: h.hash(text, salt).Some? ==> h.verify(text, h.hash(text, salt).value) == Some(true)
  }

  /** What one generation takes from outside the store. */
  datatype Draw = Draw(id: Id, random: Bytes, salt: nat, env: string)

  function NewKey(h: Hasher, details: Details, days: Option<nat>, d: Draw, now: Time): Option<ApiKey>
    requires |d.random| == SECRET_BYTES
  {
    var parts := FreshParts(d.env, d.random);
    var hash := h.hash(Print(parts), d.salt);
    if hash.None? then None
    else
      var expiresAt := if days.None? then None else Some(now + days.value * DAY);
      Some(ApiKey(d.id, details, parts.prefix, hash.value, false, 0, expiresAt, None, now, None))
  }

  datatype Op =
    | Generate(details: Details, days: Option<nat>, draw: Draw)
    | Rotate(id: Id, days: Option<nat>, draw: Draw)
    | Revoke(id: Id)
    | Use(id: Id)

  predicate WellDrawn(op: Op) {
    (op.Generate? || op.Rotate?) ==> |op.draw.random| == SECRET_BYTES
  }

  /** The key an operation adds, if it gets that far. */
  function Added(h: Hasher, keys: Store, op: Op, now: Time): Option<ApiKey>
    requires WellDrawn(op)
  {
    if op.Generate? then NewKey(h, op.details, op.days, op.draw, now)
    else if op.Rotate? && op.id in keys then NewKey(h, keys[op.id].details, op.days, op.draw, now)
    else None
  }

  /** What an operation does to a key that is already there. */
  function Touched(k: ApiKey, op: Op, now: Time): ApiKey {
    if op.Rotate? then k.(rotatedAt := Some(now))
    else if op.Revoke? then k.(revoked := true)
    else if op.Use? then k.(requests := k.requests + 1, lastUsedAt := Some(now))
    else k
  }

  /** A rotation that fails to make the new key has already marked the old one. */
  function Step(h: Hasher, keys: Store, op: Op, now: Time): Store
    requires WellDrawn(op)
  {
    var touched := if !op.Generate? && op.id in keys then keys[op.id := Touched(keys[op.id], op, now)] else keys;
    var added := Added(h, keys, op, now);
    if added.None? then touched else touched[added.value.id := added.value]
  }

  // Verification.

  /** The clock as one verification reads it, in that order. */
  datatype Readings = Readings(find: Time, expiry: Time, grace: Time)

  /** The in-memory store and the SQL query differ at the instant of expiry. */
  datatype Backend = InMemory | Sql

  predicate Expired(k: ApiKey, now: Time) {
    k.expiresAt.Some? && now > k.expiresAt.value
  }

  predicate Hit(b: Backend, k: ApiKey, prefix: string, now: Time) {
    k.prefix == prefix && !k.revoked && !Expired(k, now) && (b.Sql? ==> k.expiresAt != Some(now))
  }

  /** Any active key with the prefix may be found; none only when there is none. */
  ghost predicate MayFind(b: Backend, keys: Store, prefix: string, now: Time, found: Option<ApiKey>) {
    match found
    case None => forall id :: id in keys ==> !Hit(b, keys[id], prefix, now)
    case Some(k) => Hit(b, k, prefix, now) && exists id :: id in keys && keys[id] == k
  }

  datatype VerifyError =
    | InvalidFormat
    | UnknownOrRevoked
    | KeyExpired
    | RotationExpired
    | UnreadableHash
    | InvalidKey

  function Check(h: Hasher, raw: string, found: Option<ApiKey>, t: Readings): Result<ApiKey, VerifyError> {
    match found
    case None => Err(UnknownOrRevoked)
    case Some(k) =>
      if Expired(k, t.expiry) then Err(KeyExpired)
      else if k.rotatedAt.Some? && t.grace > k.rotatedAt.value + ROTATION_GRACE then Err(RotationExpired)
      else
        match h.verify(raw, k.hash)
        case None => Err(UnreadableHash)
        case Some(false) => Err(InvalidKey)
        case Some(true) => Ok(k)
  }

  ghost predicate MayVerify(
    b: Backend, h: Hasher, keys: Store, raw: string, t: Readings, r: Result<ApiKey, VerifyError>)
  {
    var parts := ParseKey(raw);
    if parts.None? then r == Err(InvalidFormat)
    else exists found :: MayFind(b, keys, parts.value.prefix, t.find, found) && r == Check(h, raw, found, t)
  }

  class ApiKeyService {
    const hasher: Hasher
    var keys: Store

    constructor (hasher: Hasher)
      ensures this.hasher == hasher && keys == map[]
    {
      this.hasher := hasher;
      keys := map[];
    }

    /** The in-memory lookup: the first match in whatever order the values come. */
    method FindByPrefix(prefix: string, now: Time) returns (found: Option<ApiKey>)
      ensures MayFind(InMemory, keys, prefix, now, found)
    {
      var remaining := keys.Keys;
      while remaining != {}
        invariant remaining <= keys.Keys
        invariant forall id :: id in keys && id !in remaining ==> !Hit(InMemory, keys[id], prefix, now)
        decreases |remaining|
      {
        var id :| id in remaining;
        if keys[id].prefix == prefix && !keys[id].revoked && !Expired(keys[id], now) {
          return Some(keys[id]);
        }
        remaining := remaining - {id};
      }
      found := None;
    }

    method VerifyKey(raw: string, t: Readings) returns (r: Result<ApiKey, VerifyError>)
      ensures MayVerify(InMemory, hasher, keys, raw, t, r)
    {
      var parts := ParseKey(raw);
      if parts.None? {
        return Err(InvalidFormat);
      }
      var found := FindByPrefix(parts.value.prefix, t.find);
      r := Check(hasher, raw, found, t);
    }

    method GenerateKey(details: Details, days: Option<nat>, d: Draw, now: Time)
      returns (made: Option<(ApiKey, string)>)
      requires |d.random| == SECRET_BYTES
      modifies this`keys
      ensures keys == Step(hasher, old(keys), Generate(details, days, d), now)
      ensures var k := NewKey(hasher, details, days, d, now);
              made == if k.None? then None else Some((k.value, Print(FreshParts(d.env, d.random))))
    {
      var key := NewKey(hasher, details, days, d, now);
      if key.None? {
        return None;
      }
      keys := keys[d.id := key.value];
      made := Some((key.value, Print(FreshParts(d.env, d.random))));
    }

    method RotateKey(id: Id, days: Option<nat>, d: Draw, now: Time) returns (made: Option<(ApiKey, string)>)
      requires |d.random| == SECRET_BYTES
      modifies this`keys
      ensures keys == Step(hasher, old(keys), Rotate(id, days, d), now)
      ensures var k := Added(hasher, old(keys), Rotate(id, days, d), now);
              made == if k.None? then None else Some((k.value, Print(FreshParts(d.env, d.random))))
    {
      if id !in keys {
        return None;
      }
      var details := keys[id].details;
      keys := keys[id := keys[id].(rotatedAt := Some(now))];
      made := GenerateKey(details, days, d, now);
    }

    method RevokeKey(id: Id)
      modifies this`keys
      ensures forall now :: keys == Step(hasher, old(keys), Revoke(id), now)
    {
      if id in keys {
        keys := keys[id := keys[id].(revoked := true)];
      }
    }

    method IncrementUsage(id: Id, now: Time)
      modifies this`keys
      ensures keys == Step(hasher, old(keys), Use(id), now)
    {
      if id in keys {
        keys := keys[id := keys[id].(requests := keys[id].requests + 1, lastUsedAt := Some(now))];
      }
    }
  }
}
