/** Runs of the API key service: what is true of a key after any operations. */
module ApiKeyRuns {
  import opened Text
  import opened ApiKeys

  datatype Event = Event(op: Op, at: Time)

  /** Keys are filed under their own ids, and no two have the same prefix. */
  ghost predicate Sound(keys: Store) {
    && (forall id :: id in keys ==> keys[id].id == id)
    && (forall i, j :: i in keys && j in keys && keys[i].prefix == keys[j].prefix ==> i == j)
  }

  /** The id and the prefix that are drawn are new. */
  ghost predicate Fresh(keys: Store, added: Option<ApiKey>) {
    added.Some? ==>
      added.value.id !in keys && forall id :: id in keys ==> keys[id].prefix != added.value.prefix
  }

  ghost predicate FreshRun(h: Hasher, keys: Store, run: seq<Event>)
    decreases |run|
  {
    run != [] ==>
      && WellDrawn(run[0].op)
      && Fresh(keys, Added(h, keys, run[0].op, run[0].at))
      && FreshRun(h, Step(h, keys, run[0].op, run[0].at), run[1..])
  }

  ghost function After(h: Hasher, keys: Store, run: seq<Event>): Store
    requires FreshRun(h, keys, run)
    decreases |run|
  {
    if run == [] then keys else After(h, Step(h, keys, run[0].op, run[0].at), run[1..])
  }

  predicate RevokedIn(run: seq<Event>, id: Id) {
    exists i :: 0 <= i < |run| && run[i].op == Revoke(id)
  }

  predicate Rotates(op: Op, id: Id) {
    op.Rotate? && op.id == id
  }

  function LastRotation(run: seq<Event>, id: Id): Option<Time> {
    if run == [] then None
    else
      var later := LastRotation(run[1..], id);
      if later.None? && Rotates(run[0].op, id) then Some(run[0].at) else later
  }

  lemma StepKeepsSound(h: Hasher, keys: Store, op: Op, now: Time)
    requires Sound(keys) && WellDrawn(op) && Fresh(keys, Added(h, keys, op, now))
    ensures Sound(Step(h, keys, op, now))
  {
  }

  lemma StepTouches(h: Hasher, keys: Store, op: Op, now: Time, id: Id)
    requires WellDrawn(op) && Fresh(keys, Added(h, keys, op, now)) && id in keys
    ensures var next := Step(h, keys, op, now);
            && id in next
            && next[id].details == keys[id].details && next[id].prefix == keys[id].prefix
            && next[id].hash == keys[id].hash && next[id].expiresAt == keys[id].expiresAt
            && next[id].createdAt == keys[id].createdAt
            && next[id].revoked == (keys[id].revoked || op == Revoke(id))
            && next[id].rotatedAt == (if Rotates(op, id) then Some(now) else keys[id].rotatedAt)
  {
  }

  lemma RevokedInSplits(run: seq<Event>, id: Id)
    requires run != []
    ensures RevokedIn(run, id) <==> run[0].op == Revoke(id) || RevokedIn(run[1..], id)
  {
    assert run == [run[0]] + run[1..];
  }

  /** A stored key keeps all but its three marks, and those say what the run did to it. */
  lemma {:induction false} KeyAfterRun(h: Hasher, keys: Store, run: seq<Event>, id: Id)
    requires Sound(keys) && FreshRun(h, keys, run) && id in keys
    ensures Sound(After(h, keys, run)) && id in After(h, keys, run)
    ensures var k, last := After(h, keys, run)[id], LastRotation(run, id);
            && k.details == keys[id].details && k.prefix == keys[id].prefix && k.hash == keys[id].hash
            && k.expiresAt == keys[id].expiresAt && k.createdAt == keys[id].createdAt
            && k.revoked == (keys[id].revoked || RevokedIn(run, id))
            && k.rotatedAt == (if last.Some? then last else keys[id].rotatedAt)
    decreases |run|
  {
    if run != [] {
      StepKeepsSound(h, keys, run[0].op, run[0].at);
      StepTouches(h, keys, run[0].op, run[0].at, id);
      RevokedInSplits(run, id);
      KeyAfterRun(h, Step(h, keys, run[0].op, run[0].at), run[1..], id);
    }
  }

  function Uses(run: seq<Event>, id: Id): nat {
    if run == [] then 0 else (if run[0].op == Use(id) then 1 else 0) + Uses(run[1..], id)
  }

  function LastUse(run: seq<Event>, id: Id): Option<Time> {
    if run == [] then None
    else
      var later := LastUse(run[1..], id);
      if later.None? && run[0].op == Use(id) then Some(run[0].at) else later
  }

  lemma StepCounts(h: Hasher, keys: Store, op: Op, now: Time, id: Id)
    requires WellDrawn(op) && Fresh(keys, Added(h, keys, op, now)) && id in keys
    ensures var next := Step(h, keys, op, now);
            && id in next
            && next[id].requests == keys[id].requests + (if op == Use(id) then 1 else 0)
            && next[id].lastUsedAt == (if op == Use(id) then Some(now) else keys[id].lastUsedAt)
  {
  }

  /** The counter of a key grows by its uses in the run, and the last of them leaves its time. */
  lemma {:induction false} UsesAreCounted(h: Hasher, keys: Store, run: seq<Event>, id: Id)
    requires FreshRun(h, keys, run) && id in keys
    ensures id in After(h, keys, run)
    ensures var k, last := After(h, keys, run)[id], LastUse(run, id);
            && k.requests == keys[id].requests + Uses(run, id)
            && k.lastUsedAt == (if last.Some? then last else keys[id].lastUsedAt)
    decreases |run|
  {
    if run != [] {
      StepCounts(h, keys, run[0].op, run[0].at, id);
      UsesAreCounted(h, Step(h, keys, run[0].op, run[0].at), run[1..], id);
    }
  }

  /** A generated key starts unused, and bears its details and the time at which it was made through every run. */
  lemma FreshKeyRecord(
    h: Hasher, keys: Store, details: Details, days: Option<nat>, d: Draw, now: Time, run: seq<Event>)
    requires Sound(keys) && |d.random| == SECRET_BYTES
    requires var made := NewKey(h, details, days, d, now);
             made.Some? && Fresh(keys, made) && FreshRun(h, keys[d.id := made.value], run)
    ensures var final := After(h, keys[d.id := NewKey(h, details, days, d, now).value], run);
            && d.id in final
            && final[d.id].id == d.id && final[d.id].details == details && final[d.id].createdAt == now
            && final[d.id].requests == Uses(run, d.id) && final[d.id].lastUsedAt == LastUse(run, d.id)
            && final[d.id].revoked == RevokedIn(run, d.id) && final[d.id].rotatedAt == LastRotation(run, d.id)
  {
    var stored := keys[d.id := NewKey(h, details, days, d, now).value];
    StepKeepsSound(h, keys, Generate(details, days, d), now);
    KeyAfterRun(h, stored, run, d.id);
    UsesAreCounted(h, stored, run, d.id);
  }

  /** What any successful verification returns: a stored key, not revoked, in its time. */
  lemma VerifiedIsAlive(b: Backend, h: Hasher, keys: Store, raw: string, t: Readings, r: Result<ApiKey, VerifyError>)
    requires Sound(keys) && MayVerify(b, h, keys, raw, t, r) && r.Ok?
    ensures var k := r.value;
            && k.id in keys && keys[k.id] == k && !k.revoked && h.verify(raw, k.hash) == Some(true)
            && !Expired(k, t.find) && !Expired(k, t.expiry)
            && (k.rotatedAt.Some? ==> t.grace <= k.rotatedAt.value + ROTATION_GRACE)
  {
  }

  /** A revoked key never verifies again. */
  lemma RevokedNeverVerifies(
    b: Backend, h: Hasher, keys: Store, run: seq<Event>, id: Id, raw: string, t: Readings,
    r: Result<ApiKey, VerifyError>)
    requires Sound(keys) && FreshRun(h, keys, run) && id in keys
    requires keys[id].revoked || RevokedIn(run, id)
    requires MayVerify(b, h, After(h, keys, run), raw, t, r)
    ensures r.Ok? ==> r.value.id != id
  {
    KeyAfterRun(h, keys, run, id);
    if r.Ok? {
      VerifiedIsAlive(b, h, After(h, keys, run), raw, t, r);
    }
  }

  /** A rotated key never verifies later than the grace period after its last rotation. */
  lemma RotatedStopsAfterGrace(
    b: Backend, h: Hasher, keys: Store, run: seq<Event>, id: Id, raw: string, t: Readings,
    r: Result<ApiKey, VerifyError>)
    requires Sound(keys) && FreshRun(h, keys, run) && id in keys
    requires var last := LastRotation(run, id); last.Some? && t.grace > last.value + ROTATION_GRACE
    requires MayVerify(b, h, After(h, keys, run), raw, t, r)
    ensures r.Ok? ==> r.value.id != id
  {
    KeyAfterRun(h, keys, run, id);
    if r.Ok? {
      VerifiedIsAlive(b, h, After(h, keys, run), raw, t, r);
    }
  }

  /** The time in which a key made with `expiresAt` can be used, after a run. */
  ghost predicate InItsTime(b: Backend, expiresAt: Option<Time>, run: seq<Event>, id: Id, t: Readings) {
    && !RevokedIn(run, id)
    && (expiresAt.Some? ==>
          && t.find <= expiresAt.value && t.expiry <= expiresAt.value
          && (b.Sql? ==> t.find != expiresAt.value))
    && (LastRotation(run, id).Some? ==> t.grace <= LastRotation(run, id).value + ROTATION_GRACE)
  }

  /** With distinct prefixes a lookup by a stored key's prefix can find nothing else. */
  lemma FindsOnly(b: Backend, keys: Store, id: Id, now: Time, found: Option<ApiKey>)
    requires Sound(keys) && id in keys && MayFind(b, keys, keys[id].prefix, now, found)
    ensures found == if Hit(b, keys[id], keys[id].prefix, now) then Some(keys[id]) else None
  {
  }

  /** How the text of a stored key fares, by that key alone. */
  lemma StoredKeyVerifies(
    b: Backend, h: Hasher, keys: Store, id: Id, raw: string, t: Readings, r: Result<ApiKey, VerifyError>)
    requires Sound(keys) && id in keys && MayVerify(b, h, keys, raw, t, r)
    requires ParseKey(raw).Some? && ParseKey(raw).value.prefix == keys[id].prefix
    requires h.verify(raw, keys[id].hash) == Some(true)
    ensures var k := keys[id];
            && (r.Ok? <==>
                  && Hit(b, k, k.prefix, t.find) && !Expired(k, t.expiry)
                  && (k.rotatedAt.Some? ==> t.grace <= k.rotatedAt.value + ROTATION_GRACE))
            && (r.Ok? ==> r.value == k)
  {
    var found :| MayFind(b, keys, keys[id].prefix, t.find, found) && r == Check(h, raw, found, t);
    FindsOnly(b, keys, id, t.find, found);
  }

  /** What a text with the prefix of a stored key is refused with, by that key alone. */
  lemma StoredKeyRefused(
    b: Backend, h: Hasher, keys: Store, id: Id, raw: string, t: Readings, r: Result<ApiKey, VerifyError>)
    requires Sound(keys) && id in keys && MayVerify(b, h, keys, raw, t, r)
    requires ParseKey(raw).Some? && ParseKey(raw).value.prefix == keys[id].prefix
    ensures var k := keys[id];
            var rotatedOut := k.rotatedAt.Some? && t.grace > k.rotatedAt.value + 86400;
            && (r == Err(UnknownOrRevoked) <==> !Hit(b, k, k.prefix, t.find))
            && (r == Err(KeyExpired) <==> Hit(b, k, k.prefix, t.find) && Expired(k, t.expiry))
            && (r == Err(RotationExpired) <==> Hit(b, k, k.prefix, t.find) && !Expired(k, t.expiry) && rotatedOut)
            && (r == Err(UnreadableHash) ==> h.verify(raw, k.hash) == None)
            && (r == Err(InvalidKey) ==> h.verify(raw, k.hash) == Some(false))
            && (r.Ok? ==> h.verify(raw, k.hash) == Some(true))
            && r != Err(InvalidFormat)
  {
    var found :| MayFind(b, keys, keys[id].prefix, t.find, found) && r == Check(h, raw, found, t);
    FindsOnly(b, keys, id, t.find, found);
  }

  /** A new key verifies, after any operations at all, exactly until it is revoked, expires or outlives its
      rotation, and what verification returns is that key. The environment name must have no dot. */
  lemma FreshKeyVerifiesExactly(
    b: Backend, h: Hasher, keys: Store, details: Details, days: Option<nat>, d: Draw, now: Time, run: seq<Event>,
    t: Readings, r: Result<ApiKey, VerifyError>)
    requires Sound(keys) && AcceptsWhatItHashed(h) && |d.random| == SECRET_BYTES && '.' !in d.env
    requires var made := NewKey(h, details, days, d, now);
             made.Some? && Fresh(keys, made) && FreshRun(h, keys[d.id := made.value], run)
    requires var stored := keys[d.id := NewKey(h, details, days, d, now).value];
             MayVerify(b, h, After(h, stored, run), Print(FreshParts(d.env, d.random)), t, r)
    ensures var made := NewKey(h, details, days, d, now).value;
            && (r.Ok? <==> InItsTime(b, made.expiresAt, run, d.id, t))
            && (r.Ok? ==> r.value.id == d.id && r.value.details == details)
  {
    var made := NewKey(h, details, days, d, now).value;
    var stored := keys[d.id := made];
    var raw := Print(FreshParts(d.env, d.random));
    StepKeepsSound(h, keys, Generate(details, days, d), now);
    KeyAfterRun(h, stored, run, d.id);
    FreshKeyParsesExactly(d.env, d.random);
    assert h.verify(raw, made.hash) == Some(true);
    StoredKeyVerifies(b, h, After(h, stored, run), d.id, raw, t, r);
  }

  /** In numbers: a key made for some days verifies up to that many times 86400 seconds after it was made, one
      made without days for ever, and a rotation ends either 86400 seconds later. */
  lemma FreshKeyLasts(
    b: Backend, h: Hasher, keys: Store, details: Details, days: Option<nat>, d: Draw, now: Time, run: seq<Event>,
    t: Readings, r: Result<ApiKey, VerifyError>)
    requires Sound(keys) && AcceptsWhatItHashed(h) && |d.random| == SECRET_BYTES && '.' !in d.env
    requires var made := NewKey(h, details, days, d, now);
             made.Some? && Fresh(keys, made) && FreshRun(h, keys[d.id := made.value], run)
    requires var stored := keys[d.id := NewKey(h, details, days, d, now).value];
             MayVerify(b, h, After(h, stored, run), Print(FreshParts(d.env, d.random)), t, r)
    ensures r.Ok? <==>
              && !RevokedIn(run, d.id)
              && (days.Some? ==>
                    && t.expiry <= now + 86400 * days.value
                    && if b.Sql? then t.find < now + 86400 * days.value else t.find <= now + 86400 * days.value)
              && (LastRotation(run, d.id).Some? ==> t.grace <= LastRotation(run, d.id).value + 86400)
  {
    FreshKeyVerifiesExactly(b, h, keys, details, days, d, now, run, t, r);
  }

  /** Why the text of a generated key is refused: as unknown when it was revoked or has expired before the lookup,
      as expired when that happened since, as rotated when only the grace has passed, and for nothing else. */
  lemma FreshKeyRefusedExactly(
    b: Backend, h: Hasher, keys: Store, details: Details, days: Option<nat>, d: Draw, now: Time, run: seq<Event>,
    t: Readings, r: Result<ApiKey, VerifyError>)
    requires Sound(keys) && AcceptsWhatItHashed(h) && |d.random| == SECRET_BYTES && '.' !in d.env
    requires var made := NewKey(h, details, days, d, now);
             made.Some? && Fresh(keys, made) && FreshRun(h, keys[d.id := made.value], run)
    requires var stored := keys[d.id := NewKey(h, details, days, d, now).value];
             MayVerify(b, h, After(h, stored, run), Print(FreshParts(d.env, d.random)), t, r)
    ensures var end := if days.None? then None else Some(now + 86400 * days.value);
            var gone := RevokedIn(run, d.id)
                     || (end.Some? && if b.Sql? then t.find >= end.value else t.find > end.value);
            var late := end.Some? && t.expiry > end.value;
            var rotated := LastRotation(run, d.id);
            && (r == Err(UnknownOrRevoked) <==> gone)
            && (r == Err(KeyExpired) <==> !gone && late)
            && (r == Err(RotationExpired) <==> !gone && !late && rotated.Some? && t.grace > rotated.value + 86400)
            && (r.Err? ==> r.error in {UnknownOrRevoked, KeyExpired, RotationExpired})
  {
    var made := NewKey(h, details, days, d, now).value;
    var stored := keys[d.id := made];
    var raw := Print(FreshParts(d.env, d.random));
    StepKeepsSound(h, keys, Generate(details, days, d), now);
    KeyAfterRun(h, stored, run, d.id);
    FreshKeyParsesExactly(d.env, d.random);
    assert h.verify(raw, made.hash) == Some(true);
    StoredKeyVerifies(b, h, After(h, stored, run), d.id, raw, t, r);
    StoredKeyRefused(b, h, After(h, stored, run), d.id, raw, t, r);
  }
}
