/** The cache of token services by realm and issuer, under concurrent callers. */
module TokenCache {
  import opened Text

  type RealmId = nat
  type CallId = nat

  /** A realm's stored signing keys; `usable` says whether they decrypt and parse. */
  datatype Keys = Keys(material: nat, usable: bool)

  /** A token service: whose keys it signs with, and the issuer it names. */
  datatype Service = RealmService(material: nat, issuer: string) | GlobalService(issuer: string)

  type Key = (RealmId, string)

  /** The answer of the repository to a lookup of a realm's keys. */
  datatype Answer = NoConnection | LookupFailed | Row(keys: Option<Keys>)

  /** What a lookup leads to without any cache; a failed lookup falls back to the global keys. */
  function Load(answer: Answer, issuer: string): Result<Service, ()> {
    match answer
    case NoConnection => Err(())
    case LookupFailed => Ok(GlobalService(issuer))
    case Row(None) => Ok(GlobalService(issuer))
    case Row(Some(keys)) => if keys.usable then Ok(RealmService(keys.material, issuer)) else Err(())
  }

  /** The service that belongs to a realm and issuer, given the stored key rows. */
  function Direct(rows: map<RealmId, Keys>, key: Key): Result<Service, ()> {
    Load(Row(if key.0 in rows then Some(rows[key.0]) else None), key.1)
  }

  /** A caller has looked in the cache and not found its key, then has loaded, then has stored and returned. */
  datatype Phase =
    | Missed
    | Loaded(service: Service, failedLookup: bool)
    | Returned(result: Result<Service, ()>)

  datatype Call = Call(key: Key, phase: Phase)

  datatype State = State(cache: map<Key, Service>, calls: map<CallId, Call>)

  const INIT: State := State(map[], map[])

  datatype Event =
    | Arrive(c: CallId, key: Key)
    | LookUp(c: CallId, fails: Option<Answer>)
    | Store(c: CallId)

  /** The database answers from the rows, unless the connection or the query fails. */
  function AnswerFor(rows: map<RealmId, Keys>, realm: RealmId, fails: Option<Answer>): Answer {
    if fails.Some? && !fails.value.Row? then fails.value
    else Row(if realm in rows then Some(rows[realm]) else None)
  }

  /** One step; the lock makes the first look into the cache and the store atomic, the lookup is outside. */
  function Step(rows: map<RealmId, Keys>, s: State, e: Event): State {
    match e
    case Arrive(c, key) =>
      if c in s.calls then s
      else
        var phase := if key in s.cache then Returned(Ok(s.cache[key])) else Missed;
        s.(calls := s.calls[c := Call(key, phase)])
    case LookUp(c, fails) =>
      if c !in s.calls || s.calls[c].phase != Missed then s
      else
        var key := s.calls[c].key;
        var answer := AnswerFor(rows, key.0, fails);
        var loaded := Load(answer, key.1);
        var phase := if loaded.Ok? then Loaded(loaded.value, answer == LookupFailed) else Returned(Err(()));
        s.(calls := s.calls[c := Call(key, phase)])
    case Store(c) =>
      if c !in s.calls || !s.calls[c].phase.Loaded? then s
      else
        var key, service := s.calls[c].key, s.calls[c].phase.service;
        State(s.cache[key := service], s.calls[c := Call(key, Returned(Ok(service)))])
  }

  function Run(rows: map<RealmId, Keys>, s: State, events: seq<Event>): State
    decreases |events|
  {
    if events == [] then s
    else Step(rows, Run(rows, s, events[..|events| - 1]), events[|events| - 1])
  }

  /** `e`, due in state `s`, stores under `key`. */
  predicate StoresUnder(s: State, e: Event, key: Key) {
    e.Store? && e.c in s.calls && s.calls[e.c].phase.Loaded? && s.calls[e.c].key == key
  }

  /** The last caller to store under `key` had its lookup fail. */
  predicate LastStoreFailed(rows: map<RealmId, Keys>, events: seq<Event>, key: Key)
    decreases |events|
  {
    if events == [] then false
    else
      var front, e := events[..|events| - 1], events[|events| - 1];
      var s := Run(rows, INIT, front);
      if StoresUnder(s, e, key) then s.calls[e.c].phase.failedLookup else LastStoreFailed(rows, front, key)
  }

  /** What a caller has loaded is right for its key, or the fallback of its failed lookup. */
  predicate LoadedInv(rows: map<RealmId, Keys>, s: State) {
    forall c :: c in s.calls && s.calls[c].phase.Loaded? ==>
      if s.calls[c].phase.failedLookup then s.calls[c].phase.service == GlobalService(s.calls[c].key.1)
      else Direct(rows, s.calls[c].key) == Ok(s.calls[c].phase.service)
  }

  lemma {:induction false} LoadedRight(rows: map<RealmId, Keys>, events: seq<Event>)
    ensures LoadedInv(rows, Run(rows, INIT, events))
    decreases |events|
  {
    if events != [] {
      LoadedRight(rows, events[..|events| - 1]);
    }
  }

  lemma {:induction false} EntryFollowsLastStore(rows: map<RealmId, Keys>, events: seq<Event>, key: Key)
    requires key in Run(rows, INIT, events).cache
    ensures var entry := Run(rows, INIT, events).cache[key];
            if LastStoreFailed(rows, events, key) then entry == GlobalService(key.1)
            else Direct(rows, key) == Ok(entry)
    decreases |events|
  {
    if events != [] {
      var front, e := events[..|events| - 1], events[|events| - 1];
      LoadedRight(rows, front);
      if !StoresUnder(Run(rows, INIT, front), e, key) {
        EntryFollowsLastStore(rows, front, key);
      }
    }
  }

  /** A cache entry is wrong exactly when the realm has keys of its own and the last caller to store under
      that realm and issuer did so after a failed lookup. */
  lemma WrongEntryExactly(rows: map<RealmId, Keys>, events: seq<Event>, key: Key)
    requires key in Run(rows, INIT, events).cache
    ensures Direct(rows, key) != Ok(Run(rows, INIT, events).cache[key]) <==>
              key.0 in rows && LastStoreFailed(rows, events, key)
  {
    EntryFollowsLastStore(rows, events, key);
  }

  predicate NoFailedLookup(events: seq<Event>) {
    forall i :: 0 <= i < |events| && events[i].LookUp? ==> events[i].fails != Some(LookupFailed)
  }

  /** Every loaded, stored and returned service is the one that belongs to its realm and issuer. */
  predicate AllRight(rows: map<RealmId, Keys>, s: State) {
    && (forall key :: key in s.cache ==> Direct(rows, key) == Ok(s.cache[key]))
    && (forall c :: c in s.calls && s.calls[c].phase.Loaded? ==>
          Direct(rows, s.calls[c].key) == Ok(s.calls[c].phase.service))
    && (forall c :: c in s.calls && s.calls[c].phase.Returned? && s.calls[c].phase.result.Ok? ==>
          Direct(rows, s.calls[c].key) == s.calls[c].phase.result)
  }

  /** The cache is transparent in every interleaving without a failed lookup. */
  lemma {:induction false} CacheIsTransparent(rows: map<RealmId, Keys>, events: seq<Event>)
    requires NoFailedLookup(events)
    ensures AllRight(rows, Run(rows, INIT, events))
    decreases |events|
  {
    if events != [] {
      CacheIsTransparent(rows, events[..|events| - 1]);
    }
  }

  /** In such interleavings a realm with usable keys is served with its own keys, one without keys with the global
      ones, each under the issuer asked for, and one with unusable keys not at all. */
  lemma ServedByRealm(rows: map<RealmId, Keys>, events: seq<Event>, key: Key, c: CallId)
    requires NoFailedLookup(events)
    ensures var s := Run(rows, INIT, events);
            && c in s.calls && s.calls[c].key == key && s.calls[c].phase.Returned? && s.calls[c].phase.result.Ok? ==>
               var service := s.calls[c].phase.result.value;
               && service.issuer == key.1
               && (service.RealmService? <==> key.0 in rows)
               && (key.0 in rows ==> rows[key.0].usable && service.material == rows[key.0].material)
  {
    CacheIsTransparent(rows, events);
  }

  /** `service` is cached under `key`, and no caller is on the way to store there. */
  predicate Settled(s: State, key: Key, service: Service) {
    && key in s.cache && s.cache[key] == service
    && forall c :: c in s.calls && s.calls[c].key == key ==> s.calls[c].phase.Returned?
  }

  lemma SettledStep(rows: map<RealmId, Keys>, s: State, key: Key, service: Service, e: Event)
    requires Settled(s, key, service)
    ensures var t := Step(rows, s, e);
            && Settled(t, key, service)
            && (forall c :: c in s.calls && s.calls[c].phase.Returned? ==> c in t.calls && t.calls[c] == s.calls[c])
            && (forall c :: c in s.calls ==> c in t.calls && t.calls[c].key == s.calls[c].key)
            && forall c :: c in t.calls && c !in s.calls && t.calls[c].key == key ==>
                 t.calls[c].phase == Returned(Ok(service))
  {
  }

  /** Nothing ever leaves the cache: a settled entry stays through any further events, and every caller
      that arrives for it later is given it without a lookup. */
  lemma {:induction false} SettledStays(
    rows: map<RealmId, Keys>, s: State, key: Key, service: Service, events: seq<Event>)
    requires Settled(s, key, service)
    ensures var t := Run(rows, s, events);
            && Settled(t, key, service)
            && (forall c :: c in s.calls ==> c in t.calls && t.calls[c].key == s.calls[c].key)
            && forall c :: c in t.calls && c !in s.calls && t.calls[c].key == key ==>
                 t.calls[c].phase == Returned(Ok(service))
    decreases |events|
  {
    if events != [] {
      var front := events[..|events| - 1];
      SettledStays(rows, s, key, service, front);
      SettledStep(rows, Run(rows, s, front), key, service, events[|events| - 1]);
    }
  }

  lemma RunAppends(rows: map<RealmId, Keys>, s: State, events: seq<Event>, e: Event)
    ensures Run(rows, s, events + [e]) == Step(rows, Run(rows, s, events), e)
  {
    assert (events + [e])[..|events|] == events;
  }

  /** Any key whose realm has its own keys can be spoilt for good: after one failed lookup, whatever happens,
      every later caller is given the global service. */
  lemma OneFailureSpoilsTheKey(rows: map<RealmId, Keys>, key: Key, c: CallId) returns (events: seq<Event>)
    requires key.0 in rows
    ensures Direct(rows, key) != Ok(GlobalService(key.1))
    ensures forall more, d ::
              var s := Run(rows, INIT, events);
              var t := Run(rows, s, more);
              d in t.calls && d !in s.calls && t.calls[d].key == key ==>
                t.calls[d].phase == Returned(Ok(GlobalService(key.1)))
  {
    var e0, e1, e2 := Arrive(c, key), LookUp(c, Some(LookupFailed)), Store(c);
    RunAppends(rows, INIT, [], e0);
    RunAppends(rows, INIT, [] + [e0], e1);
    RunAppends(rows, INIT, [] + [e0] + [e1], e2);
    events := [] + [e0] + [e1] + [e2];
    var s := Run(rows, INIT, events);
    assert Settled(s, key, GlobalService(key.1));
    forall more, d |
      && d in Run(rows, s, more).calls && d !in s.calls && Run(rows, s, more).calls[d].key == key
      ensures Run(rows, s, more).calls[d].phase == Returned(Ok(GlobalService(key.1)))
    {
      SettledStays(rows, s, key, GlobalService(key.1), more);
    }
  }

  // ----- One caller at a time -----

  class RealmTokenServices {
    var cache: map<Key, Service>

    constructor ()
      ensures cache == map[]
    {
      cache := map[];
    }

    /** The whole of `token_service_for_realm_with_issuer`; `answer` is what the database says if asked. */
    method ForRealmWithIssuer(key: Key, answer: Answer) returns (r: Result<Service, ()>)
      modifies this
      ensures r == if key in old(cache) then Ok(old(cache)[key]) else Load(answer, key.1)
      ensures cache == if r.Ok? then old(cache)[key := r.value] else old(cache)
    {
      if key in cache {
        return Ok(cache[key]);
      }
      match answer {
        case NoConnection =>
          return Err(());
        case Row(Some(keys)) =>
          if !keys.usable {
            return Err(());
          }
          var service := RealmService(keys.material, key.1);
          cache := cache[key := service];
          r := Ok(service);
        case _ =>
          var service := GlobalService(key.1);
          cache := cache[key := service];
          r := Ok(service);
      }
    }
  }

  // ----- Which realm an issuer names -----

  function TrimSlashes(s: string): string {
    if s != "" && s[|s| - 1] == '/' then TrimSlashes(s[..|s| - 1]) else s
  }

  function Slashes(n: nat): string {
    if n == 0 then "" else Slashes(n - 1) + "/"
  }

  predicate EndsInSlash(s: string) {
    s != "" && s[|s| - 1] == '/'
  }

  lemma {:induction false} TrimmedAway(s: string) returns (n: nat)
    ensures s == TrimSlashes(s) + Slashes(n) && !EndsInSlash(TrimSlashes(s))
    decreases |s|
  {
    if EndsInSlash(s) {
      var front := s[..|s| - 1];
      var k := TrimmedAway(front);
      n := k + 1;
      assert s == front + "/";
      Regroup(TrimSlashes(s), Slashes(k), "/");
    } else {
      n := 0;
      assert s == s + "";
    }
  }

  lemma {:induction false} SlashesGo(t: string, n: nat)
    requires !EndsInSlash(t)
    ensures TrimSlashes(t + Slashes(n)) == t
  {
    if n == 0 {
      assert t + "" == t;
    } else {
      SlashesGo(t, n - 1);
      Regroup(t, Slashes(n - 1), "/");
      var s := t + Slashes(n);
      assert s[|s| - 1] == '/' && s[..|s| - 1] == t + Slashes(n - 1);
    }
  }

  /** All slashes at the end are cut off, and nothing else. */
  lemma TrimmedExactly(s: string, t: string)
    ensures TrimSlashes(s) == t <==> !EndsInSlash(t) && exists n: nat :: s == t + Slashes(n)
  {
    var k := TrimmedAway(s);
    if n: nat :| s == t + Slashes(n) && !EndsInSlash(t) {
      SlashesGo(t, n);
    }
  }

  datatype IssuerError = InvalidIssuer | DatabaseFailed

  /** `resolve_realm_id_from_issuer`; `realms` are the stored realms by name, none if they cannot be read. */
  function RealmOfIssuer(base: string, issuer: string, realms: Option<map<string, RealmId>>):
    Result<Option<RealmId>, IssuerError>
  {
    var b, i := TrimSlashes(base), TrimSlashes(issuer);
    var prefix := b + "/realms/";
    if i == b || !(prefix <= i) then Ok(None)
    else
      var name := i[|prefix|..];
      if name == "" || '/' in name then Err(InvalidIssuer)
      else if realms.None? then Err(DatabaseFailed)
      else if name !in realms.value then Err(InvalidIssuer)
      else Ok(Some(realms.value[name]))
  }

  /** `issuer` is the issuer of the realm called `name`, up to trailing slashes. */
  predicate IsRealmIssuer(base: string, issuer: string, name: string) {
    name != "" && '/' !in name && TrimSlashes(issuer) == TrimSlashes(base) + "/realms/" + name
  }

  /** An issuer resolves to a realm exactly when it is the issuer of a stored realm with that identifier. */
  lemma IssuerNamesRealmExactly(base: string, issuer: string, realms: map<string, RealmId>, id: RealmId)
    ensures RealmOfIssuer(base, issuer, Some(realms)) == Ok(Some(id))
       <==> exists name :: name in realms && realms[name] == id && IsRealmIssuer(base, issuer, name)
  {
    var prefix := TrimSlashes(base) + "/realms/";
    var i := TrimSlashes(issuer);
    forall name
      ensures i == prefix + name ==> prefix <= i && i[|prefix|..] == name
    {
    }
    if prefix <= i {
      assert i == prefix + i[|prefix|..];
      assert i[|prefix|..] in realms ==>
               (IsRealmIssuer(base, issuer, i[|prefix|..]) <==> i[|prefix|..] != "" && '/' !in i[|prefix|..]);
    }
  }

  /** It is turned away exactly when it begins like a realm issuer and no stored realm has it. */
  lemma IssuerRejectedExactly(base: string, issuer: string, realms: map<string, RealmId>)
    ensures RealmOfIssuer(base, issuer, Some(realms)).Err?
       <==> && TrimSlashes(base) + "/realms/" <= TrimSlashes(issuer)
            && forall name :: name in realms ==> !IsRealmIssuer(base, issuer, name)
  {
    var prefix := TrimSlashes(base) + "/realms/";
    var i := TrimSlashes(issuer);
    forall name
      ensures i == prefix + name ==> prefix <= i && i[|prefix|..] == name
    {
    }
    if prefix <= i {
      assert i == prefix + i[|prefix|..];
    }
  }

  /** Without an answer from the database an issuer that could be a realm's is an error, any other as with one. */
  lemma NoDatabase(base: string, issuer: string, realms: map<string, RealmId>)
    ensures var without, with := RealmOfIssuer(base, issuer, None), RealmOfIssuer(base, issuer, Some(realms));
            && (without == Err(DatabaseFailed) <==> exists name :: IsRealmIssuer(base, issuer, name))
            && (without != Err(DatabaseFailed) ==> without == with)
  {
    var prefix := TrimSlashes(base) + "/realms/";
    var i := TrimSlashes(issuer);
    forall name
      ensures i == prefix + name ==> prefix <= i && i[|prefix|..] == name
    {
    }
    if prefix <= i {
      assert i == prefix + i[|prefix|..];
      assert IsRealmIssuer(base, issuer, i[|prefix|..]) <==> i[|prefix|..] != "" && '/' !in i[|prefix|..];
    }
  }
}
