/** The session repository: token lookups, revocation of one session, of a token family and of a user. */
module Sessions {
  import opened Text

  type Id = nat
  type Time = int

  /** The fields that the repository reads or writes; the others are carried along unchanged. */
  datatype Session = Session(
    id: Id, userId: Option<Id>, accessHash: string, refreshHash: Option<string>, revoked: bool, expiresAt: Time,
    familyId: Option<Id>, rotatedAt: Option<Time>, reusedAt: Option<Time>, familyRevoked: bool)

  type Store = map<Id, Session>

  datatype Op =
    | Create(entity: Session)
    | Revoke(id: Id)
    | MarkRotated(id: Id)
    | MarkReused(id: Id)
    | RevokeFamily(familyId: Id)
    | RevokeByUser(userId: Id)

  /** What an operation does to a session that is already there. */
  function Touched(s: Session, op: Op, now: Time): Session {
    match op
    case Create(_) => s
    case Revoke(id) => if s.id == id then s.(revoked := true) else s
    case MarkRotated(id) => if s.id == id then s.(rotatedAt := Some(now)) else s
    case MarkReused(id) => if s.id == id then s.(reusedAt := Some(now)) else s
    case RevokeFamily(f) => if s.familyId == Some(f) then s.(revoked := true, familyRevoked := true) else s
    case RevokeByUser(u) => if s.userId == Some(u) then s.(revoked := true) else s
  }

  function Step(sessions: Store, op: Op, now: Time): Store {
    if op.Create? then sessions[op.entity.id := op.entity]
    else map id | id in sessions :: Touched(sessions[id], op, now)
  }

  /** Sessions are filed under their own ids. */
  ghost predicate Filed(sessions: Store) {
    forall id :: id in sessions ==> sessions[id].id == id
  }

  predicate AccessHit(s: Session, hash: string, now: Time) {
    s.accessHash == hash && !s.revoked && s.expiresAt > now
  }

  /** Lookup by refresh token does not look at any expiry. */
  predicate RefreshHit(s: Session, hash: string) {
    s.refreshHash == Some(hash) && !s.revoked
  }

  ghost predicate MayFindByAccess(sessions: Store, hash: string, now: Time, found: Option<Session>) {
    match found
    case None => forall id :: id in sessions ==> !AccessHit(sessions[id], hash, now)
    case Some(s) => AccessHit(s, hash, now) && exists id :: id in sessions && sessions[id] == s
  }

  ghost predicate MayFindByRefresh(sessions: Store, hash: string, found: Option<Session>) {
    match found
    case None => forall id :: id in sessions ==> !RefreshHit(sessions[id], hash)
    case Some(s) => RefreshHit(s, hash) && exists id :: id in sessions && sessions[id] == s
  }

  class InMemorySessionRepo {
    var sessions: Store

    constructor ()
      ensures sessions == map[]
    {
      sessions := map[];
    }

    method FindByAccessTokenHash(hash: string, now: Time) returns (found: Option<Session>)
      ensures MayFindByAccess(sessions, hash, now, found)
    {
      var remaining := sessions.Keys;
      while remaining != {}
        invariant remaining <= sessions.Keys
        invariant forall id :: id in sessions && id !in remaining ==> !AccessHit(sessions[id], hash, now)
        decreases |remaining|
      {
        var id :| id in remaining;
        if sessions[id].accessHash == hash && !sessions[id].revoked && sessions[id].expiresAt > now {
          return Some(sessions[id]);
        }
        remaining := remaining - {id};
      }
      found := None;
    }

    method FindByRefreshTokenHash(hash: string) returns (found: Option<Session>)
      ensures MayFindByRefresh(sessions, hash, found)
    {
      var remaining := sessions.Keys;
      while remaining != {}
        invariant remaining <= sessions.Keys
        invariant forall id :: id in sessions && id !in remaining ==> !RefreshHit(sessions[id], hash)
        decreases |remaining|
      {
        var id :| id in remaining;
        if sessions[id].refreshHash == Some(hash) && !sessions[id].revoked {
          return Some(sessions[id]);
        }
        remaining := remaining - {id};
      }
      found := None;
    }

    method CreateSession(entity: Session)
      requires Filed(sessions)
      modifies this
      ensures sessions == Step(old(sessions), Create(entity), 0) && Filed(sessions)
    {
      sessions := sessions[entity.id := entity];
    }

    method RevokeSession(id: Id)
      requires Filed(sessions)
      modifies this
      ensures sessions == Step(old(sessions), Revoke(id), 0) && Filed(sessions)
    {
      if id in sessions {
        sessions := sessions[id := sessions[id].(revoked := true)];
      }
    }

    method MarkSessionRotated(id: Id, now: Time)
      requires Filed(sessions)
      modifies this
      ensures sessions == Step(old(sessions), MarkRotated(id), now) && Filed(sessions)
    {
      if id in sessions {
        sessions := sessions[id := sessions[id].(rotatedAt := Some(now))];
      }
    }

    method MarkSessionReused(id: Id, now: Time)
      requires Filed(sessions)
      modifies this
      ensures sessions == Step(old(sessions), MarkReused(id), now) && Filed(sessions)
    {
      if id in sessions {
        sessions := sessions[id := sessions[id].(reusedAt := Some(now))];
      }
    }

    method RevokeTokenFamily(familyId: Id)
      requires Filed(sessions)
      modifies this
      ensures sessions == Step(old(sessions), RevokeFamily(familyId), 0) && Filed(sessions)
    {
      var remaining := sessions.Keys;
      while remaining != {}
        invariant remaining <= sessions.Keys == old(sessions).Keys && Filed(sessions)
        invariant forall id :: id in remaining ==> sessions[id] == old(sessions)[id]
        invariant forall id :: id in sessions && id !in remaining ==>
                    sessions[id] == Touched(old(sessions)[id], RevokeFamily(familyId), 0)
        decreases |remaining|
      {
        var id :| id in remaining;
        if sessions[id].familyId == Some(familyId) {
          sessions := sessions[id := sessions[id].(revoked := true, familyRevoked := true)];
        }
        remaining := remaining - {id};
      }
    }

    method RevokeUserSessions(userId: Id)
      requires Filed(sessions)
      modifies this
      ensures sessions == Step(old(sessions), RevokeByUser(userId), 0) && Filed(sessions)
    {
      var remaining := sessions.Keys;
      while remaining != {}
        invariant remaining <= sessions.Keys == old(sessions).Keys && Filed(sessions)
        invariant forall id :: id in remaining ==> sessions[id] == old(sessions)[id]
        invariant forall id :: id in sessions && id !in remaining ==>
                    sessions[id] == Touched(old(sessions)[id], RevokeByUser(userId), 0)
        decreases |remaining|
      {
        var id :| id in remaining;
        if sessions[id].userId == Some(userId) && !sessions[id].revoked {
          sessions := sessions[id := sessions[id].(revoked := true)];
        }
        remaining := remaining - {id};
      }
    }
  }

  // Runs.

  datatype Event = Event(op: Op, at: Time)

  /** Every created session has an id that is not in use. */
  predicate FreshIds(sessions: Store, run: seq<Event>)
    decreases |run|
  {
    run != [] ==>
      && (run[0].op.Create? ==> run[0].op.entity.id !in sessions)
      && FreshIds(Step(sessions, run[0].op, run[0].at), run[1..])
  }

  function After(sessions: Store, run: seq<Event>): Store
    decreases |run|
  {
    if run == [] then sessions else After(Step(sessions, run[0].op, run[0].at), run[1..])
  }

  /** An operation that revokes `s`. */
  predicate Hits(op: Op, s: Session) {
    || op == Revoke(s.id)
    || (op.RevokeFamily? && s.familyId == Some(op.familyId))
    || (op.RevokeByUser? && s.userId == Some(op.userId))
  }

  predicate HitIn(run: seq<Event>, s: Session) {
    exists i :: 0 <= i < |run| && Hits(run[i].op, s)
  }

  predicate FamilyHitIn(run: seq<Event>, s: Session) {
    s.familyId.Some? && exists i :: 0 <= i < |run| && run[i].op == RevokeFamily(s.familyId.value)
  }

  lemma HitSplits(run: seq<Event>, s: Session)
    requires run != []
    ensures HitIn(run, s) <==> Hits(run[0].op, s) || HitIn(run[1..], s)
    ensures FamilyHitIn(run, s) <==>
              (s.familyId.Some? && run[0].op == RevokeFamily(s.familyId.value)) || FamilyHitIn(run[1..], s)
  {
  }

  /** Only the id, the user and the family of a session say which operations reach it. */
  lemma SameHits(run: seq<Event>, s: Session, t: Session)
    requires s.id == t.id && s.userId == t.userId && s.familyId == t.familyId
    ensures HitIn(run, s) <==> HitIn(run, t)
    ensures FamilyHitIn(run, s) <==> FamilyHitIn(run, t)
  {
  }

  lemma StepTouches(sessions: Store, op: Op, now: Time, id: Id)
    requires Filed(sessions) && id in sessions && (op.Create? ==> op.entity.id != id)
    ensures Filed(Step(sessions, op, now)) && id in Step(sessions, op, now)
    ensures var s, t := sessions[id], Step(sessions, op, now)[id];
            && t.id == s.id && t.userId == s.userId && t.familyId == s.familyId && t.accessHash == s.accessHash
            && t.refreshHash == s.refreshHash && t.expiresAt == s.expiresAt
            && t.revoked == (s.revoked || Hits(op, s))
            && t.familyRevoked == (s.familyRevoked || (s.familyId.Some? && op == RevokeFamily(s.familyId.value)))
  {
  }

  /** The whole history of a stored session: what identifies it stays, and it is revoked, or revoked with its
      family, exactly when it was before or some operation of the run reached it. */
  lemma {:induction false} SessionAfterRun(sessions: Store, run: seq<Event>, id: Id)
    requires Filed(sessions) && FreshIds(sessions, run) && id in sessions
    ensures Filed(After(sessions, run)) && id in After(sessions, run)
    ensures var s, t := sessions[id], After(sessions, run)[id];
            && t.userId == s.userId && t.familyId == s.familyId && t.accessHash == s.accessHash
            && t.refreshHash == s.refreshHash && t.expiresAt == s.expiresAt
            && t.revoked == (s.revoked || HitIn(run, s))
            && t.familyRevoked == (s.familyRevoked || FamilyHitIn(run, s))
    decreases |run|
  {
    if run != [] {
      var next := Step(sessions, run[0].op, run[0].at);
      StepTouches(sessions, run[0].op, run[0].at, id);
      SessionAfterRun(next, run[1..], id);
      HitSplits(run, sessions[id]);
      SameHits(run[1..], sessions[id], next[id]);
    }
  }

  /** Family revocation is never recorded without revocation. */
  ghost predicate FamilyImpliesRevoked(sessions: Store) {
    forall id :: id in sessions && sessions[id].familyRevoked ==> sessions[id].revoked
  }

  /** A step keeps that exactly when it does not itself create a session that breaks it. */
  lemma InvariantKeptExactly(sessions: Store, op: Op, now: Time)
    requires FamilyImpliesRevoked(sessions)
    ensures FamilyImpliesRevoked(Step(sessions, op, now)) <==>
              (op.Create? && op.entity.familyRevoked ==> op.entity.revoked)
  {
    var next := Step(sessions, op, now);
    if op.Create? {
      assert op.entity.id in next && next[op.entity.id] == op.entity;
    }
  }

  ghost predicate CreatesKeepIt(run: seq<Event>) {
    forall i :: 0 <= i < |run| && run[i].op.Create? && run[i].op.entity.familyRevoked ==> run[i].op.entity.revoked
  }

  lemma {:induction false} RunKeepsInvariant(sessions: Store, run: seq<Event>)
    requires FamilyImpliesRevoked(sessions) && CreatesKeepIt(run)
    ensures FamilyImpliesRevoked(After(sessions, run))
    decreases |run|
  {
    if run != [] {
      InvariantKeptExactly(sessions, run[0].op, run[0].at);
      RunKeepsInvariant(Step(sessions, run[0].op, run[0].at), run[1..]);
    }
  }

  /** A revoked session is never found again, by either token. */
  lemma RevokedStaysHidden(
    sessions: Store, run: seq<Event>, id: Id, hash: string, now: Time, byAccess: Option<Session>,
    byRefresh: Option<Session>)
    requires Filed(sessions) && FreshIds(sessions, run) && id in sessions
    requires sessions[id].revoked || HitIn(run, sessions[id])
    requires MayFindByAccess(After(sessions, run), hash, now, byAccess)
    requires MayFindByRefresh(After(sessions, run), hash, byRefresh)
    ensures byAccess.Some? ==> byAccess.value.id != id
    ensures byRefresh.Some? ==> byRefresh.value.id != id
  {
    SessionAfterRun(sessions, run, id);
  }

  predicate CreatesIn(run: seq<Event>, id: Id) {
    exists i :: 0 <= i < |run| && run[i].op.Create? && run[i].op.entity.id == id
  }

  /** Event `i` of the run creates session `id` unrevoked, and nothing later replaces it or reaches it. */
  predicate Revives(run: seq<Event>, i: nat, id: Id) {
    && i < |run| && run[i].op.Create? && run[i].op.entity.id == id && !run[i].op.entity.revoked
    && !CreatesIn(run[i + 1..], id) && !HitIn(run[i + 1..], run[i].op.entity)
  }

  lemma RevivesLater(run: seq<Event>, id: Id)
    requires run != []
    ensures (exists i: nat :: Revives(run, i, id)) <==> Revives(run, 0, id) || exists i: nat :: Revives(run[1..], i, id)
    ensures CreatesIn(run, id) <==> (run[0].op.Create? && run[0].op.entity.id == id) || CreatesIn(run[1..], id)
  {
    assert run == [run[0]] + run[1..];
    forall i: nat | 1 <= i < |run|
      ensures Revives(run, i, id) <==> Revives(run[1..], i - 1, id)
    {
      assert run[i..] == run[1..][i - 1..] && run[i + 1..] == run[1..][i..];
    }
    if i: nat :| Revives(run[1..], i, id) {
      assert Revives(run, i + 1, id);
    }
    if i: nat :| Revives(run, i, id) && i > 0 {
      assert Revives(run[1..], i - 1, id);
    }
  }

  /** With ids that may repeat: a session is unrevoked in the end exactly when it was and stayed so without being
      replaced, or some event of the run created it anew and it stayed so since. */
  lemma {:induction false} UnrevokedExactly(sessions: Store, run: seq<Event>, id: Id)
    requires Filed(sessions) && id in sessions
    ensures Filed(After(sessions, run)) && id in After(sessions, run)
    ensures !After(sessions, run)[id].revoked <==>
              || (!CreatesIn(run, id) && !sessions[id].revoked && !HitIn(run, sessions[id]))
              || exists i: nat :: Revives(run, i, id)
    decreases |run|
  {
    if run != [] {
      var op, next := run[0].op, Step(sessions, run[0].op, run[0].at);
      RevivesLater(run, id);
      if op.Create? && op.entity.id == id {
        UnrevokedExactly(next, run[1..], id);
      } else {
        StepTouches(sessions, op, run[0].at, id);
        UnrevokedExactly(next, run[1..], id);
        HitSplits(run, sessions[id]);
        SameHits(run[1..], sessions[id], next[id]);
      }
    }
  }

  /** So without fresh ids a revoked session comes back exactly when a created one takes its place. */
  lemma BackToLifeExactly(sessions: Store, run: seq<Event>, id: Id)
    requires Filed(sessions) && id in sessions && sessions[id].revoked
    ensures id in After(sessions, run)
    ensures !After(sessions, run)[id].revoked <==> exists i: nat :: Revives(run, i, id)
  {
    UnrevokedExactly(sessions, run, id);
  }

  /** What becomes of a session does not depend on the state of any other. */
  lemma {:induction false} SessionsAreIndependent(a: Store, b: Store, run: seq<Event>, id: Id)
    requires Filed(a) && Filed(b) && a.Keys == b.Keys && id in a && a[id] == b[id] && FreshIds(a, run)
    ensures FreshIds(b, run) && id in After(a, run) && id in After(b, run) && After(a, run)[id] == After(b, run)[id]
    decreases |run|
  {
    if run != [] {
      StepTouches(a, run[0].op, run[0].at, id);
      StepTouches(b, run[0].op, run[0].at, id);
      SessionsAreIndependent(
        Step(a, run[0].op, run[0].at), Step(b, run[0].op, run[0].at), run[1..], id);
    }
  }

  /** Freshness looks at the ids in use alone. */
  lemma {:induction false} FreshIdsOnKeys(a: Store, b: Store, run: seq<Event>)
    requires a.Keys == b.Keys && FreshIds(a, run)
    ensures FreshIds(b, run)
    decreases |run|
  {
    if run != [] {
      FreshIdsOnKeys(Step(a, run[0].op, run[0].at), Step(b, run[0].op, run[0].at), run[1..]);
    }
  }

  /** Revoking a family hides its current members for good, and leaves every other session as it would have
      been without, in every later run. */
  lemma FamilyRevocationExactly(sessions: Store, f: Id, now: Time, run: seq<Event>, id: Id)
    requires Filed(sessions) && id in sessions && FreshIds(sessions, run)
    ensures var next := Step(sessions, RevokeFamily(f), now);
            && next.Keys == sessions.Keys && FreshIds(next, run) && id in After(next, run) && id in After(sessions, run)
            && (sessions[id].familyId == Some(f) ==> After(next, run)[id].revoked && After(next, run)[id].familyRevoked)
            && (sessions[id].familyId != Some(f) ==> After(next, run)[id] == After(sessions, run)[id])
  {
    var next := Step(sessions, RevokeFamily(f), now);
    StepTouches(sessions, RevokeFamily(f), now, id);
    FreshIdsOnKeys(sessions, next, run);
    SessionAfterRun(sessions, run, id);
    SessionAfterRun(next, run, id);
    if sessions[id].familyId != Some(f) {
      SessionsAreIndependent(sessions, next, run, id);
    }
  }

  /** A session is found, whatever happened since it was created, exactly until it expires or an operation
      after its creation revokes it. A family revoked earlier does not count. */
  lemma FoundExactly(sessions: Store, e: Session, run: seq<Event>, now: Time, found: Option<Session>)
    requires Filed(sessions) && e.id !in sessions && FreshIds(sessions[e.id := e], run)
    requires var final := After(sessions[e.id := e], run);
             && (forall id :: id in final && final[id].accessHash == e.accessHash ==> id == e.id)
             && MayFindByAccess(final, e.accessHash, now, found)
    ensures found.Some? <==> !e.revoked && !HitIn(run, e) && e.expiresAt > now
    ensures found.Some? ==> found.value.id == e.id
  {
    var final := After(sessions[e.id := e], run);
    SessionAfterRun(sessions[e.id := e], run, e.id);
    assert e.id in final;
  }

  /** The same for refresh tokens, which no expiry ends. */
  lemma FoundByRefreshExactly(sessions: Store, e: Session, run: seq<Event>, found: Option<Session>)
    requires Filed(sessions) && e.id !in sessions && FreshIds(sessions[e.id := e], run) && e.refreshHash.Some?
    requires var final := After(sessions[e.id := e], run);
             && (forall id :: id in final && final[id].refreshHash == e.refreshHash ==> id == e.id)
             && MayFindByRefresh(final, e.refreshHash.value, found)
    ensures found.Some? <==> !e.revoked && !HitIn(run, e)
    ensures found.Some? ==> found.value.id == e.id
  {
    var final := After(sessions[e.id := e], run);
    SessionAfterRun(sessions[e.id := e], run, e.id);
    assert e.id in final;
  }

  /** A refresh that creates the next session of a family after the family was revoked leaves it usable. */
  lemma LateMemberIsFound(sessions: Store, e: Session, f: Id, now: Time, found: Option<Session>)
    requires Filed(sessions) && e.id !in sessions && e.familyId == Some(f) && !e.revoked && e.expiresAt > now
    requires forall id :: id in sessions ==> sessions[id].accessHash != e.accessHash
    requires MayFindByAccess(Step(Step(sessions, RevokeFamily(f), now), Create(e), now), e.accessHash, now, found)
    ensures found == Some(e)
  {
    var final := Step(Step(sessions, RevokeFamily(f), now), Create(e), now);
    assert AccessHit(final[e.id], e.accessHash, now);
  }

  /** When the last such operation of a run was. */
  function LastAt(run: seq<Event>, op: Op): Option<Time> {
    if run == [] then None
    else
      var later := LastAt(run[1..], op);
      if later.None? && run[0].op == op then Some(run[0].at) else later
  }

  lemma StepMarks(sessions: Store, op: Op, now: Time, id: Id)
    requires Filed(sessions) && id in sessions && (op.Create? ==> op.entity.id != id)
    ensures Filed(Step(sessions, op, now)) && id in Step(sessions, op, now)
    ensures var s, t := sessions[id], Step(sessions, op, now)[id];
            && t.rotatedAt == (if op == MarkRotated(id) then Some(now) else s.rotatedAt)
            && t.reusedAt == (if op == MarkReused(id) then Some(now) else s.reusedAt)
  {
  }

  /** After any run the two marks of a session bear the times at which it was last rotated and last reused. */
  lemma {:induction false} MarksAfterRun(sessions: Store, run: seq<Event>, id: Id)
    requires Filed(sessions) && FreshIds(sessions, run) && id in sessions
    ensures id in After(sessions, run)
    ensures var s, t := sessions[id], After(sessions, run)[id];
            var rotated, reused := LastAt(run, MarkRotated(id)), LastAt(run, MarkReused(id));
            && t.rotatedAt == (if rotated.Some? then rotated else s.rotatedAt)
            && t.reusedAt == (if reused.Some? then reused else s.reusedAt)
    decreases |run|
  {
    if run != [] {
      StepMarks(sessions, run[0].op, run[0].at, id);
      MarksAfterRun(Step(sessions, run[0].op, run[0].at), run[1..], id);
    }
  }
}
