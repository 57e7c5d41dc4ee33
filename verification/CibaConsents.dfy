/** What interleaved approvals, revocations and decisions leave in the consent table. */
module CibaConsents {
  import opened Text
  import opened Ciba
  import opened CibaSafety

  // ----- Every write is accounted for by a read and a request -----

  /** Where an approving call can be once it has written its consent. */
  predicate PastWrite(p: Phase) {
    p == Deciding || p == Finished(Accepted) || p == Finished(AlreadyHandled)
  }

  /** A write in the log was made by an approving call of that user for a request of that client; it is what
      was stored when the call read, and what the request asks for. */
  predicate WriteInv(s: State, k: nat)
    requires k < |s.log|
  {
    s.log[k].ConsentWritten? ==>
      var x := s.log[k];
      && x.call in s.calls && s.calls[x.call].request in s.requests
      && var call, request := s.calls[x.call], s.requests[s.calls[x.call].request];
      && call.approve && PastWrite(call.phase)
      && call.user == request.user == x.user && request.client == x.client && request.scope == x.requested
      && x.readAt <= k && x.scopes == Stored(Replay(s.log[..x.readAt]), x.user, x.client) + x.requested
  }

  predicate ReadInv(s: State, c: Id)
    requires c in s.calls
  {
    var call := s.calls[c];
    call.phase.WritingConsent? ==>
      && call.request in s.requests && call.phase.readAt <= |s.log|
      && var request := s.requests[call.request];
      call.phase.combined
      == Stored(Replay(s.log[..call.phase.readAt]), call.user, request.client) + request.scope
  }

  ghost predicate Accounted(s: State) {
    && (forall k :: 0 <= k < |s.log| ==> WriteInv(s, k))
    && (forall c :: c in s.calls ==> ReadInv(s, c))
  }

  /** A step moves at most call `c`, and logs at most one entry. */
  ghost predicate Moves(s: State, t: State, c: Option<Id>) {
    && (forall r :: r in s.requests ==> r in t.requests && t.requests[r] == s.requests[r])
    && (forall d :: d in s.calls && Some(d) != c ==> d in t.calls && t.calls[d] == s.calls[d])
    && (forall d :: d in t.calls && d !in s.calls ==> Some(d) == c)
    && (c.Some? && c.value in s.calls ==>
          && c.value in t.calls && Continues(s.calls[c.value], t.calls[c.value])
          && (PastWrite(s.calls[c.value].phase) ==> PastWrite(t.calls[c.value].phase)))
    && (t.log == s.log || exists x :: t.log == s.log + [x])
  }

  lemma WriteStays(s: State, t: State, c: Option<Id>, k: nat)
    requires Moves(s, t, c) && k < |s.log| && WriteInv(s, k)
    ensures k < |t.log| && WriteInv(t, k)
  {
    assert t.log[k] == s.log[k];
    if s.log[k].ConsentWritten? {
      assert t.log[..s.log[k].readAt] == s.log[..s.log[k].readAt];
    }
  }

  lemma ReadStays(s: State, t: State, c: Option<Id>, d: Id)
    requires Moves(s, t, c) && d in s.calls && d in t.calls && t.calls[d] == s.calls[d] && ReadInv(s, d)
    ensures ReadInv(t, d)
  {
    if s.calls[d].phase.WritingConsent? && s.calls[d].phase.readAt <= |s.log| {
      assert t.log[..s.calls[d].phase.readAt] == s.log[..s.calls[d].phase.readAt];
    }
  }

  lemma AccountedStep(s: State, t: State, c: Option<Id>)
    requires Accounted(s) && Moves(s, t, c)
    requires t.log != s.log ==> WriteInv(t, |s.log|)
    requires c.Some? && c.value in t.calls ==> ReadInv(t, c.value)
    ensures Accounted(t)
  {
    forall k | 0 <= k < |t.log|
      ensures WriteInv(t, k)
    {
      if k < |s.log| {
        WriteStays(s, t, c, k);
      }
    }
    forall d | d in t.calls
      ensures ReadInv(t, d)
    {
      if Some(d) != c {
        ReadStays(s, t, c, d);
      }
    }
  }

  lemma ReadIsAccounted(s: State, c: Id)
    requires Inv(s) && Accounted(s) && c in s.calls && s.calls[c].phase == ReadingConsent
    ensures Accounted(ReadStep(s, c))
  {
    assert s.log[..|s.log|] == s.log;
    AccountedStep(s, ReadStep(s, c), Some(c));
  }

  lemma WriteIsAccounted(s: State, c: Id)
    requires Inv(s) && Accounted(s) && c in s.calls && s.calls[c].phase.WritingConsent?
    ensures Accounted(WriteStep(s, c))
  {
    assert CallInv(s, c) && ReadInv(s, c);
    var t, readAt := WriteStep(s, c), s.calls[c].phase.readAt;
    assert t.log[..readAt] == s.log[..readAt];
    AccountedStep(s, t, Some(c));
  }

  lemma DecideIsAccounted(s: State, c: Id)
    requires Accounted(s) && c in s.calls && s.calls[c].phase == Deciding
    ensures Accounted(DecideStep(s, c))
  {
    AccountedStep(s, DecideStep(s, c), Some(c));
  }

  lemma CheckIsAccounted(s: State, c: Id)
    requires Accounted(s) && c in s.calls && s.calls[c].phase == Checking
    ensures Accounted(CheckStep(s, c))
  {
    AccountedStep(s, CheckStep(s, c), Some(c));
  }

  lemma PollIsAccounted(s: State, r: Id, issues: bool)
    requires Accounted(s) && r in s.rows && r in s.requests
    ensures Accounted(PollStep(s, r, issues))
  {
    AccountedStep(s, PollStep(s, r, issues), None);
  }

  lemma QuietIsAccounted(s: State, e: Event)
    requires Accounted(s) && (e.Tick? || e.Create? || e.RevokeConsent? || e.Cleanup?)
    ensures Accounted(Step(s, e))
  {
    AccountedStep(s, Step(s, e), None);
  }

  lemma BeginIsAccounted(s: State, e: Event)
    requires Accounted(s) && e.Begin?
    ensures Accounted(Step(s, e))
  {
    AccountedStep(s, Step(s, e), if e.call in s.calls then None else Some(e.call));
  }

  lemma StepIsAccounted(s: State, e: Event)
    requires Inv(s) && Accounted(s)
    ensures Accounted(Step(s, e))
  {
    match e
    case Check(c) => if c in s.calls && s.calls[c].phase == Checking { CheckIsAccounted(s, c); }
    case ReadConsent(c) => if c in s.calls && s.calls[c].phase == ReadingConsent { ReadIsAccounted(s, c); }
    case WriteConsent(c) => if c in s.calls && s.calls[c].phase.WritingConsent? { WriteIsAccounted(s, c); }
    case Decide(c) => if c in s.calls && s.calls[c].phase == Deciding { DecideIsAccounted(s, c); }
    case PollTokens(r, issues) => if r in s.rows && r in s.requests { PollIsAccounted(s, r, issues); }
    case Begin(_, _, _, _, _) => BeginIsAccounted(s, e);
    case _ => QuietIsAccounted(s, e);
  }

  lemma {:induction false} RunIsAccounted(events: seq<Event>)
    ensures Accounted(Run(INIT, events))
    decreases |events|
  {
    if events != [] {
      RunIsAccounted(events[..|events| - 1]);
      RunKeeps(events[..|events| - 1]);
      StepIsAccounted(Run(INIT, events[..|events| - 1]), events[|events| - 1]);
    }
  }

  // ----- When a scope is stored -----

  predicate About(x: Entry, user: Id, client: Id) {
    (x.ConsentWritten? || x.ConsentRevoked?) && x.user == user && x.client == client
  }

  /** Going back from the last entry for the user and client, from each write to what its call had read, one
      comes to a write whose request asks for the scope. No stored scope is looked at. */
  predicate TracesToRequest(log: seq<Entry>, user: Id, client: Id, scope: string)
    decreases |log|
  {
    if log == [] then false
    else
      var front, x := log[..|log| - 1], log[|log| - 1];
      if !About(x, user, client) then TracesToRequest(front, user, client, scope)
      else
        && x.ConsentWritten?
        && (scope in x.requested
            || (x.readAt < |log| && TracesToRequest(log[..x.readAt], user, client, scope)))
  }

  lemma {:induction false} ReplayTraces(s: State, n: nat, user: Id, client: Id, scope: string)
    requires Accounted(s) && n <= |s.log|
    ensures scope in Stored(Replay(s.log[..n]), user, client) <==> TracesToRequest(s.log[..n], user, client, scope)
    decreases n
  {
    if n > 0 {
      var log, x := s.log[..n], s.log[n - 1];
      assert log[..n - 1] == s.log[..n - 1] && log[n - 1] == x;
      ReplayTraces(s, n - 1, user, client, scope);
      if x.ConsentWritten? && About(x, user, client) {
        assert WriteInv(s, n - 1);
        assert log[..x.readAt] == s.log[..x.readAt];
        ReplayTraces(s, x.readAt, user, client, scope);
      }
    }
  }

  /** In every run a scope is stored exactly when it traces back to a request for it. */
  lemma ScopeStoredExactly(events: seq<Event>, user: Id, client: Id, scope: string)
    ensures var s := Run(INIT, events);
            scope in Stored(s.consents, user, client) <==> TracesToRequest(s.log, user, client, scope)
  {
    var s := Run(INIT, events);
    RunKeeps(events);
    RunIsAccounted(events);
    assert s.log[..|s.log|] == s.log;
    ReplayTraces(s, |s.log|, user, client, scope);
  }

  // ----- What becomes of an approved request's scopes -----

  function LastAbout(log: seq<Entry>, user: Id, client: Id): (k: Option<nat>)
    ensures k.Some? ==> k.value < |log| && About(log[k.value], user, client)
    ensures forall j :: 0 <= j < |log| && About(log[j], user, client) ==> k.Some? && j <= k.value
  {
    if log == [] then None
    else if About(log[|log| - 1], user, client) then Some(|log| - 1)
    else LastAbout(log[..|log| - 1], user, client)
  }

  lemma {:induction false} TraceOfLast(log: seq<Entry>, user: Id, client: Id, scope: string)
    requires LastAbout(log, user, client).Some?
    ensures var x := log[LastAbout(log, user, client).value];
            TracesToRequest(log, user, client, scope) <==>
              && x.ConsentWritten?
              && (scope in x.requested
                  || (x.readAt <= LastAbout(log, user, client).value
                      && TracesToRequest(log[..x.readAt], user, client, scope)))
    decreases |log|
  {
    var front := log[..|log| - 1];
    if !About(log[|log| - 1], user, client) {
      TraceOfLast(front, user, client, scope);
      var k := LastAbout(front, user, client).value;
      assert log[k] == front[k];
      if log[k].ConsentWritten? && log[k].readAt <= k {
        assert front[..log[k].readAt] == log[..log[k].readAt];
      }
    }
  }

  /** Call `c` approved its request, and the approval took effect. */
  predicate TookEffect(s: State, c: Id) {
    && c in s.calls && s.calls[c].phase == Finished(Accepted) && s.calls[c].approve
    && s.calls[c].request in s.requests
  }

  /** A scope of an approved request is missing from the stored consent exactly when the last entry for the
      user and client, at or after the approval's own write, is a revocation, or a write by a call that did
      not ask for the scope and read the consent when the scope did not trace to a request. */
  lemma ApprovedScopeMissingExactly(events: seq<Event>, c: Id, scope: string)
    requires TookEffect(Run(INIT, events), c)
    requires var s := Run(INIT, events); scope in s.requests[s.calls[c].request].scope
    ensures var s := Run(INIT, events);
            var request := s.requests[s.calls[c].request];
            var last := LastAbout(s.log, request.user, request.client);
            && (exists i :: 0 <= i < |s.log| && last.Some? && i <= last.value
                         && s.log[i].ConsentWritten? && s.log[i].call == c)
            && var x := s.log[last.value];
            (scope !in Stored(s.consents, request.user, request.client) <==>
              || x.ConsentRevoked?
              || (scope !in x.requested && x.readAt <= last.value
                  && !TracesToRequest(s.log[..x.readAt], request.user, request.client, scope)))
  {
    var s := Run(INIT, events);
    var request := s.requests[s.calls[c].request];
    RunKeeps(events);
    RunIsAccounted(events);
    assert CallInv(s, c);
    var i :| 0 <= i < |s.log| && s.log[i].ConsentWritten? && s.log[i].call == c
      && s.log[i].user == s.calls[c].user && s.log[i].client == request.client;
    assert About(s.log[i], request.user, request.client);
    assert WriteInv(s, LastAbout(s.log, request.user, request.client).value);
    ScopeStoredExactly(events, request.user, request.client, scope);
    TraceOfLast(s.log, request.user, request.client, scope);
  }

  lemma {:induction false} LaterWritesKeep(s: State, i: nat, n: nat, user: Id, client: Id, scope: string)
    requires Accounted(s) && i < n <= |s.log| && s.log[i].ConsentWritten?
    requires About(s.log[i], user, client) && scope in s.log[i].scopes
    requires forall k :: i < k < n && About(s.log[k], user, client) ==>
               s.log[k].ConsentWritten? && s.log[k].readAt > i
    ensures scope in Stored(Replay(s.log[..n]), user, client)
    decreases n
  {
    var x := s.log[n - 1];
    assert s.log[..n][..n - 1] == s.log[..n - 1];
    if i < n - 1 {
      if About(x, user, client) {
        assert WriteInv(s, n - 1);
        LaterWritesKeep(s, i, x.readAt, user, client, scope);
      } else {
        LaterWritesKeep(s, i, n - 1, user, client, scope);
      }
    }
  }

  /** Grants that do not overlap lose nothing: if after an approval's write every entry for its user and client
      is a write that read later than that, then all scopes of the approved request are stored. */
  lemma ApprovedScopesStayWithoutOverlap(events: seq<Event>, c: Id, i: nat)
    requires TookEffect(Run(INIT, events), c)
    requires var s := Run(INIT, events); i < |s.log| && s.log[i].ConsentWritten? && s.log[i].call == c
    requires var s := Run(INIT, events);
             forall k :: i < k < |s.log| && About(s.log[k], s.log[i].user, s.log[i].client) ==>
               s.log[k].ConsentWritten? && s.log[k].readAt > i
    ensures var s := Run(INIT, events);
            var request := s.requests[s.calls[c].request];
            request.scope <= Stored(s.consents, request.user, request.client)
  {
    var s := Run(INIT, events);
    RunKeeps(events);
    RunIsAccounted(events);
    assert WriteInv(s, i);
    assert s.log[..|s.log|] == s.log;
    var request := s.requests[s.calls[c].request];
    forall scope | scope in request.scope
      ensures scope in Stored(s.consents, request.user, request.client)
    {
      LaterWritesKeep(s, i, |s.log|, request.user, request.client, scope);
    }
  }

  // ----- When an approval is too late -----

  ghost predicate Undecided(log: seq<Entry>, r: Id) {
    !DecidedIn(log, r, true) && !DecidedIn(log, r, false)
  }

  ghost predicate DecidedByOther(log: seq<Entry>, r: Id, c: Id) {
    exists k :: 0 <= k < |log| && log[k].Decided? && log[k].request == r && log[k].call != c
  }

  /** In every run a decision that is due takes effect exactly when nobody has decided the request and it has not
      expired. The stored status, clean-up and token polls do not come into it. */
  lemma DecisionTakesEffectExactly(events: seq<Event>, c: Id)
    requires var s := Run(INIT, events); c in s.calls && s.calls[c].phase == Deciding
    ensures var s := Run(INIT, events);
            var r := s.calls[c].request;
            && r in s.requests
            && (Step(s, Decide(c)).calls[c].phase == Finished(Accepted) <==>
                  Undecided(s.log, r) && s.now < s.requests[r].expiresAt)
            && (Step(s, Decide(c)).calls[c].phase == Finished(AlreadyHandled) <==>
                  !Undecided(s.log, r) || s.requests[r].expiresAt <= s.now)
  {
    var s := Run(INIT, events);
    RunKeeps(events);
    assert CallInv(s, c);
    var r := s.calls[c].request;
    assert RequestInv(s, r);
    if r in s.rows {
      assert RowInv(s, r);
    }
  }

  /** A call that was too late: another call has decided, or nobody has and the request has expired. */
  ghost predicate LateInv(s: State, c: Id)
    requires c in s.calls
  {
    s.calls[c].phase == Finished(AlreadyHandled) ==>
      var r := s.calls[c].request;
      && r in s.requests
      && (DecidedByOther(s.log, r, c) || (Undecided(s.log, r) && s.requests[r].expiresAt <= s.now))
  }

  lemma OwnDecisionWasAccepted(s: State, c: Id)
    requires Inv(s) && c in s.calls && s.calls[c].phase != Finished(Accepted)
    ensures forall k :: 0 <= k < |s.log| && s.log[k].Decided? ==> s.log[k].call != c
  {
    forall k | 0 <= k < |s.log| && s.log[k].Decided?
      ensures s.log[k].call != c
    {
      assert EntryInv(s, k);
    }
  }

  lemma DecisionsStay(log: seq<Entry>, more: seq<Entry>, r: Id, c: Id)
    requires log <= more && DecidedByOther(log, r, c)
    ensures DecidedByOther(more, r, c)
  {
    var k :| 0 <= k < |log| && log[k].Decided? && log[k].request == r && log[k].call != c;
    assert more[k] == log[k];
  }

  /** What a step can add to the log about a request: nothing once it has expired. */
  lemma NoLateDecision(s: State, e: Event, r: Id)
    requires r in s.requests && s.requests[r].expiresAt <= s.now && Undecided(s.log, r)
    ensures Undecided(Step(s, e).log, r)
  {
  }

  lemma StepGrows(s: State, e: Event)
    ensures var t := Step(s, e);
            && s.log <= t.log && s.now <= t.now
            && forall r :: r in s.requests ==> r in t.requests && t.requests[r] == s.requests[r]
  {
  }

  lemma StepPhase(s: State, e: Event, c: Id)
    requires c in s.calls
    ensures var t := Step(s, e);
            && c in t.calls && t.calls[c].request == s.calls[c].request
            && (t.calls[c].phase == Finished(AlreadyHandled) ==>
                  s.calls[c].phase == Finished(AlreadyHandled) || (e == Decide(c) && s.calls[c].phase == Deciding))
            && (s.calls[c].phase == Finished(AlreadyHandled) ==> t.calls[c] == s.calls[c])
  {
  }

  /** A call that is new to a step has only begun. */
  lemma NewCall(s: State, e: Event, c: Id)
    requires c !in s.calls && c in Step(s, e).calls
    ensures Step(s, e).calls[c].phase == Checking
  {
  }

  lemma LateStep(s: State, e: Event, c: Id)
    requires c in s.calls && LateInv(s, c) && s.calls[c].phase == Finished(AlreadyHandled)
    ensures c in Step(s, e).calls && LateInv(Step(s, e), c)
  {
    StepPhase(s, e, c);
    StepGrows(s, e);
    var r := s.calls[c].request;
    if DecidedByOther(s.log, r, c) {
      DecisionsStay(s.log, Step(s, e).log, r, c);
    } else {
      NoLateDecision(s, e, r);
    }
  }

  lemma AnyDecision(log: seq<Entry>, r: Id, c: Id)
    requires forall k :: 0 <= k < |log| && log[k].Decided? ==> log[k].call != c
    ensures !Undecided(log, r) ==> DecidedByOther(log, r, c)
  {
  }

  lemma RefusedIsLate(events: seq<Event>, c: Id)
    requires var s := Run(INIT, events); c in s.calls && s.calls[c].phase == Deciding
    ensures var t := Step(Run(INIT, events), Decide(c)); c in t.calls && LateInv(t, c)
  {
    var s := Run(INIT, events);
    RunKeeps(events);
    DecisionTakesEffectExactly(events, c);
    OwnDecisionWasAccepted(s, c);
    AnyDecision(s.log, s.calls[c].request, c);
  }

  lemma {:induction false} RunIsLate(events: seq<Event>, c: Id)
    ensures c in Run(INIT, events).calls ==> LateInv(Run(INIT, events), c)
    decreases |events|
  {
    if events != [] {
      var front, e := events[..|events| - 1], events[|events| - 1];
      var s := Run(INIT, front);
      RunIsLate(front, c);
      if c in s.calls {
        StepPhase(s, e, c);
        if s.calls[c].phase == Finished(AlreadyHandled) {
          LateStep(s, e, c);
        } else if e == Decide(c) && s.calls[c].phase == Deciding {
          RefusedIsLate(front, c);
        }
      } else if c in Step(s, e).calls {
        NewCall(s, e, c);
      }
    }
  }

  lemma AcceptedDecided(s: State, c: Id)
    requires Inv(s) && c in s.calls && s.calls[c].phase == Finished(Accepted)
    ensures var r := s.calls[c].request;
            && r in s.requests && DecidedIn(s.log, r, s.calls[c].approve) && !DecidedByOther(s.log, r, c)
  {
    assert CallInv(s, c);
    var r := s.calls[c].request;
    var j :| 0 <= j < |s.log| && s.log[j].Decided? && s.log[j].call == c && s.log[j].request == r;
    assert EntryInv(s, j);
  }

  /** In every run: of a call that has tried to decide, exactly when it was too late. Another call's decision is in
      the log, or none is and the request has expired; otherwise the call's own decision is there. */
  lemma TooLateExactly(events: seq<Event>, c: Id)
    requires var s := Run(INIT, events);
             c in s.calls && s.calls[c].phase in {Finished(Accepted), Finished(AlreadyHandled)}
    ensures var s := Run(INIT, events);
            var r := s.calls[c].request;
            && r in s.requests
            && (s.calls[c].phase == Finished(AlreadyHandled) <==> DecidedByOther(s.log, r, c) || Undecided(s.log, r))
            && (Undecided(s.log, r) ==> s.requests[r].expiresAt <= s.now)
            && (s.calls[c].phase == Finished(Accepted) ==> DecidedIn(s.log, r, s.calls[c].approve))
  {
    RunKeeps(events);
    RunIsLate(events, c);
    if Run(INIT, events).calls[c].phase == Finished(Accepted) {
      AcceptedDecided(Run(INIT, events), c);
    }
  }

  lemma {:induction false} Origin(log: seq<Entry>, user: Id, client: Id, scope: string) returns (k: nat)
    requires TracesToRequest(log, user, client, scope)
    ensures k < |log| && log[k].ConsentWritten? && About(log[k], user, client) && scope in log[k].requested
    decreases |log|
  {
    var x := log[|log| - 1];
    if !About(x, user, client) {
      k := Origin(log[..|log| - 1], user, client, scope);
    } else if scope in x.requested {
      k := |log| - 1;
    } else {
      k := Origin(log[..x.readAt], user, client, scope);
    }
  }

  /** Behind every stored scope stands an approving call for a request of that user and client which asks for
      it. Unless that call has yet to decide, its approval took effect exactly when no other call has decided the
      request and the request is not left undecided, which is only at its expiry. */
  lemma StoredScopeHasApprovingCall(events: seq<Event>, user: Id, client: Id, scope: string) returns (c: Id)
    requires scope in Stored(Run(INIT, events).consents, user, client)
    ensures var s := Run(INIT, events);
            && c in s.calls && s.calls[c].approve && s.calls[c].user == user && s.calls[c].request in s.requests
            && var request := s.requests[s.calls[c].request];
            && request.user == user && request.client == client && scope in request.scope
            && PastWrite(s.calls[c].phase)
            && (s.calls[c].phase != Deciding && s.calls[c].phase != Finished(AlreadyHandled) ==>
                  DecidedIn(s.log, s.calls[c].request, true))
            && (s.calls[c].phase != Deciding ==>
                  (TookEffect(s, c) <==>
                     !DecidedByOther(s.log, s.calls[c].request, c) && !Undecided(s.log, s.calls[c].request))
                  && (Undecided(s.log, s.calls[c].request) ==> request.expiresAt <= s.now))
  {
    var s := Run(INIT, events);
    RunKeeps(events);
    RunIsAccounted(events);
    ScopeStoredExactly(events, user, client, scope);
    var k := Origin(s.log, user, client, scope);
    assert WriteInv(s, k);
    c := s.log[k].call;
    if s.calls[c].phase != Deciding {
      TooLateExactly(events, c);
    }
  }

  predicate AsksFor(s: State, r: Id, user: Id, client: Id, scope: string) {
    && r in s.requests && s.requests[r].user == user && s.requests[r].client == client
    && scope in s.requests[r].scope
  }

  /** Entry `k` is a write for the user and client by a call that asked for the scope. */
  predicate WriteFor(log: seq<Entry>, k: nat, user: Id, client: Id, scope: string) {
    k < |log| && log[k].ConsentWritten? && About(log[k], user, client) && scope in log[k].requested
  }

  /** Some request of the user and client that asks for the scope was approved. */
  ghost predicate ApprovedFor(s: State, user: Id, client: Id, scope: string) {
    exists r :: AsksFor(s, r, user, client, scope) && DecidedIn(s.log, r, true)
  }

  /** The call that made write `k` has not had its request approved: it is denied, or expired undecided, or still
      to be decided. */
  ghost predicate WroteInVain(s: State, k: nat)
    requires k < |s.log| && s.log[k].ConsentWritten?
  {
    s.log[k].call in s.calls
    && var c := s.log[k].call;
    var r := s.calls[c].request;
    && r in s.requests
    && (|| DecidedIn(s.log, r, false)
        || (Undecided(s.log, r) && (s.calls[c].phase == Deciding || s.requests[r].expiresAt <= s.now)))
  }

  lemma WriteInVain(events: seq<Event>, k: nat)
    requires var log := Run(INIT, events).log; k < |log| && log[k].ConsentWritten?
    ensures var s := Run(INIT, events);
            && s.log[k].call in s.calls
            && (WroteInVain(s, k) <==> !DecidedIn(s.log, s.calls[s.log[k].call].request, true))
  {
    var s := Run(INIT, events);
    RunKeeps(events);
    RunIsAccounted(events);
    assert WriteInv(s, k);
    var c := s.log[k].call;
    DecidedOneWay(s.log, s.calls[c].request);
    if s.calls[c].phase != Deciding {
      TooLateExactly(events, c);
    }
  }

  /** An approved request has a write of its own. */
  lemma ApprovalWrote(events: seq<Event>, r: Id, scope: string) returns (k: nat)
    requires var s := Run(INIT, events); r in s.requests && scope in s.requests[r].scope && DecidedIn(s.log, r, true)
    ensures var s := Run(INIT, events);
            && k < |s.log| && s.log[k].ConsentWritten? && scope in s.log[k].requested
            && About(s.log[k], s.requests[r].user, s.requests[r].client)
            && s.log[k].call in s.calls && s.calls[s.log[k].call].request == r
  {
    var s := Run(INIT, events);
    RunKeeps(events);
    RunIsAccounted(events);
    var j :| 0 <= j < |s.log| && s.log[j].Decided? && s.log[j].request == r && s.log[j].approve;
    assert EntryInv(s, j);
    var c := s.log[j].call;
    k :| 0 <= k < |s.log[..j]| && s.log[..j][k].ConsentWritten? && s.log[..j][k].call == c
      && s.log[..j][k].user == s.calls[c].user && s.log[..j][k].client == s.requests[r].client;
    assert s.log[k] == s.log[..j][k] && WriteInv(s, k);
  }

  /** In every run: a stored scope has no approved request behind it exactly when every call that wrote the scope
      because its own request asks for it did so in vain, the request being denied, expired undecided, or still
      to be decided; and there is such a call. */
  lemma StoredWithoutApprovalExactly(events: seq<Event>, user: Id, client: Id, scope: string)
    requires scope in Stored(Run(INIT, events).consents, user, client)
    ensures var s := Run(INIT, events);
            && (!ApprovedFor(s, user, client, scope) <==>
                  forall k: nat :: WriteFor(s.log, k, user, client, scope) ==> WroteInVain(s, k))
            && exists k: nat :: WriteFor(s.log, k, user, client, scope)
  {
    var s := Run(INIT, events);
    ScopeStoredExactly(events, user, client, scope);
    var origin := Origin(s.log, user, client, scope);
    assert WriteFor(s.log, origin, user, client, scope);
    if ApprovedFor(s, user, client, scope) {
      var r :| AsksFor(s, r, user, client, scope) && DecidedIn(s.log, r, true);
      var k := ApprovalWrote(events, r, scope);
      assert WriteFor(s.log, k, user, client, scope);
      WriteInVain(events, k);
    } else {
      forall k: nat | WriteFor(s.log, k, user, client, scope)
        ensures WroteInVain(s, k)
      {
        WriteInVain(events, k);
        RunIsAccounted(events);
        assert WriteInv(s, k);
        assert AsksFor(s, s.calls[s.log[k].call].request, user, client, scope);
      }
    }
  }

  // ----- One grant and what happens between its halves -----

  lemma WaitingCallStep(s: State, c: Id, e: Event)
    requires c in s.calls && s.calls[c].phase.WritingConsent? && s.calls[c].request in s.requests
    requires e != WriteConsent(c)
    ensures var t := Step(s, e);
            && c in t.calls && t.calls[c] == s.calls[c]
            && s.calls[c].request in t.requests
            && t.requests[s.calls[c].request] == s.requests[s.calls[c].request]
  {
  }

  lemma {:induction false} WaitingCallStays(s: State, c: Id, events: seq<Event>)
    requires c in s.calls && s.calls[c].phase.WritingConsent? && s.calls[c].request in s.requests
    requires WriteConsent(c) !in events
    ensures var t := Run(s, events);
            && c in t.calls && t.calls[c] == s.calls[c]
            && s.calls[c].request in t.requests
            && t.requests[s.calls[c].request] == s.requests[s.calls[c].request]
    decreases |events|
  {
    if events != [] {
      WaitingCallStays(s, c, events[..|events| - 1]);
      WaitingCallStep(Run(s, events[..|events| - 1]), c, events[|events| - 1]);
    }
  }

  /** Whatever happens between the two halves of a grant, revocations included, its write leaves what it read
      and the request's scopes. */
  lemma GrantWritesWhatItRead(s: State, c: Id, between: seq<Event>)
    requires c in s.calls && s.calls[c].phase == ReadingConsent && s.calls[c].request in s.requests
    requires WriteConsent(c) !in between
    ensures var request := s.requests[s.calls[c].request];
            var t := Step(Run(ReadStep(s, c), between), WriteConsent(c));
            Stored(t.consents, s.calls[c].user, request.client)
            == Stored(s.consents, s.calls[c].user, request.client) + request.scope
  {
    WaitingCallStays(ReadStep(s, c), c, between);
  }

  /** A revocation between the halves is undone: it empties the consent, and the write brings back all that was
      stored before it. */
  lemma RevocationIsUndone(s: State, c: Id, before: seq<Event>)
    requires c in s.calls && s.calls[c].phase == ReadingConsent && s.calls[c].request in s.requests
    requires WriteConsent(c) !in before
    ensures var user, client := s.calls[c].user, s.requests[s.calls[c].request].client;
            var revoked := Run(ReadStep(s, c), before + [RevokeConsent(user, client)]);
            && Stored(revoked.consents, user, client) == {}
            && Stored(s.consents, user, client) <= Stored(Step(revoked, WriteConsent(c)).consents, user, client)
  {
    var user, client := s.calls[c].user, s.requests[s.calls[c].request].client;
    var between := before + [RevokeConsent(user, client)];
    assert between[..|before|] == before;
    GrantWritesWhatItRead(s, c, between);
  }

  lemma ConsentStep(s: State, e: Event, user: Id, client: Id, scope: string)
    ensures var t := Step(s, e);
            && s.log <= t.log
            && (scope in Stored(t.consents, user, client) && scope !in Stored(s.consents, user, client) ==>
                  && |t.log| == |s.log| + 1 && t.log[|s.log|].ConsentWritten?
                  && About(t.log[|s.log|], user, client) && scope in t.log[|s.log|].scopes
                  && e == WriteConsent(t.log[|s.log|].call))
  {
  }

  lemma {:induction false} LogGrows(s: State, events: seq<Event>)
    ensures s.log <= Run(s, events).log
    decreases |events|
  {
    if events != [] {
      LogGrows(s, events[..|events| - 1]);
      ConsentStep(Run(s, events[..|events| - 1]), events[|events| - 1], 0, 0, "");
    }
  }

  lemma {:induction false} NewScopeWasWritten(
    s: State, events: seq<Event>, c: Id, user: Id, client: Id, scope: string) returns (k: nat)
    requires WriteConsent(c) !in events
    requires scope in Stored(Run(s, events).consents, user, client) && scope !in Stored(s.consents, user, client)
    ensures var t := Run(s, events);
            && |s.log| <= k < |t.log| && t.log[k].ConsentWritten? && t.log[k].call != c
            && About(t.log[k], user, client) && scope in t.log[k].scopes
    decreases |events|
  {
    var front, e := events[..|events| - 1], events[|events| - 1];
    var u := Run(s, front);
    ConsentStep(u, e, user, client, scope);
    if scope in Stored(u.consents, user, client) {
      k := NewScopeWasWritten(s, front, c, user, client, scope);
      assert Run(s, events).log[k] == u.log[k];
    } else {
      LogGrows(s, front);
      k := |u.log|;
      assert e in events;
    }
  }

  /** Some call of the user for the client has read scopes and is about to write them. */
  ghost predicate WriteAhead(s: State, user: Id, client: Id) {
    exists c :: c in s.calls && s.calls[c].user == user && s.calls[c].request in s.requests
             && s.requests[s.calls[c].request].client == client
             && s.calls[c].phase.WritingConsent? && s.calls[c].phase.combined != {}
  }

  predicate NoReads(events: seq<Event>) {
    forall e :: e in events ==> !e.ReadConsent?
  }

  lemma WritingIsOld(s: State, e: Event, c: Id)
    requires !e.ReadConsent? && c in Step(s, e).calls && Step(s, e).calls[c].phase.WritingConsent?
    ensures c in s.calls && Step(s, e).calls[c] == s.calls[c]
  {
  }

  lemma ConsentsShrink(s: State, e: Event, user: Id, client: Id)
    requires !e.WriteConsent?
    ensures Stored(Step(s, e).consents, user, client) <= Stored(s.consents, user, client)
  {
  }

  lemma WritesNothing(s: State, c: Id, user: Id, client: Id)
    requires Inv(s) && !WriteAhead(s, user, client) && Stored(s.consents, user, client) == {}
    ensures Stored(Step(s, WriteConsent(c)).consents, user, client) == {}
  {
    if c in s.calls && s.calls[c].phase.WritingConsent? {
      assert CallInv(s, c);
    }
  }

  lemma StaysRevokedStep(s: State, e: Event, user: Id, client: Id)
    requires Inv(s) && !e.ReadConsent? && !WriteAhead(s, user, client) && Stored(s.consents, user, client) == {}
    ensures !WriteAhead(Step(s, e), user, client) && Stored(Step(s, e).consents, user, client) == {}
  {
    var t := Step(s, e);
    StepGrows(s, e);
    forall c | c in t.calls && t.calls[c].phase.WritingConsent?
      ensures c in s.calls && t.calls[c] == s.calls[c] && s.calls[c].request in s.requests
    {
      WritingIsOld(s, e, c);
      assert CallInv(s, c);
    }
    if e.WriteConsent? {
      WritesNothing(s, e.call, user, client);
    } else {
      ConsentsShrink(s, e, user, client);
    }
  }

  lemma {:induction false} StaysRevoked(s: State, events: seq<Event>, user: Id, client: Id)
    requires Inv(s) && NoReads(events) && !WriteAhead(s, user, client) && Stored(s.consents, user, client) == {}
    ensures Inv(Run(s, events)) && !WriteAhead(Run(s, events), user, client)
    ensures Stored(Run(s, events).consents, user, client) == {}
    decreases |events|
  {
    if events != [] {
      var front, e := events[..|events| - 1], events[|events| - 1];
      assert e in events && forall d :: d in front ==> d in events;
      StaysRevoked(s, front, user, client);
      StepKeeps(Run(s, front), e);
      StaysRevokedStep(Run(s, front), e, user, client);
    }
  }

  lemma PendingWriteUndoes(s: State, user: Id, client: Id) returns (more: seq<Event>)
    requires WriteAhead(s, user, client)
    ensures NoReads(more)
    ensures Stored(Run(Step(s, RevokeConsent(user, client)), more).consents, user, client) != {}
  {
    var c :| c in s.calls && s.calls[c].user == user && s.calls[c].request in s.requests
      && s.requests[s.calls[c].request].client == client
      && s.calls[c].phase.WritingConsent? && s.calls[c].phase.combined != {};
    var revoked := Step(s, RevokeConsent(user, client));
    more := [WriteConsent(c)];
    assert more[..0] == [] && Run(revoked, more) == Step(revoked, WriteConsent(c));
    assert Stored(Step(revoked, WriteConsent(c)).consents, user, client) == s.calls[c].phase.combined;
  }

  lemma RevokeStep(s: State, user: Id, client: Id)
    ensures var t := Step(s, RevokeConsent(user, client));
            Stored(t.consents, user, client) == {} && (WriteAhead(t, user, client) <==> WriteAhead(s, user, client))
  {
  }

  /** In every run: after a revocation the consent stays empty, whatever happens until a consent is read anew,
      exactly when no call of that user for that client was about to write scopes that it had read. */
  lemma RevocationStandsExactly(before: seq<Event>, user: Id, client: Id)
    ensures var revoked := Step(Run(INIT, before), RevokeConsent(user, client));
            (forall more :: NoReads(more) ==> Stored(Run(revoked, more).consents, user, client) == {})
            <==> !WriteAhead(Run(INIT, before), user, client)
  {
    var s := Run(INIT, before);
    var revoked := Step(s, RevokeConsent(user, client));
    if WriteAhead(s, user, client) {
      var more := PendingWriteUndoes(s, user, client);
    } else {
      RunKeeps(before);
      StepKeeps(s, RevokeConsent(user, client));
      RevokeStep(s, user, client);
      forall more | NoReads(more)
        ensures Stored(Run(revoked, more).consents, user, client) == {}
      {
        StaysRevoked(revoked, more, user, client);
      }
    }
  }

  /** A scope that such a write drops was written in between, by another call. */
  lemma DroppedScopeWasWrittenBetween(s: State, c: Id, between: seq<Event>, scope: string) returns (k: nat)
    requires c in s.calls && s.calls[c].phase == ReadingConsent && s.calls[c].request in s.requests
    requires WriteConsent(c) !in between
    requires var user, client := s.calls[c].user, s.requests[s.calls[c].request].client;
             var u := Run(ReadStep(s, c), between);
             && scope in Stored(u.consents, user, client)
             && scope !in Stored(Step(u, WriteConsent(c)).consents, user, client)
    ensures var u := Run(ReadStep(s, c), between);
            && |s.log| <= k < |u.log| && u.log[k].ConsentWritten? && u.log[k].call != c
            && About(u.log[k], s.calls[c].user, s.requests[s.calls[c].request].client)
            && scope in u.log[k].scopes
  {
    GrantWritesWhatItRead(s, c, between);
    k := NewScopeWasWritten(
      ReadStep(s, c), between, c, s.calls[c].user, s.requests[s.calls[c].request].client, scope);
  }
}
