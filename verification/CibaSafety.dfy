/** Safety of backchannel decisions over every run. */
module CibaSafety {
  import opened Text
  import opened Ciba

  // ----- Frames: what a step that only adds to a state leaves true -----

  predicate Continues(before: Call, after: Call) {
    && after.request == before.request && after.user == before.user
    && after.acr == before.acr && after.approve == before.approve
    && (before.phase.Finished? ==> after.phase == before.phase)
  }

  ghost predicate Extends(s: State, t: State) {
    && s.now <= t.now
    && (forall r :: r in s.requests ==> r in t.requests && t.requests[r] == s.requests[r])
    && (forall c :: c in s.calls ==>
          && c in t.calls
          && Continues(s.calls[c], t.calls[c]))
    && s.log <= t.log
  }

  lemma EntryStays(s: State, t: State, k: nat)
    requires Extends(s, t) && k < |s.log| && EntryInv(s, k)
    ensures EntryInv(t, k)
  {
  }

  lemma ConsentStays(s: State, t: State, c: Id)
    requires Extends(s, t) && c in s.calls && s.calls[c].request in s.requests && ConsentOnRecord(s, s.log, c)
    ensures ConsentOnRecord(t, t.log, c)
  {
  }

  lemma CallStays(s: State, t: State, c: Id)
    requires Extends(s, t) && c in s.calls && CallInv(s, c) && t.calls[c] == s.calls[c]
    ensures CallInv(t, c)
  {
  }

  /** A step that changes no call. */
  lemma CallsStay(s: State, t: State)
    requires Inv(s) && Extends(s, t) && t.calls == s.calls
    ensures forall c :: c in t.calls ==> CallInv(t, c)
  {
    forall c | c in t.calls
      ensures CallInv(t, c)
    {
      CallStays(s, t, c);
    }
  }

  lemma DecidedAppends(log: seq<Entry>, x: Entry, r: Id, approve: bool)
    ensures DecidedIn(log + [x], r, approve)
       <==> DecidedIn(log, r, approve) || (x.Decided? && x.request == r && x.approve == approve)
  {
    var more := log + [x];
    if x.Decided? && x.request == r && x.approve == approve {
      assert more[|log|] == x;
    } else if DecidedIn(log, r, approve) {
      var k :| 0 <= k < |log| && log[k].Decided? && log[k].request == r && log[k].approve == approve;
      assert more[k] == log[k];
    }
  }

  lemma IssuedAppends(log: seq<Entry>, x: Entry, r: Id)
    ensures IssuedIn(log + [x], r) <==> IssuedIn(log, r) || (x.TokensIssued? && x.request == r)
  {
    var more := log + [x];
    if x.TokensIssued? && x.request == r {
      assert more[|log|] == x;
    } else if IssuedIn(log, r) {
      var k :| 0 <= k < |log| && log[k].TokensIssued? && log[k].request == r;
      assert more[k] == log[k];
    }
  }

  ghost predicate Concerns(x: Entry, r: Id) {
    (x.Decided? || x.TokensIssued?) && x.request == r
  }

  /** A row that is not touched keeps its invariant when nothing about it is logged. */
  lemma RowStays(s: State, t: State, r: Id)
    requires Extends(s, t) && r in s.rows && r in t.rows && RowInv(s, r) && t.rows[r] == s.rows[r]
    requires t.log == s.log || (exists x :: t.log == s.log + [x] && !Concerns(x, r))
    ensures RowInv(t, r)
  {
  }

  lemma RequestStays(s: State, t: State, r: Id)
    requires Extends(s, t) && r in s.requests && RequestInv(s, r)
    requires r in s.rows ==> r in t.rows
    requires t.log == s.log || (exists x :: t.log == s.log + [x])
    ensures RequestInv(t, r)
  {
  }

  /** A step that logs nothing and touches no row. */
  lemma QuietStep(s: State, t: State)
    requires Inv(s) && Extends(s, t) && t.log == s.log && t.rows == s.rows && t.requests == s.requests
    requires t.consents == s.consents
    requires forall c :: c in t.calls ==> CallInv(t, c)
    ensures Inv(t)
  {
    forall k | 0 <= k < |t.log| ensures EntryInv(t, k) { EntryStays(s, t, k); }
    forall r | r in t.rows ensures RowInv(t, r) { RowStays(s, t, r); }
    forall r | r in t.requests ensures RequestInv(t, r) { RequestStays(s, t, r); }
  }

  /** A step that moves one call, and logs and changes nothing else. */
  lemma MoveKeeps(s: State, c: Id, phase: Phase)
    requires Inv(s) && c in s.calls && !s.calls[c].phase.Finished?
    requires var t := MoveTo(s, c, phase); CallInv(t, c)
    ensures Inv(MoveTo(s, c, phase))
  {
    var t := MoveTo(s, c, phase);
    forall d | d in t.calls
      ensures CallInv(t, d)
    {
      if d != c {
        CallStays(s, t, d);
      }
    }
    QuietStep(s, t);
  }

  lemma CheckKeeps(s: State, c: Id)
    requires Inv(s) && c in s.calls && s.calls[c].phase == Checking
    ensures Inv(CheckStep(s, c))
  {
    var t := CheckStep(s, c);
    MoveKeeps(s, c, t.calls[c].phase);
  }

  lemma ReadKeeps(s: State, c: Id)
    requires Inv(s) && c in s.calls && s.calls[c].phase == ReadingConsent
    ensures Inv(ReadStep(s, c))
  {
    assert CallInv(s, c);
    var t := ReadStep(s, c);
    MoveKeeps(s, c, t.calls[c].phase);
  }

  lemma BeginKeeps(s: State, c: Id, request: Id, user: Id, acr: string, approve: bool)
    requires Inv(s) && c !in s.calls
    ensures Inv(Step(s, Begin(c, request, user, acr, approve)))
  {
    var t := Step(s, Begin(c, request, user, acr, approve));
    forall d | d in t.calls
      ensures CallInv(t, d)
    {
      if d != c {
        CallStays(s, t, d);
      }
    }
    QuietStep(s, t);
  }

  lemma TickKeeps(s: State, seconds: nat)
    requires Inv(s)
    ensures Inv(Step(s, Tick(seconds)))
  {
    var t := Step(s, Tick(seconds));
    CallsStay(s, t);
    QuietStep(s, t);
  }

  lemma NothingLoggedBefore(s: State, r: Id)
    requires Inv(s) && r !in s.requests
    ensures !DecidedIn(s.log, r, true) && !DecidedIn(s.log, r, false)
  {
    forall k | 0 <= k < |s.log|
      ensures !(s.log[k].Decided? && s.log[k].request == r)
    {
      assert EntryInv(s, k);
    }
  }

  lemma CreateKeeps(s: State, e: Event)
    requires Inv(s) && e.Create?
    ensures Inv(Step(s, e))
  {
    var t := Step(s, e);
    if t != s {
      CallsStay(s, t);
      forall k | 0 <= k < |t.log| ensures EntryInv(t, k) { EntryStays(s, t, k); }
      NothingLoggedBefore(s, e.id);
      forall r | r in t.rows
        ensures RowInv(t, r)
      {
        if r != e.id {
          RowStays(s, t, r);
        }
      }
      forall r | r in t.requests
        ensures RequestInv(t, r)
      {
        if r != e.id {
          RequestStays(s, t, r);
        }
      }
    }
  }

  /** A step that logs `x` without touching rows or requests. */
  lemma LogKeeps(s: State, t: State, x: Entry)
    requires Inv(s) && Extends(s, t) && t.log == s.log + [x] && t.rows == s.rows && t.requests == s.requests
    requires !x.Decided? && !x.TokensIssued?
    requires t.consents == Replay(t.log)
    requires forall c :: c in t.calls ==> CallInv(t, c)
    ensures Inv(t)
  {
    forall k | 0 <= k < |t.log|
      ensures EntryInv(t, k)
    {
      if k < |s.log| {
        EntryStays(s, t, k);
      }
    }
    forall r | r in t.rows ensures RowInv(t, r) { RowStays(s, t, r); }
    forall r | r in t.requests ensures RequestInv(t, r) { RequestStays(s, t, r); }
  }

  lemma ReplayAppends(log: seq<Entry>, x: Entry)
    ensures Replay(log + [x]) == ReplayStep(Replay(log), x)
  {
  }

  lemma WriteKeeps(s: State, c: Id)
    requires Inv(s) && c in s.calls && s.calls[c].phase.WritingConsent?
    ensures Inv(WriteStep(s, c))
  {
    assert CallInv(s, c);
    var t := WriteStep(s, c);
    var x := t.log[|s.log|];
    ReplayAppends(s.log, x);
    forall d | d in t.calls
      ensures CallInv(t, d)
    {
      if d != c {
        CallStays(s, t, d);
      }
    }
    LogKeeps(s, t, x);
  }

  lemma RevokeKeeps(s: State, user: Id, client: Id)
    requires Inv(s)
    ensures Inv(Step(s, RevokeConsent(user, client)))
  {
    var t := Step(s, RevokeConsent(user, client));
    var x := ConsentRevoked(user, client);
    ReplayAppends(s.log, x);
    CallsStay(s, t);
    LogKeeps(s, t, x);
  }

  /** A step that changes one row and may log something about that request. */
  lemma RowStepKeeps(s: State, t: State, r: Id)
    requires Inv(s) && Extends(s, t) && r in s.rows && r in t.rows && t.requests == s.requests
    requires t.rows == s.rows[r := t.rows[r]] && t.consents == s.consents
    requires t.log == s.log || (exists x :: t.log == s.log + [x] && Concerns(x, r))
    requires forall c :: c in t.calls ==> CallInv(t, c)
    requires t.log != s.log ==> EntryInv(t, |s.log|)
    requires RowInv(t, r) && Unique(t.log)
    ensures Inv(t)
  {
    forall k | 0 <= k < |t.log|
      ensures EntryInv(t, k)
    {
      if k < |s.log| {
        EntryStays(s, t, k);
      }
    }
    forall q | q in t.rows
      ensures RowInv(t, q)
    {
      if q != r {
        RowStays(s, t, q);
      }
    }
    forall q | q in t.requests ensures RequestInv(t, q) { RequestStays(s, t, q); }
    if t.log != s.log {
      var x :| t.log == s.log + [x] && Concerns(x, r);
      ReplayAppends(s.log, x);
    }
  }

  lemma UniqueAppends(log: seq<Entry>, x: Entry)
    requires Unique(log)
    requires x.Decided? ==> !DecidedIn(log, x.request, true) && !DecidedIn(log, x.request, false)
    requires x.TokensIssued? ==> !IssuedIn(log, x.request)
    ensures Unique(log + [x])
  {
  }

  lemma NotIssuedBeforeDecision(s: State, r: Id)
    requires Inv(s) && !DecidedIn(s.log, r, true)
    ensures !IssuedIn(s.log, r)
  {
    forall k | 0 <= k < |s.log|
      ensures !(s.log[k].TokensIssued? && s.log[k].request == r)
    {
      assert EntryInv(s, k);
    }
  }

  /** The calls when the decision of call `c` takes effect. */
  lemma AcceptedCalls(s: State, t: State, c: Id, x: Entry)
    requires Inv(s) && c in s.calls && s.calls[c].phase == Deciding
    requires x.Decided? && x.call == c && x.request == s.calls[c].request && t.log == s.log + [x]
    requires t.calls == s.calls[c := s.calls[c].(phase := Finished(Accepted))] && Extends(s, t)
    ensures forall d :: d in t.calls ==> CallInv(t, d)
  {
    assert CallInv(s, c);
    forall d | d in t.calls
      ensures CallInv(t, d)
    {
      if d != c {
        CallStays(s, t, d);
      } else {
        assert t.log[|s.log|] == x;
        if s.calls[c].approve {
          ConsentStays(s, t, c);
        }
      }
    }
  }

  lemma AcceptedEntry(s: State, t: State, c: Id, x: Entry)
    requires Inv(s) && c in s.calls && s.calls[c].phase == Deciding && Extends(s, t) && t.log == s.log + [x]
    requires t.requests == s.requests && t.calls == s.calls[c := s.calls[c].(phase := Finished(Accepted))]
    requires var call := s.calls[c];
             x == Decided(c, call.request, call.approve, call.acr, s.now)
             && call.request in s.requests && s.now < s.requests[call.request].expiresAt
    ensures EntryInv(t, |s.log|)
  {
    assert CallInv(s, c) && RequestInv(s, s.calls[c].request);
    assert t.log[..|s.log|] == s.log;
  }

  lemma AcceptedRow(s: State, t: State, r: Id, x: Entry, row: Row)
    requires Inv(s) && r in s.rows && s.rows[r].status == Pending && t.log == s.log + [x]
    requires x.Decided? && x.request == r && t.requests == s.requests && t.rows == s.rows[r := row]
    requires row.status == (if x.approve then Approved else Denied) && row.interval == s.rows[r].interval
    ensures RowInv(t, r) && Unique(t.log)
  {
    assert RowInv(s, r);
    DecidedAppends(s.log, x, r, true);
    DecidedAppends(s.log, x, r, false);
    IssuedAppends(s.log, x, r);
    NotIssuedBeforeDecision(s, r);
    UniqueAppends(s.log, x);
  }

  lemma DecideKeeps(s: State, c: Id)
    requires Inv(s) && c in s.calls && s.calls[c].phase == Deciding
    ensures Inv(DecideStep(s, c))
  {
    assert CallInv(s, c);
    var call, t := s.calls[c], DecideStep(s, c);
    if t.log == s.log {
      MoveKeeps(s, c, Finished(AlreadyHandled));
    } else {
      var r := call.request;
      var x := Decided(c, r, call.approve, call.acr, s.now);
      AcceptedCalls(s, t, c, x);
      AcceptedEntry(s, t, c, x);
      AcceptedRow(s, t, r, x, t.rows[r]);
      RowStepKeeps(s, t, r);
    }
  }

  lemma IssuedRow(s: State, t: State, r: Id)
    requires Inv(s) && r in s.rows && s.rows[r].status == Approved && t.log == s.log + [TokensIssued(r, s.now)]
    requires t.requests == s.requests && t.rows == s.rows[r := s.rows[r].(status := Consumed)]
    requires r in s.requests && s.now < s.requests[r].expiresAt
    ensures RowInv(t, r) && Unique(t.log) && EntryInv(t, |s.log|)
  {
    var x := TokensIssued(r, s.now);
    assert RowInv(s, r);
    DecidedAppends(s.log, x, r, true);
    DecidedAppends(s.log, x, r, false);
    UniqueAppends(s.log, x);
    assert t.log[..|s.log|] == s.log;
  }

  lemma PollKeeps(s: State, r: Id, issues: bool)
    requires Inv(s) && r in s.rows && r in s.requests
    ensures Inv(PollStep(s, r, issues))
  {
    assert RowInv(s, r);
    var t := PollStep(s, r, issues);
    CallsStay(s, t);
    if t.log != s.log {
      IssuedRow(s, t, r);
    }
    assert t.rows == s.rows[r := t.rows[r]];
    RowStepKeeps(s, t, r);
  }

  lemma CleanupKeeps(s: State, stale: set<Id>)
    requires Inv(s)
    ensures Inv(Step(s, Cleanup(stale)))
  {
    var t := Step(s, Cleanup(stale));
    CallsStay(s, t);
    forall k | 0 <= k < |t.log| ensures EntryInv(t, k) { EntryStays(s, t, k); }
    forall r | r in t.rows
      ensures RowInv(t, r)
    {
      assert RowInv(s, r);
      RowStays(s, t, r);
    }
    forall r | r in t.requests
      ensures RequestInv(t, r)
    {
      assert RequestInv(s, r);
      if r in s.rows {
        assert RowInv(s, r);
      }
    }
  }

  lemma StepKeeps(s: State, e: Event)
    requires Inv(s)
    ensures Inv(Step(s, e))
  {
    match e
    case Tick(seconds) => TickKeeps(s, seconds);
    case Create(_, _, _, _, _, _, _) => CreateKeeps(s, e);
    case Begin(c, request, user, acr, approve) => if c !in s.calls { BeginKeeps(s, c, request, user, acr, approve); }
    case Check(c) => if c in s.calls && s.calls[c].phase == Checking { CheckKeeps(s, c); }
    case ReadConsent(c) => if c in s.calls && s.calls[c].phase == ReadingConsent { ReadKeeps(s, c); }
    case WriteConsent(c) => if c in s.calls && s.calls[c].phase.WritingConsent? { WriteKeeps(s, c); }
    case Decide(c) => if c in s.calls && s.calls[c].phase == Deciding { DecideKeeps(s, c); }
    case PollTokens(r, issues) => if r in s.rows && r in s.requests { PollKeeps(s, r, issues); }
    case RevokeConsent(user, client) => RevokeKeeps(s, user, client);
    case Cleanup(stale) => CleanupKeeps(s, stale);
  }

  lemma {:induction false} RunKeeps(events: seq<Event>)
    ensures Inv(Run(INIT, events))
    decreases |events|
  {
    if events != [] {
      RunKeeps(events[..|events| - 1]);
      StepKeeps(Run(INIT, events[..|events| - 1]), events[|events| - 1]);
    }
  }

  // ----- The theorems -----

  /** In every run at most one decision about a request takes effect: two calls that both report
      success are about different requests. */
  lemma OneDecision(events: seq<Event>, c: Id, d: Id)
    ensures var s := Run(INIT, events);
            c in s.calls && d in s.calls && c != d
            && s.calls[c].phase == Finished(Accepted) && s.calls[d].phase == Finished(Accepted)
            ==> s.calls[c].request != s.calls[d].request
  {
    var s := Run(INIT, events);
    RunKeeps(events);
    if c in s.calls && d in s.calls && s.calls[c].phase == Finished(Accepted) == s.calls[d].phase {
      assert CallInv(s, c) && CallInv(s, d);
      var i :| 0 <= i < |s.log| && s.log[i].Decided? && s.log[i].call == c && s.log[i].request == s.calls[c].request;
      var j :| 0 <= j < |s.log| && s.log[j].Decided? && s.log[j].call == d && s.log[j].request == s.calls[d].request;
    }
  }

  /** Every approval in the log of a run was given by the request's own user in a session whose level meets
      the request, within the request's lifetime, after that same call had written a consent of that user
      for the requesting client which covers the requested scopes. */
  lemma ApprovalIsBacked(events: seq<Event>, k: nat)
    ensures var s := Run(INIT, events);
            k < |s.log| && s.log[k].Decided? && s.log[k].approve ==>
              var x := s.log[k];
              && x.request in s.requests
              && var request := s.requests[x.request];
              && StrongEnough(x.acr, request.requestedAcr)
              && request.createdAt <= x.at < request.expiresAt
              && exists j :: 0 <= j < k && s.log[j].ConsentWritten? && s.log[j].call == x.call
                          && s.log[j].user == request.user && s.log[j].client == request.client
                          && request.scope <= s.log[j].scopes
  {
    var s := Run(INIT, events);
    RunKeeps(events);
    if k < |s.log| && s.log[k].Decided? && s.log[k].approve {
      assert EntryInv(s, k);
      var c, request := s.log[k].call, s.requests[s.log[k].request];
      var j :| 0 <= j < |s.log[..k]| && s.log[..k][j].ConsentWritten? && s.log[..k][j].call == c
        && s.log[..k][j].user == s.calls[c].user && s.log[..k][j].client == request.client
        && request.scope <= s.log[..k][j].scopes;
      assert s.log[j] == s.log[..k][j];
    }
  }

  /** Tokens are issued at most once per request, before it expires, and only after it was approved. */
  lemma TokensOnceAfterApproval(events: seq<Event>)
    ensures var log := Run(INIT, events).log;
            forall k :: 0 <= k < |log| && log[k].TokensIssued? ==>
              && log[k].request in Run(INIT, events).requests
              && log[k].at < Run(INIT, events).requests[log[k].request].expiresAt
              && DecidedIn(log[..k], log[k].request, true)
              && forall j :: 0 <= j < k ==> !(log[j].TokensIssued? && log[j].request == log[k].request)
  {
    var s := Run(INIT, events);
    RunKeeps(events);
    forall k | 0 <= k < |s.log| && s.log[k].TokensIssued?
      ensures s.log[k].request in s.requests && s.log[k].at < s.requests[s.log[k].request].expiresAt
      ensures DecidedIn(s.log[..k], s.log[k].request, true)
    {
      assert EntryInv(s, k);
    }
  }

  /** How a row's status may change in one step. */
  predicate Follows(before: Status, after: Status) {
    || after == before
    || after == Expired
    || (before == Pending && after in {Approved, Denied})
    || (before == Approved && after == Consumed)
  }

  /** A decision stands: a decided request never becomes pending again and never changes sides. */
  lemma StatusFollows(s: State, e: Event, r: Id)
    requires Inv(s) && r in s.rows && r in Step(s, e).rows
    ensures Follows(s.rows[r].status, Step(s, e).rows[r].status)
  {
  }

  lemma DecidedOneWay(log: seq<Entry>, r: Id)
    requires Unique(log)
    ensures !(DecidedIn(log, r, true) && DecidedIn(log, r, false))
  {
  }

  /** In every run a stored request that was approved is approved, consumed or expired; one that was
      denied is denied or expired; and it was never both. */
  lemma WinnerStands(events: seq<Event>, r: Id)
    ensures var s := Run(INIT, events);
            && (r in s.rows && DecidedIn(s.log, r, true) ==> s.rows[r].status in {Approved, Consumed, Expired})
            && (r in s.rows && DecidedIn(s.log, r, false) ==> s.rows[r].status in {Denied, Expired})
            && !(DecidedIn(s.log, r, true) && DecidedIn(s.log, r, false))
  {
    var s := Run(INIT, events);
    RunKeeps(events);
    DecidedOneWay(s.log, r);
    if r in s.rows {
      assert RowInv(s, r);
    }
  }

  /** The stored consents of a run are exactly what the last logged write for each user and client left. */
  lemma ConsentsAreLastWrites(events: seq<Event>)
    ensures Run(INIT, events).consents == Replay(Run(INIT, events).log)
  {
    RunKeeps(events);
  }
}
