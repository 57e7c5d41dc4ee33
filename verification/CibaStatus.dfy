/** What a request's status is at any time, and which calls may write for it. */
module CibaStatus {
  import opened Text
  import opened Ciba
  import opened CibaSafety

  // ----- Creation -----

  /** A request is created exactly for a lifetime of one second up to the client's own, which is also what it gets
      without asking; a client has 60 to 900 seconds and polls every 2 to 60, and is pinged over https only. */
  lemma CreatedExactly(
    s: State, id: Id, user: Id, client: Id, scope: set<string>, acrs: seq<string>, config: Config, asked: Option<int>)
    requires id !in s.requests
    ensures var t := Step(s, Create(id, user, client, scope, acrs, config, asked));
            && (id in t.requests <==>
                 && 60 <= config.lifetime <= 900 && 2 <= config.interval <= 60
                 && (config.mode == Ping ==> config.endpoint == ValidEndpoint("https"))
                 && (asked.Some? ==> 1 <= asked.value <= config.lifetime))
            && (id !in t.requests ==> t == s)
            && (id in t.requests ==>
                 && t.requests == s.requests[id := t.requests[id]]
                 && t.requests[id].expiresAt == s.now + (if asked.Some? then asked.value else config.lifetime)
                 && t.requests[id].requestedAcr == acrs && t.requests[id].scope == scope
                 && t.requests[id].user == user && t.requests[id].client == client
                 && id in t.rows && t.rows[id].status == Pending && t.rows[id].interval == config.interval)
  {
  }

  // ----- Status -----

  /** A consumed request has had its tokens, and one that is gone was denied, consumed or expired. */
  ghost predicate Kept(s: State, r: Id)
    requires r in s.requests
  {
    if r in s.rows then s.rows[r].status == Consumed ==> IssuedIn(s.log, r)
    else DecidedIn(s.log, r, false) || IssuedIn(s.log, r) || s.requests[r].expiresAt <= s.now
  }

  lemma PollKept(s: State, p: Id, issues: bool, r: Id)
    requires Inv(s) && r in s.requests && Kept(s, r)
    ensures Kept(Step(s, PollTokens(p, issues)), r)
  {
    var t := Step(s, PollTokens(p, issues));
    if t.log != s.log {
      IssuedAppends(s.log, TokensIssued(p, s.now), r);
      DecidedAppends(s.log, TokensIssued(p, s.now), r, false);
    }
  }

  lemma CleanupKept(s: State, stale: set<Id>, r: Id)
    requires Inv(s) && r in s.requests && Kept(s, r)
    ensures Kept(Step(s, Cleanup(stale)), r)
  {
    if r in s.rows {
      assert RowInv(s, r);
    }
  }

  lemma LogKept(s: State, t: State, r: Id)
    requires r in s.requests && Kept(s, r) && t.requests == s.requests && s.now <= t.now && s.log <= t.log
    requires r in t.rows <==> r in s.rows
    requires r in t.rows && t.rows[r].status == Consumed ==> s.rows[r].status == Consumed
    ensures Kept(t, r)
  {
  }

  lemma DecisionsKeepRows(s: State, e: Event, r: Id)
    requires r in s.requests && !e.Create? && !e.PollTokens? && !e.Cleanup?
    ensures var t := Step(s, e);
            && t.requests == s.requests && s.now <= t.now && s.log <= t.log && (r in t.rows <==> r in s.rows)
            && (r in t.rows && t.rows[r].status == Consumed ==> s.rows[r].status == Consumed)
  {
  }

  lemma CreateKept(s: State, e: Event, r: Id)
    requires e.Create? && r in Step(s, e).requests
    requires r in s.requests ==> Kept(s, r)
    ensures Kept(Step(s, e), r)
  {
  }

  lemma StepKept(s: State, e: Event, r: Id)
    requires Inv(s) && r in Step(s, e).requests
    requires r in s.requests ==> Kept(s, r)
    ensures Kept(Step(s, e), r)
  {
    if e.Create? {
      CreateKept(s, e, r);
    } else if e.PollTokens? {
      PollKept(s, e.request, e.issues, r);
    } else if e.Cleanup? {
      CleanupKept(s, e.stale, r);
    } else {
      DecisionsKeepRows(s, e, r);
      LogKept(s, Step(s, e), r);
    }
  }

  lemma {:induction false} RunKept(events: seq<Event>, r: Id)
    requires r in Run(INIT, events).requests
    ensures Kept(Run(INIT, events), r)
    decreases |events|
  {
    if events != [] {
      var front := events[..|events| - 1];
      RunKeeps(front);
      if r in Run(INIT, front).requests {
        RunKept(front, r);
      }
      StepKept(Run(INIT, front), events[|events| - 1], r);
    }
  }

  lemma IssuedWasApproved(s: State, r: Id)
    requires Inv(s)
    ensures IssuedIn(s.log, r) ==> DecidedIn(s.log, r, true)
  {
    if k :| 0 <= k < |s.log| && s.log[k].TokensIssued? && s.log[k].request == r {
      assert EntryInv(s, k);
      var i :| 0 <= i < k && s.log[..k][i].Decided? && s.log[..k][i].request == r && s.log[..k][i].approve;
      assert s.log[i] == s.log[..k][i];
    }
  }

  /** In every run the log determines what becomes of a request until it expires: undecided it is stored and
      pending, approved it is stored and approved until its tokens are issued and consumed from then on, and
      denied it is denied, for as long as it is stored. */
  lemma StatusExactly(events: seq<Event>, r: Id)
    ensures var s := Run(INIT, events);
            r in s.requests && s.now < s.requests[r].expiresAt ==>
              var approved, denied := DecidedIn(s.log, r, true), DecidedIn(s.log, r, false);
              && (!approved && !denied <==> r in s.rows && s.rows[r].status == Pending)
              && (approved && !IssuedIn(s.log, r) <==> r in s.rows && s.rows[r].status == Approved)
              && (r in s.rows ==> (IssuedIn(s.log, r) <==> s.rows[r].status == Consumed))
              && (r in s.rows ==> (denied <==> s.rows[r].status == Denied))
  {
    var s := Run(INIT, events);
    RunKeeps(events);
    DecidedOneWay(s.log, r);
    if r in s.requests {
      RunKept(events, r);
      if r in s.rows {
        assert RowInv(s, r);
      }
      IssuedWasApproved(s, r);
    }
  }

  /** After any run a token request issues tokens exactly for a request that was approved, has not expired and
      has had none. */
  lemma TokensAreIssuedExactly(events: seq<Event>, r: Id)
    ensures var s := Run(INIT, events);
            Step(s, PollTokens(r, true)).log == s.log + [TokensIssued(r, s.now)] <==>
              && r in s.requests && s.now < s.requests[r].expiresAt
              && DecidedIn(s.log, r, true) && !IssuedIn(s.log, r)
    ensures var s := Run(INIT, events);
            var t := Step(s, PollTokens(r, true));
            t.log == s.log || t.log == s.log + [TokensIssued(r, s.now)]
  {
    var s := Run(INIT, events);
    RunKeeps(events);
    StatusExactly(events, r);
    if r in s.rows {
      assert RowInv(s, r);
    }
  }

  // ----- Who may write -----

  /** Where a call can be once its check has let it through. */
  predicate PastCheck(p: Phase) {
    p == ReadingConsent || p.WritingConsent? || p == Deciding || p == Finished(Accepted)
    || p == Finished(AlreadyHandled)
  }

  /** Event `i` of the run is the call's check. */
  ghost predicate CheckedAt(events: seq<Event>, i: int, c: Id) {
    && 0 <= i < |events| && events[i] == Check(c)
    && c in Run(INIT, events[..i]).calls && Run(INIT, events[..i]).calls[c].phase == Checking
  }

  /** What the check of a call must have found for the call to stand where it does: nothing stored for its user, a
      request that is decided or over, one that asks for a stronger session, or nothing in the way. */
  ghost predicate FoundAtCheck(s: State, call: Call, now: Phase) {
    var mine := call.request in s.rows && call.request in s.requests
             && s.requests[call.request].user == call.user;
    match now
    case Finished(NotFound) => !mine
    case _ =>
      && mine
      && var request := s.requests[call.request];
         var open := s.rows[call.request].status == Pending && s.now < request.expiresAt;
         var weak := call.approve && !StrongEnough(call.acr, request.requestedAcr);
         match now
         case Finished(NoLongerPending) => !open
         case Finished(NeedsStrongerSession) => open && weak
         case _ => open && !weak
  }

  ghost predicate WasChecked(events: seq<Event>, c: Id, now: Phase) {
    exists i ::
      CheckedAt(events, i, c) && FoundAtCheck(Run(INIT, events[..i]), Run(INIT, events[..i]).calls[c], now)
  }

  lemma FoundAlike(s: State, call: Call, before: Phase, now: Phase)
    requires FoundAtCheck(s, call, before) && (now == before || (PastCheck(before) && PastCheck(now)))
    ensures FoundAtCheck(s, call, now)
  {
  }

  lemma StaysChecked(events: seq<Event>, e: Event, c: Id, before: Phase, now: Phase)
    requires WasChecked(events, c, before)
    requires now == before || (PastCheck(before) && PastCheck(now))
    ensures WasChecked(events + [e], c, now)
  {
    var i :| CheckedAt(events, i, c) && FoundAtCheck(Run(INIT, events[..i]), Run(INIT, events[..i]).calls[c], before);
    var s := Run(INIT, events[..i]);
    FoundAlike(s, s.calls[c], before, now);
    assert (events + [e])[..i] == events[..i];
    assert CheckedAt(events + [e], i, c);
  }

  lemma CheckFinds(events: seq<Event>, c: Id)
    requires c in Run(INIT, events).calls && Run(INIT, events).calls[c].phase == Checking
    ensures WasChecked(events + [Check(c)], c, CheckedPhase(Run(INIT, events), Run(INIT, events).calls[c]))
  {
    assert (events + [Check(c)])[..|events|] == events;
    assert CheckedAt(events + [Check(c)], |events|, c);
  }

  lemma PhaseStep(s: State, e: Event, c: Id)
    requires c in Step(s, e).calls && Step(s, e).calls[c].phase != Checking
    ensures c in s.calls
    ensures var before, now := s.calls[c].phase, Step(s, e).calls[c].phase;
            if before == Checking then e == Check(c) && now == CheckedPhase(s, s.calls[c])
            else now == before || (PastCheck(before) && PastCheck(now))
  {
  }

  /** In every run a call that has been checked stands where its check put it: refused as unknown, as no longer
      pending or for its level exactly when the check found it so, and otherwise on its way or at its end. */
  lemma {:induction false} CheckedForReason(events: seq<Event>, c: Id)
    requires c in Run(INIT, events).calls && Run(INIT, events).calls[c].phase != Checking
    ensures WasChecked(events, c, Run(INIT, events).calls[c].phase)
    decreases |events|
  {
    if events != [] {
      var front, e := events[..|events| - 1], events[|events| - 1];
      var s := Run(INIT, front);
      PhaseStep(s, e, c);
      assert events == front + [e];
      if s.calls[c].phase == Checking {
        CheckFinds(front, c);
      } else {
        CheckedForReason(front, c);
        StaysChecked(front, e, c, s.calls[c].phase, Run(INIT, events).calls[c].phase);
      }
    }
  }

  /** An entry that call `c` made. */
  predicate MadeBy(x: Entry, c: Id) {
    (x.ConsentWritten? || x.Decided?) && x.call == c
  }

  lemma EntryStep(s: State, e: Event, k: nat, c: Id)
    requires k < |Step(s, e).log| && MadeBy(Step(s, e).log[k], c)
    ensures (k < |s.log| && s.log[k] == Step(s, e).log[k])
         || (c in Step(s, e).calls && PastCheck(Step(s, e).calls[c].phase))
  {
  }

  lemma StaysPast(s: State, e: Event, c: Id)
    requires c in s.calls && PastCheck(s.calls[c].phase)
    ensures c in Step(s, e).calls && PastCheck(Step(s, e).calls[c].phase)
  {
  }

  lemma {:induction false} MadeByPast(events: seq<Event>, k: nat, c: Id)
    requires k < |Run(INIT, events).log| && MadeBy(Run(INIT, events).log[k], c)
    ensures c in Run(INIT, events).calls && PastCheck(Run(INIT, events).calls[c].phase)
    decreases |events|
  {
    if events != [] {
      var front, e := events[..|events| - 1], events[|events| - 1];
      var s := Run(INIT, front);
      EntryStep(s, e, k, c);
      if k < |s.log| && s.log[k] == Run(INIT, events).log[k] {
        MadeByPast(front, k, c);
        StaysPast(s, e, c);
      }
    }
  }

  /** In every run nothing is written or decided but by calls that were let through: their request was pending,
      unexpired and their user's when they were checked, and their level enough to approve it. A call that was
      refused by its check, or not checked yet, has left no trace. */
  lemma TracesFollowChecks(events: seq<Event>, k: nat, c: Id)
    requires k < |Run(INIT, events).log| && MadeBy(Run(INIT, events).log[k], c)
    ensures c in Run(INIT, events).calls
    ensures Run(INIT, events).calls[c].phase
              !in {Checking, Finished(NotFound), Finished(NoLongerPending), Finished(NeedsStrongerSession)}
    ensures WasChecked(events, c, Deciding)
  {
    MadeByPast(events, k, c);
    CheckedForReason(events, c);
    var now := Run(INIT, events).calls[c].phase;
    var i :| CheckedAt(events, i, c) && FoundAtCheck(Run(INIT, events[..i]), Run(INIT, events[..i]).calls[c], now);
    FoundAlike(Run(INIT, events[..i]), Run(INIT, events[..i]).calls[c], now, Deciding);
  }

  /** The clean-up takes away what has expired before now, and of the stale rows those that were consumed, denied
      or marked expired; every other row stays as it is. */
  lemma CleanupExactly(events: seq<Event>, stale: set<Id>, r: Id)
    ensures var s := Run(INIT, events);
            var t := Step(s, Cleanup(stale));
            && (r in s.rows && r !in t.rows <==>
                 && r in s.rows && r in s.requests
                 && (s.requests[r].expiresAt < s.now || (r in stale && s.rows[r].status !in {Pending, Approved})))
            && (r in t.rows ==> r in s.rows && t.rows[r] == s.rows[r])
  {
    RunKeeps(events);
    var s := Run(INIT, events);
    if r in s.rows {
      assert RowInv(s, r);
    }
  }
}
