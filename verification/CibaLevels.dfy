/** What the levels of sessions and the pace of polls come to over every run. */
module CibaLevels {
  import opened Text
  import opened Ciba
  import opened CibaSafety

  // The two levels as sessions and requests spell them.
  const BRONZE := "urn:mace:incommon:iap:bronze"
  const SILVER := "urn:mace:incommon:iap:silver"

  // ----- Levels -----

  /** A silver session meets demands for silver or bronze, a bronze one for bronze, any other only its own. */
  lemma LevelsExactly(acr: string, requested: seq<string>)
    ensures StrongEnough(SILVER, requested) <==> requested == [] || SILVER in requested || BRONZE in requested
    ensures StrongEnough(BRONZE, requested) <==> requested == [] || BRONZE in requested
    ensures acr != SILVER ==> (StrongEnough(acr, requested) <==> requested == [] || acr in requested)
    ensures BRONZE != SILVER
  {
    assert BRONZE[|BRONZE| - 1] != SILVER[|SILVER| - 1];
    if SILVER in requested {
      assert AcrSatisfies(SILVER, SILVER);
    }
    if BRONZE in requested {
      assert AcrSatisfies(SILVER, BRONZE) && AcrSatisfies(BRONZE, BRONZE);
    }
    if acr in requested {
      assert AcrSatisfies(acr, acr);
    }
  }

  /** In every run a logged approval of a request came from a session of a level that the request names, from a
      silver one where it names bronze, or the request names none; where it names silver alone, from a silver one. */
  lemma ApprovalHasLevel(events: seq<Event>, k: nat)
    ensures var s := Run(INIT, events);
            k < |s.log| && s.log[k].Decided? && s.log[k].approve ==>
              var x := s.log[k];
              && x.request in s.requests
              && var requested := s.requests[x.request].requestedAcr;
              && (requested == [] || x.acr in requested || (x.acr == SILVER && BRONZE in requested))
              && (requested != [] && (forall v :: v in requested ==> v == SILVER) ==> x.acr == SILVER)
  {
    var s := Run(INIT, events);
    ApprovalIsBacked(events, k);
    if k < |s.log| && s.log[k].Decided? && s.log[k].approve {
      LevelsExactly(s.log[k].acr, s.requests[s.log[k].request].requestedAcr);
    }
  }

  /** Why a call was told to sign in with a stronger method. */
  ghost predicate Weak(s: State, call: Call) {
    && call.approve && call.request in s.requests
    && !StrongEnough(call.acr, s.requests[call.request].requestedAcr)
  }

  lemma OnlyCheckStops(s: State, e: Event, c: Id)
    requires e != Check(c)
    requires c in Step(s, e).calls && Step(s, e).calls[c].phase == Finished(NeedsStrongerSession)
    ensures c in s.calls && s.calls[c] == Step(s, e).calls[c]
  {
  }

  lemma RequestStaysKnown(s: State, e: Event, r: Id)
    requires r in s.requests
    ensures r in Step(s, e).requests && Step(s, e).requests[r] == s.requests[r]
  {
  }

  lemma StoppedStep(s: State, e: Event, c: Id)
    requires c in s.calls && s.calls[c].phase == Finished(NeedsStrongerSession) ==> Weak(s, s.calls[c])
    ensures var t := Step(s, e);
            c in t.calls && t.calls[c].phase == Finished(NeedsStrongerSession) ==> Weak(t, t.calls[c])
  {
    var t := Step(s, e);
    if c in t.calls && t.calls[c].phase == Finished(NeedsStrongerSession) && e != Check(c) {
      OnlyCheckStops(s, e, c);
      RequestStaysKnown(s, e, s.calls[c].request);
    }
  }

  lemma {:induction false} StoppedIsWeak(events: seq<Event>, c: Id)
    ensures var s := Run(INIT, events);
            c in s.calls && s.calls[c].phase == Finished(NeedsStrongerSession) ==> Weak(s, s.calls[c])
    decreases |events|
  {
    if events != [] {
      StoppedIsWeak(events[..|events| - 1], c);
      StoppedStep(Run(INIT, events[..|events| - 1]), events[|events| - 1], c);
    }
  }

  /** In every run no silver session is stopped at a request that names bronze, nor any session at one that
      names its own level or none. */
  lemma StoppedOnlyBelowLevel(events: seq<Event>, c: Id, request: Request)
    ensures var s := Run(INIT, events);
            && c in s.calls && s.calls[c].request in s.requests && s.requests[s.calls[c].request] == request
            && (|| request.requestedAcr == [] || s.calls[c].acr in request.requestedAcr
                || (s.calls[c].acr == SILVER && BRONZE in request.requestedAcr))
            ==> s.calls[c].phase != Finished(NeedsStrongerSession)
  {
    var s := Run(INIT, events);
    StoppedIsWeak(events, c);
    if c in s.calls {
      LevelsExactly(s.calls[c].acr, request.requestedAcr);
    }
  }

  /** In every run, of the calls that approve a request naming silver alone, no session but a silver one gets
      past the check: nothing is read, written or decided for any other. */
  lemma SilverAloneNeedsSilver(events: seq<Event>, c: Id, request: Request)
    ensures var s := Run(INIT, events);
            && c in s.calls && s.calls[c].request in s.requests && s.requests[s.calls[c].request] == request
            && s.calls[c].approve && s.calls[c].acr != SILVER
            && request.requestedAcr != [] && (forall v :: v in request.requestedAcr ==> v == SILVER)
            ==> (|| s.calls[c].phase == Checking
                 || (s.calls[c].phase.Finished? && s.calls[c].phase.outcome != Accepted))
  {
    var s := Run(INIT, events);
    RunKeeps(events);
    if c in s.calls {
      assert CallInv(s, c);
      LevelsExactly(s.calls[c].acr, request.requestedAcr);
    }
  }

  // ----- Polls -----

  /** A client that polls a request after each of the given numbers of seconds. */
  function Polls(r: Id, gaps: seq<nat>): seq<Event> {
    if gaps == [] then []
    else Polls(r, gaps[..|gaps| - 1]) + [Tick(gaps[|gaps| - 1]), PollTokens(r, true)]
  }

  function Total(gaps: seq<nat>): nat {
    if gaps == [] then 0 else Total(gaps[..|gaps| - 1]) + gaps[|gaps| - 1]
  }

  /** A pending request that was polled just now, with the given interval and time to live. */
  ghost predicate JustPolled(s: State, r: Id, interval: int, left: int) {
    && r in s.rows && r in s.requests
    && s.rows[r].status == Pending && s.rows[r].lastPolled == Some(s.now)
    && s.rows[r].interval == interval && s.requests[r].expiresAt == s.now + left
  }

  lemma RunTwo(s: State, events: seq<Event>, d: Event, e: Event)
    ensures Run(s, events + [d, e]) == Step(Step(Run(s, events), d), e)
  {
    var all := events + [d, e];
    assert all[..|all| - 1] == events + [d];
    assert (events + [d])[..|events|] == events;
  }

  /** A poll within the interval lengthens it by five seconds up to sixty, a later one leaves it. */
  lemma PollAfter(s: State, r: Id, interval: int, left: int, gap: nat)
    requires JustPolled(s, r, interval, left) && gap < left
    ensures var next := if gap >= interval then interval else if interval <= 55 then interval + 5 else 60;
            JustPolled(Step(Step(s, Tick(gap)), PollTokens(r, true)), r, next, left - gap)
  {
  }

  /** Polls in a rush, each less than two seconds after the one before, make the interval grow by five
      seconds each until it stands at sixty. */
  lemma {:induction false} RushedPolls(s: State, r: Id, interval: int, left: int, gaps: seq<nat>)
    requires JustPolled(s, r, interval, left) && 2 <= interval <= 60 && Total(gaps) < left
    requires forall i :: 0 <= i < |gaps| ==> gaps[i] < 2
    ensures var grown := interval + 5 * |gaps|;
            JustPolled(Run(s, Polls(r, gaps)), r, if grown < 60 then grown else 60, left - Total(gaps))
  {
    if gaps != [] {
      var front, gap := gaps[..|gaps| - 1], gaps[|gaps| - 1];
      RushedPolls(s, r, interval, left, front);
      RunTwo(s, Polls(r, front), Tick(gap), PollTokens(r, true));
      var grown := interval + 5 * |front|;
      PollAfter(Run(s, Polls(r, front)), r, if grown < 60 then grown else 60, left - Total(front), gap);
    }
  }

  /** Polls that keep to the interval leave it as it is. */
  lemma {:induction false} PatientPolls(s: State, r: Id, interval: int, left: int, gaps: seq<nat>)
    requires JustPolled(s, r, interval, left) && Total(gaps) < left
    requires forall i :: 0 <= i < |gaps| ==> gaps[i] >= interval
    ensures JustPolled(Run(s, Polls(r, gaps)), r, interval, left - Total(gaps))
  {
    if gaps != [] {
      var front, gap := gaps[..|gaps| - 1], gaps[|gaps| - 1];
      PatientPolls(s, r, interval, left, front);
      RunTwo(s, Polls(r, front), Tick(gap), PollTokens(r, true));
      PollAfter(Run(s, Polls(r, front)), r, interval, left - Total(front), gap);
    }
  }
}
