/** Two runs in which interleaved decisions leave a consent that no single decision would. */
module CibaRuns {
  import opened Text
  import opened Ciba

  /** One more event at the end of a run. */
  lemma Then(before: seq<Event>, e: Event, s: State, t: State) returns (events: seq<Event>)
    requires Run(INIT, before) == s && Step(s, e) == t
    ensures Run(INIT, events) == t
  {
    events := before + [e];
    assert events[..|before|] == before;
  }

  const USER: Id := 5
  const CLIENT: Id := 6
  const CONFIG: Config := Config(Poll, NoEndpoint, 60, 5)
  const EMAIL: Request := Request(USER, CLIENT, {"email"}, [], 0, 60)
  const PHONE: Request := Request(USER, CLIENT, {"phone"}, [], 0, 60)

  function RowWith(status: Status): Row {
    Row(status, if status == Pending then None else Some(ACR_BRONZE), 5, None)
  }

  // ----- Two approvals for one user and client -----

  type Consents = map<(Id, Id), set<string>>

  /** Two approvals under way for requests 1 and 2. */
  function TwoCalls(first: Status, second: Status, consents: Consents, p: Phase, q: Phase, log: seq<Entry>): State {
    State(
      0, map[1 := EMAIL, 2 := PHONE], map[1 := RowWith(first), 2 := RowWith(second)], consents,
      map[11 := Call(1, USER, ACR_BRONZE, true, p), 12 := Call(2, USER, ACR_BRONZE, true, q)], log)
  }

  function Created(requests: map<Id, Request>, rows: map<Id, Row>, calls: map<Id, Call>): State {
    State(0, requests, rows, map[], calls, [])
  }

  lemma CreateEmail()
    ensures Step(INIT, Create(1, USER, CLIENT, {"email"}, [], CONFIG, None))
         == Created(map[1 := EMAIL], map[1 := RowWith(Pending)], map[])
  {
  }

  lemma CreatePhone()
    ensures Step(Created(map[1 := EMAIL], map[1 := RowWith(Pending)], map[]),
                 Create(2, USER, CLIENT, {"phone"}, [], CONFIG, None))
         == Created(map[1 := EMAIL, 2 := PHONE], map[1 := RowWith(Pending), 2 := RowWith(Pending)], map[])
  {
  }

  lemma BeginCall(requests: map<Id, Request>, rows: map<Id, Row>, calls: map<Id, Call>, c: Id, r: Id, approve: bool)
    requires c !in calls
    ensures Step(Created(requests, rows, calls), Begin(c, r, USER, ACR_BRONZE, approve))
         == Created(requests, rows, calls[c := Call(r, USER, ACR_BRONZE, approve, Checking)])
  {
  }

  lemma TwoCallsBegin() returns (events: seq<Event>)
    ensures Run(INIT, events) == TwoCalls(Pending, Pending, map[], Checking, Checking, [])
  {
    var requests := map[1 := EMAIL, 2 := PHONE];
    var rows := map[1 := RowWith(Pending), 2 := RowWith(Pending)];
    var calls := map[11 := Call(1, USER, ACR_BRONZE, true, Checking)];
    CreateEmail();
    CreatePhone();
    BeginCall(requests, rows, map[], 11, 1, true);
    BeginCall(requests, rows, calls, 12, 2, true);
    var one := Created(map[1 := EMAIL], map[1 := RowWith(Pending)], map[]);
    events := Then([], Create(1, USER, CLIENT, {"email"}, [], CONFIG, None), INIT, one);
    events := Then(
      events, Create(2, USER, CLIENT, {"phone"}, [], CONFIG, None), one, Created(requests, rows, map[]));
    events := Then(
      events, Begin(11, 1, USER, ACR_BRONZE, true), Created(requests, rows, map[]), Created(requests, rows, calls));
    events := Then(
      events, Begin(12, 2, USER, ACR_BRONZE, true), Created(requests, rows, calls),
      TwoCalls(Pending, Pending, map[], Checking, Checking, []));
  }

  lemma CheckFirst()
    ensures Step(TwoCalls(Pending, Pending, map[], Checking, Checking, []), Check(11))
         == TwoCalls(Pending, Pending, map[], ReadingConsent, Checking, [])
  {
  }

  lemma CheckSecond()
    ensures Step(TwoCalls(Pending, Pending, map[], ReadingConsent, Checking, []), Check(12))
         == TwoCalls(Pending, Pending, map[], ReadingConsent, ReadingConsent, [])
  {
  }

  const READ_EMAIL: Phase := WritingConsent({"email"}, 0)
  const READ_PHONE: Phase := WritingConsent({"phone"}, 0)

  lemma ReadFirst()
    ensures Step(TwoCalls(Pending, Pending, map[], ReadingConsent, ReadingConsent, []), ReadConsent(11))
         == TwoCalls(Pending, Pending, map[], READ_EMAIL, ReadingConsent, [])
  {
    assert {} + {"email"} == {"email"};
  }

  lemma ReadSecond()
    ensures Step(TwoCalls(Pending, Pending, map[], READ_EMAIL, ReadingConsent, []), ReadConsent(12))
         == TwoCalls(Pending, Pending, map[], READ_EMAIL, READ_PHONE, [])
  {
    assert {} + {"phone"} == {"phone"};
  }

  lemma TwoCallsRead(before: seq<Event>) returns (events: seq<Event>)
    requires Run(INIT, before) == TwoCalls(Pending, Pending, map[], Checking, Checking, [])
    ensures Run(INIT, events) == TwoCalls(Pending, Pending, map[], READ_EMAIL, READ_PHONE, [])
  {
    CheckFirst();
    CheckSecond();
    ReadFirst();
    ReadSecond();
    var s := TwoCalls(Pending, Pending, map[], ReadingConsent, Checking, []);
    var t := TwoCalls(Pending, Pending, map[], ReadingConsent, ReadingConsent, []);
    var u := TwoCalls(Pending, Pending, map[], READ_EMAIL, ReadingConsent, []);
    events := Then(before, Check(11), TwoCalls(Pending, Pending, map[], Checking, Checking, []), s);
    events := Then(events, Check(12), s, t);
    events := Then(events, ReadConsent(11), t, u);
    events := Then(events, ReadConsent(12), u, TwoCalls(Pending, Pending, map[], READ_EMAIL, READ_PHONE, []));
  }

  const EMAIL_WRITTEN: Entry := ConsentWritten(11, USER, CLIENT, {"email"}, {"email"}, 0)
  const PHONE_WRITTEN: Entry := ConsentWritten(12, USER, CLIENT, {"phone"}, {"phone"}, 0)
  const EMAIL_STORED: Consents := map[(USER, CLIENT) := {"email"}]
  const PHONE_STORED: Consents := map[(USER, CLIENT) := {"phone"}]

  lemma WriteFirst()
    ensures Step(TwoCalls(Pending, Pending, map[], READ_EMAIL, READ_PHONE, []), WriteConsent(11))
         == TwoCalls(Pending, Pending, EMAIL_STORED, Deciding, READ_PHONE, [EMAIL_WRITTEN])
  {
  }

  lemma WriteSecond()
    ensures Step(TwoCalls(Pending, Pending, EMAIL_STORED, Deciding, READ_PHONE, [EMAIL_WRITTEN]), WriteConsent(12))
         == TwoCalls(Pending, Pending, PHONE_STORED, Deciding, Deciding, [EMAIL_WRITTEN, PHONE_WRITTEN])
  {
  }

  lemma TwoCallsWrite(before: seq<Event>) returns (events: seq<Event>)
    requires Run(INIT, before) == TwoCalls(Pending, Pending, map[], READ_EMAIL, READ_PHONE, [])
    ensures Run(INIT, events)
         == TwoCalls(Pending, Pending, PHONE_STORED, Deciding, Deciding, [EMAIL_WRITTEN, PHONE_WRITTEN])
  {
    WriteFirst();
    WriteSecond();
    var s := TwoCalls(Pending, Pending, EMAIL_STORED, Deciding, READ_PHONE, [EMAIL_WRITTEN]);
    events := Then(before, WriteConsent(11), TwoCalls(Pending, Pending, map[], READ_EMAIL, READ_PHONE, []), s);
    events := Then(
      events, WriteConsent(12), s,
      TwoCalls(Pending, Pending, PHONE_STORED, Deciding, Deciding, [EMAIL_WRITTEN, PHONE_WRITTEN]));
  }

  const EMAIL_APPROVED: Entry := Decided(11, 1, true, ACR_BRONZE, 0)
  const PHONE_APPROVED: Entry := Decided(12, 2, true, ACR_BRONZE, 0)

  lemma DecideFirst(consents: Consents, log: seq<Entry>)
    ensures Step(TwoCalls(Pending, Pending, consents, Deciding, Deciding, log), Decide(11))
         == TwoCalls(Approved, Pending, consents, Finished(Accepted), Deciding, log + [EMAIL_APPROVED])
  {
  }

  lemma DecideSecond(consents: Consents, log: seq<Entry>)
    ensures Step(TwoCalls(Approved, Pending, consents, Finished(Accepted), Deciding, log), Decide(12))
         == TwoCalls(Approved, Approved, consents, Finished(Accepted), Finished(Accepted), log + [PHONE_APPROVED])
  {
  }

  /** Granting a consent reads and writes in two steps, so two approvals for the same user and client can
      interleave: both requests end approved, and the stored consent lacks what the first one asked for. */
  lemma InterleavedGrantsLoseAScope() returns (events: seq<Event>)
    ensures var s := Run(INIT, events);
            && 1 in s.rows && 2 in s.rows && s.rows[1].status == Approved && s.rows[2].status == Approved
            && 1 in s.requests && s.requests[1] == EMAIL && "email" !in Stored(s.consents, USER, CLIENT)
  {
    var writes := [EMAIL_WRITTEN, PHONE_WRITTEN];
    var s := TwoCalls(Pending, Pending, PHONE_STORED, Deciding, Deciding, writes);
    var accepted := Finished(Accepted);
    var t := TwoCalls(Approved, Pending, PHONE_STORED, accepted, Deciding, writes + [EMAIL_APPROVED]);
    var u := TwoCalls(
      Approved, Approved, PHONE_STORED, accepted, accepted, writes + [EMAIL_APPROVED] + [PHONE_APPROVED]);
    events := TwoCallsBegin();
    events := TwoCallsRead(events);
    events := TwoCallsWrite(events);
    DecideFirst(PHONE_STORED, writes);
    DecideSecond(PHONE_STORED, writes + [EMAIL_APPROVED]);
    events := Then(events, Decide(11), s, t);
    events := Then(events, Decide(12), t, u);
    assert "email" !in {"phone"};
  }

  // ----- An approval and a denial of one request -----

  /** Call 11 approves request 1, call 12 denies it. */
  function Rivals(status: Status, consents: Consents, p: Phase, q: Phase, log: seq<Entry>): State {
    State(
      0, map[1 := EMAIL], map[1 := RowWith(status)], consents,
      map[11 := Call(1, USER, ACR_BRONZE, true, p), 12 := Call(1, USER, ACR_BRONZE, false, q)], log)
  }

  lemma RivalsBegin() returns (events: seq<Event>)
    ensures Run(INIT, events) == Rivals(Pending, map[], Checking, Checking, [])
  {
    var requests, rows := map[1 := EMAIL], map[1 := RowWith(Pending)];
    var calls := map[11 := Call(1, USER, ACR_BRONZE, true, Checking)];
    CreateEmail();
    BeginCall(requests, rows, map[], 11, 1, true);
    BeginCall(requests, rows, calls, 12, 1, false);
    events := Then(
      [], Create(1, USER, CLIENT, {"email"}, [], CONFIG, None), INIT, Created(requests, rows, map[]));
    events := Then(
      events, Begin(11, 1, USER, ACR_BRONZE, true), Created(requests, rows, map[]), Created(requests, rows, calls));
    events := Then(
      events, Begin(12, 1, USER, ACR_BRONZE, false), Created(requests, rows, calls),
      Rivals(Pending, map[], Checking, Checking, []));
  }

  lemma ApproverChecks()
    ensures Step(Rivals(Pending, map[], Checking, Checking, []), Check(11))
         == Rivals(Pending, map[], ReadingConsent, Checking, [])
  {
  }

  lemma DenierChecks()
    ensures Step(Rivals(Pending, map[], ReadingConsent, Checking, []), Check(12))
         == Rivals(Pending, map[], ReadingConsent, Deciding, [])
  {
  }

  lemma ApproverReads()
    ensures Step(Rivals(Pending, map[], ReadingConsent, Deciding, []), ReadConsent(11))
         == Rivals(Pending, map[], READ_EMAIL, Deciding, [])
  {
    assert {} + {"email"} == {"email"};
  }

  lemma ApproverWrites()
    ensures Step(Rivals(Pending, map[], READ_EMAIL, Deciding, []), WriteConsent(11))
         == Rivals(Pending, EMAIL_STORED, Deciding, Deciding, [EMAIL_WRITTEN])
  {
  }

  lemma DenierDecides()
    ensures Step(Rivals(Pending, EMAIL_STORED, Deciding, Deciding, [EMAIL_WRITTEN]), Decide(12))
         == Rivals(Denied, EMAIL_STORED, Deciding, Finished(Accepted),
                   [EMAIL_WRITTEN] + [Decided(12, 1, false, ACR_BRONZE, 0)])
  {
  }

  lemma ApproverIsLate(log: seq<Entry>)
    ensures Step(Rivals(Denied, EMAIL_STORED, Deciding, Finished(Accepted), log), Decide(11))
         == Rivals(Denied, EMAIL_STORED, Finished(AlreadyHandled), Finished(Accepted), log)
  {
  }

  lemma RivalsGrant(before: seq<Event>) returns (events: seq<Event>)
    requires Run(INIT, before) == Rivals(Pending, map[], Checking, Checking, [])
    ensures Run(INIT, events) == Rivals(Pending, EMAIL_STORED, Deciding, Deciding, [EMAIL_WRITTEN])
  {
    ApproverChecks();
    DenierChecks();
    ApproverReads();
    ApproverWrites();
    var s := Rivals(Pending, map[], ReadingConsent, Checking, []);
    var t := Rivals(Pending, map[], ReadingConsent, Deciding, []);
    var u := Rivals(Pending, map[], READ_EMAIL, Deciding, []);
    events := Then(before, Check(11), Rivals(Pending, map[], Checking, Checking, []), s);
    events := Then(events, Check(12), s, t);
    events := Then(events, ReadConsent(11), t, u);
    events := Then(events, WriteConsent(11), u, Rivals(Pending, EMAIL_STORED, Deciding, Deciding, [EMAIL_WRITTEN]));
  }

  /** Consent is written before the decision, so a request can end denied while the consent that the losing
      approval wrote stays stored. */
  lemma DeniedRequestLeavesConsent() returns (events: seq<Event>)
    ensures var s := Run(INIT, events);
            && 1 in s.rows && s.rows[1].status == Denied && 1 in s.requests && s.requests[1] == EMAIL
            && 11 in s.calls && s.calls[11].approve && s.calls[11].phase == Finished(AlreadyHandled)
            && "email" in Stored(s.consents, USER, CLIENT)
  {
    events := RivalsBegin();
    events := RivalsGrant(events);
    var log := [EMAIL_WRITTEN] + [Decided(12, 1, false, ACR_BRONZE, 0)];
    DenierDecides();
    ApproverIsLate(log);
    var s := Rivals(Pending, EMAIL_STORED, Deciding, Deciding, [EMAIL_WRITTEN]);
    var t := Rivals(Denied, EMAIL_STORED, Deciding, Finished(Accepted), log);
    events := Then(events, Decide(12), s, t);
    var u := Rivals(Denied, EMAIL_STORED, Finished(AlreadyHandled), Finished(Accepted), log);
    events := Then(events, Decide(11), t, u);
  }
}
