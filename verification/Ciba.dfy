/** Client-initiated backchannel authentication: decisions, token polls, consents and clean-up as
    interleaved steps over one store (sections 7.1, 7.3 and 11 of OpenID Connect CIBA Core 1.0). */
module Ciba {
  import opened Text

  type Id = nat

  const ACR_BRONZE: string := "urn:mace:incommon:iap:bronze"
  const ACR_SILVER: string := "urn:mace:incommon:iap:silver"

  predicate AcrSatisfies(actual: string, requested: string) {
    actual == requested || (actual == ACR_SILVER && requested == ACR_BRONZE)
  }

  /** Nothing is demanded, or the session's level meets one of the demands. */
  predicate StrongEnough(acr: string, requested: seq<string>) {
    requested == [] || exists v :: v in requested && AcrSatisfies(acr, v)
  }

  datatype DeliveryMode = Poll | Ping

  datatype Endpoint = NoEndpoint | InvalidEndpoint | ValidEndpoint(scheme: string)

  datatype Config = Config(mode: DeliveryMode, endpoint: Endpoint, lifetime: int, interval: int)

  predicate ValidConfig(c: Config) {
    && (c.mode == Ping ==> c.endpoint.ValidEndpoint? && c.endpoint.scheme == "https")
    && 60 <= c.lifetime <= 900
    && 2 <= c.interval <= 60
  }

  /** The lifetime of a new request: what the client asked for, never more than its configuration. */
  function Lifetime(c: Config, requestedExpiry: Option<int>): Option<int> {
    var lifetime := if requestedExpiry.Some? then requestedExpiry.value else c.lifetime;
    if 1 <= lifetime <= c.lifetime then Some(lifetime) else None
  }

  datatype Status = Pending | Approved | Denied | Consumed | Expired

  /** The part of a request that is fixed when it is created. */
  datatype Request = Request(
    user: Id, client: Id, scope: set<string>, requestedAcr: seq<string>, createdAt: int, expiresAt: int)

  /** The part that changes. */
  datatype Row = Row(status: Status, acr: Option<string>, interval: int, lastPolled: Option<int>)

  datatype Outcome = Accepted | NotFound | NoLongerPending | NeedsStrongerSession | AlreadyHandled

  /** Where one `decide_request` call stands between its reads and writes; `readAt` is how much had been
      logged when it read the stored consent. */
  datatype Phase =
    | Checking
    | ReadingConsent
    | WritingConsent(combined: set<string>, readAt: nat)
    | Deciding
    | Finished(outcome: Outcome)

  datatype Call = Call(request: Id, user: Id, acr: string, approve: bool, phase: Phase)

  datatype Entry =
    | ConsentWritten(call: Id, user: Id, client: Id, requested: set<string>, scopes: set<string>, readAt: nat)
    | ConsentRevoked(user: Id, client: Id)
    | Decided(call: Id, request: Id, approve: bool, acr: string, at: int)
    | TokensIssued(request: Id, at: int)

  datatype State = State(
    now: int,
    requests: map<Id, Request>,
    rows: map<Id, Row>,
    consents: map<(Id, Id), set<string>>,
    calls: map<Id, Call>,
    log: seq<Entry>)

  const INIT: State := State(0, map[], map[], map[], map[], [])

  datatype Event =
    | Tick(seconds: nat)
    | Create(id: Id, user: Id, client: Id, scope: set<string>, requestedAcr: seq<string>,
             config: Config, requestedExpiry: Option<int>)
    | Begin(call: Id, request: Id, user: Id, acr: string, approve: bool)
    | Check(call: Id)
    | ReadConsent(call: Id)
    | WriteConsent(call: Id)
    | Decide(call: Id)
    | PollTokens(request: Id, issues: bool)
    | RevokeConsent(user: Id, client: Id)
    | Cleanup(stale: set<Id>)

  function MoveTo(s: State, c: Id, phase: Phase): State
    requires c in s.calls
  {
    s.(calls := s.calls[c := s.calls[c].(phase := phase)])
  }

  /** The row of the request, if it is still stored and belongs to the caller. */
  predicate Found(s: State, call: Call) {
    call.request in s.rows && call.request in s.requests && s.requests[call.request].user == call.user
  }

  /** Where the reads before any write take a call. */
  function CheckedPhase(s: State, call: Call): Phase {
    if !Found(s, call) then Finished(NotFound)
    else
      var request := s.requests[call.request];
      if s.rows[call.request].status != Pending || request.expiresAt <= s.now then Finished(NoLongerPending)
      else if call.approve && !StrongEnough(call.acr, request.requestedAcr) then Finished(NeedsStrongerSession)
      else if call.approve then ReadingConsent
      else Deciding
  }

  function CheckStep(s: State, c: Id): State
    requires c in s.calls
  {
    MoveTo(s, c, CheckedPhase(s, s.calls[c]))
  }

  /** The scopes stored for a user and a client, none where nothing is stored. */
  function Stored(consents: map<(Id, Id), set<string>>, user: Id, client: Id): set<string> {
    if (user, client) in consents then consents[(user, client)] else {}
  }

  /** First half of granting consent: the stored scopes and the requested ones together. */
  function ReadStep(s: State, c: Id): State
    requires c in s.calls
  {
    var call := s.calls[c];
    if call.request !in s.requests then s
    else
      var request := s.requests[call.request];
      MoveTo(s, c, WritingConsent(Stored(s.consents, call.user, request.client) + request.scope, |s.log|))
  }

  /** Second half: the row is overwritten with what was combined. */
  function WriteStep(s: State, c: Id): State
    requires c in s.calls && s.calls[c].phase.WritingConsent?
  {
    var call := s.calls[c];
    if call.request !in s.requests then s
    else
      var request, combined := s.requests[call.request], call.phase.combined;
      MoveTo(s, c, Deciding).(
        consents := s.consents[(call.user, request.client) := combined],
        log := s.log + [ConsentWritten(c, call.user, request.client, request.scope, combined, call.phase.readAt)])
  }

  /** The conditional update: it takes effect only on a pending, unexpired row of the caller. */
  function DecideStep(s: State, c: Id): State
    requires c in s.calls
  {
    var call := s.calls[c];
    if Found(s, call) && s.rows[call.request].status == Pending && s.requests[call.request].expiresAt > s.now then
      var status := if call.approve then Approved else Denied;
      MoveTo(s, c, Finished(Accepted)).(
        rows := s.rows[call.request := s.rows[call.request].(status := status, acr := Some(call.acr))],
        log := s.log + [Decided(c, call.request, call.approve, call.acr, s.now)])
    else MoveTo(s, c, Finished(AlreadyHandled))
  }

  /** A poll of a pending request: one that comes too early lengthens the interval. */
  function Polled(row: Row, now: int): Row {
    var early := row.lastPolled.Some? && now < row.lastPolled.value + row.interval;
    var interval := if !early then row.interval else if row.interval + 5 < 60 then row.interval + 5 else 60;
    row.(interval := interval, lastPolled := Some(now))
  }

  /** One token request: a transaction on the locked row. `issues` says whether everything after the
      status check goes through; if not, the transaction is rolled back. */
  function PollStep(s: State, r: Id, issues: bool): State
    requires r in s.rows && r in s.requests
  {
    var row := s.rows[r];
    if s.requests[r].expiresAt <= s.now then s.(rows := s.rows[r := row.(status := Expired)])
    else if row.status == Pending then s.(rows := s.rows[r := Polled(row, s.now)])
    else if row.status == Approved && issues then
      s.(rows := s.rows[r := row.(status := Consumed)], log := s.log + [TokensIssued(r, s.now)])
    else s
  }

  /** One step. An event that is not due leaves the state as it is. */
  function Step(s: State, e: Event): State {
    match e
    case Tick(seconds) => s.(now := s.now + seconds)
    case Create(id, user, client, scope, acrs, config, expiry) =>
      var lifetime := Lifetime(config, expiry);
      if id in s.requests || !ValidConfig(config) || lifetime.None? then s
      else s.(requests := s.requests[id := Request(user, client, scope, acrs, s.now, s.now + lifetime.value)],
              rows := s.rows[id := Row(Pending, None, config.interval, None)])
    case Begin(c, request, user, acr, approve) =>
      if c in s.calls then s else s.(calls := s.calls[c := Call(request, user, acr, approve, Checking)])
    case Check(c) => if c in s.calls && s.calls[c].phase == Checking then CheckStep(s, c) else s
    case ReadConsent(c) => if c in s.calls && s.calls[c].phase == ReadingConsent then ReadStep(s, c) else s
    case WriteConsent(c) => if c in s.calls && s.calls[c].phase.WritingConsent? then WriteStep(s, c) else s
    case Decide(c) => if c in s.calls && s.calls[c].phase == Deciding then DecideStep(s, c) else s
    case PollTokens(r, issues) => if r in s.rows && r in s.requests then PollStep(s, r, issues) else s
    case RevokeConsent(user, client) =>
      s.(consents := s.consents - {(user, client)}, log := s.log + [ConsentRevoked(user, client)])
    case Cleanup(stale) =>
      s.(rows := map r | r in s.rows && !(r in s.requests && s.requests[r].expiresAt < s.now)
                           && !(r in stale && s.rows[r].status in {Consumed, Denied, Expired}) :: s.rows[r])
  }

  function Run(s: State, events: seq<Event>): State
    decreases |events|
  {
    if events == [] then s else Step(Run(s, events[..|events| - 1]), events[|events| - 1])
  }

  // ----- What every step keeps -----

  /** The caller's consent for the request of call `c` was written, covering the requested scopes. */
  ghost predicate ConsentOnRecord(s: State, log: seq<Entry>, c: Id)
    requires c in s.calls && s.calls[c].request in s.requests
  {
    var request := s.requests[s.calls[c].request];
    exists k :: 0 <= k < |log| && log[k].ConsentWritten? && log[k].call == c
             && log[k].user == s.calls[c].user && log[k].client == request.client && request.scope <= log[k].scopes
  }

  ghost predicate LoggedFor(log: seq<Entry>, c: Id, r: Id) {
    exists k :: 0 <= k < |log| && log[k].Decided? && log[k].call == c && log[k].request == r
  }

  ghost predicate DecidedIn(log: seq<Entry>, r: Id, approve: bool) {
    exists k :: 0 <= k < |log| && log[k].Decided? && log[k].request == r && log[k].approve == approve
  }

  ghost predicate IssuedIn(log: seq<Entry>, r: Id) {
    exists k :: 0 <= k < |log| && log[k].TokensIssued? && log[k].request == r
  }

  ghost predicate Cleared(s: State, call: Call) {
    && call.request in s.requests
    && s.requests[call.request].user == call.user
    && (call.approve ==> StrongEnough(call.acr, s.requests[call.request].requestedAcr))
  }

  ghost predicate CallInv(s: State, c: Id)
    requires c in s.calls
  {
    var call := s.calls[c];
    match call.phase
    case Checking => true
    case ReadingConsent => Cleared(s, call) && call.approve
    case WritingConsent(combined, _) => Cleared(s, call) && call.approve && s.requests[call.request].scope <= combined
    case Deciding => Cleared(s, call) && (call.approve ==> ConsentOnRecord(s, s.log, c))
    case Finished(outcome) =>
      outcome == Accepted ==>
        Cleared(s, call) && (call.approve ==> ConsentOnRecord(s, s.log, c)) && LoggedFor(s.log, c, call.request)
  }

  /** An entry of the log says what it should about the calls, and the entries before it bear it out. */
  ghost predicate EntryInv(s: State, k: nat)
    requires k < |s.log|
  {
    match s.log[k]
    case ConsentWritten(_, _, _, _, _, _) => true
    case ConsentRevoked(_, _) => true
    case Decided(c, r, approve, acr, at) =>
      && c in s.calls && s.calls[c].phase == Finished(Accepted)
      && s.calls[c].request == r && s.calls[c].approve == approve && s.calls[c].acr == acr
      && Cleared(s, s.calls[c])
      && s.requests[r].createdAt <= at < s.requests[r].expiresAt
      && (approve ==> ConsentOnRecord(s, s.log[..k], c))
    case TokensIssued(r, at) =>
      && r in s.requests && at < s.requests[r].expiresAt
      && DecidedIn(s.log[..k], r, true)
  }

  /** A row's status is what the log says happened to the request. */
  ghost predicate RowInv(s: State, r: Id)
    requires r in s.rows
  {
    var row := s.rows[r];
    && r in s.requests
    && 2 <= row.interval <= 60
    && (row.status == Pending ==> !DecidedIn(s.log, r, true) && !DecidedIn(s.log, r, false))
    && (row.status in {Approved, Consumed} ==> DecidedIn(s.log, r, true))
    && (row.status == Approved ==> !IssuedIn(s.log, r))
    && (row.status == Denied ==> DecidedIn(s.log, r, false))
    && (row.status == Expired ==> s.requests[r].expiresAt <= s.now)
  }

  ghost predicate Unique(log: seq<Entry>) {
    && (forall i, j :: 0 <= i < j < |log| && log[i].Decided? && log[j].Decided? ==> log[i].request != log[j].request)
    && (forall i, j :: 0 <= i < j < |log| && log[i].TokensIssued? && log[j].TokensIssued?
          ==> log[i].request != log[j].request)
  }

  ghost predicate RequestInv(s: State, r: Id)
    requires r in s.requests
  {
    && s.requests[r].createdAt <= s.now
    && s.requests[r].createdAt < s.requests[r].expiresAt <= s.requests[r].createdAt + 900
    && (r !in s.rows ==> DecidedIn(s.log, r, true) || DecidedIn(s.log, r, false) || s.requests[r].expiresAt <= s.now)
  }

  function ReplayStep(before: map<(Id, Id), set<string>>, x: Entry): map<(Id, Id), set<string>> {
    if x.ConsentWritten? then before[(x.user, x.client) := x.scopes]
    else if x.ConsentRevoked? then before - {(x.user, x.client)}
    else before
  }

  /** The consent table is what the last write for each user and client left. */
  function Replay(log: seq<Entry>): map<(Id, Id), set<string>> {
    if log == [] then map[] else ReplayStep(Replay(log[..|log| - 1]), log[|log| - 1])
  }

  ghost predicate Inv(s: State) {
    && (forall c :: c in s.calls ==> CallInv(s, c))
    && (forall k :: 0 <= k < |s.log| ==> EntryInv(s, k))
    && (forall r :: r in s.rows ==> RowInv(s, r))
    && (forall r :: r in s.requests ==> RequestInv(s, r))
    && Unique(s.log)
    && s.consents == Replay(s.log)
  }
}
