/** Migration runners: any number of them, failing or losing their connection anywhere, over one database. */
module Migrations {
  import opened Text
  import opened Ordering
  import opened MigrationOrder

  type Id = nat

  /** Where a runner stands. From `Locked` to `InTransaction` its connection holds the advisory lock. */
  datatype Phase =
    | Waiting
    | Locked
    | Ready(next: nat)
    | InTransaction(next: nat, ran: bool, recorded: bool)
    | Done
    | Failed

  datatype Runner = Runner(plan: seq<string>, phase: Phase)

  /** `rows` are the file names recorded as applied and `effects` the scripts whose changes are in the
      database, both as committed and in order. */
  datatype State = State(lock: Option<Id>, rows: seq<string>, effects: seq<string>, runners: map<Id, Runner>)

  datatype Event =
    | Connect(r: Id)
    | Acquire(r: Id)
    | LockTimeout(r: Id)
    | List(r: Id, listing: seq<string>)
    | Check(r: Id)
    | Execute(r: Id, succeeds: bool)
    | Record(r: Id, succeeds: bool)
    | Commit(r: Id, durable: bool, acknowledged: bool)
    | Finish(r: Id)
    | Crash(r: Id)

  predicate Holds(p: Phase) {
    p.Locked? || p.Ready? || p.InTransaction?
  }

  function Move(s: State, r: Id, phase: Phase): State
    requires r in s.runners
  {
    s.(runners := s.runners[r := s.runners[r].(phase := phase)])
  }

  /** The runner stops and its connection goes: an open transaction is undone, a held lock is released. */
  function Stop(s: State, r: Id, phase: Phase): State
    requires r in s.runners
  {
    Move(s, r, phase).(lock := if s.lock == Some(r) then None else s.lock)
  }

  function PhaseOf(s: State, r: Id): Phase {
    if r in s.runners then s.runners[r].phase else Failed
  }

  /** A file that is recorded is skipped; for any other a transaction is begun. */
  function CheckStep(s: State, r: Id): State
    requires r in s.runners && s.runners[r].phase.Ready?
  {
    var plan, next := s.runners[r].plan, s.runners[r].phase.next;
    if next >= |plan| then s
    else if plan[next] in s.rows then Move(s, r, Ready(next + 1))
    else Move(s, r, InTransaction(next, false, false))
  }

  /** The commit may or may not reach the disk, and the runner may or may not hear about one that did. */
  function CommitStep(s: State, r: Id, durable: bool, acknowledged: bool): State
    requires r in s.runners && s.runners[r].phase.InTransaction? && s.runners[r].phase.next < |s.runners[r].plan|
  {
    var file, next := s.runners[r].plan[s.runners[r].phase.next], s.runners[r].phase.next;
    var committed := if durable then s.(rows := s.rows + [file], effects := s.effects + [file]) else s;
    if durable && acknowledged then Move(committed, r, Ready(next + 1)) else Stop(committed, r, Failed)
  }

  /** One step over the files of the migrations directory. An event that is not due changes nothing. */
  function Step(files: seq<string>, s: State, e: Event): State {
    match e
    case Connect(r) => if r in s.runners then s else s.(runners := s.runners[r := Runner([], Waiting)])
    case Acquire(r) =>
      if PhaseOf(s, r) == Waiting && s.lock.None? then Move(s, r, Locked).(lock := Some(r)) else s
    case LockTimeout(r) => if PhaseOf(s, r) == Waiting then Stop(s, r, Failed) else s
    case List(r, listing) =>
      if PhaseOf(s, r) != Locked || multiset(listing) != multiset(files) then s
      else if !UniqueVersions(listing) then Stop(s, r, Failed)
      else s.(runners := s.runners[r := Runner(Plan(listing), Ready(0))])
    case Check(r) => if PhaseOf(s, r).Ready? then CheckStep(s, r) else s
    case Execute(r, succeeds) =>
      var p := PhaseOf(s, r);
      if !p.InTransaction? || p.ran then s
      else if succeeds then Move(s, r, InTransaction(p.next, true, false))
      else Stop(s, r, Failed)
    case Record(r, succeeds) =>
      var p := PhaseOf(s, r);
      if !p.InTransaction? || !p.ran || p.recorded || p.next >= |s.runners[r].plan| then s
      else if succeeds && s.runners[r].plan[p.next] !in s.rows then Move(s, r, InTransaction(p.next, true, true))
      else Stop(s, r, Failed)
    case Commit(r, durable, acknowledged) =>
      var p := PhaseOf(s, r);
      if !p.InTransaction? || !p.recorded || p.next >= |s.runners[r].plan| then s
      else CommitStep(s, r, durable, acknowledged)
    case Finish(r) =>
      var p := PhaseOf(s, r);
      if p.Ready? && p.next >= |s.runners[r].plan| then Stop(s, r, Done) else s
    case Crash(r) =>
      if r in s.runners && s.runners[r].phase != Done then Stop(s, r, Failed) else s
  }

  function Run(files: seq<string>, s: State, events: seq<Event>): State
    decreases |events|
  {
    if events == [] then s else Step(files, Run(files, s, events[..|events| - 1]), events[|events| - 1])
  }

  /** A database in which the first `applied` files were applied before. */
  function Start(files: seq<string>, applied: nat): State
    requires applied <= |Plan(files)|
  {
    State(None, Plan(files)[..applied], Plan(files)[..applied], map[])
  }

  // ----- What every step keeps -----

  predicate RunnerInv(files: seq<string>, s: State, r: Id)
    requires r in s.runners
  {
    var runner := s.runners[r];
    && (Holds(runner.phase) ==> s.lock == Some(r))
    && match runner.phase
       case Ready(next) => UniqueVersions(files) && runner.plan == Plan(files) && next <= |s.rows|
       case InTransaction(next, ran, recorded) =>
         && UniqueVersions(files) && runner.plan == Plan(files)
         && next == |s.rows| < |Plan(files)| && (recorded ==> ran)
       case Done => UniqueVersions(files) && s.rows == Plan(files)
       case _ => true
  }

  predicate Inv(files: seq<string>, s: State) {
    && s.effects == s.rows
    && s.rows <= Plan(files)
    && (s.lock.Some? ==> s.lock.value in s.runners && Holds(s.runners[s.lock.value].phase))
    && forall r :: r in s.runners ==> RunnerInv(files, s, r)
  }

  lemma PlanMembers(files: seq<string>, k: nat, i: nat)
    requires UniqueVersions(files) && k <= |Plan(files)| && i < |Plan(files)|
    ensures Plan(files)[i] in Plan(files)[..k] <==> i < k
  {
    PlanIncreases(files);
    var plan := Plan(files);
    if i < k {
      assert plan[..k][i] == plan[i];
    }
  }

  /** A step that changes one runner and leaves the database alone. */
  lemma RunnerStepKeeps(files: seq<string>, s: State, t: State, r: Id)
    requires Inv(files, s) && r in t.runners && t.runners == s.runners[r := t.runners[r]]
    requires t.rows == s.rows && t.effects == s.effects
    requires RunnerInv(files, t, r)
    requires t.lock == s.lock || (s.lock.None? && t.lock == Some(r)) || (s.lock == Some(r) && t.lock.None?)
    requires t.lock == Some(r) ==> Holds(t.runners[r].phase)
    ensures Inv(files, t)
  {
  }

  lemma CheckKeeps(files: seq<string>, s: State, r: Id)
    requires Inv(files, s) && r in s.runners && s.runners[r].phase.Ready?
    ensures Inv(files, CheckStep(s, r))
  {
    assert RunnerInv(files, s, r);
    var plan, next := s.runners[r].plan, s.runners[r].phase.next;
    if next < |plan| {
      PlanMembers(files, |s.rows|, next);
      RunnerStepKeeps(files, s, CheckStep(s, r), r);
    }
  }

  lemma CommitKeeps(files: seq<string>, s: State, r: Id, durable: bool, acknowledged: bool)
    requires Inv(files, s) && r in s.runners && s.runners[r].phase.InTransaction?
    ensures s.runners[r].phase.next < |s.runners[r].plan|
    ensures Inv(files, CommitStep(s, r, durable, acknowledged))
  {
  }

  lemma ListKeeps(files: seq<string>, s: State, r: Id, listing: seq<string>)
    requires Inv(files, s) && PhaseOf(s, r) == Locked && multiset(listing) == multiset(files)
    ensures Inv(files, Step(files, s, List(r, listing)))
  {
    assert RunnerInv(files, s, r);
    if UniqueVersions(listing) {
      UniqueUnderReordering(listing, files);
      PlanIsCanonical(listing, files);
    }
    RunnerStepKeeps(files, s, Step(files, s, List(r, listing)), r);
  }

  lemma StepKeeps(files: seq<string>, s: State, e: Event)
    requires Inv(files, s)
    ensures Inv(files, Step(files, s, e))
  {
    var t := Step(files, s, e);
    if e.r in s.runners {
      assert RunnerInv(files, s, e.r);
    }
    match e
    case Check(r) =>
      if PhaseOf(s, r).Ready? { CheckKeeps(files, s, r); }
    case Commit(r, durable, acknowledged) =>
      if PhaseOf(s, r).InTransaction? { CommitKeeps(files, s, r, durable, acknowledged); }
    case List(r, listing) =>
      if t != s {
        ListKeeps(files, s, r, listing);
      }
    case _ =>
      if t != s {
        RunnerStepKeeps(files, s, t, e.r);
      }
  }

  lemma RowsGrow(files: seq<string>, s: State, e: Event)
    ensures s.rows <= Step(files, s, e).rows
  {
  }

  lemma {:induction false} RunKeeps(files: seq<string>, s: State, events: seq<Event>)
    requires Inv(files, s)
    ensures Inv(files, Run(files, s, events)) && s.rows <= Run(files, s, events).rows
    decreases |events|
  {
    if events != [] {
      var front, e := events[..|events| - 1], events[|events| - 1];
      RunKeeps(files, s, front);
      StepKeeps(files, Run(files, s, front), e);
      RowsGrow(files, Run(files, s, front), e);
    }
  }

  lemma StartInv(files: seq<string>, applied: nat)
    requires applied <= |Plan(files)|
    ensures Inv(files, Start(files, applied))
  {
  }

  /** A runner that waits for the lock either gets it when it is free or fails with the database as it was. */
  lemma WaitingEnds(files: seq<string>, s: State, r: Id)
    requires Inv(files, s) && PhaseOf(s, r) == Waiting
    ensures var t := Step(files, s, LockTimeout(r));
            && PhaseOf(t, r) == Failed && t.rows == s.rows && t.effects == s.effects && t.lock == s.lock
    ensures Step(files, s, Acquire(r)).lock == if s.lock.None? then Some(r) else s.lock
  {
    assert RunnerInv(files, s, r);
  }

  // ----- The theorems -----

  /** In every run what has been applied is a beginning of the files by version, recorded as it was applied;
      with unique versions that order is strictly increasing, so no file is applied twice. */
  lemma AppliedInOrderOnce(files: seq<string>, applied: nat, events: seq<Event>)
    requires applied <= |Plan(files)|
    ensures var s := Run(files, Start(files, applied), events);
            && s.effects == s.rows && s.effects <= Plan(files) && applied <= |s.effects|
            && (UniqueVersions(files) ==>
                 forall i, j :: 0 <= i < j < |s.effects| ==>
                   && Version(s.effects[i]).Some? && Version(s.effects[j]).Some?
                   && Version(s.effects[i]).value < Version(s.effects[j]).value)
  {
    StartInv(files, applied);
    RunKeeps(files, Start(files, applied), events);
    var s := Run(files, Start(files, applied), events);
    if UniqueVersions(files) {
      PlanIncreases(files);
    }
  }

  /** A directory with an unversioned file or a repeated version changes nothing and completes nothing. */
  lemma AmbiguousFilesChangeNothing(files: seq<string>, applied: nat, events: seq<Event>)
    requires applied <= |Plan(files)| && !UniqueVersions(files)
    ensures var s := Run(files, Start(files, applied), events);
            s.effects == Start(files, applied).effects && forall r :: r in s.runners ==> s.runners[r].phase != Done
    decreases |events|
  {
    StartInv(files, applied);
    RunKeeps(files, Start(files, applied), events);
    var s := Run(files, Start(files, applied), events);
    assert forall r :: r in s.runners ==> RunnerInv(files, s, r);
    if events != [] {
      var before := Run(files, Start(files, applied), events[..|events| - 1]);
      AmbiguousFilesChangeNothing(files, applied, events[..|events| - 1]);
      RunKeeps(files, Start(files, applied), events[..|events| - 1]);
      var e := events[|events| - 1];
      if e.Commit? && e.r in before.runners {
        assert RunnerInv(files, before, e.r);
      }
    }
  }

  /** A runner that completes has every file applied, and no later step of any runner applies anything. */
  lemma CompletedMeansAll(files: seq<string>, applied: nat, events: seq<Event>, r: Id, more: seq<Event>)
    requires applied <= |Plan(files)|
    requires PhaseOf(Run(files, Start(files, applied), events), r) == Done
    ensures var s := Run(files, Start(files, applied), events);
            && s.effects == Plan(files) && multiset(s.effects) == multiset(files)
            && Run(files, s, more).effects == s.effects
  {
    StartInv(files, applied);
    RunKeeps(files, Start(files, applied), events);
    var s := Run(files, Start(files, applied), events);
    assert RunnerInv(files, s, r);
    PlanIncreases(files);
    RunKeeps(files, s, more);
  }

  /** At most one runner at a time is between taking the lock and giving it up. */
  lemma OneRunnerAtATime(files: seq<string>, applied: nat, events: seq<Event>, q: Id, r: Id)
    requires applied <= |Plan(files)|
    ensures var s := Run(files, Start(files, applied), events);
            Holds(PhaseOf(s, q)) && Holds(PhaseOf(s, r)) ==> q == r
  {
    StartInv(files, applied);
    RunKeeps(files, Start(files, applied), events);
    var s := Run(files, Start(files, applied), events);
    if q in s.runners && r in s.runners {
      assert RunnerInv(files, s, q) && RunnerInv(files, s, r);
    }
  }

  // ----- One undisturbed runner -----

  /** What the database makes of one file's transaction. A commit that fails may have reached the disk. */
  datatype Outcome = Applied | ScriptFails | RecordFails | CommitFails(durable: bool)

  /** The loop of one runner over its plan: the rows it leaves, and whether it got to the end. */
  function ApplyFrom(rows: seq<string>, plan: seq<string>, outcome: string -> Outcome): (seq<string>, bool)
    decreases |plan|
  {
    if plan == [] then (rows, true)
    else if plan[0] in rows then ApplyFrom(rows, plan[1..], outcome)
    else
      match outcome(plan[0])
      case Applied => ApplyFrom(rows + [plan[0]], plan[1..], outcome)
      case CommitFails(true) => (rows + [plan[0]], false)
      case _ => (rows, false)
  }

  class Database {
    var rows: seq<string>
    var effects: seq<string>

    /** One transaction: the script and its record, rolled back unless it reaches the commit. */
    method ApplyFile(file: string, outcome: Outcome) returns (applied: bool)
      modifies this
      ensures applied == outcome.Applied?
      ensures var kept := outcome.Applied? || outcome == CommitFails(true);
              && rows == (if kept then old(rows) + [file] else old(rows))
              && effects == (if kept then old(effects) + [file] else old(effects))
    {
      var rowsBefore, effectsBefore := rows, effects;
      if !outcome.ScriptFails? {
        effects := effects + [file];
        if !outcome.RecordFails? {
          rows := rows + [file];
        }
      }
      if outcome.ScriptFails? || outcome.RecordFails? || outcome == CommitFails(false) {
        rows, effects := rowsBefore, effectsBefore;
        return false;
      }
      applied := outcome.Applied?;
    }

    /** What `main` does once it holds the lock. */
    method Migrate(listing: seq<string>, outcome: string -> Outcome) returns (completed: bool)
      modifies this
      ensures UniqueVersions(listing) ==> (rows, completed) == ApplyFrom(old(rows), Plan(listing), outcome)
      ensures !UniqueVersions(listing) ==> !completed && rows == old(rows)
      ensures old(effects) == old(rows) ==> effects == rows
    {
      var unique := EnsureUniqueMigrationVersions(listing);
      if unique.Err? {
        return false;
      }
      var plan := Plan(listing);
      for i := 0 to |plan|
        invariant ApplyFrom(rows, plan[i..], outcome) == ApplyFrom(old(rows), plan, outcome)
        invariant old(effects) == old(rows) ==> effects == rows
      {
        assert plan[i..][0] == plan[i] && plan[i..][1..] == plan[i + 1..];
        if plan[i] in rows {
          continue;
        }
        var applied := ApplyFile(plan[i], outcome(plan[i]));
        if !applied {
          return false;
        }
      }
      completed := true;
    }
  }

  /** Whatever was recorded before: a runner adds only files of its plan that were not recorded, each once;
      it completes exactly when the database applies all of those; and then every file is recorded and
      running it again adds nothing. */
  lemma {:induction false} ApplyFromExact(rows: seq<string>, plan: seq<string>, outcome: string -> Outcome)
    ensures var (after, completed) := ApplyFrom(rows, plan, outcome);
            && rows <= after
            && (forall f :: f in after ==>
                  f in rows || (f in plan && (outcome(f) == Applied || outcome(f) == CommitFails(true))))
            && (forall f :: multiset(after)[f] <= if f in rows then multiset(rows)[f] else 1)
            && (completed <==> forall f :: f in plan ==> f in rows || outcome(f) == Applied)
            && (completed ==> (forall f :: f in plan ==> f in after) && ApplyFrom(after, plan, outcome) == (after, true))
    decreases |plan|
  {
    if plan != [] {
      assert plan == [plan[0]] + plan[1..];
      if plan[0] in rows {
        ApplyFromExact(rows, plan[1..], outcome);
      } else if outcome(plan[0]) == Applied {
        ApplyFromExact(rows + [plan[0]], plan[1..], outcome);
      }
    }
  }

  // ----- The same runner among the events -----

  lemma {:induction false} RunComposes(files: seq<string>, s: State, first: seq<Event>, second: seq<Event>)
    ensures Run(files, s, first + second) == Run(files, Run(files, s, first), second)
    decreases |second|
  {
    if second == [] {
      assert first + second == first;
    } else {
      var front := second[..|second| - 1];
      RunComposes(files, s, first, front);
      assert (first + second)[..|first + second| - 1] == first + front;
    }
  }

  /** All events are runner `r`'s own. */
  predicate Own(events: seq<Event>, r: Id) {
    forall e :: e in events ==> e.r == r
  }

  lemma Then(files: seq<string>, s: State, before: seq<Event>, t: State, e: Event, u: State)
    returns (events: seq<Event>)
    requires Run(files, s, before) == t && Step(files, t, e) == u
    ensures Run(files, s, events) == u && events == before + [e]
    ensures forall r :: Own(before, r) && e.r == r ==> Own(events, r)
  {
    events := before + [e];
    assert events[..|before|] == before;
  }

  /** Runner `r` is at file `next` of its plan and holds the lock. */
  predicate ReadyAt(s: State, r: Id, next: nat) {
    PhaseOf(s, r) == Ready(next) && s.lock == Some(r) && next <= |s.runners[r].plan|
  }

  /** The runner after one file that was not recorded. */
  function AfterFile(s: State, r: Id, next: nat, outcome: Outcome): State
    requires ReadyAt(s, r, next) && next < |s.runners[r].plan|
  {
    var file := s.runners[r].plan[next];
    var kept := s.(rows := s.rows + [file], effects := s.effects + [file]);
    match outcome
    case Applied => Move(kept, r, Ready(next + 1))
    case CommitFails(true) => Stop(kept, r, Failed)
    case _ => Stop(s, r, Failed)
  }

  lemma CommitEnds(files: seq<string>, s: State, r: Id, next: nat, outcome: Outcome)
    requires ReadyAt(s, r, next) && next < |s.runners[r].plan|
    requires outcome == Applied || outcome.CommitFails?
    ensures var commit := Commit(r, outcome == Applied || outcome == CommitFails(true), outcome == Applied);
            Step(files, Move(s, r, InTransaction(next, true, true)), commit) == AfterFile(s, r, next, outcome)
  {
  }

  lemma FileBegins(files: seq<string>, s: State, r: Id, next: nat)
    requires ReadyAt(s, r, next) && next < |s.runners[r].plan| && s.runners[r].plan[next] !in s.rows
    ensures Step(files, s, Check(r)) == Move(s, r, InTransaction(next, false, false))
  {
  }

  lemma FileExecutes(files: seq<string>, s: State, r: Id, next: nat, succeeds: bool)
    requires ReadyAt(s, r, next)
    ensures Step(files, Move(s, r, InTransaction(next, false, false)), Execute(r, succeeds))
         == if succeeds then Move(s, r, InTransaction(next, true, false)) else Stop(s, r, Failed)
  {
  }

  lemma FileRecords(files: seq<string>, s: State, r: Id, next: nat, succeeds: bool)
    requires ReadyAt(s, r, next) && next < |s.runners[r].plan| && s.runners[r].plan[next] !in s.rows
    ensures Step(files, Move(s, r, InTransaction(next, true, false)), Record(r, succeeds))
         == if succeeds then Move(s, r, InTransaction(next, true, true)) else Stop(s, r, Failed)
  {
  }

  lemma OneFile(files: seq<string>, s: State, r: Id, next: nat, outcome: Outcome) returns (events: seq<Event>)
    requires ReadyAt(s, r, next) && next < |s.runners[r].plan| && s.runners[r].plan[next] !in s.rows
    ensures Run(files, s, events) == AfterFile(s, r, next, outcome)
    ensures Own(events, r)
  {
    var begun, ran := Move(s, r, InTransaction(next, false, false)), Move(s, r, InTransaction(next, true, false));
    var recorded, failed := Move(s, r, InTransaction(next, true, true)), Stop(s, r, Failed);
    FileBegins(files, s, r, next);
    FileExecutes(files, s, r, next, outcome != ScriptFails);
    events := Then(files, s, [], s, Check(r), begun);
    if outcome == ScriptFails {
      events := Then(files, s, events, begun, Execute(r, false), failed);
      return;
    }
    events := Then(files, s, events, begun, Execute(r, true), ran);
    FileRecords(files, s, r, next, outcome != RecordFails);
    if outcome == RecordFails {
      events := Then(files, s, events, ran, Record(r, false), failed);
      return;
    }
    events := Then(files, s, events, ran, Record(r, true), recorded);
    CommitEnds(files, s, r, next, outcome);
    var commit := Commit(r, outcome == Applied || outcome == CommitFails(true), outcome == Applied);
    events := Then(files, s, events, recorded, commit, AfterFile(s, r, next, outcome));
  }

  /** The rest of the plan, one file after the other. */
  lemma {:induction false} RestOfPlan(files: seq<string>, s: State, r: Id, next: nat, outcome: string -> Outcome)
    returns (events: seq<Event>)
    requires ReadyAt(s, r, next)
    ensures var t := Run(files, s, events);
            var (rows, completed) := ApplyFrom(s.rows, s.runners[r].plan[next..], outcome);
            && t.rows == rows && t.lock == None && PhaseOf(t, r) == (if completed then Done else Failed)
            && (s.effects == s.rows ==> t.effects == t.rows)
    ensures Own(events, r)
    decreases |s.runners[r].plan| - next
  {
    var plan := s.runners[r].plan;
    if next == |plan| {
      assert plan[next..] == [];
      events := Then(files, s, [], s, Finish(r), Stop(s, r, Done));
    } else {
      var file := plan[next];
      assert plan[next..][0] == file && plan[next..][1..] == plan[next + 1..];
      var first: seq<Event>;
      if file in s.rows {
        first := Then(files, s, [], s, Check(r), Move(s, r, Ready(next + 1)));
      } else {
        first := OneFile(files, s, r, next, outcome(file));
      }
      var t := Run(files, s, first);
      if file in s.rows || outcome(file) == Applied {
        var others := RestOfPlan(files, t, r, next + 1, outcome);
        RunComposes(files, s, first, others);
        events := first + others;
      } else {
        events := first;
      }
    }
  }

  /** Runner `r`, new to a database whose lock is free, once it has the lock and its plan. */
  function Started(s: State, listing: seq<string>, r: Id): State {
    s.(lock := Some(r), runners := s.runners[r := Runner(Plan(listing), Ready(0))])
  }

  lemma StartingUp(files: seq<string>, listing: seq<string>, s: State, r: Id) returns (events: seq<Event>)
    requires s.lock == None && r !in s.runners && multiset(listing) == multiset(files) && UniqueVersions(listing)
    ensures Run(files, s, events) == Started(s, listing, r)
    ensures Own(events, r)
  {
    var waiting := s.(runners := s.runners[r := Runner([], Waiting)]);
    var locked := s.(lock := Some(r), runners := s.runners[r := Runner([], Locked)]);
    assert Step(files, waiting, Acquire(r)) == locked;
    assert Step(files, locked, List(r, listing)) == Started(s, listing, r);
    events := Then(files, s, [], s, Connect(r), waiting);
    events := Then(files, s, events, waiting, Acquire(r), locked);
    events := Then(files, s, events, locked, List(r, listing), Started(s, listing, r));
  }

  /** A runner that nobody disturbs, started on a free lock: its own events leave the rows that the loop leaves,
      and it is done exactly when the loop completes. */
  lemma UndisturbedRunner(
    files: seq<string>, listing: seq<string>, s: State, r: Id, outcome: string -> Outcome)
    returns (events: seq<Event>)
    requires s.lock == None && r !in s.runners && multiset(listing) == multiset(files) && UniqueVersions(listing)
    ensures var t := Run(files, s, events);
            var (rows, completed) := ApplyFrom(s.rows, Plan(listing), outcome);
            && t.rows == rows && t.lock == None && (PhaseOf(t, r) == Done <==> completed)
            && (s.effects == s.rows ==> t.effects == t.rows)
    ensures Own(events, r)
  {
    var first := StartingUp(files, listing, s, r);
    assert Plan(listing)[0..] == Plan(listing);
    var others := RestOfPlan(files, Started(s, listing, r), r, 0, outcome);
    RunComposes(files, s, first, others);
    events := first + others;
  }

  /** The rows after all of `plan` has been gone through with nothing failing. */
  function AllApplied(rows: seq<string>, plan: seq<string>): seq<string> {
    if plan == [] then rows
    else
      var before, last := AllApplied(rows, plan[..|plan| - 1]), plan[|plan| - 1];
      if last in before then before else before + [last]
  }

  lemma {:induction false} AppliesAll(rows: seq<string>, p: seq<string>, q: seq<string>, outcome: string -> Outcome)
    requires forall f :: f in p ==> outcome(f) == Applied
    ensures ApplyFrom(rows, p + q, outcome) == ApplyFrom(AllApplied(rows, p), q, outcome)
    decreases |p|
  {
    if p == [] {
      assert p + q == q;
    } else {
      var front, last := p[..|p| - 1], p[|p| - 1];
      assert p + q == front + ([last] + q) && ([last] + q)[1..] == q;
      AppliesAll(rows, front, [last] + q, outcome);
    }
  }

  lemma {:induction false} AppliesNone(rows: seq<string>, q: seq<string>, outcome: string -> Outcome)
    requires forall f :: f in q ==> outcome(f) == ScriptFails
    ensures ApplyFrom(rows, q, outcome).0 == rows
    decreases |q|
  {
    if q != [] && q[0] in rows {
      AppliesNone(rows, q[1..], outcome);
    }
  }

  /** How far runner `r` has come from `rows`, by its phase. */
  ghost predicate FollowsLoop(files: seq<string>, rows: seq<string>, t: State, r: Id) {
    && (t.lock == None || t.lock == Some(r))
    && match PhaseOf(t, r)
       case Waiting => t.rows == rows
       case Locked => t.rows == rows
       case Ready(next) =>
         && t.runners[r].plan == Plan(files) && next <= |Plan(files)|
         && t.rows == AllApplied(rows, Plan(files)[..next])
       case InTransaction(next, _, _) =>
         && t.runners[r].plan == Plan(files) && next < |Plan(files)|
         && t.rows == AllApplied(rows, Plan(files)[..next]) && Plan(files)[next] !in t.rows
       case Done => t.rows == AllApplied(rows, Plan(files))
       case Failed => exists k :: 0 <= k <= |Plan(files)| && t.rows == AllApplied(rows, Plan(files)[..k])
  }

  lemma Stopped(files: seq<string>, rows: seq<string>, t: State, r: Id, k: nat)
    requires r in t.runners && (t.lock == None || t.lock == Some(r)) && k <= |Plan(files)|
    requires t.rows == AllApplied(rows, Plan(files)[..k])
    ensures FollowsLoop(files, rows, Stop(t, r, Failed), r)
  {
  }

  lemma NextApplied(rows: seq<string>, plan: seq<string>, next: nat)
    requires next < |plan|
    ensures var before := AllApplied(rows, plan[..next]);
            AllApplied(rows, plan[..next + 1]) == if plan[next] in before then before else before + [plan[next]]
  {
    assert plan[..next + 1][..next] == plan[..next];
  }

  lemma OwnCommit(files: seq<string>, rows: seq<string>, t: State, e: Event)
    requires FollowsLoop(files, rows, t, e.r) && e.Commit? && PhaseOf(t, e.r).InTransaction?
    ensures FollowsLoop(files, rows, Step(files, t, e), e.r)
  {
    var next := PhaseOf(t, e.r).next;
    NextApplied(rows, Plan(files), next);
    if PhaseOf(t, e.r).recorded && !(e.durable && e.acknowledged) {
      var file := Plan(files)[next];
      var committed := if e.durable then t.(rows := t.rows + [file], effects := t.effects + [file]) else t;
      Stopped(files, rows, committed, e.r, if e.durable then next + 1 else next);
    }
  }

  lemma OwnStep(files: seq<string>, rows: seq<string>, t: State, e: Event)
    requires UniqueVersions(files) && e.r in t.runners && FollowsLoop(files, rows, t, e.r)
    ensures FollowsLoop(files, rows, Step(files, t, e), e.r)
  {
    var plan := Plan(files);
    assert plan[..|plan|] == plan && plan[..0] == [];
    match e
    case Commit(r, _, _) => if PhaseOf(t, r).InTransaction? { OwnCommit(files, rows, t, e); }
    case List(r, listing) =>
      if PhaseOf(t, r) == Locked && multiset(listing) == multiset(files) {
        UniqueUnderReordering(files, listing);
        PlanIsCanonical(files, listing);
      }
    case Check(r) =>
      if PhaseOf(t, r).Ready? && PhaseOf(t, r).next < |plan| {
        NextApplied(rows, plan, PhaseOf(t, r).next);
      }
    case _ =>
  }

  lemma {:induction false} OwnRun(files: seq<string>, s: State, r: Id, events: seq<Event>)
    requires UniqueVersions(files) && s.lock == None && r !in s.runners && Own(events, r)
    ensures var t := Run(files, s, events);
            if r in t.runners then FollowsLoop(files, s.rows, t, r) else t == s
    decreases |events|
  {
    if events != [] {
      var front, e := events[..|events| - 1], events[|events| - 1];
      assert e in events;
      OwnRun(files, s, r, front);
      if r in Run(files, s, front).runners {
        OwnStep(files, s.rows, Run(files, s, front), e);
      }
    }
  }

  /** The outcomes under which the first `k` files go through and no other does. */
  function UpTo(plan: seq<string>, k: nat): string -> Outcome
    requires k <= |plan|
  {
    f => if f in plan[..k] then Applied else ScriptFails
  }

  lemma LoopCutShort(files: seq<string>, rows: seq<string>, k: nat)
    requires UniqueVersions(files) && k <= |Plan(files)|
    ensures var plan := Plan(files);
            && ApplyFrom(rows, plan, UpTo(plan, k)).0 == AllApplied(rows, plan[..k])
            && (k == |plan| ==> ApplyFrom(rows, plan, UpTo(plan, k)).1)
  {
    var plan := Plan(files);
    var outcome := UpTo(plan, k);
    assert plan == plan[..k] + plan[k..];
    forall f | f in plan[k..]
      ensures outcome(f) == ScriptFails
    {
      var i :| k <= i < |plan| && plan[i] == f;
      PlanMembers(files, k, i);
    }
    AppliesAll(rows, plan[..k], plan[k..], outcome);
    AppliesNone(AllApplied(rows, plan[..k]), plan[k..], outcome);
  }

  /** Whatever a runner that nobody disturbs does and wherever it stops, the rows it leaves are those of the loop
      for some outcomes of the files, and outcomes that complete the loop if it is done. */
  lemma OwnRunIsTheLoop(files: seq<string>, s: State, r: Id, events: seq<Event>) returns (outcome: string -> Outcome)
    requires UniqueVersions(files) && s.lock == None && r !in s.runners && Own(events, r)
    requires var p := PhaseOf(Run(files, s, events), r); p == Done || p == Failed
    ensures var t := Run(files, s, events);
            var (rows, completed) := ApplyFrom(s.rows, Plan(files), outcome);
            t.rows == rows && (PhaseOf(t, r) == Done ==> completed)
  {
    var t, plan := Run(files, s, events), Plan(files);
    OwnRun(files, s, r, events);
    assert plan[..|plan|] == plan && plan[..0] == [];
    var k := if r in t.runners then |plan| else 0;
    if r in t.runners && PhaseOf(t, r) == Failed {
      k :| 0 <= k <= |plan| && t.rows == AllApplied(s.rows, plan[..k]);
    }
    outcome := UpTo(plan, k);
    LoopCutShort(files, s.rows, k);
  }

  // ----- Only whole transactions, and always a way on -----

  /** Where rows are added, a runner has just committed a transaction in which its next file ran and was recorded. */
  lemma OnlyWholeTransactions(files: seq<string>, applied: nat, before: seq<Event>, e: Event)
    requires applied <= |Plan(files)|
    ensures var s := Run(files, Start(files, applied), before);
            var t := Step(files, s, e);
            t.rows != s.rows ==>
              && e.Commit? && e.durable && e.r in s.runners
              && s.runners[e.r].phase == InTransaction(|s.rows|, true, true)
              && |s.rows| < |Plan(files)| && t.rows == s.rows + [Plan(files)[|s.rows|]]
  {
    StartInv(files, applied);
    RunKeeps(files, Start(files, applied), before);
    var s := Run(files, Start(files, applied), before);
    if e.r in s.runners {
      assert RunnerInv(files, s, e.r);
    }
  }

  /** A runner that stops at any point frees the lock if it held it, and leaves what is committed. */
  lemma CrashFrees(files: seq<string>, s: State, r: Id)
    requires r in s.runners && s.runners[r].phase != Done
    ensures var t := Step(files, s, Crash(r));
            && PhaseOf(t, r) == Failed && t.rows == s.rows && t.effects == s.effects
            && t.lock == (if s.lock == Some(r) then None else s.lock)
            && t.runners.Keys == s.runners.Keys
  {
  }

  lemma LockComesFree(files: seq<string>, s: State) returns (stops: seq<Event>)
    requires Inv(files, s)
    ensures var t := Run(files, s, stops);
            Inv(files, t) && t.lock == None && t.runners.Keys == s.runners.Keys
  {
    stops := [];
    if s.lock.Some? {
      var e := Crash(s.lock.value);
      stops := [e];
      assert stops[..0] == [] && Run(files, s, []) == s;
      assert Run(files, s, stops) == Step(files, s, e);
      CrashFrees(files, s, s.lock.value);
      StepKeeps(files, s, e);
    }
  }

  lemma NewRunnerFinishes(files: seq<string>, s: State, r: Id) returns (events: seq<Event>)
    requires Inv(files, s) && s.lock == None && r !in s.runners && UniqueVersions(files)
    ensures var t := Run(files, s, events);
            PhaseOf(t, r) == Done && t.rows == t.effects == Plan(files)
  {
    var outcome := (f: string) => Applied;
    events := UndisturbedRunner(files, files, s, r, outcome);
    AppliesAll(s.rows, Plan(files), [], outcome);
    assert Plan(files) + [] == Plan(files);
    RunKeeps(files, s, events);
    assert RunnerInv(files, Run(files, s, events), r);
  }

  /** No run gets stuck: wherever it stands, with unique versions there is a way on by which a new runner applies
      everything that is missing, at the most after the holder of the lock has stopped. */
  lemma NeverStuck(files: seq<string>, applied: nat, before: seq<Event>, r: Id) returns (after: seq<Event>)
    requires applied <= |Plan(files)| && UniqueVersions(files)
    requires r !in Run(files, Start(files, applied), before).runners
    ensures var t := Run(files, Run(files, Start(files, applied), before), after);
            PhaseOf(t, r) == Done && t.rows == t.effects == Plan(files)
  {
    var s := Run(files, Start(files, applied), before);
    StartInv(files, applied);
    RunKeeps(files, Start(files, applied), before);
    var stops := LockComesFree(files, s);
    var others := NewRunnerFinishes(files, Run(files, s, stops), r);
    RunComposes(files, s, stops, others);
    after := stops + others;
  }
}
