/**
 Ownership of one table name by interleaved runs of openTable, the body of the
 command and dropOnFailure. Every server operation may fail, and a CREATE or a
 DROP whose error reaches the run may have taken effect, or may still take
 effect at any later moment.
 */
module Tables {
  import opened Common

  /** What made the table that exists now. */
  datatype Maker = Before | By(run: nat)

  datatype Stage =
    | Start                    // connected, not looked yet
    | Looked(found: bool)
    | CreatePending            // gave up, but the server may still carry out the CREATE
    | Working(created: bool)   // after openTable, during the command's body
    | Dropping                 // in dropOnFailure
    | DropPending              // gave up, but the server may still carry out the DROP
    | Ended(ok: bool)

  datatype Run = Run(append: bool, dropOnFail: bool, stage: Stage)
  {
    /** The table is this run's to drop. */
    predicate Owns() { stage == Working(true) || stage == Dropping || stage == DropPending }
  }

  /** dropped lists who dropped which table, oldest first. */
  datatype State = State(table: Option<Maker>, runs: seq<Run>, dropped: seq<(nat, Maker)>)

  /** What a server operation did, and what the run was told. */
  datatype Outcome = Success | ErrorWithoutEffect | ErrorWithEffect | ErrorThenEffect

  datatype Action =
    | Look(r: nat, ok: bool)
    | Refuse(r: nat)                      // the table exists and append is off
    | Join(r: nat)                        // the table exists and append is on
    | Create(r: nat, outcome: Outcome)
    | LateCreate(r: nat)
    | Finish(r: nat, ok: bool)            // the body of the command
    | Drop(r: nat, outcome: Outcome)
    | LateDrop(r: nat)

  predicate At(s: State, r: nat, stage: Stage) {
    r < |s.runs| && s.runs[r].stage == stage
  }

  predicate Enabled(s: State, a: Action) {
    match a
    case Look(r, _) => At(s, r, Start)
    case Refuse(r) => At(s, r, Looked(true)) && !s.runs[r].append
    case Join(r) => At(s, r, Looked(true)) && s.runs[r].append
    case Create(r, o) => At(s, r, Looked(false)) && (s.table.Some? ==> o.ErrorWithoutEffect? || o.ErrorThenEffect?)
    case LateCreate(r) => At(s, r, CreatePending)
    case Finish(r, _) => r < |s.runs| && s.runs[r].stage.Working?
    case Drop(r, _) => At(s, r, Dropping)
    case LateDrop(r) => At(s, r, DropPending)
  }

  function Move(s: State, r: nat, stage: Stage): State
    requires r < |s.runs|
  {
    s.(runs := s.runs[r := s.runs[r].(stage := stage)])
  }

  /** CREATE by run r, which fails when there is a table. */
  function Created(s: State, r: nat): State {
    s.(table := if s.table.Some? then s.table else Some(By(r)))
  }

  /** DROP by run r, of whatever table bears the name. */
  function Dropped(s: State, r: nat): State {
    if s.table.None? then s else s.(table := None, dropped := s.dropped + [(r, s.table.value)])
  }

  function Apply(s: State, a: Action): State
    requires Enabled(s, a)
  {
    match a
    case Look(r, ok) => Move(s, r, if ok then Looked(s.table.Some?) else Ended(false))
    case Refuse(r) => Move(s, r, Ended(false))
    case Join(r) => Move(s, r, Working(false))
    case Create(r, o) => (
      match o
      case Success => Move(Created(s, r), r, Working(true))
      case ErrorWithoutEffect => Move(s, r, Ended(false))
      case ErrorWithEffect => Move(Created(s, r), r, Ended(false))
      case ErrorThenEffect => Move(s, r, CreatePending))
    case LateCreate(r) => Move(Created(s, r), r, Ended(false))
    case Finish(r, ok) =>
      Move(s, r, if !ok && s.runs[r].stage.created && s.runs[r].dropOnFail then Dropping else Ended(ok))
    case Drop(r, o) => (
      match o
      case Success => Move(Dropped(s, r), r, Ended(false))
      case ErrorWithoutEffect => Move(s, r, Ended(false))
      case ErrorWithEffect => Move(Dropped(s, r), r, Ended(false))
      case ErrorThenEffect => Move(s, r, DropPending))
    case LateDrop(r) => Move(Dropped(s, r), r, Ended(false))
  }

  // ----- What every reachable state keeps -----

  ghost predicate Inv(existed: bool, s: State) {
    && (forall r :: 0 <= r < |s.runs| && s.runs[r].Owns() ==> s.table == Some(By(r)))
    && (forall d :: d in s.dropped ==> d.1 == By(d.0))
    && (existed ==> s.table == Some(Before))
    && (s.table == Some(Before) ==> existed)
    && (forall r :: 0 <= r < |s.runs| && NotCreated(s.runs[r].stage) ==> s.table != Some(By(r)))
  }

  predicate NotCreated(stage: Stage) {
    stage.Start? || stage.Looked? || stage.CreatePending?
  }

  ghost predicate IsInit(existed: bool, s: State) {
    && s.table == (if existed then Some(Before) else None)
    && s.dropped == []
    && forall r :: 0 <= r < |s.runs| ==> s.runs[r].stage == Start
  }

  lemma InvStep(existed: bool, s: State, a: Action)
    requires Inv(existed, s) && Enabled(s, a)
    ensures Inv(existed, Apply(s, a))
  {
    var t := Apply(s, a);
    forall r | 0 <= r < |t.runs| && r != a.r
      ensures t.runs[r] == s.runs[r]
    {
    }
  }

  ghost predicate Step(s: State, t: State) {
    exists a :: Enabled(s, a) && t == Apply(s, a)
  }

  /** trace lists the states of an execution. */
  ghost predicate IsTrace(existed: bool, trace: seq<State>) {
    && trace != []
    && IsInit(existed, trace[0])
    && forall i :: 0 <= i < |trace| - 1 ==> Step(trace[i], trace[i + 1])
  }

  lemma {:induction false} TraceKeepsInv(existed: bool, trace: seq<State>)
    requires IsTrace(existed, trace)
    ensures Inv(existed, trace[|trace| - 1])
    decreases |trace|
  {
    if |trace| > 1 {
      var before := trace[..|trace| - 1];
      TraceKeepsInv(existed, before);
      assert Step(trace[|before| - 1], trace[|before|]);
      var a :| Enabled(before[|before| - 1], a) && trace[|before|] == Apply(before[|before| - 1], a);
      InvStep(existed, before[|before| - 1], a);
    }
  }

  /** Over every interleaving: at most one run owns the table, a run drops only
      what its own CREATE made, and a table that existed before all runs stays. */
  lemma OwnershipIsExclusive(existed: bool, trace: seq<State>)
    requires IsTrace(existed, trace)
    ensures var s := trace[|trace| - 1];
      && (forall q, r :: 0 <= q < |s.runs| && 0 <= r < |s.runs| && s.runs[q].Owns() && s.runs[r].Owns() ==> q == r)
      && (forall d :: d in s.dropped ==> d.1 == By(d.0))
      && (existed ==> s.table == Some(Before) && s.dropped == [])
  {
    TraceKeepsInv(existed, trace);
    if existed {
      NothingDropped(trace);
    }
  }

  lemma {:induction false} NothingDropped(trace: seq<State>)
    requires IsTrace(true, trace)
    ensures trace[|trace| - 1].dropped == []
    decreases |trace|
  {
    if |trace| > 1 {
      var before := trace[..|trace| - 1];
      NothingDropped(before);
      TraceKeepsInv(true, before);
      assert Step(trace[|before| - 1], trace[|before|]);
    }
  }

  /** A failed owner whose drop succeeds drops its own table and leaves none. */
  lemma DropLeavesNothing(existed: bool, s: State, r: nat)
    requires Inv(existed, s) && Enabled(s, Drop(r, Success))
    ensures s.table == Some(By(r)) && Apply(s, Drop(r, Success)).table.None?
  {
    assert s.runs[r].Owns();
  }

  /** A run that owns the table can always drop it: its DROP meets its table. */
  lemma OwnerCanDrop(existed: bool, s: State, r: nat)
    requires Inv(existed, s) && At(s, r, Dropping)
    ensures Enabled(s, Drop(r, Success))
  {
    assert s.runs[r].Owns();
  }

  /** A DROP still pending when its run has given up meets that run's own table. */
  lemma LateDropIsOwn(existed: bool, s: State, r: nat)
    requires Inv(existed, s) && Enabled(s, LateDrop(r))
    ensures s.table == Some(By(r)) && Apply(s, LateDrop(r)).table.None?
  {
    assert s.runs[r].Owns();
  }

  // ----- Runs that end -----

  /** A body that succeeds ends its run well and leaves the table as it is. */
  lemma SuccessKeepsTheTable(s: State, r: nat)
    requires Enabled(s, Finish(r, true))
    ensures Apply(s, Finish(r, true)) == s.(runs := s.runs[r := s.runs[r].(stage := Ended(true))])
  {
  }

  /** A run that created the table has it until it drops it itself: it keeps it
      when its body succeeded, and when it failed but was told not to drop. */
  ghost predicate HasCreated(s: State, r: nat) {
    && r < |s.runs|
    && match s.runs[r].stage
       case Working(created) => created && s.table == Some(By(r))
       case Dropping => s.runs[r].dropOnFail && s.table == Some(By(r))
       case DropPending => s.runs[r].dropOnFail && s.table == Some(By(r))
       case Ended(ok) => ok || !s.runs[r].dropOnFail ==> s.table == Some(By(r))
       case _ => false
  }

  lemma HasCreatedStep(existed: bool, s: State, a: Action, r: nat)
    requires Inv(existed, s) && Enabled(s, a) && HasCreated(s, r)
    ensures HasCreated(Apply(s, a), r)
    ensures s.runs[r].stage.Ended? ==> Apply(s, a).runs[r] == s.runs[r]
    ensures s.runs[r].stage.Ended? && s.table == Some(By(r)) ==> Apply(s, a).table == s.table
  {
    if a.Drop? || a.LateDrop? {
      assert s.runs[a.r].Owns();
    }
  }

  /** What is known of moment k of a trace. */
  ghost predicate Moment(existed: bool, trace: seq<State>, k: nat)
    requires k < |trace|
  {
    Inv(existed, trace[k]) && (k + 1 < |trace| ==> Step(trace[k], trace[k + 1]))
  }

  ghost predicate Moments(existed: bool, trace: seq<State>) {
    forall k: nat :: k < |trace| ==> Moment(existed, trace, k)
  }

  lemma {:induction false} TraceHasMoments(existed: bool, trace: seq<State>)
    requires IsTrace(existed, trace)
    ensures Moments(existed, trace)
  {
    forall k: nat | k < |trace|
      ensures Moment(existed, trace, k)
    {
      TracePrefix(existed, trace, k + 1);
      TraceKeepsInv(existed, trace[..k + 1]);
    }
  }

  /** Over every trace: once a run has created the table, the table is its own at
      every later moment, unless its body failed and it was told to drop. In
      particular a run whose body succeeded leaves its table for good. */
  lemma CreatedTableStays(existed: bool, trace: seq<State>, r: nat, i: nat, j: nat)
    requires IsTrace(existed, trace) && i <= j < |trace| && At(trace[i], r, Working(true))
    ensures HasCreated(trace[j], r)
    ensures At(trace[j], r, Ended(true)) ==> trace[j].table == Some(By(r))
  {
    TraceHasMoments(existed, trace);
    CreatedStays(existed, trace, r, i, j);
  }

  lemma {:induction false} CreatedStays(existed: bool, trace: seq<State>, r: nat, i: nat, j: nat)
    requires Moments(existed, trace) && i <= j < |trace| && At(trace[i], r, Working(true))
    ensures HasCreated(trace[j], r)
    decreases j
  {
    if i == j {
      assert Moment(existed, trace, i) && trace[i].runs[r].Owns();
    } else {
      CreatedStays(existed, trace, r, i, j - 1);
      assert Moment(existed, trace, j - 1);
      AnyStepKeepsCreated(existed, trace[j - 1], trace[j], r);
    }
  }

  lemma AnyStepKeepsCreated(existed: bool, s: State, t: State, r: nat)
    requires Inv(existed, s) && Step(s, t) && HasCreated(s, r)
    ensures HasCreated(t, r)
  {
    var a :| Enabled(s, a) && t == Apply(s, a);
    HasCreatedStep(existed, s, a, r);
  }

  lemma {:induction false} TracePrefix(existed: bool, trace: seq<State>, n: nat)
    requires IsTrace(existed, trace) && 0 < n <= |trace|
    ensures IsTrace(existed, trace[..n]) && trace[..n][0] == trace[0]
  {
    forall i | 0 <= i < n - 1
      ensures Step(trace[..n][i], trace[..n][i + 1])
    {
      assert Step(trace[i], trace[i + 1]);
    }
  }

  /** Only a run that failed and was told to drop has dropped anything. */
  ghost predicate DropsFailed(s: State) {
    && (forall d :: d in s.dropped ==> d.0 < |s.runs| && s.runs[d.0].stage == Ended(false) && s.runs[d.0].dropOnFail)
    && (forall r :: 0 <= r < |s.runs| && (s.runs[r].stage.Dropping? || s.runs[r].stage.DropPending?) ==> s.runs[r].dropOnFail)
  }

  lemma {:induction false} OnlyFailuresDrop(existed: bool, trace: seq<State>)
    requires IsTrace(existed, trace)
    ensures DropsFailed(trace[|trace| - 1])
    decreases |trace|
  {
    var n := |trace| - 1;
    if n > 0 {
      var before := trace[..n];
      TracePrefix(existed, trace, n);
      OnlyFailuresDrop(existed, before);
      assert Step(trace[n - 1], trace[n]);
      var a :| Enabled(trace[n - 1], a) && trace[n] == Apply(trace[n - 1], a);
      DropsFailedStep(trace[n - 1], a);
    }
  }

  lemma DropsFailedStep(s: State, a: Action)
    requires DropsFailed(s) && Enabled(s, a)
    ensures DropsFailed(Apply(s, a))
  {
    var t := Apply(s, a);
    forall r | 0 <= r < |t.runs| && r != a.r
      ensures t.runs[r] == s.runs[r]
    {
    }
  }

  /** A run alone, with no table before and nothing failing, makes the table and
      leaves it; one that may append takes an existing table. */
  lemma {:induction false} SoloRunSucceeds(existed: bool, run: Run) returns (trace: seq<State>)
    requires run.stage == Start && (existed ==> run.append)
    ensures IsTrace(existed, trace) && trace[0].runs == [run]
    ensures At(trace[|trace| - 1], 0, Ended(true))
    ensures trace[|trace| - 1].table == if existed then Some(Before) else Some(By(0))
  {
    trace := [State(if existed then Some(Before) else None, [run], [])];
    trace := TraceSnoc(existed, trace, Look(0, true));
    trace := TraceSnoc(existed, trace, if existed then Join(0) else Create(0, Success));
    trace := TraceSnoc(existed, trace, Finish(0, true));
  }

  /** Without append, an existing table ends the run. */
  lemma ExistingTableRefuses(existed: bool, s: State, r: nat, a: Action)
    requires At(s, r, Looked(true)) && !s.runs[r].append && Enabled(s, a) && a.r == r
    ensures Apply(s, a) == s.(runs := s.runs[r := s.runs[r].(stage := Ended(false))])
  {
  }

  /** What a run does next follows from what it saw: with a table it joins or
      refuses, by its option; without one it creates, and the server carries that
      out only while there is no table. */
  lemma LookedDecides(s: State, r: nat, found: bool)
    requires At(s, r, Looked(found))
    ensures Enabled(s, Join(r)) <==> found && s.runs[r].append
    ensures Enabled(s, Refuse(r)) <==> found && !s.runs[r].append
    ensures forall o :: Enabled(s, Create(r, o)) <==>
      !found && (s.table == None || o == ErrorWithoutEffect || o == ErrorThenEffect)
  {
  }

  /** A run ends well only by a body that succeeds. */
  lemma OnlyBodiesSucceed(s: State, a: Action, r: nat)
    requires Enabled(s, a) && r < |s.runs| && s.runs[r].stage != Ended(true)
    ensures Apply(s, a).runs[r].stage == Ended(true) <==> a == Finish(r, true)
  {
  }

  // ----- Runs that append -----

  /** The run joined a table that is gone or replaced at some later moment, be
      it during the run or after it. */
  ghost predicate LosesItsTable(trace: seq<State>, guest: nat) {
    exists i, j :: LosesBetween(trace, guest, i, j)
  }

  ghost predicate LosesBetween(trace: seq<State>, guest: nat, i: nat, j: nat) {
    && i <= j < |trace| && At(trace[i], guest, Working(false))
    && (trace[i].table.None? || trace[j].table != trace[i].table)
  }

  /** No run that may append is beside one that may drop, or the table is older
      than all of them. */
  ghost predicate Guarded(existed: bool, runs: seq<Run>) {
    existed || forall g, r :: 0 <= g < |runs| && 0 <= r < |runs| && g != r && runs[g].append ==> !runs[r].dropOnFail
  }

  predicate SameOptions(q: Run, r: Run) {
    q.append == r.append && q.dropOnFail == r.dropOnFail
  }

  ghost predicate GuestInv(runs: seq<Run>, s: State) {
    && |s.runs| == |runs|
    && forall r :: 0 <= r < |runs| ==> SameOptions(s.runs[r], runs[r]) && GuestRunInv(s, r)
  }

  ghost predicate GuestRunInv(s: State, r: nat)
    requires r < |s.runs|
  {
    var run := s.runs[r];
    && (run.stage.Dropping? || run.stage.DropPending? ==> run.dropOnFail)
    && (run.stage == Looked(true) && run.append ==> s.table.Some?)
    && (run.stage == Working(false) ==> run.append && s.table.Some? && s.table != Some(By(r)))
  }

  lemma GuestStep(existed: bool, runs: seq<Run>, s: State, a: Action)
    requires Guarded(existed, runs) && Inv(existed, s) && GuestInv(runs, s) && Enabled(s, a)
    ensures GuestInv(runs, Apply(s, a))
  {
    var t := Apply(s, a);
    assert GuestRunInv(s, a.r) && SameOptions(s.runs[a.r], runs[a.r]);
    forall r | 0 <= r < |runs|
      ensures SameOptions(t.runs[r], runs[r]) && GuestRunInv(t, r)
    {
      assert GuestRunInv(s, r) && SameOptions(s.runs[r], runs[r]);
      if r != a.r {
        assert t.runs[r] == s.runs[r];
      }
      if t.table.None? && s.table.Some? {
        assert s.runs[a.r].Owns();
      }
    }
  }

  lemma {:induction false} GuardedKeepsTable(existed: bool, runs: seq<Run>, trace: seq<State>)
    requires Guarded(existed, runs) && IsTrace(existed, trace) && trace[0].runs == runs
    ensures GuestInv(runs, trace[|trace| - 1])
    decreases |trace|
  {
    if |trace| > 1 {
      var before := trace[..|trace| - 1];
      GuardedKeepsTable(existed, runs, before);
      TraceKeepsInv(existed, before);
      assert Step(trace[|before| - 1], trace[|before|]);
      var a :| Enabled(before[|before| - 1], a) && trace[|before|] == Apply(before[|before| - 1], a);
      GuestStep(existed, runs, before[|before| - 1], a);
    }
  }

  /** From a moment when g works on a table it joined, a step leaves the table. */
  lemma {:induction false} GuardedStepKeepsTable(existed: bool, runs: seq<Run>, s: State, a: Action, g: nat)
    requires Guarded(existed, runs) && Inv(existed, s) && GuestInv(runs, s) && Enabled(s, a)
    requires g < |runs| && runs[g].append && s.table.Some? && HasJoined(s, g)
    ensures Apply(s, a).table == s.table && HasJoined(Apply(s, a), g)
  {
    assert GuestRunInv(s, g) && GuestRunInv(s, a.r) && SameOptions(s.runs[a.r], runs[a.r]);
    if a.Drop? || a.LateDrop? {
      assert s.runs[a.r].Owns();
    }
  }

  predicate HasJoined(s: State, g: nat) {
    g < |s.runs| && (s.runs[g].stage == Working(false) || s.runs[g].stage.Ended?)
  }

  lemma JoinedHasTable(existed: bool, runs: seq<Run>, trace: seq<State>, g: nat)
    requires Guarded(existed, runs) && IsTrace(existed, trace) && trace[0].runs == runs
    requires At(trace[|trace| - 1], g, Working(false))
    ensures trace[|trace| - 1].table.Some? && g < |runs| && runs[g].append
  {
    GuardedKeepsTable(existed, runs, trace);
    var s := trace[|trace| - 1];
    assert GuestRunInv(s, g) && SameOptions(s.runs[g], runs[g]);
  }

  /** The table g joined at moment i is there at the end of the trace. */
  lemma {:induction false} GuardedKeepsFrom(existed: bool, runs: seq<Run>, trace: seq<State>, g: nat, i: nat)
    requires Guarded(existed, runs) && IsTrace(existed, trace) && trace[0].runs == runs
    requires i < |trace| && At(trace[i], g, Working(false))
    ensures var last := trace[|trace| - 1];
      last.table.Some? && last.table == trace[i].table && HasJoined(last, g) && g < |runs| && runs[g].append
    decreases |trace|
  {
    var n := |trace| - 1;
    if i == n {
      JoinedHasTable(existed, runs, trace, g);
    } else {
      var before := trace[..n];
      TracePrefix(existed, trace, n);
      GuardedKeepsFrom(existed, runs, before, g, i);
      KeepsOneMore(existed, runs, before, trace[n], g) by {
        assert Step(trace[n - 1], trace[n]);
      }
    }
  }

  lemma {:induction false} KeepsOneMore(existed: bool, runs: seq<Run>, before: seq<State>, next: State, g: nat)
    requires Guarded(existed, runs) && IsTrace(existed, before) && before[0].runs == runs
    requires Step(before[|before| - 1], next)
    requires g < |runs| && runs[g].append
    requires before[|before| - 1].table.Some? && HasJoined(before[|before| - 1], g)
    ensures next.table == before[|before| - 1].table && HasJoined(next, g)
  {
    var s := before[|before| - 1];
    TraceKeepsInv(existed, before);
    GuardedKeepsTable(existed, runs, before);
    var a :| Enabled(s, a) && next == Apply(s, a);
    GuardedStepKeepsTable(existed, runs, s, a, g);
  }

  lemma TraceSnoc(existed: bool, trace: seq<State>, a: Action) returns (longer: seq<State>)
    requires IsTrace(existed, trace) && Enabled(trace[|trace| - 1], a)
    ensures IsTrace(existed, longer) && longer[0] == trace[0]
    ensures longer[|longer| - 1] == Apply(trace[|trace| - 1], a)
  {
    longer := trace + [Apply(trace[|trace| - 1], a)];
    forall i | 0 <= i < |longer| - 1
      ensures Step(longer[i], longer[i + 1])
    {
      if i < |trace| - 1 {
        assert Step(trace[i], trace[i + 1]);
      }
    }
  }

  /** r creates the table, g joins it, r fails and drops it while g still works. */
  lemma {:induction false} GuestLosesTheTable(runs: seq<Run>, g: nat, r: nat) returns (trace: seq<State>)
    requires g < |runs| && r < |runs| && g != r && runs[g].append && runs[r].dropOnFail
    requires forall i :: 0 <= i < |runs| ==> runs[i].stage == Start
    ensures IsTrace(false, trace) && trace[0].runs == runs && LosesItsTable(trace, g)
  {
    trace := [State(None, runs, [])];
    trace := TraceSnoc(false, trace, Look(r, true));
    trace := TraceSnoc(false, trace, Create(r, Success));
    trace := TraceSnoc(false, trace, Look(g, true));
    trace := TraceSnoc(false, trace, Join(g));
    trace := TraceSnoc(false, trace, Finish(r, false));
    trace := TraceSnoc(false, trace, Drop(r, Success));
    assert LosesBetween(trace, g, |trace| - 1, |trace| - 1);
  }

  /** r creates the table, g joins it and ends well, then r fails and drops the
      table with what g added. */
  lemma {:induction false} FinishedGuestLosesTheTable(runs: seq<Run>, g: nat, r: nat) returns (trace: seq<State>)
    requires g < |runs| && r < |runs| && g != r && runs[g].append && runs[r].dropOnFail
    requires forall i :: 0 <= i < |runs| ==> runs[i].stage == Start
    ensures IsTrace(false, trace) && trace[0].runs == runs
    ensures At(trace[|trace| - 1], g, Ended(true)) && trace[|trace| - 1].table.None?
  {
    trace := [State(None, runs, [])];
    trace := TraceSnoc(false, trace, Look(r, true));
    trace := TraceSnoc(false, trace, Create(r, Success));
    trace := TraceSnoc(false, trace, Look(g, true));
    trace := TraceSnoc(false, trace, Join(g));
    trace := TraceSnoc(false, trace, Finish(g, true));
    trace := TraceSnoc(false, trace, Finish(r, false));
    trace := TraceSnoc(false, trace, Drop(r, Success));
  }

  /** Every run that appends keeps the table it joined at every later moment, even
      after it ended, whatever the others do, if and only if the runs are
      guarded. */
  lemma {:induction false} GuestsKeepTheTableExactly(existed: bool, runs: seq<Run>)
    requires forall r :: 0 <= r < |runs| ==> runs[r].stage == Start
    ensures Guarded(existed, runs) <==>
      forall trace: seq<State>, g: nat :: IsTrace(existed, trace) && trace[0].runs == runs ==> !LosesItsTable(trace, g)
  {
    if Guarded(existed, runs) {
      forall trace: seq<State>, g: nat, i: nat, j: nat | IsTrace(existed, trace) && trace[0].runs == runs
        ensures !LosesBetween(trace, g, i, j)
      {
        if LosesBetween(trace, g, i, j) {
          TracePrefix(existed, trace, j + 1);
          GuardedKeepsFrom(existed, runs, trace[..j + 1], g, i);
        }
      }
    } else {
      var g, r :| 0 <= g < |runs| && 0 <= r < |runs| && g != r && runs[g].append && runs[r].dropOnFail;
      var trace := GuestLosesTheTable(runs, g, r);
    }
  }
}
