/**
 Every run of one investigation's status commands.  Archiving and restoring
 enter only through their own commands; all other status changes go through the
 generic command, which refuses lifecycle transitions.
 */
module LifecycleRuns {
  import opened Wrappers
  import opened Lifecycle

  datatype Case = Case(status: Status, legalHold: bool, history: seq<Entry>, nextSequence: nat)

  /** The lifecycle state a caller observed before asking for an action. */
  datatype Expected = Expected(status: Status, legalHold: bool, restoreTarget: Status)

  /** `authorized` is the resolution guard's answer; `at` is the server clock text. */
  datatype Command =
    | SetStatus(to: Status, authorized: bool, at: string)
    | Act(action: Action, expected: Expected, authorized: bool, at: string)
    | SetHold(legalHold: bool)
    | Other

  predicate IsLifecycleTransition(from: Status, to: Status) {
    to.Archived? || from.Archived?
  }

  function Tick(c: Case): Case {
    c.(nextSequence := c.nextSequence + 1)
  }

  /** Writes the status and appends its timeline row with the next sequence. */
  function Record(c: Case, to: Status, at: string): Case {
    Tick(c.(status := to, history := c.history + [Entry(StatusName(to), c.nextSequence, at)]))
  }

  ghost predicate Observed(clock: Clock, c: Case, e: Expected) {
    e.status == c.status && e.legalHold == c.legalHold && e.restoreTarget == RestoreTarget(clock, c.history)
  }

  ghost function VerdictOn(clock: Clock, c: Case, action: Action): Verdict {
    match action
    case Archive => EvaluateArchive(c.status, c.legalHold)
    case Restore => EvaluateRestore(clock, c.status, c.history)
  }

  /** An action fires when it was asked for on the current state, is allowed, and a resolution claim is authorized. */
  ghost predicate Fires(clock: Clock, c: Case, action: Action, expected: Expected, authorized: bool) {
    && Observed(clock, c, expected)
    && VerdictOn(clock, c, action).Allowed?
    && (action.Restore? && VerdictOn(clock, c, action).target.Resolved? ==> authorized)
  }

  ghost function Step(clock: Clock, c: Case, cmd: Command): Case {
    match cmd
    case SetStatus(to, authorized, at) =>
      if IsLifecycleTransition(c.status, to) || (to.Resolved? && !authorized) then c else Record(c, to, at)
    case Act(action, expected, authorized, at) =>
      if Fires(clock, c, action, expected, authorized) then Record(c, VerdictOn(clock, c, action).target, at) else c
    case SetHold(legalHold) => Tick(c.(legalHold := legalHold))
    case Other => Tick(c)
  }

  ghost function Run(clock: Clock, c: Case, cmds: seq<Command>): Case {
    if cmds == [] then c
    else Step(clock, Run(clock, c, cmds[..|cmds| - 1]), cmds[|cmds| - 1])
  }

  /** The status an investigation last held while it was not archived. */
  ghost function LastWorking(clock: Clock, c: Case, cmds: seq<Command>): Status {
    var now := Run(clock, c, cmds).status;
    if cmds == [] || !now.Archived? then now
    else LastWorking(clock, c, cmds[..|cmds| - 1])
  }

  /** Recorded sequences are positive and below the next one, which is still safe. */
  ghost predicate Sequenced(c: Case) {
    && 1 <= c.nextSequence <= MAX_SAFE_INTEGER + 1
    && forall i :: 0 <= i < |c.history| ==> 1 <= c.history[i].sequence < c.nextSequence
  }

  /** A case created open without a status row, or one whose current working status is recorded. */
  ghost predicate WellStarted(clock: Clock, c: Case) {
    Sequenced(c) && !c.status.Archived? && RestoreTarget(clock, c.history) == c.status
  }

  lemma FreshCaseWellStarted(clock: Clock, at: string)
    requires clock(at)
    ensures forall next: nat :: 1 <= next <= MAX_SAFE_INTEGER ==> WellStarted(clock, Case(Open, false, [], next))
    ensures forall status: Status :: !status.Archived? ==>
      WellStarted(clock, Case(status, false, [Entry(StatusName(status), 1, at)], 2))
  {
    forall status: Status | !status.Archived?
      ensures RestoreTarget(clock, [Entry(StatusName(status), 1, at)]) == status
    {
      var e := Entry(StatusName(status), 1, at);
      StatusRoundTrip(status);
      assert [] + [e] == [e];
      TargetAfter(clock, [], e);
    }
  }

  ghost predicate GoodCommands(clock: Clock, cmds: seq<Command>) {
    forall i :: 0 <= i < |cmds| ==> (cmds[i].SetStatus? || cmds[i].Act?) ==> clock(cmds[i].at)
  }

  lemma RecordTarget(clock: Clock, c: Case, to: Status, at: string)
    requires Sequenced(c) && c.nextSequence <= MAX_SAFE_INTEGER && clock(at)
    ensures Sequenced(Record(c, to, at))
    ensures RestoreTarget(clock, Record(c, to, at).history)
            == if to.Archived? then RestoreTarget(clock, c.history) else to
  {
    StatusRoundTrip(to);
    TargetAfter(clock, c.history, Entry(StatusName(to), c.nextSequence, at));
  }

  lemma StepTarget(clock: Clock, c: Case, cmd: Command)
    requires Sequenced(c) && c.nextSequence <= MAX_SAFE_INTEGER
    requires cmd.SetStatus? || cmd.Act? ==> clock(cmd.at)
    ensures Sequenced(Step(clock, c, cmd))
    ensures var next := Step(clock, c, cmd);
            RestoreTarget(clock, next.history)
            == if next.history == c.history || next.status.Archived? then RestoreTarget(clock, c.history) else next.status
    ensures Step(clock, c, cmd).history == c.history ==> Step(clock, c, cmd).status == c.status
  {
    match cmd
    case SetStatus(to, _, at) => RecordTarget(clock, c, to, at);
    case Act(action, _, _, at) =>
      if VerdictOn(clock, c, action).Allowed? {
        RecordTarget(clock, c, VerdictOn(clock, c, action).target, at);
      }
    case SetHold(_) =>
    case Other =>
  }

  /** The last command of a run recorded a working status. */
  ghost predicate WritesWorking(clock: Clock, c: Case, cmds: seq<Command>)
    requires cmds != []
  {
    var now := Run(clock, c, cmds);
    now.history != Run(clock, c, cmds[..|cmds| - 1]).history && !now.status.Archived?
  }

  /** Some command of a run recorded a working status. */
  ghost predicate WroteWorking(clock: Clock, c: Case, cmds: seq<Command>) {
    cmds != [] && (WritesWorking(clock, c, cmds) || WroteWorking(clock, c, cmds[..|cmds| - 1]))
  }

  /** The last working status recorded in a run, or else the target the start's own history names. */
  ghost function LastWritten(clock: Clock, c: Case, cmds: seq<Command>): Status {
    if cmds == [] then RestoreTarget(clock, c.history)
    else if WritesWorking(clock, c, cmds) then Run(clock, c, cmds).status
    else LastWritten(clock, c, cmds[..|cmds| - 1])
  }

  /** In every run, from every start, a restore would land on the last working status recorded. */
  lemma {:induction false} TargetInEveryRun(clock: Clock, c: Case, cmds: seq<Command>)
    requires Sequenced(c) && GoodCommands(clock, cmds)
    requires Run(clock, c, cmds).nextSequence <= MAX_SAFE_INTEGER + 1
    ensures Sequenced(Run(clock, c, cmds))
    ensures RestoreTarget(clock, Run(clock, c, cmds).history) == LastWritten(clock, c, cmds)
  {
    if cmds != [] {
      var n := |cmds| - 1;
      var front, last := cmds[..n], cmds[n];
      var before := Run(clock, c, front);
      assert GoodCommands(clock, front);
      TargetInEveryRun(clock, c, front);
      if Step(clock, before, last) != before {
        StepTarget(clock, before, last);
      }
    }
  }

  lemma StepKeepsStatus(clock: Clock, c: Case, cmd: Command)
    ensures Step(clock, c, cmd).history == c.history ==> Step(clock, c, cmd).status == c.status
  {
  }

  /** What was written last against what was held last. */
  lemma {:induction false} WrittenAgainstHeld(clock: Clock, c: Case, cmds: seq<Command>)
    requires !c.status.Archived?
    ensures WroteWorking(clock, c, cmds) ==> LastWritten(clock, c, cmds) == LastWorking(clock, c, cmds)
    ensures !WroteWorking(clock, c, cmds) ==>
      LastWritten(clock, c, cmds) == RestoreTarget(clock, c.history) && LastWorking(clock, c, cmds) == c.status
  {
    if cmds != [] {
      var n := |cmds| - 1;
      WrittenAgainstHeld(clock, c, cmds[..n]);
      StepKeepsStatus(clock, Run(clock, c, cmds[..n]), cmds[n]);
      assert !Run(clock, c, cmds[..n]).status.Archived? ==>
        LastWorking(clock, c, cmds[..n]) == Run(clock, c, cmds[..n]).status;
    }
  }

  /**
   In every run from a working start, a restore would land on the status last held
   while working, exactly when the run recorded a working status or the start's
   own history names its status.
   */
  lemma TargetIsLastWorking(clock: Clock, c: Case, cmds: seq<Command>)
    requires Sequenced(c) && !c.status.Archived? && GoodCommands(clock, cmds)
    requires Run(clock, c, cmds).nextSequence <= MAX_SAFE_INTEGER + 1
    ensures RestoreTarget(clock, Run(clock, c, cmds).history) == LastWorking(clock, c, cmds)
       <==> WroteWorking(clock, c, cmds) || WellStarted(clock, c)
  {
    TargetInEveryRun(clock, c, cmds);
    WrittenAgainstHeld(clock, c, cmds);
  }

  /**
   Whenever a restore fires it sets the last working status recorded, which is the
   status held before the archive on exactly the same condition.
   */
  lemma RestoreReturns(clock: Clock, c: Case, cmds: seq<Command>)
    requires Sequenced(c) && GoodCommands(clock, cmds) && cmds != []
    requires Run(clock, c, cmds).nextSequence <= MAX_SAFE_INTEGER + 1
    ensures var front := cmds[..|cmds| - 1];
            FiresAt(clock, c, cmds, |cmds| - 1, Restore) ==>
              && Run(clock, c, cmds).status == LastWritten(clock, c, front)
              && (!c.status.Archived? ==>
                    (Run(clock, c, cmds).status == LastWorking(clock, c, front)
                     <==> WroteWorking(clock, c, front) || WellStarted(clock, c)))
  {
    var front := cmds[..|cmds| - 1];
    assert GoodCommands(clock, front);
    TargetInEveryRun(clock, c, front);
    if !c.status.Archived? {
      TargetIsLastWorking(clock, c, front);
    }
  }

  /** A case imported with a status that its history does not name comes back as open. */
  lemma ImportedComesBackOpen(clock: Clock, status: Status, next: nat, at: string, back: string)
    requires status.Monitoring? || status.Resolved?
    requires 1 <= next < MAX_SAFE_INTEGER && clock(at) && clock(back)
    ensures var c := Case(status, false, [], next);
            var archived := Step(clock, c, Act(Archive, Expected(status, false, Open), true, at));
            var restored := Step(clock, archived, Act(Restore, Expected(Archived, false, Open), true, back));
            archived.status == Archived && restored.status == Open
  {
    ArchiveRestoreExact(clock, Case(status, false, [], next), at, back);
    RecordTarget(clock, Case(status, false, [], next), Archived, at);
  }

  /**
   Archiving and restoring again returns to the old status exactly when the
   history already names it; an opening status that was never recorded comes
   back as open.
   */
  lemma ArchiveRestoreExact(clock: Clock, c: Case, at: string, back: string)
    requires Sequenced(c) && c.nextSequence < MAX_SAFE_INTEGER && clock(at) && clock(back)
    requires !c.status.Archived? && !c.legalHold
    ensures var target := RestoreTarget(clock, c.history);
            var archived := Step(clock, c, Act(Archive, Expected(c.status, false, target), true, at));
            var restored := Step(clock, archived, Act(Restore, Expected(Archived, false, target), true, back));
            && archived.status == Archived
            && (restored.status == c.status <==> target == c.status)
  {
    RecordTarget(clock, c, Archived, at);
  }

  /** A hold stops every archive; nothing but a stale request or a missing resolution stops a restore. */
  lemma HoldStopsArchiveOnly(clock: Clock, c: Case, expected: Expected, authorized: bool)
    ensures c.legalHold ==> !Fires(clock, c, Archive, expected, authorized)
    ensures c.status.Archived? ==>
      (Fires(clock, c, Restore, expected, authorized)
       <==> Observed(clock, c, expected) && (RestoreTarget(clock, c.history).Resolved? ==> authorized))
  {
  }

  /** Only the archive command archives, only the restore command leaves archived. */
  lemma LifecycleOnlyByCommand(clock: Clock, c: Case, cmd: Command)
    ensures var next := Step(clock, c, cmd);
            c.status.Archived? != next.status.Archived? ==>
              && cmd.Act? && Fires(clock, c, cmd.action, cmd.expected, cmd.authorized)
              && (cmd.action.Archive? <==> next.status.Archived?)
  {
    TargetIsWorking(clock, c.history);
  }

  lemma RunStep(clock: Clock, c: Case, cmds: seq<Command>, k: nat)
    requires k < |cmds|
    ensures Run(clock, c, cmds[..k + 1]) == Step(clock, Run(clock, c, cmds[..k]), cmds[k])
  {
    assert cmds[..k + 1][..k] == cmds[..k];
  }

  /** At position `k` of a run an action of this kind fires. */
  ghost predicate FiresAt(clock: Clock, c: Case, cmds: seq<Command>, k: nat, action: Action)
    requires k < |cmds|
  {
    && cmds[k].Act? && cmds[k].action == action
    && Fires(clock, Run(clock, c, cmds[..k]), action, cmds[k].expected, cmds[k].authorized)
  }

  /**
   In every run, a case that went from working to archived did so through an
   archive command that fired while no hold was set.
   */
  lemma {:induction false} ArchivedOffHold(clock: Clock, c: Case, cmds: seq<Command>, i: nat, j: nat) returns (k: nat)
    requires i <= j <= |cmds|
    requires !Run(clock, c, cmds[..i]).status.Archived? && Run(clock, c, cmds[..j]).status.Archived?
    ensures i <= k < j && FiresAt(clock, c, cmds, k, Archive) && !Run(clock, c, cmds[..k]).legalHold
    decreases j
  {
    k := j - 1;
    var before := Run(clock, c, cmds[..k]);
    RunStep(clock, c, cmds, k);
    if before.status.Archived? {
      k := ArchivedOffHold(clock, c, cmds, i, k);
    } else {
      LifecycleOnlyByCommand(clock, before, cmds[k]);
      HoldStopsArchiveOnly(clock, before, cmds[k].expected, cmds[k].authorized);
    }
  }

  /** In every run, a case that left the archive did so through a restore command that fired. */
  lemma {:induction false} LeftByRestore(clock: Clock, c: Case, cmds: seq<Command>, i: nat, j: nat) returns (k: nat)
    requires i <= j <= |cmds|
    requires Run(clock, c, cmds[..i]).status.Archived? && !Run(clock, c, cmds[..j]).status.Archived?
    ensures i <= k < j && FiresAt(clock, c, cmds, k, Restore)
    decreases j
  {
    k := j - 1;
    var before := Run(clock, c, cmds[..k]);
    RunStep(clock, c, cmds, k);
    if before.status.Archived? {
      LifecycleOnlyByCommand(clock, before, cmds[k]);
      assert cmds[k].action == Restore;
    } else {
      k := LeftByRestore(clock, c, cmds, i, k);
    }
  }

  /** While a hold stays set, a case that is not archived stays so. */
  lemma {:induction false} HeldStaysWorking(clock: Clock, c: Case, cmds: seq<Command>, i: nat, j: nat)
    requires i <= j <= |cmds| && !Run(clock, c, cmds[..i]).status.Archived?
    requires forall k :: i <= k < j ==> Run(clock, c, cmds[..k]).legalHold
    ensures !Run(clock, c, cmds[..j]).status.Archived?
  {
    if Run(clock, c, cmds[..j]).status.Archived? {
      var k := ArchivedOffHold(clock, c, cmds, i, j);
      assert false;
    }
  }

  // ----- what each command does -------------------------------------------------------------------

  /** A status command that a working case takes: to a working status, resolved only with authority. */
  predicate IsTaken(cmd: Command) {
    cmd.SetStatus? && cmd.to != Archived && (cmd.to == Resolved ==> cmd.authorized)
  }

  /** A working case takes such a command whole; every other status command leaves the case alone. */
  lemma SetStatusExact(clock: Clock, c: Case, cmd: Command)
    requires cmd.SetStatus?
    ensures var next := Step(clock, c, cmd);
            if c.status != Archived && IsTaken(cmd) then
              && next.status == cmd.to && next.legalHold == c.legalHold
              && next.history == c.history + [Entry(StatusName(cmd.to), c.nextSequence, cmd.at)]
              && next.nextSequence == c.nextSequence + 1
            else next == c
  {
  }

  /** A requested action on a case, given what its restore target is. */
  lemma ActExact(clock: Clock, c: Case, cmd: Command)
    requires cmd.Act?
    ensures var next, target := Step(clock, c, cmd), RestoreTarget(clock, c.history);
            var to := if cmd.action == Archive then Archived else target;
            if cmd.expected == Expected(c.status, c.legalHold, target)
               && (if cmd.action == Archive then c.status != Archived && !c.legalHold
                   else c.status == Archived && (target == Resolved ==> cmd.authorized))
            then
              && next.status == to && next.legalHold == c.legalHold
              && next.history == c.history + [Entry(StatusName(to), c.nextSequence, cmd.at)]
              && next.nextSequence == c.nextSequence + 1
            else next == c
  {
  }

  /** Setting a hold, and any other timeline row, keeps status and history and uses up one sequence. */
  lemma OtherCommands(clock: Clock, c: Case, legalHold: bool)
    ensures Step(clock, c, SetHold(legalHold)) == c.(legalHold := legalHold, nextSequence := c.nextSequence + 1)
    ensures Step(clock, c, Other) == c.(nextSequence := c.nextSequence + 1)
  {
  }

  /** No action fires from position i on, up to j. */
  ghost predicate QuietBetween(clock: Clock, c: Case, cmds: seq<Command>, i: nat, j: nat)
    requires i <= j <= |cmds|
  {
    forall k :: i <= k < j && cmds[k].Act? ==> !FiresAt(clock, c, cmds, k, cmds[k].action)
  }

  /** The status asked for by the last command a working case takes. */
  function LastAsked(start: Status, cmds: seq<Command>): Status {
    if cmds == [] then start
    else if IsTaken(cmds[|cmds| - 1]) then cmds[|cmds| - 1].to
    else LastAsked(start, cmds[..|cmds| - 1])
  }

  /**
   While no action fires, a working case has the status of the last command it took,
   or the one it started with; an archived case stays archived.
   */
  lemma {:induction false} StatusFollowsCommands(clock: Clock, c: Case, cmds: seq<Command>, i: nat, j: nat)
    requires i <= j <= |cmds| && QuietBetween(clock, c, cmds, i, j)
    ensures var start, now := Run(clock, c, cmds[..i]).status, Run(clock, c, cmds[..j]).status;
            now == if start == Archived then Archived else LastAsked(start, cmds[i..j])
    decreases j
  {
    if i < j {
      var k := j - 1;
      assert QuietBetween(clock, c, cmds, i, k);
      StatusFollowsCommands(clock, c, cmds, i, k);
      RunStep(clock, c, cmds, k);
      assert cmds[i..j][..k - i] == cmds[i..k] && cmds[i..j][k - i] == cmds[k];
      QuietStep(clock, Run(clock, c, cmds[..k]), cmds[k]);
      if Run(clock, c, cmds[..i]).status != Archived {
        LastAskedWorks(Run(clock, c, cmds[..i]).status, cmds[i..k]);
      }
    }
  }

  lemma QuietStep(clock: Clock, c: Case, cmd: Command)
    requires cmd.Act? ==> !Fires(clock, c, cmd.action, cmd.expected, cmd.authorized)
    ensures Step(clock, c, cmd).status == if c.status != Archived && IsTaken(cmd) then cmd.to else c.status
  {
  }

  lemma {:induction false} LastAskedWorks(start: Status, cmds: seq<Command>)
    requires start != Archived
    ensures LastAsked(start, cmds) != Archived
  {
    if cmds != [] { LastAskedWorks(start, cmds[..|cmds| - 1]); }
  }
}
