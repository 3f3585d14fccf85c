/**
 Archiving and restoring an investigation: where a restore lands according to
 the recorded status history, the served preview of both actions, and every run
 of status changes, holds, archives and restores.
 */
module Lifecycle {
  import opened Wrappers

  datatype Status = Open | Monitoring | Resolved | Archived

  function StatusName(s: Status): string {
    match s
    case Open => "open"
    case Monitoring => "monitoring"
    case Resolved => "resolved"
    case Archived => "archived"
  }

  function ParseStatus(text: string): Option<Status> {
    if text == "open" then Some(Open)
    else if text == "monitoring" then Some(Monitoring)
    else if text == "resolved" then Some(Resolved)
    else if text == "archived" then Some(Archived)
    else None
  }

  lemma StatusRoundTrip(s: Status)
    ensures ParseStatus(StatusName(s)) == Some(s)
  {
  }

  /** A recorded status change: the text written, its timeline sequence and its clock. */
  datatype Entry = Entry(status: string, sequence: int, recordedAt: string)

  /** Which clock texts `Date.parse` reads as an instant. */
  type Clock = string -> bool

  /** An entry a restore may land on. */
  predicate Usable(clock: Clock, e: Entry) {
    && ParseStatus(e.status).Some? && !ParseStatus(e.status).value.Archived?
    && clock(e.recordedAt)
    && 1 <= e.sequence <= MAX_SAFE_INTEGER
  }

  /** The usable entry with the highest sequence; the earliest row among equals. */
  ghost predicate IsBest(clock: Clock, history: seq<Entry>, i: int)
    requires 0 <= i < |history|
  {
    && Usable(clock, history[i])
    && (forall j :: 0 <= j < |history| && Usable(clock, history[j]) ==> history[j].sequence <= history[i].sequence)
    && (forall j :: 0 <= j < i && Usable(clock, history[j]) ==> history[j].sequence < history[i].sequence)
  }

  /** What a restore target must be: the best entry's status, or open when there is none. */
  ghost predicate IsTarget(clock: Clock, history: seq<Entry>, target: Status) {
    if exists i :: 0 <= i < |history| && Usable(clock, history[i]) then
      exists i :: 0 <= i < |history| && IsBest(clock, history, i) && ParseStatus(history[i].status) == Some(target)
    else target == Open
  }

  /** restoreTarget */
  method FindRestoreTarget(clock: Clock, history: seq<Entry>) returns (target: Status)
    ensures IsTarget(clock, history, target)
    ensures target == RestoreTarget(clock, history)
  {
    var best: Option<(Status, int)> := None;
    ghost var at := 0;
    for i := 0 to |history|
      invariant best.None? ==> forall j :: 0 <= j < i ==> !Usable(clock, history[j])
      invariant best.Some? ==> 0 <= at < i && IsBest(clock, history[..i], at)
      invariant best.Some? ==> best.value.1 == history[at].sequence && ParseStatus(history[at].status) == Some(best.value.0)
    {
      var entry := history[i];
      assert forall j :: 0 <= j < i ==> history[..i + 1][j] == history[..i][j] == history[j];
      assert history[..i + 1][i] == entry;
      if entry.status == "archived" { continue; }
      var status := ParseStatus(entry.status);
      if status.None? { continue; }
      if !clock(entry.recordedAt) { continue; }
      if entry.sequence < 1 || entry.sequence > MAX_SAFE_INTEGER { continue; }
      if best.None? || entry.sequence > best.value.1 {
        best := Some((status.value, entry.sequence));
        at := i;
      }
    }
    assert history[..|history|] == history;
    target := if best.None? then Open else best.value.0;
    TargetUnique(clock, history, target, RestoreTarget(clock, history));
  }

  ghost function RestoreTarget(clock: Clock, history: seq<Entry>): (target: Status)
    ensures IsTarget(clock, history, target)
  {
    BestExists(clock, history);
    var target :| IsTarget(clock, history, target);
    target
  }

  lemma BestUnique(clock: Clock, history: seq<Entry>, i: int, j: int)
    requires 0 <= i < |history| && 0 <= j < |history|
    requires IsBest(clock, history, i) && IsBest(clock, history, j)
    ensures i == j
  {
  }

  lemma TargetUnique(clock: Clock, history: seq<Entry>, a: Status, b: Status)
    requires IsTarget(clock, history, a) && IsTarget(clock, history, b)
    ensures a == b
  {
    if exists i :: 0 <= i < |history| && Usable(clock, history[i]) {
      var i :| 0 <= i < |history| && IsBest(clock, history, i) && ParseStatus(history[i].status) == Some(a);
      var j :| 0 <= j < |history| && IsBest(clock, history, j) && ParseStatus(history[j].status) == Some(b);
      BestUnique(clock, history, i, j);
    }
  }

  lemma {:induction false} BestExists(clock: Clock, history: seq<Entry>)
    ensures exists target :: IsTarget(clock, history, target)
  {
    var target := SomeTarget(clock, history);
    assert IsTarget(clock, history, target);
  }

  lemma {:induction false} SomeTarget(clock: Clock, history: seq<Entry>) returns (target: Status)
    ensures IsTarget(clock, history, target)
  {
    target := Open;
    if history != [] {
      var n := |history| - 1;
      var before := SomeTarget(clock, history[..n]);
      target := ExtendTarget(clock, history, before);
    }
  }

  /** How the best entry changes when a usable entry is appended. */
  lemma ExtendBest(clock: Clock, front: seq<Entry>, last: Entry, i: int)
    requires Usable(clock, last) && 0 <= i < |front| && IsBest(clock, front, i)
    ensures IsBest(clock, front + [last], if last.sequence > front[i].sequence then |front| else i)
  {
    var history := front + [last];
    assert forall j :: 0 <= j < |front| ==> history[j] == front[j];
  }

  lemma FirstUsable(clock: Clock, front: seq<Entry>, last: Entry)
    requires Usable(clock, last) && forall j :: 0 <= j < |front| ==> !Usable(clock, front[j])
    ensures IsBest(clock, front + [last], |front|)
  {
    var history := front + [last];
    assert forall j :: 0 <= j < |front| ==> history[j] == front[j];
  }

  lemma BestIsTarget(clock: Clock, history: seq<Entry>, i: int)
    requires 0 <= i < |history| && IsBest(clock, history, i)
    ensures IsTarget(clock, history, ParseStatus(history[i].status).value)
  {
  }

  lemma ExtendTarget(clock: Clock, history: seq<Entry>, before: Status) returns (target: Status)
    requires history != [] && IsTarget(clock, history[..|history| - 1], before)
    ensures IsTarget(clock, history, target)
  {
    var n := |history| - 1;
    var front, last := history[..n], history[n];
    assert history == front + [last];
    if !Usable(clock, last) {
      target := before;
      KeepTarget(clock, history, before);
    } else {
      var best := n;
      if exists i :: 0 <= i < n && Usable(clock, front[i]) {
        var i :| 0 <= i < n && IsBest(clock, front, i) && ParseStatus(front[i].status) == Some(before);
        ExtendBest(clock, front, last, i);
        best := if last.sequence > front[i].sequence then n else i;
      } else {
        FirstUsable(clock, front, last);
      }
      target := ParseStatus(history[best].status).value;
      BestIsTarget(clock, history, best);
    }
  }

  lemma KeepBest(clock: Clock, front: seq<Entry>, last: Entry, i: int)
    requires !Usable(clock, last) && 0 <= i < |front| && IsBest(clock, front, i)
    ensures IsBest(clock, front + [last], i)
  {
    var history := front + [last];
    assert forall j :: 0 <= j < |front| ==> history[j] == front[j];
  }

  lemma NoneUsable(clock: Clock, front: seq<Entry>, last: Entry)
    requires !Usable(clock, last) && forall j :: 0 <= j < |front| ==> !Usable(clock, front[j])
    ensures IsTarget(clock, front + [last], Open)
  {
  }

  lemma KeepTarget(clock: Clock, history: seq<Entry>, before: Status)
    requires history != [] && !Usable(clock, history[|history| - 1])
    requires IsTarget(clock, history[..|history| - 1], before)
    ensures IsTarget(clock, history, before)
  {
    var n := |history| - 1;
    var front, last := history[..n], history[n];
    assert history == front + [last];
    if exists i :: 0 <= i < n && Usable(clock, front[i]) {
      var i :| 0 <= i < n && IsBest(clock, front, i) && ParseStatus(front[i].status) == Some(before);
      KeepBest(clock, front, last, i);
      BestIsTarget(clock, history, i);
    } else {
      NoneUsable(clock, front, last);
    }
  }

  /** A restore never lands on archived. */
  lemma TargetIsWorking(clock: Clock, history: seq<Entry>)
    ensures !RestoreTarget(clock, history).Archived?
  {
  }

  /** Recording a status with a sequence above all others makes it the target, unless it is unusable. */
  lemma TargetAfter(clock: Clock, history: seq<Entry>, e: Entry)
    requires forall i :: 0 <= i < |history| ==> history[i].sequence < e.sequence
    ensures RestoreTarget(clock, history + [e])
            == if Usable(clock, e) then ParseStatus(e.status).value else RestoreTarget(clock, history)
  {
    var longer := history + [e];
    var n := |history|;
    assert longer[..n] == history;
    if Usable(clock, e) {
      assert longer[n] == e && IsBest(clock, longer, n);
      TargetUnique(clock, longer, RestoreTarget(clock, longer), ParseStatus(e.status).value);
    } else {
      KeepTarget(clock, longer, RestoreTarget(clock, history));
      TargetUnique(clock, longer, RestoreTarget(clock, longer), RestoreTarget(clock, history));
    }
  }

  // ----- verdicts and the served preview -----------------------------------------------------------

  datatype Action = Archive | Restore
  datatype Refusal = LegalHold | AlreadyArchived | NotArchived | UnknownStatus
  datatype Verdict =
    | Allowed(action: Action, target: Status)
    | Refused(action: Action, reason: Refusal, detail: string)

  datatype Preview = Preview(status: Status, legalHold: bool, archive: Verdict, restore: Verdict, restoreTarget: Status)

  function EvaluateArchive(status: Status, legalHold: bool): Verdict {
    if legalHold then Refused(Archive, LegalHold, "under legal hold")
    else if status.Archived? then Refused(Archive, AlreadyArchived, "already archived")
    else Allowed(Archive, Archived)
  }

  ghost function EvaluateRestore(clock: Clock, status: Status, history: seq<Entry>): Verdict {
    if !status.Archived? then Refused(Restore, NotArchived, "not archived")
    else Allowed(Restore, RestoreTarget(clock, history))
  }

  /** lifecycleFromLockedRow */
  ghost function Serve(clock: Clock, status: Status, legalHold: bool, history: seq<Entry>): Preview {
    Preview(status, legalHold, EvaluateArchive(status, legalHold), EvaluateRestore(clock, status, history),
            RestoreTarget(clock, history))
  }

  /** assertLifecycleSemantics */
  function CheckSemantics(p: Preview): Result<()> {
    if p.restoreTarget.Archived? then Err("restoreTarget")
    else if !p.archive.action.Archive? then Err("archive.action")
    else
      var expected := EvaluateArchive(p.status, p.legalHold);
      if p.archive.Allowed? != expected.Allowed? then Err("archive.allowed")
      else if p.archive.Allowed? && !p.archive.target.Archived? then Err("archive.targetStatus")
      else if p.archive.Refused? && p.archive.reason != expected.reason then Err("archive.reason")
      else if !p.restore.action.Restore? then Err("restore.action")
      else if p.restore.Allowed? != p.status.Archived? then Err("restore.allowed")
      else if p.restore.Allowed? && p.restore.target != p.restoreTarget then Err("restore.targetStatus")
      else if p.restore.Refused? && !p.restore.reason.NotArchived? then Err("restore.reason")
      else Ok(())
  }

  predicate SameVerdict(a: Verdict, b: Verdict) {
    match (a, b)
    case (Allowed(x, s), Allowed(y, t)) => x == y && s == t
    case (Refused(x, r, _), Refused(y, q, _)) => x == y && r == q
    case _ => false
  }

  /**
   A preview passes exactly when, up to wording, it is the one served for its
   status, hold and some history; the history only enters as its restore target.
   */
  lemma SemanticsExact(clock: Clock, p: Preview)
    requires exists text :: clock(text)
    ensures CheckSemantics(p).Ok?
            <==> exists history ::
                   var served := Serve(clock, p.status, p.legalHold, history);
                   && served.restoreTarget == p.restoreTarget
                   && SameVerdict(p.archive, served.archive) && SameVerdict(p.restore, served.restore)
  {
    if CheckSemantics(p).Ok? {
      var text :| clock(text);
      var history := [Entry(StatusName(p.restoreTarget), 1, text)];
      StatusRoundTrip(p.restoreTarget);
      assert [] + history == history;
      TargetAfter(clock, [], history[0]);
      var served := Serve(clock, p.status, p.legalHold, history);
      assert served.restoreTarget == p.restoreTarget;
    }
    if history :| (var served := Serve(clock, p.status, p.legalHold, history);
                   && served.restoreTarget == p.restoreTarget
                   && SameVerdict(p.archive, served.archive) && SameVerdict(p.restore, served.restore)) {
      TargetIsWorking(clock, history);
    }
  }

  /** The preview the server sends always passes its own check. */
  lemma ServedPreviewPasses(clock: Clock, status: Status, legalHold: bool, history: seq<Entry>)
    ensures CheckSemantics(Serve(clock, status, legalHold, history)).Ok?
  {
    TargetIsWorking(clock, history);
  }

  /**
   The preview check, field by field: archiving is offered exactly for a working
   case without a hold, refused for the hold first and for being archived otherwise;
   restoring is offered exactly for an archived case, to the working restore target.
   */
  lemma PreviewExact(p: Preview)
    ensures CheckSemantics(p).Ok?
       <==> && p.restoreTarget != Archived
            && p.archive.action == Archive && p.restore.action == Restore
            && (if p.legalHold then p.archive.Refused? && p.archive.reason == LegalHold
                else if p.status == Archived then p.archive.Refused? && p.archive.reason == AlreadyArchived
                else p.archive.Allowed? && p.archive.target == Archived)
            && (if p.status == Archived then p.restore.Allowed? && p.restore.target == p.restoreTarget
                else p.restore.Refused? && p.restore.reason == NotArchived)
  {
  }
}
