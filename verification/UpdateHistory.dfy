/** The update history: an append-only file of JSON lines, trimmed to the last
    200, from which the latest entry of a request is looked up; and the alert
    that is asked for when a roll-back fails. `full` is everything ever
    appended; the file holds its tail. */
module UpdateHistory {
  import opened Counters

  type RequestId = nat

  const MAX_HISTORY_LINES: nat := 200

  datatype Status = Running | Rejected | Succeeded | RolledBack | RollbackFailed

  datatype AlertStatus = NotNeeded | Pending | Requested | RequestFailed

  /** A history line; texts appear by their lengths. */
  datatype Entry = Entry(
    id: RequestId, target: string, status: Status, alert: AlertStatus,
    message: nat, backup: Option<nat>, checks: seq<nat>)

  // ------------------------------------------------------------------- look-up

  function Latest(lines: seq<Entry>, id: RequestId): Option<Entry> {
    if lines == [] then None
    else if lines[|lines| - 1].id == id then Some(lines[|lines| - 1])
    else Latest(lines[..|lines| - 1], id)
  }

  ghost predicate TailOf(lines: seq<Entry>, full: seq<Entry>) {
    |lines| <= |full| && lines == full[|full| - |lines|..]
  }

  /** Trimming loses old entries but never resurrects one: what a tail finds is
      what the whole history would find. */
  lemma {:induction false} TailIsNeverStale(lines: seq<Entry>, full: seq<Entry>, id: RequestId)
    requires TailOf(lines, full)
    ensures Latest(lines, id).Some? ==> Latest(lines, id) == Latest(full, id)
    ensures Latest(full, id).None? ==> Latest(lines, id).None?
  {
    if lines != [] && lines[|lines| - 1].id != id {
      assert full[..|full| - 1][|full| - |lines|..] == lines[..|lines| - 1];
      TailIsNeverStale(lines[..|lines| - 1], full[..|full| - 1], id);
    }
  }

  lemma {:induction false} LatestIs(full: seq<Entry>, id: RequestId)
    ensures Latest(full, id).None? ==> forall i :: 0 <= i < |full| ==> full[i].id != id
    ensures Latest(full, id).Some? ==>
              exists i :: 0 <= i < |full| && full[i] == Latest(full, id).value && full[i].id == id
                       && forall j :: i < j < |full| ==> full[j].id != id
  {
    if full != [] && full[|full| - 1].id != id {
      LatestIs(full[..|full| - 1], id);
    }
  }

  // ----------------------------------------------------------------- life cycle

  /** `b` may come after `a` in one request's history. */
  predicate MayFollow(a: Entry, b: Entry) {
    && a.target == b.target
    && b.status != Running && a.alert != Requested
    && (a.status != Running ==>
          && a.status == RollbackFailed && b.status == RollbackFailed
          && a.alert in {Pending, RequestFailed} && b.alert in {Requested, RequestFailed})
    && (a.status == Running ==> b.alert == if b.status == RollbackFailed then Pending else NotNeeded)
  }

  ghost predicate NoneBetween(full: seq<Entry>, i: nat, j: nat)
    requires i < j < |full|
  {
    forall k :: i < k < j ==> full[k].id != full[i].id
  }

  /** Neighbouring entries of the request are in an admitted order. Once one has
      a final status, later ones have the same; an alert moves from pending to
      requested or failed, and nothing follows a requested one. */
  ghost predicate Lifecycle(full: seq<Entry>, id: RequestId) {
    forall i, j :: 0 <= i < j < |full| && full[i].id == id == full[j].id && NoneBetween(full, i, j) ==>
      MayFollow(full[i], full[j])
  }

  /** An appended entry only has to fit the latest one of its request. */
  lemma AppendKeepsLifecycle(full: seq<Entry>, e: Entry, id: RequestId)
    requires Lifecycle(full, id)
    requires e.id == id && Latest(full, id).Some? ==> MayFollow(Latest(full, id).value, e)
    ensures Lifecycle(full + [e], id)
  {
    var next := full + [e];
    LatestIs(full, id);
    forall i, j | 0 <= i < j < |next| && next[i].id == id == next[j].id && NoneBetween(next, i, j)
      ensures MayFollow(next[i], next[j])
    {
      if j < |full| {
        assert forall k :: i < k < j ==> full[k] == next[k];
        assert NoneBetween(full, i, j);
      } else {
        assert full[i].id == id;
        var l :| 0 <= l < |full| && full[l] == Latest(full, id).value && full[l].id == id
                 && forall k :: l < k < |full| ==> full[k].id != id;
        assert next[l] == full[l] && next[i] == full[i];
      }
    }
  }

  /** What is out of order stays out of order. */
  lemma LifecycleOfPrefix(full: seq<Entry>, more: seq<Entry>, id: RequestId)
    requires Lifecycle(full + more, id)
    ensures Lifecycle(full, id)
  {
    var next := full + more;
    forall i, j | 0 <= i < j < |full| && full[i].id == id == full[j].id && NoneBetween(full, i, j)
      ensures MayFollow(full[i], full[j])
    {
      assert forall k :: i <= k <= j ==> next[k] == full[k];
      assert NoneBetween(next, i, j);
    }
  }

  /** The steps between neighbours add up: a final status never changes, a
      requested alert is the last word, pending never returns. */
  lemma {:induction false} FinalOnce(full: seq<Entry>, id: RequestId, i: nat, j: nat)
    requires Lifecycle(full, id) && i < j < |full| && full[i].id == id == full[j].id
    ensures full[i].status != Running ==> full[j].status == full[i].status
    ensures full[j].status != Running && full[i].target == full[j].target
    ensures full[i].alert != Requested
    ensures full[i].status != Running ==> full[j].alert in {Requested, RequestFailed}
    decreases j - i
  {
    if !NoneBetween(full, i, j) {
      var k :| i < k < j && full[k].id == full[i].id;
      FinalOnce(full, id, i, k);
      FinalOnce(full, id, k, j);
    }
  }

  // ------------------------------------------------------- the texts in a record

  /** `message`: at most 300 characters of an error's text are kept. */
  const MAX_ERROR_TEXT: nat := 300

  function Shortened(text: nat): nat { if text < MAX_ERROR_TEXT then text else MAX_ERROR_TEXT }

  /** The four or five checks of one validation round. */
  type RuntimeChecks = checks: seq<nat> | |checks| == 4 || |checks| == 5 witness [0, 0, 0, 0]

  datatype Audit = Recreated | Unchanged | NotRecorded(text: nat)

  function AuditText(a: Audit): nat {
    match a
    case Recreated => 22
    case Unchanged => 11
    case NotRecorded(text) => 22 + Shortened(text)
  }

  /** A validation that was reached: the recreation audit and the last round. */
  datatype Validation = Validation(audit: Audit, runtime: RuntimeChecks)

  function ChecksOf(v: Validation): seq<nat> { [AuditText(v.audit)] + v.runtime }

  /** Why a step raised: a failed validation brings its checks along, any other
      error only its text. */
  datatype Cause = Error(text: nat) | NotValid(validation: Validation)

  function CauseText(c: Cause): nat {
    match c case Error(text) => Shortened(text) case NotValid(_) => 21
  }

  function CauseChecks(c: Cause): seq<nat> {
    match c case Error(_) => [] case NotValid(v) => ChecksOf(v)
  }

  // ------------------------------------------------- what one update appends

  /** An append may succeed, fail before the line is in the file, or fail after
      it (in the trimming that follows). */
  datatype Fate = Written | Lost | WrittenThenRaised

  function Keep(e: Entry, fate: Fate): seq<Entry> { if fate == Lost then [] else [e] }

  /** How the steps before the final record went. */
  datatype Course =
    | Refused(text: nat)
    | AlreadyApplied(valid: bool, runtime: RuntimeChecks)
    | BackupFailed(text: nat)
    | Applied(validation: Validation)
    | Broke(cause: Cause)

  /** How the roll-back went, if there was one. */
  datatype Recovery = Back(validation: Validation) | NotBack(cause: Cause)

  /** One update: its course, the fates of the records it appends, the error a
      failed success record raises, and whether the recovery state was noted. */
  datatype Update = Update(
    id: RequestId, target: string, course: Course, backup: nat,
    recovery: Recovery, noteFails: Option<nat>, appendError: nat,
    first: Fate, second: Fate, last: Fate)

  function NoteText(u: Update): nat {
    if u.noteFails.Some? then 16 + Shortened(u.noteFails.value) else 14
  }

  /** What sent the update into its roll-back: a success record that cannot be
      appended is an error like any other, so the checks it held are gone. */
  function UpdateCause(u: Update): Cause {
    if u.course.Broke? then u.course.cause else Error(u.appendError)
  }

  function RollbackText(r: Recovery): nat {
    match r case Back(_) => 30 case NotBack(cause) => 25 + CauseText(cause)
  }

  function RollbackChecks(r: Recovery): seq<nat> {
    match r case Back(v) => ChecksOf(v) case NotBack(cause) => CauseChecks(cause)
  }

  /** The record `_rollback` ends with. */
  function RollbackEntry(u: Update): Entry {
    Entry(u.id, u.target,
          if u.recovery.Back? then RolledBack else RollbackFailed,
          if u.recovery.Back? then NotNeeded else Pending,
          RollbackText(u.recovery) + 6 + CauseText(UpdateCause(u)) + 1,
          Some(u.backup),
          CauseChecks(UpdateCause(u)) + RollbackChecks(u.recovery) + [NoteText(u)])
  }

  function RefusedEntry(u: Update, text: nat): Entry {
    Entry(u.id, u.target, Rejected, NotNeeded, 15 + Shortened(text), None, [])
  }

  function AppliedEntry(u: Update, valid: bool, runtime: RuntimeChecks): Entry {
    if valid then Entry(u.id, u.target, Succeeded, NotNeeded, 32, None, runtime)
    else Entry(u.id, u.target, Rejected, NotNeeded, 21, None, runtime)
  }

  function StartedEntry(u: Update): Entry { Entry(u.id, u.target, Running, NotNeeded, 16, None, []) }

  function SuccessEntry(u: Update, v: Validation): Entry {
    Entry(u.id, u.target, Succeeded, NotNeeded, 27, Some(u.backup), ChecksOf(v))
  }

  /** The entries `process_request` appends, in order. A success record that
      raises sends the update into its roll-back. */
  function ProcessAppends(u: Update): seq<Entry> {
    match u.course
    case Refused(text) => Keep(RefusedEntry(u, text), u.first)
    case AlreadyApplied(valid, runtime) => Keep(AppliedEntry(u, valid, runtime), u.first)
    case _ => Keep(StartedEntry(u), u.first) + if u.first == Written then AfterStart(u) else []
  }

  function AfterStart(u: Update): seq<Entry>
    requires !u.course.Refused? && !u.course.AlreadyApplied?
  {
    match u.course
    case BackupFailed(text) => Keep(RefusedEntry(u, text), u.second)
    case Broke(_) => Keep(RollbackEntry(u), u.last)
    case Applied(v) =>
      Keep(SuccessEntry(u, v), u.second) + if u.second == Written then [] else Keep(RollbackEntry(u), u.last)
  }

  /** The update goes into its roll-back. */
  predicate RollsBack(u: Update) {
    u.first == Written && (u.course.Broke? || (u.course.Applied? && u.second != Written))
  }

  predicate FailedRollbackRecorded(u: Update) { RollsBack(u) && u.last == Written && u.recovery.NotBack? }

  /** A success that is recorded twice over: written, then raised, then
      followed by the record of the roll-back. */
  predicate SuccessTakenBack(u: Update) {
    u.course.Applied? && u.first == Written && u.second == WrittenThenRaised && u.last != Lost
  }

  ghost predicate ChainFollows(es: seq<Entry>) {
    forall i, j :: 0 <= i && j == i + 1 && j < |es| ==> MayFollow(es[i], es[j])
  }

  /** One request's records are final once exactly when its success record is
      not written and then raised. */
  lemma FinalOnceExactlyWhen(u: Update)
    ensures ChainFollows(ProcessAppends(u)) <==> !SuccessTakenBack(u)
  {
    var es := ProcessAppends(u);
    if SuccessTakenBack(u) {
      assert es[1] == SuccessEntry(u, u.course.validation);
      assert es[2] == RollbackEntry(u);
      assert !MayFollow(es[1], es[2]);
    }
  }

  lemma AppendsAreForTheRequest(u: Update)
    ensures forall e :: e in ProcessAppends(u) ==> e.id == u.id
    ensures FailedRollbackRecorded(u) ==>
              var es := ProcessAppends(u);
              es != [] && es[|es| - 1] == RollbackEntry(u)
  {
  }

  /** When no append fails, the last record says what became of the request, and
      one that was started says so first. */
  lemma RecordsTellTheOutcome(u: Update)
    requires u.first == u.second == u.last == Written
    ensures var es := ProcessAppends(u);
            && es != []
            && var e := es[|es| - 1];
               && e.id == u.id && e.target == u.target
               && (e.status == Succeeded <==> u.course.Applied? || (u.course.AlreadyApplied? && u.course.valid))
               && (e.status == Rejected <==>
                     u.course.Refused? || u.course.BackupFailed? || (u.course.AlreadyApplied? && !u.course.valid))
               && (e.status == RolledBack <==> u.course.Broke? && u.recovery.Back?)
               && (e.status == RollbackFailed <==> u.course.Broke? && u.recovery.NotBack?)
               && e.alert == (if e.status == RollbackFailed then Pending else NotNeeded)
               && (e.backup == (if u.course.Applied? || u.course.Broke? then Some(u.backup) else None))
               && (u.course.Refused? || u.course.AlreadyApplied? ==> |es| == 1)
               && (!(u.course.Refused? || u.course.AlreadyApplied?) ==> |es| == 2 && es[0].status == Running)
  {
  }

  /** Appending the chain of a new request keeps its history in order, and only
      a chain that is in order does. */
  lemma {:induction false} AppendChain(full: seq<Entry>, id: RequestId, es: seq<Entry>)
    requires Latest(full, id).None? && forall e :: e in es ==> e.id == id
    ensures Lifecycle(full + es, id) <==> ChainFollows(es)
    ensures Latest(full + es, id) == if es == [] then None else Some(es[|es| - 1])
  {
    LatestIs(full, id);
    if es == [] {
      assert full + es == full;
    } else {
      var init, e := es[..|es| - 1], es[|es| - 1];
      assert full + es == (full + init) + [e];
      assert e in es;
      AppendChain(full, id, init);
      if ChainFollows(es) {
        AppendKeepsLifecycle(full + init, e, id);
      }
      if Lifecycle(full + es, id) {
        NeighboursFollow(full, id, es);
      }
    }
  }

  lemma NeighboursFollow(full: seq<Entry>, id: RequestId, es: seq<Entry>)
    requires Lifecycle(full + es, id) && forall e :: e in es ==> e.id == id
    ensures ChainFollows(es)
  {
    var next := full + es;
    forall i, j | 0 <= i && j == i + 1 && j < |es| ensures MayFollow(es[i], es[j]) {
      assert next[|full| + i] == es[i] && next[|full| + j] == es[j];
      assert es[i] in es && es[j] in es;
      assert NoneBetween(next, |full| + i, |full| + j);
    }
  }

  /** Records of one request leave every other request's history as it was. */
  lemma {:induction false} OthersUntouched(full: seq<Entry>, es: seq<Entry>, other: RequestId)
    requires forall e :: e in es ==> e.id != other
    ensures Lifecycle(full + es, other) <==> Lifecycle(full, other)
  {
    if es == [] {
      assert full + es == full;
    } else {
      var init, e := es[..|es| - 1], es[|es| - 1];
      assert full + es == (full + init) + [e];
      assert e in es;
      OthersUntouched(full, init, other);
      if Lifecycle(full + init, other) { AppendKeepsLifecycle(full + init, e, other); }
      if Lifecycle(full + es, other) { LifecycleOfPrefix(full + init, [e], other); }
    }
  }

  // -------------------------------------------------------------- the runner's file

  class HistoryFile {
    var lines: seq<Entry>
    ghost var full: seq<Entry>

    ghost predicate Valid()
      reads this
    {
      TailOf(lines, full)
    }

    constructor ()
      ensures Valid() && full == []
    {
      lines, full := [], [];
    }

    /** Appends a line and trims the file to its last 200 lines. */
    method AppendHistory(e: Entry, fate: Fate) returns (raised: bool)
      requires Valid()
      modifies this
      ensures Valid() && full == old(full) + Keep(e, fate)
      ensures raised <==> fate != Written
      ensures lines == if fate == Lost then old(lines)
                       else if fate == Written && |old(lines)| >= 200 then (old(lines) + [e])[|old(lines)| - 199..]
                       else old(lines) + [e]
      ensures fate != Lost || old(lines) != [] ==> lines != []
    {
      raised := fate != Written;
      if fate == Lost {
        return;
      }
      lines := lines + [e];
      full := full + [e];
      if !raised && |lines| > MAX_HISTORY_LINES {
        lines := lines[|lines| - MAX_HISTORY_LINES..];
      }
    }

    /** `_latest_history_entry`: from the last line backwards. */
    method LatestEntry(id: RequestId) returns (e: Option<Entry>)
      ensures e == Latest(lines, id)
    {
      var i := |lines|;
      assert lines[..i] == lines;
      while i > 0
        invariant 0 <= i <= |lines|
        invariant Latest(lines, id) == Latest(lines[..i], id)
      {
        i := i - 1;
        assert lines[..i + 1][..i] == lines[..i];
        if lines[i].id == id {
          return Some(lines[i]);
        }
      }
      return None;
    }

    /** The records of one update. */
    method Process(u: Update)
      requires Valid()
      modifies this
      ensures Valid() && full == old(full) + ProcessAppends(u)
      ensures full != old(full) ==> lines != []
    {
      if u.course.Refused? {
        var _ := AppendHistory(RefusedEntry(u, u.course.text), u.first);
        return;
      }
      if u.course.AlreadyApplied? {
        var _ := AppendHistory(AppliedEntry(u, u.course.valid, u.course.runtime), u.first);
        return;
      }
      var raised := AppendHistory(StartedEntry(u), u.first);
      if !raised {
        ghost var started := full;
        ProcessStarted(u);
        assert started == old(full) + [StartedEntry(u)];
        assert old(full) + ([StartedEntry(u)] + AfterStart(u)) == started + AfterStart(u);
      }
    }

    method ProcessStarted(u: Update)
      requires Valid() && !u.course.Refused? && !u.course.AlreadyApplied?
      modifies this
      ensures Valid() && full == old(full) + AfterStart(u)
      ensures old(lines) != [] ==> lines != []
    {
      var raised;
      if u.course.BackupFailed? {
        raised := AppendHistory(RefusedEntry(u, u.course.text), u.second);
        return;
      }
      if u.course.Applied? {
        raised := AppendHistory(SuccessEntry(u, u.course.validation), u.second);
        if !raised {
          return;
        }
      }
      raised := AppendHistory(RollbackEntry(u), u.last);
    }

    /** One update from request to alert, for a request id never used before:
        its own history is in order exactly when no success record was taken
        back, and every other request's history is as it was. */
    method RunUpdate(u: Update, alertSent: bool, alertFate: Fate)
      requires Valid() && Latest(full, u.id).None?
      modifies this
      ensures Valid()
      ensures full == old(full) + ProcessAppends(u)
                      + if FailedRollbackRecorded(u) then Keep(WithAlert(RollbackEntry(u), alertSent), alertFate) else []
      ensures old(full) <= full && forall i :: |old(full)| <= i < |full| ==> full[i].id == u.id
      ensures Lifecycle(full, u.id) <==> !SuccessTakenBack(u)
      ensures forall other :: other != u.id ==> (Lifecycle(full, other) <==> Lifecycle(old(full), other))
    {
      ghost var before := full;
      AppendsAreForTheRequest(u);
      FinalOnceExactlyWhen(u);
      AppendChain(full, u.id, ProcessAppends(u));
      Process(u);
      ghost var processed := full;
      forall other | other != u.id ensures Lifecycle(processed, other) <==> Lifecycle(before, other) {
        OthersUntouched(before, ProcessAppends(u), other);
      }
      if FailedRollbackRecorded(u) {
        LatestAtEnd(lines, full, u.id);
        var recorded := AppendAlertResult(u.id, u.target, alertSent, alertFate);
      }
    }

    /** `append_alert_result`: the latest record once more, with the result of
        the alert. A pending or failed alert may be answered this way. */
    method AppendAlertResult(id: RequestId, target: string, sent: bool, fate: Fate) returns (recorded: bool)
      requires Valid()
      modifies this
      ensures Valid()
      ensures full == old(full) + AlertAppends(old(lines), id, target, sent, fate)
      ensures forall other :: other != id ==> (Lifecycle(full, other) <==> Lifecycle(old(full), other))
      ensures Latest(old(lines), id).Some? && Latest(old(lines), id).value.alert in {Pending, RequestFailed} ==>
                (Lifecycle(full, id) <==> Lifecycle(old(full), id))
    {
      ghost var before := full;
      LatestHasId(lines, id);
      TailIsNeverStale(lines, full, id);
      AlertKeepsLifecycle(lines, full, id, target, sent, fate);
      var entry := LatestEntry(id);
      if entry.None? || entry.value.status != RollbackFailed || entry.value.target != target {
        assert full + [] == full;
        return false;
      }
      var raised := AppendHistory(WithAlert(entry.value, sent), fate);
      recorded := !raised;
    }

    /** A retry is admitted only while the latest record says that the request
        for the alert failed; it leaves every history in the order it was in. */
    method RetryAlert(source: RequestId, target: string, sent: bool, fate: Fate) returns (recorded: bool)
      requires Valid()
      modifies this
      ensures Valid()
      ensures full != old(full) ==>
                && Latest(old(full), source).Some? && Latest(old(full), source).value.alert == RequestFailed
                && full == old(full) + [WithAlert(Latest(old(full), source).value, sent)]
      ensures forall id :: Lifecycle(full, id) <==> Lifecycle(old(full), id)
    {
      var entry := LatestEntry(source);
      TailIsNeverStale(lines, full, source);
      if entry.None? || entry.value.status != RollbackFailed
         || entry.value.alert != RequestFailed || entry.value.target != target {
        return false;
      }
      recorded := AppendAlertResult(source, target, sent, fate);
    }

    /** Any sequence of updates with fresh ids and of alert retries, from an
        empty file: a request's history is in order exactly when its update did
        not take a success back. */
    method RunAll(events: seq<Event>)
      requires full == [] && lines == []
      requires FreshIds(events)
      modifies this
      ensures Valid()
      ensures forall id :: Lifecycle(full, id) <==> !TookBack(events, id)
    {
      for i := 0 to |events|
        invariant Valid()
        invariant forall id :: Latest(full, id).Some? ==> UpdatedIn(events[..i], id)
        invariant forall id :: Lifecycle(full, id) <==> !TookBack(events[..i], id)
      {
        var e := events[i];
        ghost var before := full;
        EventsGrow(events, i);
        match e
        case Updated(u, sent, fate) =>
          FreshAt(events, i);
          RunUpdate(u, sent, fate);
          forall id ensures Latest(full, id).Some? ==> Latest(before, id).Some? || id == u.id {
            LatestOfLonger(before, full, id, u.id);
          }
        case Retried(source, target, sent, fate) =>
          var recorded := RetryAlert(source, target, sent, fate);
          forall id ensures Latest(full, id).Some? ==> Latest(before, id).Some? {
            if full != before {
              LatestHasId(before, source);
              LatestOfLonger(before, full, id, source);
            }
          }
      }
      assert events[..|events|] == events;
    }
  }

  /** What the runner does: process a request, or retry an alert. */
  datatype Event =
    | Updated(update: Update, alertSent: bool, alertFate: Fate)
    | Retried(source: RequestId, target: string, sent: bool, fate: Fate)

  ghost predicate FreshIds(events: seq<Event>) {
    forall i, j :: 0 <= i < j < |events| && events[i].Updated? && events[j].Updated? ==>
      events[i].update.id != events[j].update.id
  }

  ghost predicate UpdatedIn(events: seq<Event>, id: RequestId) {
    exists i :: 0 <= i < |events| && events[i].Updated? && events[i].update.id == id
  }

  /** The update of the request wrote a success and then its roll-back. */
  ghost predicate TookBack(events: seq<Event>, id: RequestId) {
    exists i :: 0 <= i < |events| && TakesBack(events[i], id)
  }

  predicate TakesBack(e: Event, id: RequestId) {
    e.Updated? && e.update.id == id && SuccessTakenBack(e.update)
  }

  lemma EventsGrow(events: seq<Event>, i: nat)
    requires i < |events|
    ensures forall id :: TookBack(events[..i + 1], id) <==> TookBack(events[..i], id) || TakesBack(events[i], id)
    ensures forall id :: UpdatedIn(events[..i + 1], id)
                    <==> UpdatedIn(events[..i], id) || (events[i].Updated? && events[i].update.id == id)
  {
    var less, more := events[..i], events[..i + 1];
    assert more[i] == events[i] && forall k :: 0 <= k < i ==> more[k] == less[k];
    forall id ensures TookBack(more, id) <==> TookBack(less, id) || TakesBack(events[i], id) {
      if TookBack(less, id) {
        var k :| 0 <= k < |less| && TakesBack(less[k], id);
        assert TakesBack(more[k], id);
      }
      if TakesBack(events[i], id) { assert TakesBack(more[i], id); }
    }
    forall id ensures UpdatedIn(less, id) || (events[i].Updated? && events[i].update.id == id) ==> UpdatedIn(more, id) {
      if UpdatedIn(less, id) {
        var k :| 0 <= k < |less| && less[k].Updated? && less[k].update.id == id;
        assert more[k].update.id == id;
      }
    }
  }

  lemma FreshAt(events: seq<Event>, i: nat)
    requires FreshIds(events) && i < |events| && events[i].Updated?
    ensures !UpdatedIn(events[..i], events[i].update.id) && !TookBack(events[..i], events[i].update.id)
  {
  }

  /** Lines added for one request add no other request. */
  lemma LatestOfLonger(before: seq<Entry>, after: seq<Entry>, id: RequestId, added: RequestId)
    requires before <= after && forall i :: |before| <= i < |after| ==> after[i].id == added
    ensures Latest(after, id).Some? ==> Latest(before, id).Some? || id == added
  {
    LatestIs(after, id);
    LatestIs(before, id);
  }

  function AlertAppends(lines: seq<Entry>, id: RequestId, target: string, sent: bool, fate: Fate): seq<Entry> {
    var found := Latest(lines, id);
    if found.Some? && found.value.status == RollbackFailed && found.value.target == target
    then Keep(WithAlert(found.value, sent), fate) else []
  }

  lemma AlertKeepsLifecycle(lines: seq<Entry>, full: seq<Entry>, id: RequestId, target: string, sent: bool, fate: Fate)
    requires TailOf(lines, full)
    ensures var es := AlertAppends(lines, id, target, sent, fate);
            && (forall other :: other != id ==> (Lifecycle(full + es, other) <==> Lifecycle(full, other)))
            && (Latest(lines, id).Some? && Latest(lines, id).value.alert in {Pending, RequestFailed} ==>
                  (Lifecycle(full + es, id) <==> Lifecycle(full, id)))
  {
    var es := AlertAppends(lines, id, target, sent, fate);
    LatestHasId(lines, id);
    TailIsNeverStale(lines, full, id);
    forall other | other != id ensures Lifecycle(full + es, other) <==> Lifecycle(full, other) {
      OthersUntouched(full, es, other);
    }
    if es == [] {
      assert full + es == full;
    } else if Latest(lines, id).value.alert in {Pending, RequestFailed} {
      if Lifecycle(full, id) { AppendKeepsLifecycle(full, es[0], id); }
      if Lifecycle(full + es, id) { LifecycleOfPrefix(full, es, id); }
    }
  }

  function WithAlert(e: Entry, sent: bool): Entry {
    e.(alert := if sent then Requested else RequestFailed)
  }

  lemma LatestAtEnd(lines: seq<Entry>, full: seq<Entry>, id: RequestId)
    requires TailOf(lines, full) && lines != [] && full[|full| - 1].id == id
    ensures Latest(lines, id) == Some(full[|full| - 1])
  {
    assert lines[|lines| - 1] == full[|full| - 1];
  }

  lemma {:induction false} LatestHasId(lines: seq<Entry>, id: RequestId)
    ensures Latest(lines, id).Some? ==> Latest(lines, id).value.id == id
  {
    if lines != [] && lines[|lines| - 1].id != id {
      LatestHasId(lines[..|lines| - 1], id);
    }
  }

  // --------------------------------------------------------- writer against reader

  const MAX_READ_MESSAGE: nat := 500
  const MAX_READ_CHECKS: nat := 10
  const MAX_READ_CHECK_TEXT: nat := 300
  const MAX_READ_BACKUP: nat := 500

  /** The dashboard's reader keeps the record. */
  predicate Accepts(e: Entry) {
    && e.message <= MAX_READ_MESSAGE
    && (e.backup.Some? ==> e.backup.value <= MAX_READ_BACKUP)
    && |e.checks| <= MAX_READ_CHECKS
    && (forall i :: 0 <= i < |e.checks| ==> e.checks[i] <= MAX_READ_CHECK_TEXT)
    && (e.status != RollbackFailed ==> e.alert == NotNeeded)
  }

  predicate Short(texts: seq<nat>) { forall i :: 0 <= i < |texts| ==> texts[i] <= MAX_READ_CHECK_TEXT }

  /** No recreation audit failed with a long error, and every check is short. */
  predicate ReadableValidation(v: Validation) {
    (v.audit.NotRecorded? ==> v.audit.text <= 278) && Short(v.runtime)
  }

  predicate ReadableCause(c: Cause) { c.NotValid? ==> ReadableValidation(c.validation) }

  /** The roll-back reached its own validation. */
  predicate RecoveryValidated(r: Recovery) { r.Back? || r.cause.NotValid? }

  function RecoveryValidation(r: Recovery): Validation
    requires RecoveryValidated(r)
  {
    if r.Back? then r.validation else r.cause.validation
  }

  /** Room for both errors in the message: 500 characters less the wording. */
  predicate MessageFits(u: Update) {
    u.recovery.NotBack? ==> CauseText(u.recovery.cause) + CauseText(UpdateCause(u)) <= 468
  }

  lemma ShortJoin(a: seq<nat>, b: seq<nat>)
    ensures Short(a + b) <==> Short(a) && Short(b)
  {
    assert forall i :: 0 <= i < |a| ==> (a + b)[i] == a[i];
    assert forall i :: 0 <= i < |b| ==> (a + b)[|a| + i] == b[i];
  }

  lemma ShortChecks(v: Validation)
    ensures Short(ChecksOf(v)) <==> ReadableValidation(v)
  {
    ShortJoin([AuditText(v.audit)], v.runtime);
    assert Short([AuditText(v.audit)]) <==> [AuditText(v.audit)][0] <= MAX_READ_CHECK_TEXT;
  }

  /** A roll-back record is kept by the reader exactly when the update did not
      fail its validation before a roll-back that was validated too, the two
      errors fit into the message, and neither a single check nor the name of
      the backup directory is too long. */
  lemma ReaderKeepsRollbackExactlyWhen(u: Update)
    ensures Accepts(RollbackEntry(u)) <==>
              && !(UpdateCause(u).NotValid? && RecoveryValidated(u.recovery))
              && MessageFits(u)
              && ReadableCause(UpdateCause(u))
              && (RecoveryValidated(u.recovery) ==> ReadableValidation(RecoveryValidation(u.recovery)))
              && (u.noteFails.Some? ==> u.noteFails.value <= 284)
              && u.backup <= MAX_READ_BACKUP
  {
    var e := RollbackEntry(u);
    var cause, back, note := CauseChecks(UpdateCause(u)), RollbackChecks(u.recovery), [NoteText(u)];
    assert Short(e.checks) <==> Short(cause) && Short(back) && Short(note) by {
      ShortJoin(cause + back, note);
      ShortJoin(cause, back);
    }
    assert Short(note) <==> note[0] <= MAX_READ_CHECK_TEXT;
    if UpdateCause(u).NotValid? { ShortChecks(UpdateCause(u).validation); }
    if RecoveryValidated(u.recovery) { ShortChecks(RecoveryValidation(u.recovery)); }
    assert |e.checks| == |cause| + |back| + 1;
  }

  /** Of the other records only long checks or a long backup path are refused. */
  lemma ReaderKeepsOthersExactlyWhen(u: Update, e: Entry)
    requires e in ProcessAppends(u) && e != RollbackEntry(u)
    ensures Accepts(e) <==>
              && (e.backup.Some? ==> u.backup <= MAX_READ_BACKUP)
              && (u.course.AlreadyApplied? ==> Short(u.course.runtime))
              && (u.course.Applied? && e.status == Succeeded ==> ReadableValidation(u.course.validation))
  {
    if u.course.Applied? { ShortChecks(u.course.validation); }
  }

  /** A validated update whose success record cannot be appended: its checks are
      gone, so the record of the validated roll-back is kept. */
  lemma LostSuccessIsReadable(u: Update)
    requires u.course.Applied? && RollsBack(u) && u.recovery.Back? && u.noteFails.None?
    requires ReadableValidation(u.recovery.validation) && u.backup <= MAX_READ_BACKUP
    ensures Accepts(RollbackEntry(u))
  {
    ReaderKeepsRollbackExactlyWhen(u);
  }

  /** Two long errors: a record without a single runtime check is dropped. */
  lemma LongErrorsAreDropped(u: Update)
    requires u.course == Broke(Error(MAX_ERROR_TEXT)) && u.recovery == NotBack(Error(MAX_ERROR_TEXT))
    ensures |RollbackEntry(u).checks| == 1 && !Accepts(RollbackEntry(u))
  {
  }
}
