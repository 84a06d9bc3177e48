/** Automatic retries of failed alert deliveries. Every delivery leaves a record;
    a retry leaves one that names the record it retried. Each run looks at the
    newest 200 alert records of the last day only. */
module AlertRetry {
  import opened Counters

  type LogId = nat
  type Time = int

  const LOOK_BACK: nat := 200
  const MAX_AUTO_RETRY_ATTEMPTS: nat := 3
  const MAX_RETRIES_PER_RUN: nat := 5

  datatype Category = Security | Change

  datatype Event = Delivered(category: Category) | Failed(category: Category) | OtherAlert

  datatype Trigger = Original | ManualRetry | AutomaticRetry

  /** Where the alert goes and what it is about. */
  datatype Source = Source(
    provider: string, event: string, action: string, resourceType: string,
    resourceId: string, resourceName: string, clientIp: Option<string>)

  datatype Log = Log(
    id: LogId, created: Time, event: Event, source: Source,
    trigger: Trigger, retryOf: Option<LogId>, attempt: nat, root: Option<LogId>)

  /** `build_retry_delivery_context` succeeds. */
  predicate Retryable(l: Log) {
    && l.event.Failed?
    && l.source.provider != "" && l.source.event != "" && l.source.action != ""
    && l.source.resourceType != "" && l.source.resourceId != "" && l.source.resourceName != ""
  }

  function RootOf(l: Log): LogId {
    if l.root.Some? then l.root.value else if l.retryOf.Some? then l.retryOf.value else l.id
  }

  /** The result of one delivery: the new record's id and time, and how it went. */
  datatype Result = Result(id: LogId, created: Time, success: bool)

  /** The record `retry_delivery` leaves. */
  function RetryRecord(l: Log, automatic: bool, r: Result): Log
    requires Retryable(l)
  {
    Log(r.id, r.created,
        if r.success then Delivered(l.event.category) else Failed(l.event.category),
        l.source,
        if automatic then AutomaticRetry else ManualRetry,
        Some(l.id),
        if automatic then l.attempt + 1 else 0,
        if automatic then Some(RootOf(l)) else None)
  }

  // ------------------------------------------------------------------- selection

  function RetriedIds(logs: seq<Log>): set<LogId> {
    if logs == [] then {} else
      RetriedIds(logs[..|logs| - 1])
      + if logs[|logs| - 1].retryOf.Some? then {logs[|logs| - 1].retryOf.value} else {}
  }

  predicate Candidate(l: Log, retried: set<LogId>) {
    Retryable(l) && l.id !in retried && l.attempt < MAX_AUTO_RETRY_ATTEMPTS
  }

  function Candidates(logs: seq<Log>, retried: set<LogId>): (c: seq<Log>)
    ensures forall i :: 0 <= i < |c| ==> c[i] in logs && Candidate(c[i], retried)
  {
    if logs == [] then [] else
      Candidates(logs[..|logs| - 1], retried)
      + if Candidate(logs[|logs| - 1], retried) then [logs[|logs| - 1]] else []
  }

  function Selected(logs: seq<Log>): seq<Log> {
    var c := Candidates(logs, RetriedIds(logs));
    if |c| <= MAX_RETRIES_PER_RUN then c else c[..MAX_RETRIES_PER_RUN]
  }

  /** Record `i` of the look-back failed, has everything a delivery needs, is not
      retried by any record shown, and has fewer than three automatic retries
      behind it. */
  ghost predicate Due(logs: seq<Log>, i: int) {
    && 0 <= i < |logs| && logs[i].event.Failed? && logs[i].attempt < 3
    && logs[i].source.provider != "" && logs[i].source.event != "" && logs[i].source.action != ""
    && logs[i].source.resourceType != "" && logs[i].source.resourceId != "" && logs[i].source.resourceName != ""
    && forall j :: 0 <= j < |logs| ==> logs[j].retryOf != Some(logs[i].id)
  }

  /** The records at the places `at`: due ones, in the order of the look-back, at
      most five; a due record that is not among them comes after five that are. */
  ghost predicate FirstDue(selected: seq<Log>, logs: seq<Log>, at: seq<int>) {
    && |selected| == |at| <= 5
    && (forall k, l :: 0 <= k < l < |at| ==> at[k] < at[l])
    && (forall k :: 0 <= k < |at| ==> Due(logs, at[k]) && selected[k] == logs[at[k]])
    && (forall i :: Due(logs, i) ==> i in at || (|at| == 5 && forall k :: 0 <= k < |at| ==> at[k] < i))
  }

  lemma {:induction false} RetriedIdsAre(logs: seq<Log>, id: LogId)
    ensures id in RetriedIds(logs) <==> exists j :: 0 <= j < |logs| && logs[j].retryOf == Some(id)
  {
    if logs != [] {
      var init := logs[..|logs| - 1];
      RetriedIdsAre(init, id);
      assert forall j :: 0 <= j < |init| ==> init[j] == logs[j];
    }
  }

  lemma DueIsCandidate(logs: seq<Log>, i: nat)
    requires i < |logs|
    ensures Candidate(logs[i], RetriedIds(logs)) <==> Due(logs, i)
  {
    RetriedIdsAre(logs, logs[i].id);
  }

  /** Where the candidates stand. */
  lemma {:induction false} CandidatesAt(logs: seq<Log>, retried: set<LogId>) returns (at: seq<int>)
    ensures |at| == |Candidates(logs, retried)|
    ensures forall k, l :: 0 <= k < l < |at| ==> at[k] < at[l]
    ensures forall k :: 0 <= k < |at| ==> 0 <= at[k] < |logs| && Candidates(logs, retried)[k] == logs[at[k]]
    ensures forall i :: 0 <= i < |logs| ==> (i in at <==> Candidate(logs[i], retried))
  {
    at := [];
    if logs != [] {
      var init := logs[..|logs| - 1];
      var before := CandidatesAt(init, retried);
      assert forall i :: 0 <= i < |init| ==> init[i] == logs[i];
      at := if Candidate(logs[|logs| - 1], retried) then before + [|logs| - 1] else before;
    }
  }

  lemma SelectedAreFirstDue(logs: seq<Log>) returns (at: seq<int>)
    ensures FirstDue(Selected(logs), logs, at)
  {
    var all := CandidatesAt(logs, RetriedIds(logs));
    at := if |all| <= MAX_RETRIES_PER_RUN then all else all[..MAX_RETRIES_PER_RUN];
    assert forall k :: 0 <= k < |at| ==> at[k] == all[k];
    forall i | 0 <= i < |logs| ensures i in all <==> Due(logs, i) { DueIsCandidate(logs, i); }
    forall i | Due(logs, i) && i !in at ensures |at| == 5 && forall k :: 0 <= k < |at| ==> at[k] < i {
      var l :| 0 <= l < |all| && all[l] == i;
    }
  }

  method SelectAutoRetryCandidates(logs: seq<Log>) returns (selected: seq<Log>, ghost at: seq<int>)
    ensures selected == Selected(logs)
    ensures FirstDue(selected, logs, at)
  {
    var retried: set<LogId> := {};
    for i := 0 to |logs|
      invariant retried == RetriedIds(logs[..i])
    {
      assert logs[..i + 1][..i] == logs[..i];
      if logs[i].retryOf.Some? {
        retried := retried + {logs[i].retryOf.value};
      }
    }
    assert logs[..|logs|] == logs;
    var candidates: seq<Log> := [];
    for i := 0 to |logs|
      invariant candidates == Candidates(logs[..i], retried)
    {
      assert logs[..i + 1][..i] == logs[..i];
      if logs[i].event.Failed? && logs[i].id !in retried && Retryable(logs[i])
         && logs[i].attempt < MAX_AUTO_RETRY_ATTEMPTS {
        candidates := candidates + [logs[i]];
      }
    }
    assert logs[..|logs|] == logs;
    selected := if |candidates| <= MAX_RETRIES_PER_RUN then candidates else candidates[..MAX_RETRIES_PER_RUN];
    at := SelectedAreFirstDue(logs);
  }

  /** A possible answer to "the newest 200 alerts since `cutoff`"; records with
      equal times may come in any order. */
  ghost predicate IsLookBack(all: seq<Log>, cutoff: Time, logs: seq<Log>) {
    && |logs| <= LOOK_BACK
    && (forall i, j :: 0 <= i < j < |logs| ==> logs[i].id != logs[j].id && logs[i].created >= logs[j].created)
    && (forall i :: 0 <= i < |logs| ==> logs[i] in all && logs[i].created >= cutoff)
    && (forall x :: x in all && x.created >= cutoff && x !in logs ==>
          |logs| == LOOK_BACK && forall i :: 0 <= i < |logs| ==> logs[i].created >= x.created)
  }

  // ----------------------------------------------------------------------- runs

  function RetryAll(all: seq<Log>, candidates: seq<Log>, results: seq<Result>): seq<Log>
    requires |results| <= |candidates|
    requires forall i :: 0 <= i < |candidates| ==> Retryable(candidates[i])
  {
    if results == [] then all else
      var k := |results| - 1;
      RetryAll(all, candidates, results[..k]) + [RetryRecord(candidates[k], true, results[k])]
  }

  lemma SelectedRetryable(logs: seq<Log>)
    ensures forall i :: 0 <= i < |Selected(logs)| ==>
              && Selected(logs)[i] in logs && Candidate(Selected(logs)[i], RetriedIds(logs))
  {
  }

  class AlertTable {
    var all: seq<Log>

    constructor ()
      ensures all == []
    {
      all := [];
    }

    /** `retry_failed_deliveries_once`: `results` holds one result per delivery
        made, fewer than selected if a delivery raised. */
    method RetryOnce(logs: seq<Log>, results: seq<Result>) returns (count: nat)
      requires |results| <= |Selected(logs)|
      modifies this
      ensures forall i :: 0 <= i < |Selected(logs)| ==> Retryable(Selected(logs)[i])
      ensures all == RetryAll(old(all), Selected(logs), results)
      ensures count == |Selected(logs)| <= MAX_RETRIES_PER_RUN
    {
      SelectedRetryable(logs);
      var candidates, at := SelectAutoRetryCandidates(logs);
      ghost var before := all;
      for i := 0 to |results|
        invariant all == RetryAll(before, candidates, results[..i])
      {
        assert results[..i + 1][..i] == results[..i];
        all := all + [RetryRecord(candidates[i], true, results[i])];
      }
      assert results[..|results|] == results;
      count := |candidates|;
    }
  }

  datatype Action =
    | Outside(log: Log)
    | Manual(of: Log, result: Result)
    | Automatic(cutoff: Time, logs: seq<Log>, results: seq<Result>)

  ghost predicate NewId(all: seq<Log>, id: LogId) {
    forall i :: 0 <= i < |all| ==> all[i].id != id
  }

  /** Ids are never reused and a retry is stored later than what it retries. */
  ghost predicate Enabled(all: seq<Log>, a: Action) {
    match a
    case Outside(l) =>
      NewId(all, l.id) && l.trigger == Original && l.retryOf.None? && l.attempt == 0 && l.root.None?
    case Manual(of, r) => of in all && Retryable(of) && NewId(all, r.id) && of.created < r.created
    case Automatic(cutoff, logs, results) =>
      && IsLookBack(all, cutoff, logs)
      && |results| <= |Selected(logs)|
      && (forall i :: 0 <= i < |results| ==> NewId(all, results[i].id) && Selected(logs)[i].created < results[i].created)
      && (forall i, j :: 0 <= i < j < |results| ==> results[i].id != results[j].id)
  }

  ghost function Apply(all: seq<Log>, a: Action): seq<Log>
    requires Enabled(all, a)
  {
    match a
    case Outside(l) => all + [l]
    case Manual(of, r) => all + [RetryRecord(of, false, r)]
    case Automatic(_, logs, results) =>
      SelectedRetryable(logs);
      RetryAll(all, Selected(logs), results)
  }

  // ------------------------------------------------------------------ the invariant

  ghost predicate UniqueIds(all: seq<Log>) {
    forall i, j :: 0 <= i < j < |all| ==> all[i].id != all[j].id
  }

  /** A retry record names an earlier, failed record and repeats its source. */
  ghost predicate Continues(child: Log, parent: Log) {
    && child.retryOf == Some(parent.id) && parent.created < child.created
    && parent.event.Failed?
    && child.source == parent.source
    && child.event in {Delivered(parent.event.category), Failed(parent.event.category)}
    && (child.trigger == AutomaticRetry ==>
          && child.attempt == parent.attempt + 1 <= MAX_AUTO_RETRY_ATTEMPTS
          && child.root == Some(RootOf(parent)))
    && (child.trigger != AutomaticRetry ==> child.attempt == 0 && child.root.None?)
  }

  ghost predicate Linked(all: seq<Log>) {
    forall j :: 0 <= j < |all| ==>
      && (all[j].retryOf.None? ==> all[j].trigger == Original && all[j].attempt == 0 && all[j].root.None?)
      && (all[j].retryOf.Some? ==> HasParent(all, j))
  }

  ghost predicate HasParent(all: seq<Log>, j: nat)
    requires j < |all|
  {
    exists i :: 0 <= i < j && Continues(all[j], all[i])
  }

  /** An automatic retry is the first retry of its record. */
  ghost predicate AutomaticFirst(all: seq<Log>) {
    forall i, j :: 0 <= i < j < |all| && all[i].retryOf.Some? && all[i].retryOf == all[j].retryOf ==>
      all[j].trigger != AutomaticRetry
  }

  ghost predicate Inv(all: seq<Log>) { UniqueIds(all) && Linked(all) && AutomaticFirst(all) }

  ghost predicate NotRetried(all: seq<Log>, id: LogId) {
    forall i :: 0 <= i < |all| ==> all[i].retryOf != Some(id)
  }

  lemma AppendKeepsInv(all: seq<Log>, l: Log)
    requires Inv(all) && NewId(all, l.id)
    requires l.retryOf.None? ==> l.trigger == Original && l.attempt == 0 && l.root.None?
    requires l.retryOf.Some? ==> exists p :: p in all && Continues(l, p)
    requires l.trigger == AutomaticRetry ==> l.retryOf.Some? && NotRetried(all, l.retryOf.value)
    ensures Inv(all + [l])
  {
    AppendKeepsLinked(all, l);
  }

  lemma AppendKeepsLinked(all: seq<Log>, l: Log)
    requires Linked(all)
    requires l.retryOf.None? ==> l.trigger == Original && l.attempt == 0 && l.root.None?
    requires l.retryOf.Some? ==> exists p :: p in all && Continues(l, p)
    ensures Linked(all + [l])
  {
    var next := all + [l];
    forall j | 0 <= j < |next| && next[j].retryOf.Some? ensures HasParent(next, j) {
      if j < |all| {
        assert HasParent(all, j);
        var i :| 0 <= i < j && Continues(all[j], all[i]);
        assert Continues(next[j], next[i]);
      } else {
        var p :| p in all && Continues(l, p);
        var i :| 0 <= i < |all| && all[i] == p;
        assert Continues(next[j], next[i]);
      }
    }
  }

  /** The truncated look-back suffices: a record it shows that was ever retried
      is shown together with its retry. */
  lemma LookBackShowsRetries(all: seq<Log>, cutoff: Time, logs: seq<Log>, l: Log)
    requires Inv(all) && IsLookBack(all, cutoff, logs) && l in logs && l.id !in RetriedIds(logs)
    ensures NotRetried(all, l.id)
  {
    forall j | 0 <= j < |all| ensures all[j].retryOf != Some(l.id) {
      if all[j].retryOf == Some(l.id) {
        RetryIsLater(all, j, l);
        var k :| 0 <= k < |logs| && logs[k] == l;
        assert all[j] in all;
        RetryShown(all, cutoff, logs, all[j], k);
        RetriedIdsAre(logs, l.id);
        assert false;
      }
    }
  }

  lemma RetryIsLater(all: seq<Log>, j: nat, l: Log)
    requires Inv(all) && j < |all| && l in all && all[j].retryOf == Some(l.id)
    ensures l.created < all[j].created
  {
    assert HasParent(all, j);
    var i :| 0 <= i < j && Continues(all[j], all[i]);
    var k :| 0 <= k < |all| && all[k] == l;
    SameId(all, i, k);
  }

  lemma SameId(all: seq<Log>, i: nat, k: nat)
    requires UniqueIds(all) && i < |all| && k < |all| && all[i].id == all[k].id
    ensures i == k
  {
  }

  lemma RetryShown(all: seq<Log>, cutoff: Time, logs: seq<Log>, r: Log, k: nat)
    requires IsLookBack(all, cutoff, logs) && k < |logs| && r in all && logs[k].created < r.created
    ensures r in logs
  {
  }

  lemma {:induction false} CandidatesDistinct(logs: seq<Log>, retried: set<LogId>)
    requires forall i, j :: 0 <= i < j < |logs| ==> logs[i].id != logs[j].id
    ensures forall i, j :: 0 <= i < j < |Candidates(logs, retried)| ==>
              Candidates(logs, retried)[i].id != Candidates(logs, retried)[j].id
  {
    if logs != [] {
      var init, l := logs[..|logs| - 1], logs[|logs| - 1];
      CandidatesDistinct(init, retried);
      var c := Candidates(init, retried);
      forall i | 0 <= i < |c| ensures c[i].id != l.id {
        assert c[i] in init;
        var k :| 0 <= k < |init| && init[k] == c[i];
        assert logs[k].id != logs[|logs| - 1].id;
      }
    }
  }

  /** What is known of the records still to be retried in a run. */
  ghost predicate Pending(all: seq<Log>, candidates: seq<Log>, from: nat) {
    && (forall i, j :: 0 <= i < j < |candidates| ==> candidates[i].id != candidates[j].id)
    && (forall i :: 0 <= i < |candidates| ==>
          candidates[i] in all && Retryable(candidates[i]) && candidates[i].attempt < MAX_AUTO_RETRY_ATTEMPTS)
    && (forall i :: from <= i < |candidates| ==> NotRetried(all, candidates[i].id))
  }

  lemma RetryStepKeepsInv(all: seq<Log>, candidates: seq<Log>, k: nat, r: Result)
    requires Inv(all) && k < |candidates| && Pending(all, candidates, k)
    requires NewId(all, r.id) && candidates[k].created < r.created
    ensures var next := all + [RetryRecord(candidates[k], true, r)];
            Inv(next) && Pending(next, candidates, k + 1)
  {
    var l := RetryRecord(candidates[k], true, r);
    assert Continues(l, candidates[k]);
    AppendKeepsInv(all, l);
  }

  lemma {:induction false} RetryAllAppends(all: seq<Log>, candidates: seq<Log>, results: seq<Result>)
    requires |results| <= |candidates|
    requires forall i :: 0 <= i < |candidates| ==> Retryable(candidates[i])
    ensures var next := RetryAll(all, candidates, results);
            && |next| == |all| + |results|
            && (forall i :: 0 <= i < |all| ==> next[i] == all[i])
            && (forall i :: 0 <= i < |results| ==> next[|all| + i] == RetryRecord(candidates[i], true, results[i]))
  {
    if results != [] {
      RetryAllAppends(all, candidates, results[..|results| - 1]);
    }
  }

  lemma {:induction false} RetryAllKeepsInv(all: seq<Log>, candidates: seq<Log>, results: seq<Result>)
    requires Inv(all) && |results| <= |candidates| && Pending(all, candidates, 0)
    requires forall i :: 0 <= i < |results| ==>
               NewId(all, results[i].id) && candidates[i].created < results[i].created
    requires forall i, j :: 0 <= i < j < |results| ==> results[i].id != results[j].id
    ensures var next := RetryAll(all, candidates, results);
            Inv(next) && Pending(next, candidates, |results|)
  {
    if results != [] {
      var k := |results| - 1;
      RetryAllKeepsInv(all, candidates, results[..k]);
      var before := RetryAll(all, candidates, results[..k]);
      NewIdStays(all, before, candidates, results, k);
      RetryStepKeepsInv(before, candidates, k, results[k]);
    }
  }

  lemma NewIdStays(all: seq<Log>, before: seq<Log>, candidates: seq<Log>, results: seq<Result>, k: nat)
    requires k < |results| <= |candidates|
    requires forall i :: 0 <= i < |candidates| ==> Retryable(candidates[i])
    requires before == RetryAll(all, candidates, results[..k])
    requires NewId(all, results[k].id)
    requires forall i, j :: 0 <= i < j < |results| ==> results[i].id != results[j].id
    ensures NewId(before, results[k].id)
  {
    RetryAllAppends(all, candidates, results[..k]);
    forall i | 0 <= i < |before| ensures before[i].id != results[k].id {
      if i >= |all| { assert before[|all| + (i - |all|)].id == results[..k][i - |all|].id == results[i - |all|].id; }
    }
  }

  lemma StepKeepsInv(all: seq<Log>, a: Action)
    requires Inv(all) && Enabled(all, a)
    ensures Inv(Apply(all, a))
  {
    match a
    case Outside(l) => AppendKeepsInv(all, l);
    case Manual(of, r) =>
      assert Continues(RetryRecord(of, false, r), of);
      AppendKeepsInv(all, RetryRecord(of, false, r));
    case Automatic(cutoff, logs, results) =>
      SelectedArePending(all, cutoff, logs);
      RetryAllKeepsInv(all, Selected(logs), results);
  }

  lemma SelectedArePending(all: seq<Log>, cutoff: Time, logs: seq<Log>)
    requires Inv(all) && IsLookBack(all, cutoff, logs)
    ensures Pending(all, Selected(logs), 0)
  {
    SelectedRetryable(logs);
    CandidatesDistinct(logs, RetriedIds(logs));
    var chosen := Selected(logs);
    forall i | 0 <= i < |chosen| ensures chosen[i] in all && NotRetried(all, chosen[i].id) {
      LookBackShowsRetries(all, cutoff, logs, chosen[i]);
      var k :| 0 <= k < |logs| && logs[k] == chosen[i];
    }
  }

  /** A run in which no delivery raises retries every due record that fewer than
      five due ones precede, once more and in the same chain. */
  lemma DueIsRetried(all: seq<Log>, cutoff: Time, logs: seq<Log>, results: seq<Result>, i: nat, earlier: set<int>)
    returns (j: nat)
    requires Enabled(all, Automatic(cutoff, logs, results)) && |results| == |Selected(logs)|
    requires Due(logs, i) && (forall k :: k in earlier <==> Due(logs, k) && k < i) && |earlier| < 5
    ensures var next := Apply(all, Automatic(cutoff, logs, results));
            && |all| <= j < |next| && next[j].retryOf == Some(logs[i].id) && next[j].trigger == AutomaticRetry
            && next[j].attempt == logs[i].attempt + 1 && next[j].source == logs[i].source
            && (next[j].event == Delivered(logs[i].event.category) || next[j].event == Failed(logs[i].event.category))
  {
    SelectedRetryable(logs);
    j := RetriedAt(all, logs, results, i, earlier);
  }

  lemma RetriedAt(all: seq<Log>, logs: seq<Log>, results: seq<Result>, i: nat, earlier: set<int>) returns (j: nat)
    requires |results| == |Selected(logs)|
    requires Due(logs, i) && (forall k :: k in earlier <==> Due(logs, k) && k < i) && |earlier| < 5
    requires forall k :: 0 <= k < |Selected(logs)| ==> Retryable(Selected(logs)[k])
    ensures var next := RetryAll(all, Selected(logs), results);
            && |all| <= j < |next| && next[j].retryOf == Some(logs[i].id) && next[j].trigger == AutomaticRetry
            && next[j].attempt == logs[i].attempt + 1 && next[j].source == logs[i].source
            && (next[j].event == Delivered(logs[i].event.category) || next[j].event == Failed(logs[i].event.category))
  {
    var k := DueIsSelected(logs, i, earlier);
    RetryAllAppends(all, Selected(logs), results);
    j := |all| + k;
  }

  lemma DueIsSelected(logs: seq<Log>, i: nat, earlier: set<int>) returns (k: nat)
    requires Due(logs, i) && (forall k :: k in earlier <==> Due(logs, k) && k < i) && |earlier| < 5
    ensures k < |Selected(logs)| && Selected(logs)[k] == logs[i]
  {
    var at := SelectedAreFirstDue(logs);
    if i !in at {
      FiveAtMost(at, earlier);
    }
    k :| 0 <= k < |at| && at[k] == i;
  }

  lemma {:induction false} FiveAtMost(at: seq<int>, earlier: set<int>)
    requires forall k, l :: 0 <= k < l < |at| ==> at[k] < at[l]
    requires forall k :: 0 <= k < |at| ==> at[k] in earlier
    ensures |at| <= |earlier|
  {
    if at != [] {
      FiveAtMost(at[1..], earlier - {at[0]});
    }
  }

  ghost predicate Possible(actions: seq<Action>)
    decreases |actions|, 0
  {
    actions != [] ==>
      Possible(actions[..|actions| - 1]) && Enabled(After(actions[..|actions| - 1]), actions[|actions| - 1])
  }

  ghost function After(actions: seq<Action>): seq<Log>
    requires Possible(actions)
    decreases |actions|, 1
  {
    if actions == [] then [] else Apply(After(actions[..|actions| - 1]), actions[|actions| - 1])
  }

  lemma {:induction false} InvAlways(actions: seq<Action>)
    requires Possible(actions)
    ensures Inv(After(actions))
  {
    if actions != [] {
      InvAlways(actions[..|actions| - 1]);
      StepKeepsInv(After(actions[..|actions| - 1]), actions[|actions| - 1]);
    }
  }

  /** In every run each failure is retried automatically at most once, and
      never after any other retry of it. */
  lemma RetriedAutomaticallyAtMostOnce(actions: seq<Action>, i: nat, j: nat)
    requires Possible(actions) && i < j < |After(actions)|
    requires After(actions)[i].retryOf.Some? && After(actions)[i].retryOf == After(actions)[j].retryOf
    ensures After(actions)[j].trigger != AutomaticRetry
  {
    InvAlways(actions);
  }

  /** How many automatic retries lead up to a record without a break. */
  ghost function ChainLength(all: seq<Log>, j: nat): nat
    requires Inv(all) && j < |all|
    decreases j
  {
    if all[j].trigger != AutomaticRetry then 0
    else
      assert all[j].retryOf.Some? by { AutomaticHasParent(all, j); }
      assert HasParent(all, j);
      var i :| 0 <= i < j && Continues(all[j], all[i]);
      1 + ChainLength(all, i)
  }

  lemma AutomaticHasParent(all: seq<Log>, j: nat)
    requires Inv(all) && j < |all| && all[j].trigger == AutomaticRetry
    ensures all[j].retryOf.Some? && HasParent(all, j)
  {
  }

  lemma {:induction false} ChainLengthIsAttempt(all: seq<Log>, j: nat)
    requires Inv(all) && j < |all|
    ensures ChainLength(all, j) == all[j].attempt
    decreases j
  {
    if all[j].trigger == AutomaticRetry {
      AutomaticHasParent(all, j);
      var i :| 0 <= i < j && Continues(all[j], all[i]) && ChainLength(all, j) == 1 + ChainLength(all, i);
      ChainLengthIsAttempt(all, i);
    } else if all[j].retryOf.Some? {
      assert HasParent(all, j);
    }
  }

  /** No unbroken chain of automatic retries is longer than three. */
  lemma ChainsAreShort(actions: seq<Action>, j: nat)
    requires Possible(actions) && j < |After(actions)|
    ensures Inv(After(actions)) && ChainLength(After(actions), j) <= MAX_AUTO_RETRY_ATTEMPTS
  {
    InvAlways(actions);
    var all := After(actions);
    ChainLengthIsAttempt(all, j);
    if all[j].trigger == AutomaticRetry { AutomaticHasParent(all, j); }
  }

  /** The record an automatic chain started from. */
  ghost function ChainStart(all: seq<Log>, j: nat): (i: nat)
    requires Inv(all) && j < |all|
    ensures i <= j && all[i].trigger != AutomaticRetry
    decreases j
  {
    if all[j].trigger != AutomaticRetry then j
    else
      AutomaticHasParent(all, j);
      var i :| 0 <= i < j && Continues(all[j], all[i]);
      ChainStart(all, i)
  }

  /** Along an automatic chain the destination, the category, the alert and the
      root id stay what they were at its start. */
  lemma {:induction false} ChainKeepsItsSource(all: seq<Log>, j: nat)
    requires Inv(all) && j < |all|
    ensures var start := all[ChainStart(all, j)];
            && all[j].source == start.source
            && (all[j].trigger == AutomaticRetry ==>
                  && all[j].root == Some(if start.retryOf.Some? then start.retryOf.value else start.id)
                  && start.event.Failed?
                  && all[j].event in {Delivered(start.event.category), Failed(start.event.category)})
    decreases j
  {
    if all[j].trigger == AutomaticRetry {
      AutomaticHasParent(all, j);
      var i :| 0 <= i < j && Continues(all[j], all[i]) && ChainStart(all, j) == ChainStart(all, i);
      ChainKeepsItsSource(all, i);
    }
  }
}
