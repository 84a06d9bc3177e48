/** Whole runs of the poller: many overlapping reads of an append-only log give
    the same minute records as one pass over the log. */
module HistoryRun {
  import opened Counters
  import opened HistoryState

  // ---------------------------------------------------------------- one poll

  /** Docker's `since` filter: lines stamped at or after that second. */
  function Since(lines: seq<Line>, since: Option<Time>): seq<Line> {
    if lines == [] then [] else
      var l := lines[|lines| - 1];
      Since(lines[..|lines| - 1], since)
      + if since.None? || (l.at.Some? && since.value <= l.at.value) then [l] else []
  }

  /** Docker's `tail`: only the last lines are returned. */
  function Tail<T>(s: seq<T>, n: nat): seq<T> { if |s| <= n then s else s[|s| - n..] }

  /** `int(cursor_at.timestamp())`, for times after 1970. */
  function CursorSecond(s: Option<State>): Option<Time> {
    if s.None? || s.value.cursorAt.None? then None
    else Some(s.value.cursorAt.value - s.value.cursorAt.value % SECOND)
  }

  /** One collection: `visible` log lines exist when Docker answers.
      `cursorKnown` is false when reading the stored cursor failed and the log
      is requested from its beginning. `Missed` is a failed log request,
      `Unsaved` a failure before the new state file is moved into place. */
  datatype Poll =
    | Polled(visible: nat, cursorKnown: bool, checkedAt: Time)
    | Missed(checkedAt: Time)
    | Unsaved

  function ReadSlice(log: seq<Line>, tail: nat, saved: Option<State>, p: Poll): seq<Line>
    requires p.Polled? && p.visible <= |log|
  {
    Tail(Since(log[..p.visible], if p.cursorKnown then CursorSecond(saved) else None), tail)
  }

  function OrEmpty(saved: Option<State>): State {
    if saved.Some? then saved.value else EMPTY_STATE
  }

  function AfterPoll(log: seq<Line>, tail: nat, saved: Option<State>, p: Poll): Option<State>
    requires p.Polled? ==> p.visible <= |log|
  {
    match p
    case Polled(_, _, checkedAt) =>
      Some(Prune(Merge(OrEmpty(saved), ReadSlice(log, tail, saved, p), checkedAt), checkedAt))
    case Missed(checkedAt) =>
      if saved.None? then None else Some(Prune(saved.value, checkedAt))
    case Unsaved => saved
  }

  const MAX_HISTORY_BYTES: nat := 1024 * 1024

  /** The size of a state once it is serialised. */
  type StateSize = State -> nat

  /** The reader refuses the state file; the writer knows no such limit. */
  predicate TooLarge(size: StateSize, saved: Option<State>) {
    saved.Some? && size(saved.value) > MAX_HISTORY_BYTES
  }

  /** One collection, a state file over 1 MiB included: reading it raises. */
  function AfterCollect(size: StateSize, log: seq<Line>, tail: nat, saved: Option<State>, p: Poll): Option<State>
    requires p.Polled? ==> p.visible <= |log|
  {
    if TooLarge(size, saved) then saved else AfterPoll(log, tail, saved, p)
  }

  /** The locked read-modify-write of the state file. */
  class HistoryFile {
    const size: StateSize
    var saved: Option<State>

    constructor (size: StateSize)
      ensures this.size == size && saved == None
    {
      this.size, saved := size, None;
    }

    method Collect(log: seq<Line>, tail: nat, p: Poll)
      requires p.Polled? ==> p.visible <= |log|
      modifies this
      ensures saved == AfterCollect(size, log, tail, old(saved), p)
    {
      if p.Unsaved? || (saved.Some? && size(saved.value) > MAX_HISTORY_BYTES) {
        return;
      }
      if p.Missed? && saved.None? {
        return;
      }
      var state := new History(OrEmpty(saved));
      if p.Polled? {
        state.MergeLogEvents(ReadSlice(log, tail, saved, p), p.checkedAt);
      }
      state.PruneMinutes(p.checkedAt);
      saved := Some(State(state.cursorAt, state.cursorFingerprints, state.observedSince,
                          state.countedSince, state.minutes));
    }
  }

  // ------------------------------------------------------------------- runs

  ghost predicate Legal(log: seq<Line>, polls: seq<Poll>) {
    forall i :: 0 <= i < |polls| && polls[i].Polled? ==> polls[i].visible <= |log|
  }

  ghost function Run(log: seq<Line>, tail: nat, polls: seq<Poll>): Option<State>
    requires Legal(log, polls)
  {
    if polls == [] then None
    else AfterPoll(log, tail, Run(log, tail, polls[..|polls| - 1]), polls[|polls| - 1])
  }

  /** The number of log lines the saved state has taken in. */
  ghost function Seen(polls: seq<Poll>): nat {
    if polls == [] then 0 else
      var p := polls[|polls| - 1];
      if p.Polled? then p.visible else Seen(polls[..|polls| - 1])
  }

  /** The check time of the last step that saved a state. */
  ghost function LastCheck(polls: seq<Poll>): Option<Time> {
    if polls == [] then None else
      var p := polls[|polls| - 1];
      var before := LastCheck(polls[..|polls| - 1]);
      match p
      case Polled(_, _, checkedAt) => Some(checkedAt)
      case Missed(checkedAt) => if before.None? then None else Some(checkedAt)
      case Unsaved => before
  }

  /** An append-only log: every line stamped, stamps non-decreasing, no line
      twice, and at most 100 requests with the same stamp. */
  ghost predicate GoodLog(log: seq<Line>) {
    && (forall i :: 0 <= i < |log| ==> log[i].at.Some?)
    && (forall i, j :: 0 <= i < j < |log| ==> log[i].at.value <= log[j].at.value)
    && (forall i, j :: 0 <= i < j < |log| ==> log[i].fingerprint != log[j].fingerprint)
    && (forall t :: |FingerprintsAt(log, t)| <= MAX_CURSOR_FINGERPRINTS)
  }

  /** The log only grows, the clock never goes back, no line is stamped later
      than the check that reads it and no read is cut off by `tail`. */
  ghost predicate GoodRun(log: seq<Line>, tail: nat, polls: seq<Poll>)
    requires GoodLog(log)
  {
    && Legal(log, polls)
    && (polls != [] ==>
          var earlier, p := polls[..|polls| - 1], polls[|polls| - 1];
          && GoodRun(log, tail, earlier)
          && (!p.Unsaved? && LastCheck(earlier).Some? ==> LastCheck(earlier).value <= p.checkedAt)
          && (p.Polled? ==>
                && Seen(earlier) <= p.visible
                && (forall i :: 0 <= i < p.visible ==> log[i].at.value <= p.checkedAt)
                && |Since(log[..p.visible],
                          if p.cursorKnown then CursorSecond(Run(log, tail, earlier)) else None)| <= tail))
  }

  // ---------------------------------------------- the single pass it agrees with

  /** Everything the log holds, added once and in order. */
  function SinglePass(log: seq<Line>): map<Time, Minute> {
    RollUp(Tally(map[], None), log).minutes
  }

  /** The run agrees with a single pass over the lines taken in so far: same
      minutes, and in each of them the same totals, break-downs and capped keys. */
  lemma IncrementalEqualsSinglePass(log: seq<Line>, tail: nat, polls: seq<Poll>)
    requires GoodLog(log) && GoodRun(log, tail, polls)
    requires Run(log, tail, polls).Some?
    ensures LastCheck(polls).Some? && Seen(polls) <= |log|
    ensures Run(log, tail, polls).value.minutes
         == KeepFrom(SinglePass(log[..Seen(polls)]), LastCheck(polls).value - HISTORY_WINDOW)
  {
    RunInvariant(log, tail, polls);
  }

  ghost predicate CursorExact(s: State, log: seq<Line>, n: nat)
    requires GoodLog(log) && n <= |log|
  {
    && (if n == 0 then s.cursorAt == None else s.cursorAt == log[n - 1].at)
    && (n > 0 ==> forall f :: f in s.cursorFingerprints
                         <==> f in FingerprintsAt(log[..n], log[n - 1].at.value))
  }

  ghost predicate Agrees(saved: Option<State>, log: seq<Line>, n: nat, checked: Option<Time>)
    requires GoodLog(log) && n <= |log|
  {
    && saved.Some? == checked.Some?
    && (saved.None? ==> n == 0)
    && (saved.Some? ==>
          && CursorExact(saved.value, log, n)
          && saved.value.minutes == KeepFrom(SinglePass(log[..n]), checked.value - HISTORY_WINDOW))
  }

  lemma {:induction false} RunInvariant(log: seq<Line>, tail: nat, polls: seq<Poll>)
    requires GoodLog(log) && GoodRun(log, tail, polls)
    ensures Seen(polls) <= |log|
    ensures Agrees(Run(log, tail, polls), log, Seen(polls), LastCheck(polls))
  {
    if polls != [] {
      var earlier, p := polls[..|polls| - 1], polls[|polls| - 1];
      RunInvariant(log, tail, earlier);
      var saved := Run(log, tail, earlier);
      match p
      case Unsaved =>
      case Missed(c) =>
        if saved.Some? {
          KeepTwice(SinglePass(log[..Seen(earlier)]), LastCheck(earlier).value - HISTORY_WINDOW, c - HISTORY_WINDOW);
        }
      case Polled(n, known, c) =>
        PollKeepsAgreement(log, tail, saved, Seen(earlier), LastCheck(earlier), p);
    }
  }

  lemma KeepTwice(minutes: map<Time, Minute>, a: Time, b: Time)
    requires a <= b
    ensures KeepFrom(KeepFrom(minutes, a), b) == KeepFrom(minutes, b)
  {
  }

  lemma PollKeepsAgreement(log: seq<Line>, tail: nat, saved: Option<State>, n0: nat, c0: Option<Time>, p: Poll)
    requires GoodLog(log) && p.Polled? && n0 <= p.visible <= |log|
    requires Agrees(saved, log, n0, c0)
    requires c0.Some? ==> c0.value <= p.checkedAt
    requires forall i :: 0 <= i < p.visible ==> log[i].at.value <= p.checkedAt
    requires |Since(log[..p.visible], if p.cursorKnown then CursorSecond(saved) else None)| <= tail
    ensures Agrees(AfterPoll(log, tail, saved, p), log, p.visible, Some(p.checkedAt))
  {
    var s, n, c := OrEmpty(saved), p.visible, p.checkedAt;
    var since := if p.cursorKnown then CursorSecond(saved) else None;
    var base := if saved.Some? then c0.value - HISTORY_WINDOW else c - HISTORY_WINDOW;
    if saved.None? { SinglePassEmpty(log, base); }
    StateAfterPoll(log, s, n0, n, since, base, c);
  }

  lemma StateAfterPoll(log: seq<Line>, s: State, n0: nat, n: nat, since: Option<Time>, base: Time, c: Time)
    requires GoodLog(log) && n0 <= n <= |log| && CursorExact(s, log, n0)
    requires since.None? || since == CursorSecond(Some(s))
    requires base <= c - HISTORY_WINDOW
    requires s.minutes == KeepFrom(SinglePass(log[..n0]), base)
    requires forall i :: 0 <= i < n ==> log[i].at.value <= c
    ensures var after := Prune(Merge(s, Since(log[..n], since), c), c);
            && CursorExact(after, log, n)
            && after.minutes == KeepFrom(SinglePass(log[..n]), c - HISTORY_WINDOW)
  {
    SliceIsOldPlusNew(log, s, n0, n, since, c);
    CursorAfterPoll(log, s, n0, n, since, Since(log[..n], since));
    CountersAfterPoll(log, s, n0, n, base, c);
  }

  /** A slice is what was read before, none of which is fresh, plus all that is new. */
  lemma SliceIsOldPlusNew(log: seq<Line>, s: State, n0: nat, n: nat, since: Option<Time>, c: Time)
    requires GoodLog(log) && n0 <= n <= |log| && CursorExact(s, log, n0)
    requires since.None? || since == CursorSecond(Some(s))
    ensures Since(log[..n], since) == Since(log[..n0], since) + log[n0..n]
    ensures FreshLines(s, Since(log[..n], since), c) == FreshLines(s, log[n0..n], c)
  {
    assert log[..n] == log[..n0] + log[n0..n];
    SinceAppend(log[..n0], log[n0..n], since);
    NewLinesPassSince(log, s, n0, n, since);
    FreshAppend(s, Since(log[..n0], since), log[n0..n], c);
    NothingOldIsFresh(log, s, n0, since, c);
  }

  lemma SinglePassEmpty(log: seq<Line>, cutoff: Time)
    ensures KeepFrom(SinglePass(log[..0]), cutoff) == EMPTY_STATE.minutes
  {
  }

  // ---------------------------------------------------------- which lines are new

  lemma {:induction false} SinceAppend(a: seq<Line>, b: seq<Line>, since: Option<Time>)
    ensures Since(a + b, since) == Since(a, since) + Since(b, since)
  {
    if b == [] {
      assert a + b == a;
    } else {
      assert (a + b)[..|a + b| - 1] == a + b[..|b| - 1];
      SinceAppend(a, b[..|b| - 1], since);
    }
  }

  lemma {:induction false} FreshAppend(s: State, a: seq<Line>, b: seq<Line>, c: Time)
    ensures FreshLines(s, a + b, c) == FreshLines(s, a, c) + FreshLines(s, b, c)
  {
    if b == [] {
      assert a + b == a;
    } else {
      assert (a + b)[..|a + b| - 1] == a + b[..|b| - 1];
      FreshAppend(s, a, b[..|b| - 1], c);
    }
  }

  lemma {:induction false} AllSince(lines: seq<Line>, since: Option<Time>)
    requires since.Some? ==> forall i :: 0 <= i < |lines| ==> lines[i].at.Some? && since.value <= lines[i].at.value
    ensures Since(lines, since) == lines
  {
    if lines != [] {
      AllSince(lines[..|lines| - 1], since);
    }
  }

  lemma NewLinesPassSince(log: seq<Line>, s: State, n0: nat, n: nat, since: Option<Time>)
    requires GoodLog(log) && n0 <= n <= |log| && CursorExact(s, log, n0)
    requires since.None? || since == CursorSecond(Some(s))
    ensures Since(log[n0..n], since) == log[n0..n]
  {
    if since.Some? {
      forall i | 0 <= i < n - n0
        ensures log[n0..n][i].at.Some? && since.value <= log[n0..n][i].at.value
      {
        assert log[n0..n][i] == log[n0 + i];
        assert log[n0 - 1].at.value <= log[n0 + i].at.value;
      }
    }
    AllSince(log[n0..n], since);
  }

  lemma {:induction false} FingerprintListed(lines: seq<Line>, i: nat)
    requires i < |lines| && lines[i].request.Some? && lines[i].at.Some?
    ensures lines[i].fingerprint in FingerprintsAt(lines, lines[i].at.value)
  {
    if i < |lines| - 1 {
      FingerprintListed(lines[..|lines| - 1], i);
    }
  }

  lemma {:induction false} ListedFingerprint(lines: seq<Line>, t: Time, f: Fingerprint) returns (i: nat)
    requires f in FingerprintsAt(lines, t)
    ensures i < |lines| && lines[i].request.Some? && lines[i].at == Some(t) && lines[i].fingerprint == f
  {
    var l := lines[|lines| - 1];
    if l.request.Some? && l.at == Some(t) && l.fingerprint == f {
      i := |lines| - 1;
    } else {
      i := ListedFingerprint(lines[..|lines| - 1], t, f);
    }
  }

  lemma {:induction false} SinceMembers(lines: seq<Line>, since: Option<Time>, l: Line)
    requires l in Since(lines, since)
    ensures l in lines
  {
    if l in Since(lines[..|lines| - 1], since) {
      SinceMembers(lines[..|lines| - 1], since, l);
    }
  }

  lemma {:induction false} NoneFresh(s: State, lines: seq<Line>, c: Time)
    requires forall l :: l in lines ==> !Fresh(s, l, c)
    ensures FreshLines(s, lines, c) == []
  {
    if lines != [] {
      NoneFresh(s, lines[..|lines| - 1], c);
      assert lines[|lines| - 1] in lines;
    }
  }

  lemma NothingOldIsFresh(log: seq<Line>, s: State, n0: nat, since: Option<Time>, c: Time)
    requires GoodLog(log) && n0 <= |log| && CursorExact(s, log, n0)
    ensures FreshLines(s, Since(log[..n0], since), c) == []
  {
    forall l | l in Since(log[..n0], since)
      ensures !Fresh(s, l, c)
    {
      SinceMembers(log[..n0], since, l);
      var i :| 0 <= i < n0 && log[..n0][i] == l;
      assert log[i].at.value <= log[n0 - 1].at.value;
      if l.request.Some? {
        FingerprintListed(log[..n0], i);
      }
    }
    NoneFresh(s, Since(log[..n0], since), c);
  }

  // ----------------------------------------------------------------- the cursor

  lemma {:induction false} FingerprintsSince(lines: seq<Line>, since: Option<Time>, t: Time)
    requires since.Some? ==> since.value <= t
    ensures FingerprintsAt(Since(lines, since), t) == FingerprintsAt(lines, t)
  {
    if lines != [] {
      var l := lines[|lines| - 1];
      var before := Since(lines[..|lines| - 1], since);
      FingerprintsSince(lines[..|lines| - 1], since, t);
      if since.None? || (l.at.Some? && since.value <= l.at.value) {
        assert (before + [l])[..|before|] == before;
      } else {
        assert before + [] == before;
      }
    }
  }

  lemma {:induction false} FingerprintsPrefix(log: seq<Line>, n: nat, t: Time)
    requires n <= |log|
    ensures |FingerprintsAt(log[..n], t)| <= |FingerprintsAt(log, t)|
    decreases |log|
  {
    if n < |log| {
      assert log[..|log| - 1][..n] == log[..n];
      FingerprintsPrefix(log[..|log| - 1], n, t);
    } else {
      assert log[..n] == log;
    }
  }

  lemma {:induction false} SortedWithin(sorted: seq<Fingerprint>, listed: seq<Fingerprint>)
    requires StrictlySorted(sorted)
    requires forall f :: f in sorted ==> f in listed
    ensures |sorted| <= |listed|
  {
    if sorted != [] {
      var last := sorted[|sorted| - 1];
      assert last in sorted;
      var i :| 0 <= i < |listed| && listed[i] == last;
      var rest := listed[..i] + listed[i + 1..];
      forall f | f in sorted[..|sorted| - 1]
        ensures f in rest
      {
        assert f in listed && f != last;
        var j :| 0 <= j < |listed| && listed[j] == f;
        if j < i { assert rest[j] == f; } else { assert rest[j - 1] == f; }
      }
      SortedWithin(sorted[..|sorted| - 1], rest);
    }
  }

  lemma CursorAfterPoll(log: seq<Line>, s: State, n0: nat, n: nat, since: Option<Time>, slice: seq<Line>)
    requires GoodLog(log) && n0 <= n <= |log| && CursorExact(s, log, n0)
    requires since.None? || since == CursorSecond(Some(s))
    requires slice == Since(log[..n], since)
    requires slice == Since(log[..n0], since) + log[n0..n]
    ensures forall after: State ::
              after.cursorAt == CursorAt(s, slice) && after.cursorFingerprints == CursorFingerprints(s, slice)
              ==> CursorExact(after, log, n)
  {
    if n > 0 {
      var t := log[n - 1].at.value;
      assert since.Some? ==> since.value <= t by {
        if since.Some? { assert log[n0 - 1].at.value <= t; }
      }
      LatestInSlice(log, n, since);
      FingerprintsSince(log[..n], since, t);
      FingerprintsPrefix(log, n, t);
      var here := FingerprintsAt(log[..n], t);
      assert |here| <= MAX_CURSOR_FINGERPRINTS;
      if n0 > 0 && log[n0 - 1].at.value == t {
        var union := SortedUnion(s.cursorFingerprints, FingerprintsAt(slice, t));
        forall f | f in union
          ensures f in here
        {
          if f in FingerprintsAt(log[..n0], t) {
            var i := ListedFingerprint(log[..n0], t, f);
            assert log[..n][i] == log[..n0][i];
            FingerprintListed(log[..n], i);
          }
        }
        SortedWithin(union, here);
      }
    }
  }

  lemma LatestInSlice(log: seq<Line>, n: nat, since: Option<Time>)
    requires GoodLog(log) && 0 < n <= |log|
    requires since.Some? ==> since.value <= log[n - 1].at.value
    ensures Latest(Since(log[..n], since)) == log[n - 1].at
  {
    assert log[..n][..n - 1] == log[..n - 1];
    var before := Since(log[..n - 1], since);
    var slice := Since(log[..n], since);
    assert slice == before + [log[n - 1]];
    assert slice[..|slice| - 1] == before;
    LatestBounded(before, log[n - 1].at.value) by {
      forall l | l in before
        ensures l.at.Some? ==> l.at.value <= log[n - 1].at.value
      {
        SinceMembers(log[..n - 1], since, l);
        var i :| 0 <= i < n - 1 && log[..n - 1][i] == l;
      }
    }
  }

  lemma {:induction false} LatestBounded(lines: seq<Line>, t: Time)
    requires forall l :: l in lines && l.at.Some? ==> l.at.value <= t
    ensures Latest(lines).Some? ==> Latest(lines).value <= t
  {
    if lines != [] {
      LatestBounded(lines[..|lines| - 1], t);
      assert lines[|lines| - 1] in lines;
    }
  }

  // --------------------------------------------------------------- the counters

  predicate InMinute(l: Line, m: Time) { Countable(l) && MinuteStart(l.at.value) == m }

  function OnMinute(lines: seq<Line>, m: Time): seq<Line> {
    if lines == [] then [] else
      OnMinute(lines[..|lines| - 1], m)
      + if InMinute(lines[|lines| - 1], m) then [lines[|lines| - 1]] else []
  }

  function Entry(minutes: map<Time, Minute>, m: Time): Option<Minute> {
    if m in minutes then Some(minutes[m]) else None
  }

  /** One minute's requests booked in order on that minute alone. */
  function BookAll(entry: Option<Minute>, lines: seq<Line>): Option<Minute>
    requires forall i :: 0 <= i < |lines| ==> Countable(lines[i])
  {
    if lines == [] then entry else
      var before := BookAll(entry, lines[..|lines| - 1]);
      var l := lines[|lines| - 1];
      assert Countable(l);
      Some(Book(if before.Some? then before.value else EMPTY_MINUTE, l.request.value, l.at.value))
  }

  lemma {:induction false} OnMinuteCountable(lines: seq<Line>, m: Time)
    ensures forall i :: 0 <= i < |OnMinute(lines, m)| ==> Countable(OnMinute(lines, m)[i])
  {
    if lines != [] {
      OnMinuteCountable(lines[..|lines| - 1], m);
    }
  }

  /** A minute's record depends on that minute's requests only. */
  lemma {:induction false} RollUpByMinute(t: Tally, lines: seq<Line>, m: Time)
    ensures forall i :: 0 <= i < |OnMinute(lines, m)| ==> Countable(OnMinute(lines, m)[i])
    ensures Entry(RollUp(t, lines).minutes, m) == BookAll(Entry(t.minutes, m), OnMinute(lines, m))
  {
    OnMinuteCountable(lines, m);
    if lines != [] {
      var init, l := lines[..|lines| - 1], lines[|lines| - 1];
      OnMinuteCountable(init, m);
      RollUpByMinute(t, init, m);
      var before := OnMinute(init, m);
      if InMinute(l, m) {
        assert (before + [l])[..|before|] == before;
      } else {
        assert before + [] == before;
      }
    }
  }

  lemma {:induction false} RollUpAppend(t: Tally, a: seq<Line>, b: seq<Line>)
    ensures RollUp(t, a + b) == RollUp(RollUp(t, a), b)
  {
    if b == [] {
      assert a + b == a;
    } else {
      assert (a + b)[..|a + b| - 1] == a + b[..|b| - 1];
      RollUpAppend(t, a, b[..|b| - 1]);
    }
  }

  /** In a retained minute, exactly the new lines of that minute are fresh. */
  lemma {:induction false} FreshOnMinute(s: State, lines: seq<Line>, c: Time, m: Time)
    requires m >= c - HISTORY_WINDOW
    requires forall i :: 0 <= i < |lines| ==>
      && lines[i].at.Some? && lines[i].at.value <= c
      && (s.cursorAt.Some? ==>
            && s.cursorAt.value <= lines[i].at.value
            && (lines[i].at == s.cursorAt ==> lines[i].fingerprint !in s.cursorFingerprints))
    ensures OnMinute(FreshLines(s, lines, c), m) == OnMinute(lines, m)
  {
    if lines != [] {
      var l := lines[|lines| - 1];
      var before := FreshLines(s, lines[..|lines| - 1], c);
      FreshOnMinute(s, lines[..|lines| - 1], c, m);
      if Fresh(s, l, c) {
        assert (before + [l])[..|before|] == before;
      } else {
        assert before + [] == before;
      }
    }
  }

  lemma NewFingerprintsUnknown(log: seq<Line>, s: State, n0: nat, i: nat)
    requires GoodLog(log) && 0 < n0 <= i < |log| && CursorExact(s, log, n0)
    ensures log[i].fingerprint !in s.cursorFingerprints
  {
    var t := log[n0 - 1].at.value;
    if log[i].fingerprint in FingerprintsAt(log[..n0], t) {
      var j := ListedFingerprint(log[..n0], t, log[i].fingerprint);
      assert false;
    }
  }

  lemma NewLinesAreNew(log: seq<Line>, s: State, n0: nat, n: nat)
    requires GoodLog(log) && n0 <= n <= |log| && CursorExact(s, log, n0)
    ensures forall i :: 0 <= i < n - n0 ==>
      && log[n0..n][i].at.Some?
      && (s.cursorAt.Some? ==>
            && s.cursorAt.value <= log[n0..n][i].at.value
            && log[n0..n][i].fingerprint !in s.cursorFingerprints)
  {
    forall i | 0 <= i < n - n0
      ensures log[n0..n][i].at.Some?
      ensures s.cursorAt.Some? ==>
                && s.cursorAt.value <= log[n0..n][i].at.value
                && log[n0..n][i].fingerprint !in s.cursorFingerprints
    {
      assert log[n0..n][i] == log[n0 + i];
      if n0 > 0 {
        assert log[n0 - 1].at.value <= log[n0 + i].at.value;
        NewFingerprintsUnknown(log, s, n0, n0 + i);
      }
    }
  }

  lemma EntryAfterPoll(log: seq<Line>, s: State, n0: nat, n: nat, base: Time, c: Time, m: Time)
    requires GoodLog(log) && n0 <= n <= |log| && CursorExact(s, log, n0)
    requires base <= c - HISTORY_WINDOW <= m
    requires s.minutes == KeepFrom(SinglePass(log[..n0]), base)
    requires forall i :: 0 <= i < n ==> log[i].at.value <= c
    ensures Entry(RollUp(Tally(s.minutes, s.countedSince), FreshLines(s, log[n0..n], c)).minutes, m)
         == Entry(SinglePass(log[..n]), m)
  {
    var new_ := log[n0..n];
    var first := RollUp(Tally(map[], None), log[..n0]);
    NewLinesAreNew(log, s, n0, n);
    FreshOnMinute(s, new_, c, m);
    assert Entry(s.minutes, m) == Entry(first.minutes, m);
    SameOnMinute(Tally(s.minutes, s.countedSince), first, FreshLines(s, new_, c), new_, m);
    assert log[..n] == log[..n0] + new_;
    RollUpAppend(Tally(map[], None), log[..n0], new_);
  }

  lemma SameOnMinute(a: Tally, b: Tally, xs: seq<Line>, ys: seq<Line>, m: Time)
    requires Entry(a.minutes, m) == Entry(b.minutes, m) && OnMinute(xs, m) == OnMinute(ys, m)
    ensures Entry(RollUp(a, xs).minutes, m) == Entry(RollUp(b, ys).minutes, m)
  {
    RollUpByMinute(a, xs, m);
    RollUpByMinute(b, ys, m);
  }

  lemma CountersAfterPoll(log: seq<Line>, s: State, n0: nat, n: nat, base: Time, c: Time)
    requires GoodLog(log) && n0 <= n <= |log| && CursorExact(s, log, n0)
    requires base <= c - HISTORY_WINDOW
    requires s.minutes == KeepFrom(SinglePass(log[..n0]), base)
    requires forall i :: 0 <= i < n ==> log[i].at.value <= c
    ensures KeepFrom(RollUp(Tally(s.minutes, s.countedSince), FreshLines(s, log[n0..n], c)).minutes, c - HISTORY_WINDOW)
         == KeepFrom(SinglePass(log[..n]), c - HISTORY_WINDOW)
  {
    var merged := RollUp(Tally(s.minutes, s.countedSince), FreshLines(s, log[n0..n], c)).minutes;
    forall m | m >= c - HISTORY_WINDOW
      ensures Entry(merged, m) == Entry(SinglePass(log[..n]), m)
    {
      EntryAfterPoll(log, s, n0, n, base, c, m);
    }
    SameFrom(merged, SinglePass(log[..n]), c - HISTORY_WINDOW);
  }

  lemma SameFrom(a: map<Time, Minute>, b: map<Time, Minute>, cutoff: Time)
    requires forall m :: m >= cutoff ==> Entry(a, m) == Entry(b, m)
    ensures KeepFrom(a, cutoff) == KeepFrom(b, cutoff)
  {
    forall m | m >= cutoff ensures m in a <==> m in b { assert Entry(a, m) == Entry(b, m); }
    forall m | m >= cutoff && m in a ensures a[m] == b[m] { assert Entry(a, m) == Entry(b, m); }
  }

  // ------------------------------------------------ and the counts it stands for

  /** How many requests of minute `m` the log holds, counted line by line. */
  function CountTotal(lines: seq<Line>, m: Time): nat {
    if lines == [] then 0 else
      CountTotal(lines[..|lines| - 1], m) + if InMinute(lines[|lines| - 1], m) then 1 else 0
  }

  function CountBlocked(lines: seq<Line>, m: Time): nat {
    if lines == [] then 0 else
      CountBlocked(lines[..|lines| - 1], m)
      + if InMinute(lines[|lines| - 1], m) && Blocked(lines[|lines| - 1].request.value) then 1 else 0
  }

  lemma {:induction false} SinglePassCounts(log: seq<Line>, m: Time)
    ensures MinuteAt(SinglePass(log), m).total == CountTotal(log, m)
    ensures MinuteAt(SinglePass(log), m).blocked == CountBlocked(log, m)
    ensures m in SinglePass(log) <==> CountTotal(log, m) > 0
  {
    if log != [] {
      SinglePassCounts(log[..|log| - 1], m);
    }
  }

  /** The headline: every retained minute of every run holds the number of
      requests and of blocked requests that a plain count over the log gives,
      and a minute is missing only if it has aged out or had no request. */
  lemma RetainedMinutesAreExact(log: seq<Line>, tail: nat, polls: seq<Poll>, m: Time)
    requires GoodLog(log) && GoodRun(log, tail, polls)
    requires Run(log, tail, polls).Some?
    ensures LastCheck(polls).Some? && Seen(polls) <= |log|
    ensures m in Run(log, tail, polls).value.minutes
       <==> LastCheck(polls).value - HISTORY_WINDOW <= m && CountTotal(log[..Seen(polls)], m) > 0
    ensures m in Run(log, tail, polls).value.minutes ==>
              var minute := Run(log, tail, polls).value.minutes[m];
              && minute.total == CountTotal(log[..Seen(polls)], m)
              && minute.blocked == CountBlocked(log[..Seen(polls)], m)
  {
    IncrementalEqualsSinglePass(log, tail, polls);
    SinglePassCounts(log[..Seen(polls)], m);
  }

  // ------------------------------------------------ merging the same text again

  /** The lines of `text` that a later merge would count again: those on the
      cursor's instant whose fingerprint was cut off. */
  predicate CountedAgain(s: State, l: Line, checkedAt: Time) {
    && Countable(l) && l.at == s.cursorAt && l.fingerprint !in s.cursorFingerprints
    && checkedAt - HISTORY_WINDOW <= l.at.value <= checkedAt
  }

  lemma {:induction false} StampsUpToLatest(lines: seq<Line>, i: nat)
    requires i < |lines| && lines[i].at.Some?
    ensures Latest(lines).Some? && lines[i].at.value <= Latest(lines).value
  {
    if i < |lines| - 1 {
      StampsUpToLatest(lines[..|lines| - 1], i);
    }
  }

  /** Merging a text again changes a counter exactly when one of its lines
      was left out of the stored boundary fingerprints. */
  lemma RemergeChangesExactly(s: State, text: seq<Line>, first: Time, again: Time)
    ensures var s1 := Merge(s, text, first);
            Merge(s1, text, again).minutes == s1.minutes
            <==> (forall i :: 0 <= i < |text| ==> !CountedAgain(s1, text[i], again))
  {
    var s1 := Merge(s, text, first);
    forall i | 0 <= i < |text|
      ensures Fresh(s1, text[i], again) && Countable(text[i]) ==> CountedAgain(s1, text[i], again)
    {
      if text[i].at.Some? { StampsUpToLatest(text, i); }
    }
    var t := Tally(s1.minutes, s1.countedSince);
    var taken := FreshLines(s1, text, again);
    if forall i :: 0 <= i < |text| ==> !CountedAgain(s1, text[i], again) {
      forall l | l in taken ensures !Countable(l) {
        FreshMembers(s1, text, again, l);
        var i :| 0 <= i < |text| && text[i] == l;
      }
      NothingCountable(t, taken);
    } else {
      var i :| 0 <= i < |text| && CountedAgain(s1, text[i], again);
      FreshKept(s1, text, again, i);
      var m := MinuteStart(text[i].at.value);
      CountGrows(t, taken, m);
      CountMember(taken, m, text[i]);
    }
  }

  lemma {:induction false} FreshMembers(s: State, lines: seq<Line>, c: Time, l: Line)
    requires l in FreshLines(s, lines, c)
    ensures l in lines && Fresh(s, l, c)
  {
    if l in FreshLines(s, lines[..|lines| - 1], c) {
      FreshMembers(s, lines[..|lines| - 1], c, l);
    }
  }

  lemma {:induction false} FreshKept(s: State, lines: seq<Line>, c: Time, i: nat)
    requires i < |lines| && Fresh(s, lines[i], c)
    ensures lines[i] in FreshLines(s, lines, c)
  {
    if i < |lines| - 1 {
      FreshKept(s, lines[..|lines| - 1], c, i);
    }
  }

  lemma {:induction false} NothingCountable(t: Tally, lines: seq<Line>)
    requires forall l :: l in lines ==> !Countable(l)
    ensures RollUp(t, lines).minutes == t.minutes
  {
    if lines != [] {
      NothingCountable(t, lines[..|lines| - 1]);
      assert lines[|lines| - 1] in lines;
    }
  }

  lemma {:induction false} CountGrows(t: Tally, lines: seq<Line>, m: Time)
    ensures MinuteAt(RollUp(t, lines).minutes, m).total == MinuteAt(t.minutes, m).total + CountTotal(lines, m)
  {
    if lines != [] {
      CountGrows(t, lines[..|lines| - 1], m);
    }
  }

  lemma {:induction false} CountMember(lines: seq<Line>, m: Time, l: Line)
    requires l in lines && InMinute(l, m)
    ensures CountTotal(lines, m) > 0
  {
    if l != lines[|lines| - 1] {
      assert l in lines[..|lines| - 1];
      CountMember(lines[..|lines| - 1], m, l);
    }
  }

  /** Merging `text` cuts no fingerprint off the boundary. */
  ghost predicate BoundaryFits(s: State, text: seq<Line>) {
    Latest(text).Some? ==>
      var here := FingerprintsAt(text, Latest(text).value);
      && |here| <= MAX_CURSOR_FINGERPRINTS
      && (s.cursorAt == Latest(text) ==>
            |SortedUnion(s.cursorFingerprints, here)| <= MAX_CURSOR_FINGERPRINTS)
  }

  /** The cursor keeps `l` from being counted (again). */
  ghost predicate Covered(s: State, l: Line) {
    Countable(l) ==>
      && s.cursorAt.Some?
      && (l.at.value < s.cursorAt.value
          || (l.at == s.cursorAt && l.fingerprint in s.cursorFingerprints))
  }

  lemma MergeCovers(s: State, text: seq<Line>, c: Time, i: nat)
    requires BoundaryFits(s, text) && i < |text|
    ensures Covered(Merge(s, text, c), text[i])
  {
    if Countable(text[i]) {
      StampsUpToLatest(text, i);
      FingerprintListed(text, i);
      if CursorAt(s, text) == Latest(text) { BoundaryKept(s, text); }
    }
  }

  /** With nothing cut off, the new boundary holds all of its fingerprints. */
  lemma BoundaryKept(s: State, text: seq<Line>)
    requires BoundaryFits(s, text) && Latest(text).Some? && CursorAt(s, text) == Latest(text)
    ensures forall f :: f in FingerprintsAt(text, Latest(text).value) ==> f in CursorFingerprints(s, text)
  {
  }

  lemma MergeKeepsCovered(s: State, text: seq<Line>, c: Time, l: Line)
    requires BoundaryFits(s, text) && Covered(s, l)
    ensures Covered(Merge(s, text, c), l)
  {
  }

  lemma CoveredIsNeutral(s: State, text: seq<Line>, c: Time)
    requires forall i :: 0 <= i < |text| ==> Covered(s, text[i])
    ensures Merge(s, text, c).minutes == s.minutes
  {
    var taken := FreshLines(s, text, c);
    forall l | l in taken ensures !Countable(l) {
      FreshMembers(s, text, c, l);
      var i :| 0 <= i < |text| && text[i] == l;
      assert Covered(s, text[i]);
    }
    NothingCountable(Tally(s.minutes, s.countedSince), taken);
  }

  ghost predicate BoundariesFit(s: State, texts: seq<seq<Line>>, checks: seq<Time>)
    requires |texts| == |checks|
  {
    forall k :: 0 <= k < |texts| ==> BoundaryFits(MergeAll(s, texts[..k], checks[..k]), texts[k])
  }

  lemma {:induction false} MergedIsCovered(s: State, texts: seq<seq<Line>>, checks: seq<Time>, k: nat, i: nat)
    requires |texts| == |checks| && BoundariesFit(s, texts, checks) && k < |texts| && i < |texts[k]|
    ensures Covered(MergeAll(s, texts, checks), texts[k][i])
  {
    var n := |texts| - 1;
    var before := MergeAll(s, texts[..n], checks[..n]);
    assert BoundaryFits(before, texts[n]);
    if k == n {
      MergeCovers(before, texts[n], checks[n], i);
    } else {
      forall j | 0 <= j < n
        ensures BoundaryFits(MergeAll(s, texts[..n][..j], checks[..n][..j]), texts[..n][j])
      {
        assert texts[..n][..j] == texts[..j] && checks[..n][..j] == checks[..j];
      }
      MergedIsCovered(s, texts[..n], checks[..n], k, i);
      MergeKeepsCovered(before, texts[n], checks[n], texts[k][i]);
    }
  }

  /** As long as at most 100 fingerprints lie on each boundary, any text merged
      at any earlier point of a run of merges can be merged again, at any check
      time, without changing a counter. Lines may come in any order. */
  lemma RemergeIsNeutral(s: State, texts: seq<seq<Line>>, checks: seq<Time>, k: nat, again: Time)
    requires |texts| == |checks| && BoundariesFit(s, texts, checks) && k < |texts|
    ensures Merge(MergeAll(s, texts, checks), texts[k], again).minutes == MergeAll(s, texts, checks).minutes
  {
    forall i | 0 <= i < |texts[k]| ensures Covered(MergeAll(s, texts, checks), texts[k][i]) {
      MergedIsCovered(s, texts, checks, k, i);
    }
    CoveredIsNeutral(MergeAll(s, texts, checks), texts[k], again);
  }

  /** 101 requests on one instant: the fingerprint of the last is cut off and a
      second merge counts that request again. */
  lemma RemergeCountsTheHundredAndFirst(t: Time)
    ensures var text := seq(101, i requires 0 <= i < 101 =>
                                   Line(i, Some(t), Some(Request([], "GET", None, None))));
            var once := Merge(EMPTY_STATE, text, t);
            Merge(once, text, t).minutes != once.minutes
  {
    var text := seq(101, i requires 0 <= i < 101 =>
                           Line(i, Some(t), Some(Request([], "GET", None, None))));
    var once := Merge(EMPTY_STATE, text, t);
    StampsUpToLatest(text, 100);
    LatestBounded(text, t);
    SameInstantFingerprints(text, t);
    assert CountedAgain(once, text[100], t);
    RemergeChangesExactly(EMPTY_STATE, text, t, t);
  }

  lemma {:induction false} SameInstantFingerprints(lines: seq<Line>, t: Time)
    requires forall i :: 0 <= i < |lines| ==> lines[i].at == Some(t) && lines[i].request.Some?
    ensures |FingerprintsAt(lines, t)| == |lines|
    ensures forall i :: 0 <= i < |lines| ==> FingerprintsAt(lines, t)[i] == lines[i].fingerprint
  {
    if lines != [] {
      SameInstantFingerprints(lines[..|lines| - 1], t);
    }
  }

  /** The cursor never moves backwards, whatever is merged. */
  lemma {:induction false} CursorNeverMovesBack(s: State, texts: seq<seq<Line>>, checks: seq<Time>)
    requires |texts| == |checks| && s.cursorAt.Some?
    ensures MergeAll(s, texts, checks).cursorAt.Some?
    ensures s.cursorAt.value <= MergeAll(s, texts, checks).cursorAt.value
  {
    if texts != [] {
      CursorNeverMovesBack(s, texts[..|texts| - 1], checks[..|texts| - 1]);
    }
  }

  ghost function MergeAll(s: State, texts: seq<seq<Line>>, checks: seq<Time>): State
    requires |texts| == |checks|
  {
    if texts == [] then s else
      Merge(MergeAll(s, texts[..|texts| - 1], checks[..|texts| - 1]),
            texts[|texts| - 1], checks[|texts| - 1])
  }

  /** Over every run, with no condition on log or clock, all minutes balance. */
  lemma {:induction false} RunKeepsBalance(log: seq<Line>, tail: nat, polls: seq<Poll>)
    requires Legal(log, polls)
    ensures Run(log, tail, polls).Some? ==> AllBalanced(Run(log, tail, polls).value.minutes)
  {
    if polls != [] {
      var earlier, p := polls[..|polls| - 1], polls[|polls| - 1];
      RunKeepsBalance(log, tail, earlier);
      var saved := Run(log, tail, earlier);
      if p.Polled? {
        MergeKeepsBalance(OrEmpty(saved), ReadSlice(log, tail, saved, p), p.checkedAt);
      }
    }
  }

  // ---------------------------------------------------- a state file that is too large

  ghost function BoundedRun(size: StateSize, log: seq<Line>, tail: nat, polls: seq<Poll>): Option<State>
    requires Legal(log, polls)
  {
    if polls == [] then None
    else AfterCollect(size, log, tail, BoundedRun(size, log, tail, polls[..|polls| - 1]), polls[|polls| - 1])
  }

  /** How many polls are taken in before the state file is too large. */
  ghost function Collected(size: StateSize, log: seq<Line>, tail: nat, polls: seq<Poll>): (n: nat)
    requires Legal(log, polls)
    ensures n <= |polls|
  {
    if polls == [] then 0 else
      var init := polls[..|polls| - 1];
      var before := Collected(size, log, tail, init);
      if before < |init| || TooLarge(size, Run(log, tail, init)) then before else |polls|
  }

  /** The state file is that of the polls up to the first state over 1 MiB: as
      long as none has been saved the bound makes no difference, and from then
      on no poll changes anything any more. */
  lemma {:induction false} BoundedRunIs(size: StateSize, log: seq<Line>, tail: nat, polls: seq<Poll>)
    requires Legal(log, polls)
    ensures var n := Collected(size, log, tail, polls);
            && n <= |polls|
            && BoundedRun(size, log, tail, polls) == Run(log, tail, polls[..n])
            && (n < |polls| ==> TooLarge(size, Run(log, tail, polls[..n])))
            && (forall k :: 0 <= k < n ==> !TooLarge(size, Run(log, tail, polls[..k])))
  {
    if polls != [] {
      var init := polls[..|polls| - 1];
      BoundedRunIs(size, log, tail, init);
      SamePrefixes(polls);
      var n := Collected(size, log, tail, polls);
      assert n == |polls| ==> polls[..n] == polls && forall k :: 0 <= k < n ==> init[..k] == polls[..k];
    }
  }

  lemma SamePrefixes(polls: seq<Poll>)
    requires polls != []
    ensures forall k :: 0 <= k < |polls| ==> polls[..|polls| - 1][..k] == polls[..k]
  {
  }

  /** So a run takes in every poll if and only if no state before its last poll
      is over 1 MiB. */
  lemma CollectsAllExactlyWhen(size: StateSize, log: seq<Line>, tail: nat, polls: seq<Poll>)
    requires Legal(log, polls)
    ensures Collected(size, log, tail, polls) == |polls|
       <==> forall k :: 0 <= k < |polls| ==> !TooLarge(size, Run(log, tail, polls[..k]))
  {
    BoundedRunIs(size, log, tail, polls);
  }

  lemma {:induction false} GoodPrefix(log: seq<Line>, tail: nat, polls: seq<Poll>, n: nat)
    requires GoodLog(log) && GoodRun(log, tail, polls) && n <= |polls|
    ensures GoodRun(log, tail, polls[..n])
  {
    if n < |polls| {
      var init := polls[..|polls| - 1];
      GoodPrefix(log, tail, init, n);
      assert init[..n] == polls[..n];
    } else {
      assert polls[..n] == polls;
    }
  }

  /** What the state file then holds is exact for the polls it has taken in. */
  lemma BoundedMinutesAreExact(size: StateSize, log: seq<Line>, tail: nat, polls: seq<Poll>, m: Time)
    requires GoodLog(log) && GoodRun(log, tail, polls)
    requires BoundedRun(size, log, tail, polls).Some?
    ensures var taken := polls[..Collected(size, log, tail, polls)];
            && LastCheck(taken).Some? && Seen(taken) <= |log|
            && (m in BoundedRun(size, log, tail, polls).value.minutes
                <==> LastCheck(taken).value - HISTORY_WINDOW <= m && CountTotal(log[..Seen(taken)], m) > 0)
            && (m in BoundedRun(size, log, tail, polls).value.minutes ==>
                  var minute := BoundedRun(size, log, tail, polls).value.minutes[m];
                  && minute.total == CountTotal(log[..Seen(taken)], m)
                  && minute.blocked == CountBlocked(log[..Seen(taken)], m))
  {
    var n := Collected(size, log, tail, polls);
    BoundedRunIs(size, log, tail, polls);
    GoodPrefix(log, tail, polls, n);
    RetainedMinutesAreExact(log, tail, polls[..n], m);
  }
}
