/** The persisted state of the encoded-path block history: per-minute counters
    with capped key sets, and the cursor that de-duplicates re-read log lines.
    Times are UTC microseconds. A log line comes with its SHA-256 fingerprint
    (64 hex digits, compared as numbers), the time stamp parsed from its first
    word and, if it is an access-log entry, the parsed request. */
module HistoryState {
  import opened Counters

  type Time = int
  type Fingerprint = nat

  const SECOND: int := 1_000_000
  const MINUTE: int := 60 * SECOND
  const HISTORY_WINDOW: int := 24 * 60 * MINUTE
  const MAX_CURSOR_FINGERPRINTS: nat := 100
  const MAX_TARGET_KEYS_PER_MINUTE: nat := 5
  const MAX_PATTERN_KEYS_PER_MINUTE: nat := 5

  datatype Request = Request(
    encoded: seq<string>, method_: string, router: Option<string>, hostHash: Option<string>)

  datatype Line = Line(fingerprint: Fingerprint, at: Option<Time>, request: Option<Request>)

  datatype Minute = Minute(
    total: nat,
    blocked: nat,
    encoded: map<string, nat>,
    methods: map<string, nat>,
    patterns: map<string, nat>,
    targets: map<string, nat>,
    lastBlockedAt: Option<Time>)

  const EMPTY_MINUTE := Minute(0, 0, map[], map[], map[], map[], None)

  datatype State = State(
    cursorAt: Option<Time>,
    cursorFingerprints: seq<Fingerprint>,
    observedSince: Option<Time>,
    countedSince: Option<Time>,
    minutes: map<Time, Minute>)

  const EMPTY_STATE := State(None, [], None, None, map[])

  function MinuteStart(t: Time): Time { t - t % MINUTE }

  function Earlier(known: Option<Time>, t: Time): Time {
    if known.Some? && known.value < t then known.value else t
  }

  function Later(known: Option<Time>, t: Time): Time {
    if known.Some? && known.value > t then known.value else t
  }

  // -------------------------------------------------------- one request, one minute

  predicate Internal(r: Request) { r.router.Some? && EndsWith(r.router.value, "@internal") }

  predicate Blocked(r: Request) { r.encoded != [] }

  function Upper(s: string): string {
    seq(|s|, i requires 0 <= i < |s| =>
      if 'a' <= s[i] <= 'z' then (s[i] as int - 32) as char else s[i])
  }

  function JoinPlus(words: seq<string>): string {
    if words == [] then "" else if |words| == 1 then words[0]
    else words[0] + "+" + JoinPlus(words[1..])
  }

  function UpperAll(words: seq<string>): seq<string> {
    seq(|words|, i requires 0 <= i < |words| => Upper(words[i]))
  }

  function Pattern(r: Request): string { JoinPlus(UpperAll(r.encoded)) }

  function TargetKey(r: Request): string {
    if r.hostHash.Some? then "host:" + r.hostHash.value
    else if r.router.Some? then r.router.value else "unknown"
  }

  /** The key under which a capped counter books `key`: once `cap` keys exist,
      every new one is booked under `overflow`. */
  function CappedKey(counts: map<string, nat>, key: string, cap: nat, overflow: string): string {
    if key !in counts && |counts| >= cap then overflow else key
  }

  function CountEach(counts: map<string, nat>, keys: seq<string>): map<string, nat> {
    if keys == [] then counts else Plus(CountEach(counts, keys[..|keys| - 1]), keys[|keys| - 1], 1)
  }

  /** One non-internal request at `at` booked on its minute. */
  function Book(m: Minute, r: Request, at: Time): Minute {
    var counted := m.(total := m.total + 1);
    if !Blocked(r) then counted else
      counted.(
        blocked := m.blocked + 1,
        encoded := CountEach(m.encoded, r.encoded),
        methods := Plus(m.methods, r.method_, 1),
        patterns := Plus(m.patterns,
                         CappedKey(m.patterns, Pattern(r), MAX_PATTERN_KEYS_PER_MINUTE, "OTHER"), 1),
        targets := Plus(m.targets,
                        CappedKey(m.targets, TargetKey(r), MAX_TARGET_KEYS_PER_MINUTE, "unknown"), 1),
        lastBlockedAt := Some(Later(m.lastBlockedAt, at)))
  }

  /** What every minute record keeps: each break-down of the blocked requests
      adds up to their number, and no key set outgrows its cap by more than the
      overflow key. */
  ghost predicate Balanced(m: Minute) {
    && m.blocked <= m.total
    && Sum(m.methods) == m.blocked
    && Sum(m.patterns) == m.blocked
    && Sum(m.targets) == m.blocked
    && CapKept(m.patterns, MAX_PATTERN_KEYS_PER_MINUTE, "OTHER")
    && CapKept(m.targets, MAX_TARGET_KEYS_PER_MINUTE, "unknown")
    && (m.blocked > 0 <==> m.lastBlockedAt.Some?)
  }

  ghost predicate CapKept(counts: map<string, nat>, cap: nat, overflow: string) {
    |counts| <= cap || (|counts| == cap + 1 && overflow in counts)
  }

  lemma CapStep(counts: map<string, nat>, key: string, cap: nat, overflow: string)
    requires CapKept(counts, cap, overflow)
    ensures CapKept(Plus(counts, CappedKey(counts, key, cap, overflow), 1), cap, overflow)
  {
    var k := CappedKey(counts, key, cap, overflow);
    var next := Plus(counts, k, 1);
    assert next.Keys == counts.Keys + {k};
    if k in counts { assert next.Keys == counts.Keys; }
    assert |next| == |next.Keys| && |counts| == |counts.Keys|;
  }

  lemma BookKeepsBalance(m: Minute, r: Request, at: Time)
    requires Balanced(m)
    ensures Balanced(Book(m, r, at))
  {
    if Blocked(r) {
      SumPlus(m.methods, r.method_, 1);
      SumPlus(m.patterns, CappedKey(m.patterns, Pattern(r), MAX_PATTERN_KEYS_PER_MINUTE, "OTHER"), 1);
      SumPlus(m.targets, CappedKey(m.targets, TargetKey(r), MAX_TARGET_KEYS_PER_MINUTE, "unknown"), 1);
      CapStep(m.patterns, Pattern(r), MAX_PATTERN_KEYS_PER_MINUTE, "OTHER");
      CapStep(m.targets, TargetKey(r), MAX_TARGET_KEYS_PER_MINUTE, "unknown");
    }
  }

  // ------------------------------------------------------------------ the roll-up

  /** The counters a merge changes. */
  datatype Tally = Tally(minutes: map<Time, Minute>, countedSince: Option<Time>)

  predicate Countable(l: Line) {
    l.at.Some? && l.request.Some? && !Internal(l.request.value)
  }

  function MinuteAt(minutes: map<Time, Minute>, m: Time): Minute {
    if m in minutes then minutes[m] else EMPTY_MINUTE
  }

  function AddRequest(t: Tally, l: Line): Tally
    requires l.at.Some? && l.request.Some?
  {
    if !Countable(l) then t else
      var m := MinuteStart(l.at.value);
      Tally(t.minutes[m := Book(MinuteAt(t.minutes, m), l.request.value, l.at.value)],
            Some(Earlier(t.countedSince, l.at.value)))
  }

  /** All timed requests among `lines`, added in order. */
  function RollUp(t: Tally, lines: seq<Line>): Tally {
    if lines == [] then t else
      var before := RollUp(t, lines[..|lines| - 1]);
      var l := lines[|lines| - 1];
      if l.at.Some? && l.request.Some? then AddRequest(before, l) else before
  }

  // -------------------------------------------------------------- merge and prune

  /** The test at the head of the merge loop: inside the 24 h window and not
      already covered by the cursor. */
  predicate Fresh(s: State, l: Line, checkedAt: Time) {
    && l.request.Some? && l.at.Some?
    && checkedAt - HISTORY_WINDOW <= l.at.value <= checkedAt
    && !(s.cursorAt.Some?
         && (l.at.value < s.cursorAt.value
             || (l.at.value == s.cursorAt.value && l.fingerprint in s.cursorFingerprints)))
  }

  function FreshLines(s: State, lines: seq<Line>, checkedAt: Time): seq<Line> {
    if lines == [] then [] else
      FreshLines(s, lines[..|lines| - 1], checkedAt)
      + if Fresh(s, lines[|lines| - 1], checkedAt) then [lines[|lines| - 1]] else []
  }

  lemma FreshStep(s: State, lines: seq<Line>, checkedAt: Time)
    requires lines != []
    ensures var init, l := lines[..|lines| - 1], lines[|lines| - 1];
            var t := Tally(s.minutes, s.countedSince);
            RollUp(t, FreshLines(s, lines, checkedAt))
            == if Fresh(s, l, checkedAt) then AddRequest(RollUp(t, FreshLines(s, init, checkedAt)), l)
               else RollUp(t, FreshLines(s, init, checkedAt))
  {
    var init, l := lines[..|lines| - 1], lines[|lines| - 1];
    var taken := FreshLines(s, init, checkedAt);
    if Fresh(s, l, checkedAt) {
      assert (taken + [l])[..|taken|] == taken;
    } else {
      assert taken + [] == taken;
    }
  }

  /** Fingerprints of the requests stamped exactly `t`, in log order. */
  function FingerprintsAt(lines: seq<Line>, t: Time): seq<Fingerprint> {
    if lines == [] then [] else
      var l := lines[|lines| - 1];
      FingerprintsAt(lines[..|lines| - 1], t)
      + if l.request.Some? && l.at == Some(t) then [l.fingerprint] else []
  }

  function Latest(lines: seq<Line>): Option<Time> {
    if lines == [] then None else
      var before := Latest(lines[..|lines| - 1]);
      var l := lines[|lines| - 1];
      if l.at.None? then before else Some(Later(before, l.at.value))
  }

  function Earliest(lines: seq<Line>): Option<Time> {
    if lines == [] then None else
      var before := Earliest(lines[..|lines| - 1]);
      var l := lines[|lines| - 1];
      if l.at.None? then before else Some(Earlier(before, l.at.value))
  }

  function AtMost<T>(s: seq<T>, n: nat): seq<T> { if |s| <= n then s else s[..n] }

  ghost predicate StrictlySorted(s: seq<Fingerprint>) {
    forall i, j :: 0 <= i < j < |s| ==> s[i] < s[j]
  }

  function Insert(f: Fingerprint, s: seq<Fingerprint>): (r: seq<Fingerprint>)
    requires StrictlySorted(s)
    ensures StrictlySorted(r)
    ensures forall x :: x in r <==> x == f || x in s
  {
    if s == [] || f < s[0] then [f] + s
    else if f == s[0] then s
    else
      var rest := Insert(f, s[1..]);
      assert forall i :: 0 <= i < |rest| ==> rest[i] in rest;
      [s[0]] + rest
  }

  /** `sorted(set(stored) | set(more))` */
  function SortedUnion(stored: seq<Fingerprint>, more: seq<Fingerprint>): (r: seq<Fingerprint>)
    ensures StrictlySorted(r)
    ensures forall x :: x in r <==> x in stored || x in more
    decreases |stored| + |more|
  {
    if more != [] then Insert(more[|more| - 1], SortedUnion(stored, more[..|more| - 1]))
    else if stored != [] then Insert(stored[|stored| - 1], SortedUnion(stored[..|stored| - 1], []))
    else []
  }

  function CursorFingerprints(s: State, lines: seq<Line>): seq<Fingerprint> {
    var latest := Latest(lines);
    if latest.None? then s.cursorFingerprints
    else if s.cursorAt.None? || latest.value > s.cursorAt.value then
      AtMost(FingerprintsAt(lines, latest.value), MAX_CURSOR_FINGERPRINTS)
    else if latest.value == s.cursorAt.value then
      AtMost(SortedUnion(s.cursorFingerprints, FingerprintsAt(lines, latest.value)),
             MAX_CURSOR_FINGERPRINTS)
    else s.cursorFingerprints
  }

  function CursorAt(s: State, lines: seq<Line>): Option<Time> {
    var latest := Latest(lines);
    if latest.Some? && (s.cursorAt.None? || latest.value > s.cursorAt.value) then latest
    else s.cursorAt
  }

  function ObservedSince(s: State, lines: seq<Line>, checkedAt: Time): Option<Time> {
    var earliest := Earliest(lines);
    if earliest.Some? then Some(Earlier(s.observedSince, earliest.value))
    else if s.observedSince.None? then Some(checkedAt) else s.observedSince
  }

  /** The state after merging one log text. */
  function Merge(s: State, lines: seq<Line>, checkedAt: Time): State {
    var tally := RollUp(Tally(s.minutes, s.countedSince), FreshLines(s, lines, checkedAt));
    State(CursorAt(s, lines), CursorFingerprints(s, lines),
          ObservedSince(s, lines, checkedAt), tally.countedSince, tally.minutes)
  }

  function KeepFrom(minutes: map<Time, Minute>, cutoff: Time): map<Time, Minute> {
    map m | m in minutes && m >= cutoff :: minutes[m]
  }

  function Prune(s: State, checkedAt: Time): State {
    s.(minutes := KeepFrom(s.minutes, checkedAt - HISTORY_WINDOW))
  }

  method CountEncoded(counts: map<string, nat>, keys: seq<string>) returns (r: map<string, nat>)
    ensures r == CountEach(counts, keys)
  {
    r := counts;
    for i := 0 to |keys|
      invariant r == CountEach(counts, keys[..i])
    {
      assert keys[..i + 1][..i] == keys[..i];
      r := Plus(r, keys[i], 1);
    }
    assert keys[..|keys|] == keys;
  }

  method BookOnMinute(minute: Minute, r: Request, at: Time) returns (booked: Minute)
    ensures booked == Book(minute, r, at)
  {
    booked := minute.(total := minute.total + 1);
    if r.encoded == [] {
      return;
    }
    var encoded := CountEncoded(minute.encoded, r.encoded);
    var pattern := Pattern(r);
    if pattern !in minute.patterns && |minute.patterns| >= MAX_PATTERN_KEYS_PER_MINUTE {
      pattern := "OTHER";
    }
    var target := TargetKey(r);
    if target !in minute.targets && |minute.targets| >= MAX_TARGET_KEYS_PER_MINUTE {
      target := "unknown";
    }
    booked := booked.(
      blocked := minute.blocked + 1,
      encoded := encoded,
      methods := Plus(minute.methods, r.method_, 1),
      patterns := Plus(minute.patterns, pattern, 1),
      targets := Plus(minute.targets, target, 1),
      lastBlockedAt := Some(Later(minute.lastBlockedAt, at)));
  }

  // -------------------------------------------------------- the state, in place

  /** The `state` dictionary that the source changes in place. */
  class History {
    var cursorAt: Option<Time>
    var cursorFingerprints: seq<Fingerprint>
    var observedSince: Option<Time>
    var countedSince: Option<Time>
    var minutes: map<Time, Minute>

    ghost function View(): State
      reads this
    {
      State(cursorAt, cursorFingerprints, observedSince, countedSince, minutes)
    }

    constructor (s: State)
      ensures View() == s
    {
      cursorAt, cursorFingerprints := s.cursorAt, s.cursorFingerprints;
      observedSince, countedSince, minutes := s.observedSince, s.countedSince, s.minutes;
    }

    method AddRequestToMinute(l: Line)
      requires l.at.Some? && l.request.Some?
      modifies `countedSince, `minutes
      ensures Tally(minutes, countedSince) == AddRequest(Tally(old(minutes), old(countedSince)), l)
    {
      var r, at := l.request.value, l.at.value;
      if Internal(r) {
        return;
      }
      countedSince := Some(Earlier(countedSince, at));
      var key := MinuteStart(at);
      var minute := if key in minutes then minutes[key] else EMPTY_MINUTE;
      minute := BookOnMinute(minute, r, at);
      minutes := minutes[key := minute];
    }

    method MergeLogEvents(lines: seq<Line>, checkedAt: Time)
      modifies this
      ensures View() == Merge(old(View()), lines, checkedAt)
    {
      ghost var before := View();
      var i := 0;
      while i < |lines|
        invariant 0 <= i <= |lines|
        invariant View() == before.(minutes := minutes, countedSince := countedSince)
        invariant Tally(minutes, countedSince)
               == RollUp(Tally(before.minutes, before.countedSince),
                         FreshLines(before, lines[..i], checkedAt))
      {
        var l := lines[i];
        assert lines[..i + 1][..i] == lines[..i];
        FreshStep(before, lines[..i + 1], checkedAt);
        if l.request.Some? && l.at.Some?
           && checkedAt - HISTORY_WINDOW <= l.at.value <= checkedAt
           && !(cursorAt.Some?
                && (l.at.value < cursorAt.value
                    || (l.at.value == cursorAt.value && l.fingerprint in cursorFingerprints)))
        {
          AddRequestToMinute(l);
        }
        i := i + 1;
      }
      assert lines[..i] == lines;
      AdvanceCursor(lines, checkedAt);
    }

    method AdvanceCursor(lines: seq<Line>, checkedAt: Time)
      modifies `cursorAt, `cursorFingerprints, `observedSince
      ensures cursorAt == CursorAt(old(View()), lines)
      ensures cursorFingerprints == CursorFingerprints(old(View()), lines)
      ensures observedSince == ObservedSince(old(View()), lines, checkedAt)
    {
      var latest := Latest(lines);
      var earliest := Earliest(lines);
      StampsFoundTogether(lines);
      if latest.Some? {
        if cursorAt.None? || latest.value > cursorAt.value {
          cursorAt := latest;
          cursorFingerprints := AtMost(FingerprintsAt(lines, latest.value), MAX_CURSOR_FINGERPRINTS);
        } else if latest.value == cursorAt.value {
          cursorFingerprints := AtMost(SortedUnion(cursorFingerprints, FingerprintsAt(lines, latest.value)),
                                       MAX_CURSOR_FINGERPRINTS);
        }
        observedSince := Some(Earlier(observedSince, earliest.value));
      } else if observedSince.None? {
        observedSince := Some(checkedAt);
      }
    }

    method PruneMinutes(checkedAt: Time)
      modifies `minutes
      ensures View() == Prune(old(View()), checkedAt)
    {
      minutes := map m | m in minutes && m >= checkedAt - HISTORY_WINDOW :: minutes[m];
    }
  }

  lemma {:induction false} StampsFoundTogether(lines: seq<Line>)
    ensures Latest(lines).Some? == Earliest(lines).Some?
  {
    if lines != [] {
      StampsFoundTogether(lines[..|lines| - 1]);
    }
  }

  /** Whatever is merged, every minute stays balanced. */
  ghost predicate AllBalanced(minutes: map<Time, Minute>) {
    forall m :: m in minutes ==> Balanced(minutes[m])
  }

  lemma {:induction false} RollUpKeepsBalance(t: Tally, lines: seq<Line>)
    requires AllBalanced(t.minutes)
    ensures AllBalanced(RollUp(t, lines).minutes)
  {
    if lines != [] {
      RollUpKeepsBalance(t, lines[..|lines| - 1]);
      var before := RollUp(t, lines[..|lines| - 1]);
      var l := lines[|lines| - 1];
      if Countable(l) {
        var m := MinuteStart(l.at.value);
        EmptyMinuteBalanced();
        BookKeepsBalance(MinuteAt(before.minutes, m), l.request.value, l.at.value);
      }
    }
  }

  lemma EmptyMinuteBalanced()
    ensures Balanced(EMPTY_MINUTE)
  {
    assert Sum(EMPTY_MINUTE.methods) == 0;
  }

  lemma MergeKeepsBalance(s: State, lines: seq<Line>, checkedAt: Time)
    requires AllBalanced(s.minutes)
    ensures AllBalanced(Merge(s, lines, checkedAt).minutes)
    ensures AllBalanced(Prune(Merge(s, lines, checkedAt), checkedAt).minutes)
  {
    RollUpKeepsBalance(Tally(s.minutes, s.countedSince), FreshLines(s, lines, checkedAt));
  }
}
