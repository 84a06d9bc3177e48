/** Suspicious logins from one client address: failures raise a suspicious
    record, a suspicious record raises a block, repeated blocks escalate. All
    decisions are read from the audit log through a look-back window, and the
    log stores times rounded down to the second. Times are microseconds. */
module LoginAnomaly {
  import opened Counters

  type Time = int

  const SECOND: int := 1_000_000
  const MINUTE: int := 60_000_000

  datatype Event =
    | Failure(username: string)
    | Suspicious
    | Blocked(until: Time, minutes: nat)
    | Unrelated

  datatype Record = Record(created: Time, event: Event)

  datatype Settings = Settings(
    window: int, minFailures: nat, minUsernames: nat,
    blockWindow: int,
    escalation: bool, escalationWindow: Option<int>, multiplier: nat, maxBlockWindow: Option<int>)

  /** `created_at` as the audit service stores it. */
  function Stored(t: Time): Time { t - t % SECOND }

  // ------------------------------------------------------------------ reading the log

  function Since(log: seq<Record>, cutoff: Time): seq<Record> {
    if log == [] then [] else
      Since(log[..|log| - 1], cutoff) + if log[|log| - 1].created >= cutoff then [log[|log| - 1]] else []
  }

  function Failures(logs: seq<Record>): (failures: seq<Record>)
    ensures forall i :: 0 <= i < |failures| ==> failures[i].event.Failure?
  {
    if logs == [] then [] else
      var r := logs[|logs| - 1];
      Failures(logs[..|logs| - 1]) + if r.event.Failure? then [r] else []
  }

  function Blocks(logs: seq<Record>): (blocks: seq<Record>)
    ensures forall i :: 0 <= i < |blocks| ==> blocks[i].event.Blocked?
  {
    if logs == [] then [] else
      var r := logs[|logs| - 1];
      Blocks(logs[..|logs| - 1]) + if r.event.Blocked? then [r] else []
  }

  function LatestSuspicious(logs: seq<Record>): Option<Time> {
    if logs == [] then None else
      var before := LatestSuspicious(logs[..|logs| - 1]);
      var r := logs[|logs| - 1];
      if r.event.Suspicious? && (before.None? || before.value < r.created) then Some(r.created) else before
  }

  /** Distinct non-empty user names. */
  function Usernames(failures: seq<Record>): set<string> {
    set r | r in failures && r.event.Failure? && r.event.username != "" :: r.event.username
  }

  /** `build_suspicious_login_detail` finds enough failures and no suspicious record. */
  predicate LooksSuspicious(s: Settings, logs: seq<Record>) {
    && LatestSuspicious(logs).None?
    && |Failures(logs)| >= s.minFailures
    && |Usernames(Failures(logs))| >= s.minUsernames
  }

  method BuildSuspicious(s: Settings, logs: seq<Record>) returns (found: bool)
    ensures found == LooksSuspicious(s, logs)
    ensures found <==>
              && (forall i :: 0 <= i < |logs| ==> !logs[i].event.Suspicious?)
              && CountIf(logs, (r: Record) => r.event.Failure?) >= s.minFailures
              && |NamesTried(logs)| >= s.minUsernames
  {
    SuspicionIs(s, logs);
    var failures: seq<Record> := [];
    for i := 0 to |logs|
      invariant failures == Failures(logs[..i])
      invariant LatestSuspicious(logs[..i]).None?
    {
      assert logs[..i + 1][..i] == logs[..i];
      if logs[i].event.Suspicious? {
        SuspiciousStays(logs, i);
        return false;
      }
      if logs[i].event.Failure? {
        failures := failures + [logs[i]];
      }
    }
    assert logs[..|logs|] == logs;
    var names := Usernames(failures);
    found := |failures| >= s.minFailures && |names| >= s.minUsernames;
  }

  /** Every user name, other than the empty one, that a failure is recorded for. */
  ghost function NamesTried(logs: seq<Record>): set<string> {
    set i | 0 <= i < |logs| && logs[i].event.Failure? && logs[i].event.username != "" :: logs[i].event.username
  }

  lemma SuspicionIs(s: Settings, logs: seq<Record>)
    ensures LooksSuspicious(s, logs) <==>
              && (forall i :: 0 <= i < |logs| ==> !logs[i].event.Suspicious?)
              && CountIf(logs, (r: Record) => r.event.Failure?) >= s.minFailures
              && |NamesTried(logs)| >= s.minUsernames
  {
    FailuresAre(logs);
    if LatestSuspicious(logs).Some? {
      var i := LatestSuspiciousIsThere(logs);
    } else {
      forall i | 0 <= i < |logs| ensures !logs[i].event.Suspicious? {
        if logs[i].event.Suspicious? { SuspiciousStays(logs, i); }
      }
    }
    forall name ensures name in Usernames(Failures(logs)) <==> name in NamesTried(logs) {
      if name in Usernames(Failures(logs)) {
        var r :| r in Failures(logs) && r.event.username == name;
        var i :| 0 <= i < |logs| && logs[i] == r;
      }
    }
    assert Usernames(Failures(logs)) == NamesTried(logs);
  }

  lemma {:induction false} FailuresAre(logs: seq<Record>)
    ensures |Failures(logs)| == CountIf(logs, (r: Record) => r.event.Failure?)
    ensures forall r :: r in Failures(logs) <==> r in logs && r.event.Failure?
  {
    if logs != [] {
      var init, r := logs[..|logs| - 1], logs[|logs| - 1];
      FailuresAre(init);
      assert logs == init + [r];
    }
  }

  lemma {:induction false} SuspiciousStays(logs: seq<Record>, i: nat)
    requires i < |logs| && logs[i].event.Suspicious?
    ensures LatestSuspicious(logs).Some? && logs[i].created <= LatestSuspicious(logs).value
  {
    if i < |logs| - 1 {
      SuspiciousStays(logs[..|logs| - 1], i);
    }
  }

  lemma {:induction false} LatestSuspiciousIsThere(logs: seq<Record>) returns (i: nat)
    requires LatestSuspicious(logs).Some?
    ensures i < |logs| && logs[i].event.Suspicious? && logs[i].created == LatestSuspicious(logs).value
  {
    var r := logs[|logs| - 1];
    if r.event.Suspicious? && LatestSuspicious(logs).value == r.created {
      i := |logs| - 1;
    } else {
      i := LatestSuspiciousIsThere(logs[..|logs| - 1]);
    }
  }

  // --------------------------------------------------------------------- escalation

  function Power(base: nat, exponent: nat): nat {
    if exponent == 0 then 1 else base * Power(base, exponent - 1)
  }

  function WholeMinutes(duration: int): nat {
    if duration / MINUTE > 1 then duration / MINUTE else 1
  }

  function BlockMinutes(s: Settings, previousBlocks: nat): nat {
    var base := WholeMinutes(s.blockWindow);
    if !s.escalation then base
    else
      var raised := base * Power(s.multiplier, previousBlocks);
      if s.maxBlockWindow.Some? && raised > WholeMinutes(s.maxBlockWindow.value)
      then WholeMinutes(s.maxBlockWindow.value) else raised
  }

  /** The rule, block by block: whole minutes, at least one; with escalation each
      block shown multiplies it, up to the cap. */
  lemma BlockMinutesAre(s: Settings, n: nat)
    ensures var base, uncapped := BlockMinutes(s.(escalation := false), n), s.(maxBlockWindow := None);
            && base >= 1 && (base == 1 || base * 60_000_000 <= s.blockWindow) && s.blockWindow < (base + 1) * 60_000_000
            && (!s.escalation ==> BlockMinutes(s, n) == base)
            && (s.escalation ==> BlockMinutes(uncapped, 0) == base)
            && (s.escalation ==> BlockMinutes(uncapped, n + 1) == s.multiplier * BlockMinutes(uncapped, n))
    ensures s.escalation && s.maxBlockWindow.Some? ==>
              var cap, raised := BlockMinutes(Settings(0, 0, 0, s.maxBlockWindow.value, false, None, 0, None), 0),
                                 BlockMinutes(s.(maxBlockWindow := None), n);
              BlockMinutes(s, n) == if raised <= cap then raised else cap
  {
    var base := WholeMinutes(s.blockWindow);
    MulSwap(base, s.multiplier, Power(s.multiplier, n));
  }

  lemma MulSwap(a: nat, b: nat, c: nat)
    ensures a * (b * c) == b * (a * c) && a * 1 == a
  {
  }

  lemma {:induction false} PowerMonotone(base: nat, a: nat, b: nat)
    requires base >= 1 && a <= b
    ensures 1 <= Power(base, a) <= Power(base, b)
    decreases b
  {
    if a < b {
      PowerMonotone(base, a, b - 1);
      MulAtLeast(base, Power(base, b - 1));
    } else if b > 0 {
      PowerMonotone(base, a - 1, b - 1);
      MulAtLeast(base, Power(base, b - 1));
    }
  }

  lemma MulAtLeast(a: nat, b: nat)
    requires a >= 1
    ensures b <= a * b
  {
  }

  /** More earlier blocks never shorten a block, and the cap is kept. */
  lemma EscalationIsMonotoneAndCapped(s: Settings, a: nat, b: nat)
    requires s.multiplier >= 1 && a <= b
    ensures BlockMinutes(s, a) <= BlockMinutes(s, b)
    ensures s.escalation && s.maxBlockWindow.Some? ==> BlockMinutes(s, b) <= WholeMinutes(s.maxBlockWindow.value)
    ensures s.escalation && s.maxBlockWindow.None? && s.multiplier >= 2 && a < b ==>
              BlockMinutes(s, a) < BlockMinutes(s, b)
  {
    PowerMonotone(s.multiplier, a, b);
    var base := WholeMinutes(s.blockWindow);
    MulMonotone(base, Power(s.multiplier, a), Power(s.multiplier, b));
    if s.multiplier >= 2 && a < b {
      PowerMonotone(s.multiplier, a, b - 1);
      PowerDoubles(s.multiplier, b);
      MulStrict(base, Power(s.multiplier, a), Power(s.multiplier, b));
    }
  }

  lemma PowerDoubles(base: nat, b: nat)
    requires base >= 2 && b > 0
    ensures Power(base, b - 1) < Power(base, b)
  {
    PowerMonotone(base, 0, b - 1);
    MulStrictBase(base, Power(base, b - 1));
  }

  lemma MulStrictBase(a: nat, b: nat)
    requires a >= 2 && b >= 1
    ensures b < a * b
  {
  }

  lemma MulMonotone(c: nat, a: nat, b: nat)
    requires a <= b
    ensures c * a <= c * b
  {
  }

  lemma MulStrict(c: nat, a: nat, b: nat)
    requires c >= 1 && a < b
    ensures c * a < c * b
  {
    MulMonotone(c, a + 1, b);
  }

  // --------------------------------------------------------------------- the decision

  datatype Decision = Open | StillBlocked | NewBlock(until: Time, minutes: nat)

  function LookBack(s: Settings): int {
    if s.escalation && s.escalationWindow.Some? && s.escalationWindow.value > s.blockWindow
    then s.escalationWindow.value else s.blockWindow
  }

  /** The decision on the latest suspicious time and the blocks, oldest first. */
  function DecideOn(s: Settings, suspicious: Option<Time>, blocks: seq<Record>, now: Time): Decision
    requires AllBlocks(blocks)
  {
    if suspicious.None? then Open
    else if blocks != [] && blocks[|blocks| - 1].event.until > now then StillBlocked
    else if blocks != [] && suspicious.value <= blocks[|blocks| - 1].created then Open
    else
      var minutes := BlockMinutes(s, |blocks|);
      NewBlock(now + minutes * MINUTE, minutes)
  }

  function Decide(s: Settings, logs: seq<Record>, now: Time): Decision {
    DecideOn(s, LatestSuspicious(logs), Blocks(logs), now)
  }

  /** No suspicious record, or only such as the last, expired block answers. */
  predicate LetIn(shown: seq<Record>, now: Time) {
    || LatestSuspicious(shown).None?
    || (Blocks(shown) != []
        && var last := Blocks(shown)[|Blocks(shown)| - 1];
           last.event.until <= now && LatestSuspicious(shown).value <= last.created)
  }

  lemma LetInExactlyWhen(s: Settings, shown: seq<Record>, now: Time)
    ensures Decide(s, shown, now).Open? <==> LetIn(shown, now)
  {
  }

  /** Some suspicious record shown is later than `t`. */
  ghost predicate SuspectedAfter(shown: seq<Record>, t: Time) {
    exists i :: 0 <= i < |shown| && shown[i].event.Suspicious? && t < shown[i].created
  }

  /** The last block shown stands at `b`; `b` is -1 when there is none. */
  ghost predicate IsLastBlock(shown: seq<Record>, b: int) {
    && -1 <= b < |shown| && (b >= 0 ==> shown[b].event.Blocked?)
    && forall j :: b < j < |shown| ==> !shown[j].event.Blocked?
  }

  /** The decision, told on the records shown: nothing without a suspicious
      record; the last block stands while it runs; and a new one follows on a
      suspicious record later than the last block, as long as the rule says for
      the number of blocks shown. */
  lemma DecisionExactlyWhen(s: Settings, shown: seq<Record>, now: Time, b: int)
    requires IsLastBlock(shown, b)
    ensures var d := Decide(s, shown, now);
            var suspected := exists i :: 0 <= i < |shown| && shown[i].event.Suspicious?;
            && (d.StillBlocked? <==> suspected && b >= 0 && now < shown[b].event.until)
            && (d.NewBlock? <==>
                  suspected && (b < 0 || (shown[b].event.until <= now && SuspectedAfter(shown, shown[b].created))))
            && (d.NewBlock? ==>
                  && d.minutes == BlockMinutes(s, CountIf(shown, (r: Record) => r.event.Blocked?))
                  && d.until == now + d.minutes * 60_000_000)
  {
    BlocksAre(shown, b);
    if LatestSuspicious(shown).Some? {
      var i := LatestSuspiciousIsThere(shown);
    }
    forall i | 0 <= i < |shown| && shown[i].event.Suspicious?
      ensures LatestSuspicious(shown).Some? && shown[i].created <= LatestSuspicious(shown).value
    {
      SuspiciousStays(shown, i);
    }
  }

  lemma {:induction false} BlocksAre(logs: seq<Record>, b: int)
    requires IsLastBlock(logs, b)
    ensures |Blocks(logs)| == CountIf(logs, (r: Record) => r.event.Blocked?)
    ensures Blocks(logs) == [] <==> b < 0
    ensures b >= 0 ==> Blocks(logs)[|Blocks(logs)| - 1] == logs[b]
  {
    if logs != [] {
      var init := logs[..|logs| - 1];
      if b < |init| {
        assert forall j :: b < j < |init| ==> init[j] == logs[j];
        BlocksAre(init, b);
      } else {
        BlocksAre(init, LastBlock(init));
      }
    }
  }

  // ---------------------------------------------- records in the database's order

  ghost predicate ByCreated(s: seq<Record>) {
    forall i, j :: 0 <= i < j < |s| ==> s[i].created <= s[j].created
  }

  /** Stable insertion, as `sorted` keeps equal times in the order given. */
  function InsertByCreated(r: Record, s: seq<Record>): seq<Record> {
    if s == [] || s[|s| - 1].created <= r.created then s + [r]
    else InsertByCreated(r, s[..|s| - 1]) + [s[|s| - 1]]
  }

  lemma {:induction false} InsertedRecords(r: Record, s: seq<Record>)
    ensures multiset(InsertByCreated(r, s)) == multiset(s) + multiset{r}
  {
    if s != [] && s[|s| - 1].created > r.created {
      InsertedRecords(r, s[..|s| - 1]);
      assert s == s[..|s| - 1] + [s[|s| - 1]];
    }
  }

  lemma {:induction false} InsertedInOrder(r: Record, s: seq<Record>)
    requires ByCreated(s)
    ensures ByCreated(InsertByCreated(r, s))
  {
    if s != [] && s[|s| - 1].created > r.created {
      var init, last := s[..|s| - 1], s[|s| - 1];
      var rest := InsertByCreated(r, init);
      InsertedInOrder(r, init);
      InsertedRecords(r, init);
      forall i | 0 <= i < |rest| ensures rest[i].created <= last.created {
        assert rest[i] in multiset(init) + multiset{r};
        if rest[i] != r { assert rest[i] in init; }
      }
    }
  }

  method SearchSuspicious(rows: seq<Record>) returns (latest: Option<Time>)
    ensures latest == LatestSuspicious(rows)
  {
    latest := None;
    for i := 0 to |rows|
      invariant latest == LatestSuspicious(rows[..i])
    {
      assert rows[..i + 1][..i] == rows[..i];
      if rows[i].event.Suspicious? && (latest.None? || latest.value < rows[i].created) {
        latest := Some(rows[i].created);
      }
    }
    assert rows[..|rows|] == rows;
  }

  ghost predicate AllBlocks(s: seq<Record>) { forall i :: 0 <= i < |s| ==> s[i].event.Blocked? }

  method SortBlocks(rows: seq<Record>) returns (blocks: seq<Record>)
    ensures ByCreated(blocks) && AllBlocks(blocks) && multiset(blocks) == multiset(Blocks(rows))
  {
    blocks := [];
    for i := 0 to |rows|
      invariant ByCreated(blocks) && multiset(blocks) == multiset(Blocks(rows[..i]))
    {
      assert rows[..i + 1][..i] == rows[..i];
      if rows[i].event.Blocked? {
        InsertedRecords(rows[i], blocks);
        InsertedInOrder(rows[i], blocks);
        blocks := InsertByCreated(rows[i], blocks);
      }
    }
    assert rows[..|rows|] == rows;
    forall i | 0 <= i < |blocks| ensures blocks[i].event.Blocked? {
      assert blocks[i] in multiset(Blocks(rows));
    }
  }

  /** The rows come without an order: the latest suspicious time is searched and
      the blocks are sorted. */
  method DecideOnRows(s: Settings, rows: seq<Record>, now: Time) returns (d: Decision, ghost sorted: seq<Record>)
    ensures ByCreated(sorted) && AllBlocks(sorted) && multiset(sorted) == multiset(Blocks(rows))
    ensures d == DecideOn(s, LatestSuspicious(rows), sorted, now)
  {
    var suspicious := SearchSuspicious(rows);
    var blocks := SortBlocks(rows);
    sorted := blocks;
    if suspicious.None? {
      return Open, sorted;
    }
    if blocks != [] {
      var latest := blocks[|blocks| - 1];
      if latest.event.until > now {
        return StillBlocked, sorted;
      }
      if suspicious.value <= latest.created {
        return Open, sorted;
      }
    }
    var minutes := BlockMinutes(s, |blocks|);
    d := NewBlock(now + minutes * MINUTE, minutes);
  }

  ghost predicate StrictlyByCreated(s: seq<Record>) {
    forall i, j :: 0 <= i < j < |s| ==> s[i].created < s[j].created
  }

  lemma {:induction false} SortedIsUnique(a: seq<Record>, b: seq<Record>)
    requires StrictlyByCreated(a) && ByCreated(b) && multiset(a) == multiset(b)
    ensures a == b
  {
    SameSize(a, b);
    if a != [] {
      DropLast(a, b);
      SortedIsUnique(a[..|a| - 1], b[..|b| - 1]);
      assert a == a[..|a| - 1] + [a[|a| - 1]] == b[..|b| - 1] + [b[|b| - 1]] == b;
    }
  }

  lemma DropLast(a: seq<Record>, b: seq<Record>)
    requires StrictlyByCreated(a) && ByCreated(b) && multiset(a) == multiset(b) && |a| == |b| > 0
    ensures StrictlyByCreated(a[..|a| - 1]) && ByCreated(b[..|b| - 1])
    ensures multiset(a[..|a| - 1]) == multiset(b[..|b| - 1]) && a[|a| - 1] == b[|b| - 1]
  {
    SameLast(a, b);
    WithoutLast(a);
    WithoutLast(b);
  }

  lemma WithoutLast(a: seq<Record>)
    requires a != []
    ensures multiset(a[..|a| - 1]) == multiset(a) - multiset{a[|a| - 1]}
  {
    assert a == a[..|a| - 1] + [a[|a| - 1]];
  }

  lemma SameLast(a: seq<Record>, b: seq<Record>)
    requires StrictlyByCreated(a) && ByCreated(b) && multiset(a) == multiset(b) && |a| == |b| > 0
    ensures a[|a| - 1] == b[|b| - 1]
  {
    var n := |a| - 1;
    assert a[n] in multiset(b) && b[n] in multiset(a);
    var i :| 0 <= i < |a| && a[i] == b[n];
    var j :| 0 <= j < |b| && b[j] == a[n];
    assert a[n].created <= b[n].created == a[i].created;
    assert i == n;
  }

  lemma SameSize(a: seq<Record>, b: seq<Record>)
    requires multiset(a) == multiset(b)
    ensures |a| == |b|
  {
    assert |multiset(a)| == |a| && |multiset(b)| == |b|;
  }

  lemma {:induction false} BlocksCounted(logs: seq<Record>, r: Record)
    ensures multiset(Blocks(logs))[r] == if r.event.Blocked? then multiset(logs)[r] else 0
  {
    if logs != [] {
      BlocksCounted(logs[..|logs| - 1], r);
      assert logs == logs[..|logs| - 1] + [logs[|logs| - 1]];
    }
  }

  lemma {:induction false} FailuresCounted(logs: seq<Record>, r: Record)
    ensures multiset(Failures(logs))[r] == if r.event.Failure? then multiset(logs)[r] else 0
  {
    if logs != [] {
      FailuresCounted(logs[..|logs| - 1], r);
      assert logs == logs[..|logs| - 1] + [logs[|logs| - 1]];
    }
  }

  lemma SameSuspicious(rows: seq<Record>, logs: seq<Record>)
    requires multiset(rows) == multiset(logs)
    ensures LatestSuspicious(rows) == LatestSuspicious(logs)
  {
    NoLaterSuspicious(rows, logs);
    NoLaterSuspicious(logs, rows);
  }

  lemma NoLaterSuspicious(rows: seq<Record>, logs: seq<Record>)
    requires multiset(rows) == multiset(logs)
    ensures LatestSuspicious(rows).Some? ==>
              LatestSuspicious(logs).Some? && LatestSuspicious(rows).value <= LatestSuspicious(logs).value
  {
    if LatestSuspicious(rows).Some? {
      var i := LatestSuspiciousIsThere(rows);
      assert rows[i] in multiset(logs);
      var j :| 0 <= j < |logs| && logs[j] == rows[i];
      SuspiciousStays(logs, j);
    }
  }

  /** Whatever order the rows come in, the decision is that of the ordered log. */
  lemma OrderDoesNotMatter(s: Settings, rows: seq<Record>, logs: seq<Record>, blocks: seq<Record>, now: Time)
    requires multiset(rows) == multiset(logs) && StrictlyByCreated(Blocks(logs))
    requires ByCreated(blocks) && multiset(blocks) == multiset(Blocks(rows))
    requires AllBlocks(blocks)
    ensures DecideOn(s, LatestSuspicious(rows), blocks, now) == Decide(s, logs, now)
  {
    SameSuspicious(rows, logs);
    forall r ensures multiset(blocks)[r] == multiset(Blocks(logs))[r] {
      BlocksCounted(rows, r);
      BlocksCounted(logs, r);
    }
    assert multiset(blocks) == multiset(Blocks(logs));
    SortedIsUnique(Blocks(logs), blocks);
  }

  lemma OrderDoesNotMatterForSuspicion(s: Settings, rows: seq<Record>, logs: seq<Record>)
    requires multiset(rows) == multiset(logs)
    ensures LooksSuspicious(s, rows) == LooksSuspicious(s, logs)
  {
    SameSuspicious(rows, logs);
    var a, b := Failures(rows), Failures(logs);
    forall r ensures multiset(a)[r] == multiset(b)[r] {
      FailuresCounted(rows, r);
      FailuresCounted(logs, r);
    }
    assert multiset(a) == multiset(b);
    assert |a| == |multiset(a)| && |b| == |multiset(b)|;
    forall r ensures r in a <==> r in b { assert r in a <==> r in multiset(a); }
    assert Usernames(a) == Usernames(b);
  }

  /** One call on behalf of the address. `now` is read by the caller, `at` by the
      audit service when it stores the record; `stored` is false if that fails. */
  datatype Action =
    | Report(event: Event, at: Time)
    | Suspect(now: Time, at: Time, stored: bool)
    | Enforce(now: Time, at: Time, stored: bool)

  function Append(log: seq<Record>, event: Event, at: Time): seq<Record> {
    log + [Record(Stored(at), event)]
  }

  function Step(s: Settings, log: seq<Record>, a: Action): seq<Record> {
    match a
    case Report(event, at) => Append(log, event, at)
    case Suspect(now, at, stored) =>
      if LooksSuspicious(s, Since(log, now - s.window)) && stored then Append(log, Suspicious, at) else log
    case Enforce(now, at, stored) =>
      var d := Decide(s, Since(log, now - LookBack(s)), now);
      if d.NewBlock? && stored then Append(log, Blocked(d.until, d.minutes), at) else log
  }

  /** `decide_suspicious_ip_block` on rows in any order. */
  method DecideFromDatabase(s: Settings, ghost shown: seq<Record>, rows: seq<Record>, now: Time) returns (d: Decision)
    requires multiset(rows) == multiset(shown) && StrictlyByCreated(Blocks(shown))
    ensures d == Decide(s, shown, now)
    ensures d.Open? <==> LetIn(shown, now)
  {
    ghost var sorted;
    d, sorted := DecideOnRows(s, rows, now);
    OrderDoesNotMatter(s, rows, shown, sorted, now);
    LetInExactlyWhen(s, shown, now);
  }

  class AuditTrail {
    var log: seq<Record>

    constructor ()
      ensures log == []
    {
      log := [];
    }

    /** `rows` is the answer of the database, in any order. */
    method RecordSuspiciousActivity(s: Settings, rows: seq<Record>, now: Time, at: Time, stored: bool) returns (found: bool)
      requires multiset(rows) == multiset(Since(log, now - s.window))
      modifies this
      ensures log == Step(s, old(log), Suspect(now, at, stored))
      ensures found == LooksSuspicious(s, Since(old(log), now - s.window))
    {
      OrderDoesNotMatterForSuspicion(s, rows, Since(log, now - s.window));
      found := BuildSuspicious(s, rows);
      if found && stored {
        log := log + [Record(Stored(at), Suspicious)];
      }
    }

    /** Searches and sorts whatever order the database answers in, and comes to
        the decision of the ordered log; the block times have to differ, as
        they do in every run. The caller is let in exactly if the look-back
        shows no suspicious record, or only one that an expired block answers. */
    method EnforceBlock(s: Settings, rows: seq<Record>, now: Time, at: Time, stored: bool) returns (blocked: bool)
      requires StrictlyByCreated(Blocks(log))
      requires multiset(rows) == multiset(Since(log, now - LookBack(s)))
      modifies this
      ensures log == Step(s, old(log), Enforce(now, at, stored))
      ensures blocked <==> !LetIn(Since(old(log), now - LookBack(s)), now)
    {
      BlocksShownStrict(log, now - LookBack(s));
      var decision := DecideFromDatabase(s, Since(log, now - LookBack(s)), rows, now);
      if decision.NewBlock? && stored {
        log := log + [Record(Stored(at), Blocked(decision.until, decision.minutes))];
      }
      blocked := !decision.Open?;
    }
  }

  lemma {:induction false} BlocksShown(log: seq<Record>, cutoff: Time, r: Record)
    requires r in Blocks(Since(log, cutoff))
    ensures r in Blocks(log)
  {
    var init, l := log[..|log| - 1], log[|log| - 1];
    var shown := Since(init, cutoff);
    if l.created >= cutoff { assert (shown + [l])[..|shown|] == shown; } else { assert shown + [] == shown; }
    if r in Blocks(shown) { BlocksShown(init, cutoff, r); }
  }

  lemma StrictPrefix(log: seq<Record>)
    requires log != [] && StrictlyByCreated(Blocks(log))
    ensures var init, l := Blocks(log[..|log| - 1]), log[|log| - 1];
            && StrictlyByCreated(init)
            && (l.event.Blocked? ==> forall i :: 0 <= i < |init| ==> init[i].created < l.created)
  {
    var init, l := Blocks(log[..|log| - 1]), log[|log| - 1];
    if l.event.Blocked? {
      StrictlyJoined(init, l);
    } else {
      assert init + [] == init;
    }
  }

  lemma StrictlyJoined(s: seq<Record>, l: Record)
    ensures StrictlyByCreated(s + [l])
       <==> StrictlyByCreated(s) && forall i :: 0 <= i < |s| ==> s[i].created < l.created
  {
    var t := s + [l];
    assert t[|s|] == l && forall i :: 0 <= i < |s| ==> t[i] == s[i];
  }

  lemma {:induction false} BlocksShownStrict(log: seq<Record>, cutoff: Time)
    requires StrictlyByCreated(Blocks(log))
    ensures StrictlyByCreated(Blocks(Since(log, cutoff)))
  {
    if log != [] {
      var init, l := log[..|log| - 1], log[|log| - 1];
      var shown := Since(init, cutoff);
      StrictPrefix(log);
      BlocksShownStrict(init, cutoff);
      if l.created >= cutoff {
        assert (shown + [l])[..|shown|] == shown;
        if l.event.Blocked? {
          forall i | 0 <= i < |Blocks(shown)| ensures Blocks(shown)[i].created < l.created {
            BlocksShown(init, cutoff, Blocks(shown)[i]);
            var j :| 0 <= j < |Blocks(init)| && Blocks(init)[j] == Blocks(shown)[i];
          }
          StrictlyJoined(Blocks(shown), l);
        }
      } else {
        assert shown + [] == shown;
      }
    }
  }

  // ----------------------------------------------------------------------- whole runs

  function Start(a: Action): Time {
    match a case Report(_, at) => at case Suspect(now, _, _) => now case Enforce(now, _, _) => now
  }

  /** The clock never goes back; only failures and unrelated records come from outside. */
  ghost predicate Timed(actions: seq<Action>) {
    && (forall i :: 0 <= i < |actions| ==> Start(actions[i]) <= actions[i].at)
    && (forall i, j :: 0 <= i < j < |actions| ==> actions[i].at <= Start(actions[j]))
    && (forall i :: 0 <= i < |actions| && actions[i].Report? ==>
          actions[i].event.Failure? || actions[i].event.Unrelated?)
  }

  function Run(s: Settings, actions: seq<Action>): seq<Record> {
    if actions == [] then [] else Step(s, Run(s, actions[..|actions| - 1]), actions[|actions| - 1])
  }

  ghost predicate StoredInOrder(log: seq<Record>) {
    forall i, j :: 0 <= i < j < |log| ==> log[i].created <= log[j].created
  }

  ghost predicate NotAfter(log: seq<Record>, t: Time) {
    forall i :: 0 <= i < |log| ==> log[i].created <= t && log[i].created % SECOND == 0
  }

  /** When the block began. */
  function BlockStart(r: Record): Time
    requires r.event.Blocked?
  {
    r.event.until - r.event.minutes * MINUTE
  }

  /** A block is stored less than a second before it begins, at the earliest. */
  ghost predicate BlocksTimed(log: seq<Record>, t: Time) {
    forall i :: 0 <= i < |log| && log[i].event.Blocked? ==>
      BlockStart(log[i]) - SECOND < log[i].created && BlockStart(log[i]) <= t
  }

  /** Between any two blocks a new suspicious record was stored. */
  ghost predicate BlocksAreEarned(log: seq<Record>) {
    forall i, j :: 0 <= i < j < |log| && log[i].event.Blocked? && log[j].event.Blocked? ==>
      EarnedBetween(log, i, j)
  }

  ghost predicate EarnedBetween(log: seq<Record>, i: nat, j: nat)
    requires i < |log| && j < |log|
  {
    exists k :: 0 <= k < j && log[k].event.Suspicious? && log[i].created < log[k].created <= log[j].created
  }

  /** Suspicious records lie a window apart, up to the rounding of their times. */
  ghost predicate SuspicionsApart(s: Settings, log: seq<Record>) {
    forall i, j :: 0 <= i < j < |log| && log[i].event.Suspicious? && log[j].event.Suspicious? ==>
      log[j].created - log[i].created > s.window - SECOND
  }

  /** No block begins before an earlier one has ended, give or take `slack`. */
  ghost predicate BlocksApart(log: seq<Record>, slack: int) {
    forall i, j :: 0 <= i < j < |log| && log[i].event.Blocked? && log[j].event.Blocked? ==>
      log[i].event.until <= BlockStart(log[j]) + slack
  }

  /** How many blocks the look-back shows at `now`. */
  function ShownBlocks(s: Settings, log: seq<Record>, now: Time): nat {
    |Blocks(Since(log, now - LookBack(s)))|
  }

  /** Each block is as long as the rule says for the blocks shown when it began. */
  ghost predicate LengthsFollow(s: Settings, log: seq<Record>) {
    forall i :: 0 <= i < |log| && log[i].event.Blocked? ==>
      log[i].event.minutes == BlockMinutes(s, ShownBlocks(s, log[..i], BlockStart(log[i])))
  }

  /** What is in the log when a block begins was stored by then. */
  ghost predicate BlocksComeAfter(log: seq<Record>) {
    forall i, j :: 0 <= i < j < |log| && log[j].event.Blocked? ==> log[i].created <= BlockStart(log[j])
  }

  /** A suspicious record in the look-back is behind every block. */
  ghost predicate BlocksHaveCause(s: Settings, log: seq<Record>) {
    forall j :: 0 <= j < |log| && log[j].event.Blocked? ==> HasCause(s, log, j)
  }

  ghost predicate HasCause(s: Settings, log: seq<Record>, j: nat)
    requires j < |log| && log[j].event.Blocked?
  {
    exists k :: 0 <= k < j && log[k].event.Suspicious? && BlockStart(log[j]) - LookBack(s) <= log[k].created
  }

  ghost predicate RunOk(s: Settings, log: seq<Record>, t: Time) {
    && StoredInOrder(log) && NotAfter(log, t) && BlocksTimed(log, t)
    && BlocksAreEarned(log) && SuspicionsApart(s, log)
    && LengthsFollow(s, log) && BlocksComeAfter(log) && BlocksHaveCause(s, log)
  }

  // --- what the look-back shows

  lemma {:induction false} SinceKeeps(log: seq<Record>, cutoff: Time, i: nat)
    requires i < |log| && log[i].created >= cutoff
    ensures log[i] in Since(log, cutoff)
  {
    if i < |log| - 1 {
      SinceKeeps(log[..|log| - 1], cutoff, i);
    }
  }

  lemma {:induction false} SinceShows(log: seq<Record>, cutoff: Time, r: Record)
    requires r in Since(log, cutoff)
    ensures r.created >= cutoff && exists i :: 0 <= i < |log| && log[i] == r
  {
    var init := log[..|log| - 1];
    if r in Since(init, cutoff) {
      SinceShows(init, cutoff, r);
      var i :| 0 <= i < |init| && init[i] == r;
      assert log[i] == r;
    } else {
      assert log[|log| - 1] == r;
    }
  }

  /** The last block of an ordered log is the last one the look-back shows. */
  lemma {:induction false} LastBlockShown(log: seq<Record>, cutoff: Time, i: nat)
    requires StoredInOrder(log) && i < |log| && log[i].event.Blocked? && log[i].created >= cutoff
    requires forall j :: i < j < |log| ==> !log[j].event.Blocked?
    ensures Blocks(Since(log, cutoff)) != []
    ensures Blocks(Since(log, cutoff))[|Blocks(Since(log, cutoff))| - 1] == log[i]
  {
    var init, r := log[..|log| - 1], log[|log| - 1];
    var shown := Since(init, cutoff);
    assert r.created >= cutoff by { if i < |log| - 1 { assert log[i].created <= log[|log| - 1].created; } }
    assert (shown + [r])[..|shown|] == shown;
    if i < |log| - 1 {
      LastBlockShown(init, cutoff, i);
    }
  }

  /** The last block of the log, or -1. */
  function LastBlock(log: seq<Record>): (i: int)
    ensures -1 <= i < |log|
    ensures i >= 0 ==> log[i].event.Blocked?
    ensures forall j :: i < j < |log| ==> !log[j].event.Blocked?
  {
    if log == [] then -1
    else if log[|log| - 1].event.Blocked? then |log| - 1
    else LastBlock(log[..|log| - 1])
  }

  /** A new block needs a suspicious record in the look-back that is newer than
      every earlier block, and no earlier block that the look-back shows may
      still run. */
  lemma NewBlockIsEarned(s: Settings, log: seq<Record>, now: Time) returns (k: nat)
    requires StoredInOrder(log)
    requires Decide(s, Since(log, now - LookBack(s)), now).NewBlock?
    ensures k < |log| && log[k].event.Suspicious? && now - LookBack(s) <= log[k].created
    ensures forall i :: 0 <= i < |log| && log[i].event.Blocked? ==> log[i].created < log[k].created
    ensures var b := LastBlock(log);
            b >= 0 && log[b].created >= now - LookBack(s) ==> log[b].event.until <= now
  {
    var cutoff := now - LookBack(s);
    var logs := Since(log, cutoff);
    var i := LatestSuspiciousIsThere(logs);
    assert logs[i] in logs;
    SinceShows(log, cutoff, logs[i]);
    k :| 0 <= k < |log| && log[k] == logs[i];
    var b := LastBlock(log);
    if b >= 0 && log[b].created >= cutoff {
      LastBlockShown(log, cutoff, b);
    }
    forall i | 0 <= i < |log| && log[i].event.Blocked? ensures log[i].created < log[k].created {
      assert i <= b;
      assert log[i].created <= log[b].created;
    }
  }

  /** Appending anything but a block; a suspicious record also has to keep its distance. */
  lemma AppendKeeps(s: Settings, log: seq<Record>, t: Time, event: Event, at: Time)
    requires RunOk(s, log, t) && t <= at && !event.Blocked?
    requires event.Suspicious? ==>
               forall i :: 0 <= i < |log| && log[i].event.Suspicious? ==> log[i].created < at - s.window
    ensures RunOk(s, Append(log, event, at), at)
  {
    var next := Append(log, event, at);
    AppendKeepsOrder(log, t, event, at);
    assert forall i :: 0 <= i < |log| ==> next[i] == log[i];
    assert BlocksAreEarned(next) by { EarnedStays(log, next); }
    assert SuspicionsApart(s, next) by { StoredBounds(t, at); }
    BlocksUnaffected(s, log, next);
    assert BlocksTimed(next, at);
  }

  /** A longer log says the same of the blocks it already had. */
  lemma BlocksUnaffected(s: Settings, log: seq<Record>, next: seq<Record>)
    requires LengthsFollow(s, log) && BlocksComeAfter(log) && BlocksHaveCause(s, log)
    requires |log| <= |next| && forall i :: 0 <= i < |log| ==> next[i] == log[i]
    ensures forall i :: 0 <= i < |log| && log[i].event.Blocked? ==>
              && next[i].event.minutes == BlockMinutes(s, ShownBlocks(s, next[..i], BlockStart(next[i])))
              && HasCause(s, next, i)
              && (forall k :: 0 <= k < i ==> next[k].created <= BlockStart(next[i]))
  {
    forall i | 0 <= i < |log| && log[i].event.Blocked?
      ensures next[i].event.minutes == BlockMinutes(s, ShownBlocks(s, next[..i], BlockStart(next[i])))
      ensures HasCause(s, next, i)
    {
      assert next[..i] == log[..i];
      assert HasCause(s, log, i);
      var k :| 0 <= k < i && log[k].event.Suspicious? && BlockStart(log[i]) - LookBack(s) <= log[k].created;
      assert next[k] == log[k];
    }
  }

  lemma AppendKeepsOrder(log: seq<Record>, t: Time, event: Event, at: Time)
    requires StoredInOrder(log) && NotAfter(log, t) && t <= at
    ensures StoredInOrder(Append(log, event, at)) && NotAfter(Append(log, event, at), at)
  {
    StoredBounds(t, at);
  }

  lemma StoredBounds(t: Time, at: Time)
    requires t <= at
    ensures at - SECOND < Stored(at) <= at && Stored(at) % SECOND == 0
    ensures forall c :: c <= t && c % SECOND == 0 ==> c <= Stored(at)
  {
  }

  lemma EarnedStays(log: seq<Record>, next: seq<Record>)
    requires |log| <= |next| && forall i :: 0 <= i < |log| ==> next[i] == log[i]
    ensures forall i, j :: 0 <= i < |log| && 0 <= j < |log| && EarnedBetween(log, i, j) ==> EarnedBetween(next, i, j)
  {
    forall i, j | 0 <= i < |log| && 0 <= j < |log| && EarnedBetween(log, i, j) ensures EarnedBetween(next, i, j) {
      var k :| 0 <= k < j && log[k].event.Suspicious? && log[i].created < log[k].created <= log[j].created;
      assert next[k] == log[k];
    }
  }

  lemma SuspectKeeps(s: Settings, log: seq<Record>, t: Time, now: Time, at: Time)
    requires RunOk(s, log, t) && t <= now <= at
    requires LatestSuspicious(Since(log, now - s.window)).None?
    ensures RunOk(s, Append(log, Suspicious, at), at)
  {
    forall i | 0 <= i < |log| && log[i].event.Suspicious? ensures log[i].created < now - s.window {
      SuspiciousShown(log, now - s.window, i);
    }
    AppendKeeps(s, log, t, Suspicious, at);
  }

  lemma SuspiciousShown(log: seq<Record>, cutoff: Time, i: nat)
    requires i < |log| && log[i].event.Suspicious?
    ensures log[i].created >= cutoff ==> LatestSuspicious(Since(log, cutoff)).Some?
  {
    if log[i].created >= cutoff {
      SinceKeeps(log, cutoff, i);
      var logs := Since(log, cutoff);
      var k :| 0 <= k < |logs| && logs[k] == log[i];
      SuspiciousStays(logs, k);
    }
  }

  lemma EnforceKeeps(s: Settings, log: seq<Record>, t: Time, now: Time, at: Time)
    requires RunOk(s, log, t) && t <= now <= at
    requires Decide(s, Since(log, now - LookBack(s)), now).NewBlock?
    ensures var d := Decide(s, Since(log, now - LookBack(s)), now);
            RunOk(s, Append(log, Blocked(d.until, d.minutes), at), at)
  {
    var d := Decide(s, Since(log, now - LookBack(s)), now);
    var next := Append(log, Blocked(d.until, d.minutes), at);
    AppendKeepsOrder(log, t, Blocked(d.until, d.minutes), at);
    var k := NewBlockIsEarned(s, log, now);
    assert log[k].created <= Stored(at) && at - SECOND < Stored(at) by { StoredBounds(t, at); }
    EarnedAppended(log, next, k);
    BlockAppended(s, log, next, t, now, k);
    BlockTimedAppended(s, log, next, t, now, at);
  }

  lemma BlockTimedAppended(s: Settings, log: seq<Record>, next: seq<Record>, t: Time, now: Time, at: Time)
    requires BlocksTimed(log, t) && SuspicionsApart(s, log) && t <= now <= at
    requires |next| == |log| + 1 && forall i :: 0 <= i < |log| ==> next[i] == log[i]
    requires next[|log|].event.Blocked? && BlockStart(next[|log|]) == now && at - SECOND < next[|log|].created
    ensures BlocksTimed(next, at) && SuspicionsApart(s, next)
  {
  }

  lemma EarnedAppended(log: seq<Record>, next: seq<Record>, k: nat)
    requires BlocksAreEarned(log) && |next| == |log| + 1 && forall i :: 0 <= i < |log| ==> next[i] == log[i]
    requires k < |log| && log[k].event.Suspicious? && log[k].created <= next[|log|].created
    requires forall i :: 0 <= i < |log| && log[i].event.Blocked? ==> log[i].created < log[k].created
    ensures BlocksAreEarned(next)
  {
    EarnedStays(log, next);
    forall i | 0 <= i < |log| && log[i].event.Blocked? ensures EarnedBetween(next, i, |log|) {
      assert next[k] == log[k];
    }
  }

  lemma BlockAppended(s: Settings, log: seq<Record>, next: seq<Record>, t: Time, now: Time, k: nat)
    requires LengthsFollow(s, log) && BlocksComeAfter(log) && BlocksHaveCause(s, log) && NotAfter(log, t) && t <= now
    requires |next| == |log| + 1 && forall i :: 0 <= i < |log| ==> next[i] == log[i]
    requires next[|log|].event.Blocked? && BlockStart(next[|log|]) == now
    requires next[|log|].event.minutes == BlockMinutes(s, ShownBlocks(s, log, now))
    requires k < |log| && log[k].event.Suspicious? && now - LookBack(s) <= log[k].created
    ensures LengthsFollow(s, next) && BlocksComeAfter(next) && BlocksHaveCause(s, next)
  {
    BlocksUnaffected(s, log, next);
    assert next[..|log|] == log;
    assert HasCause(s, next, |log|) by { assert next[k] == log[k]; }
  }

  ghost predicate Admitted(t: Time, a: Action) {
    && t <= Start(a) <= a.at
    && (a.Report? ==> a.event.Failure? || a.event.Unrelated?)
  }

  lemma RunOkLater(s: Settings, log: seq<Record>, t: Time, later: Time)
    requires RunOk(s, log, t) && t <= later
    ensures RunOk(s, log, later)
  {
  }

  lemma StepKeepsRunOk(s: Settings, log: seq<Record>, t: Time, a: Action)
    requires RunOk(s, log, t) && Admitted(t, a)
    ensures RunOk(s, Step(s, log, a), a.at)
  {
    if Step(s, log, a) == log {
      RunOkLater(s, log, t, a.at);
    } else if a.Report? {
      AppendKeeps(s, log, t, a.event, a.at);
    } else if a.Suspect? {
      SuspectKeeps(s, log, t, a.now, a.at);
    } else {
      EnforceKeeps(s, log, t, a.now, a.at);
    }
  }

  /** The time of the last call, or any time before the first one. */
  function Clock(actions: seq<Action>, first: Time): Time {
    if actions == [] then first else actions[|actions| - 1].at
  }

  lemma LastIsAdmitted(actions: seq<Action>)
    requires Timed(actions) && actions != []
    ensures var a := actions[|actions| - 1];
            Timed(actions[..|actions| - 1]) && Admitted(Clock(actions[..|actions| - 1], Start(a)), a)
  {
    var init := actions[..|actions| - 1];
    if init != [] {
      assert init[|init| - 1] == actions[|init| - 1];
    }
  }

  /** Every run, whatever the settings: blocks are earned, suspicious records
      lie apart, block lengths come from the escalation rule. */
  lemma {:induction false} EveryRunOk(s: Settings, actions: seq<Action>, first: Time)
    requires Timed(actions)
    ensures RunOk(s, Run(s, actions), Clock(actions, first))
  {
    if actions != [] {
      var init, a := actions[..|actions| - 1], actions[|actions| - 1];
      LastIsAdmitted(actions);
      EveryRunOk(s, init, Start(a));
      StepKeepsRunOk(s, Run(s, init), Clock(init, Start(a)), a);
    }
  }

  /** With a window of whole seconds, stored suspicious records are at least the
      window apart; the strict form fails by the rounding. */
  lemma SuspicionsAWindowApart(s: Settings, actions: seq<Action>, i: nat, j: nat)
    requires Timed(actions) && s.window % SECOND == 0
    requires i < j < |Run(s, actions)|
    requires Run(s, actions)[i].event.Suspicious? && Run(s, actions)[j].event.Suspicious?
    ensures Run(s, actions)[j].created - Run(s, actions)[i].created >= s.window
  {
    EveryRunOk(s, actions, 0);
    var log := Run(s, actions);
    WholeSecondGap(log[j].created - log[i].created, s.window);
  }

  lemma WholeSecondGap(gap: int, window: int)
    requires gap % SECOND == 0 && window % SECOND == 0 && gap > window - SECOND
    ensures gap >= window
  {
  }

  /** Stored block times strictly increase, so sorting them is well defined. */
  lemma {:induction false} BlockTimesIncrease(log: seq<Record>)
    requires StoredInOrder(log) && BlocksAreEarned(log)
    ensures StrictlyByCreated(Blocks(log))
    ensures forall r :: r in Blocks(log) ==> r in log
  {
    if log != [] {
      var init, r := log[..|log| - 1], log[|log| - 1];
      EarnedPrefix(log);
      BlockTimesIncrease(init);
      forall i | 0 <= i < |Blocks(init)| && r.event.Blocked? ensures Blocks(init)[i].created < r.created {
        assert Blocks(init)[i] in init;
        var j :| 0 <= j < |init| && init[j] == Blocks(init)[i];
        assert EarnedBetween(log, j, |log| - 1);
      }
    }
  }

  lemma EarnedPrefix(log: seq<Record>)
    requires BlocksAreEarned(log) && log != []
    ensures BlocksAreEarned(log[..|log| - 1])
  {
    var init := log[..|log| - 1];
    forall i, j | 0 <= i < j < |init| && init[i].event.Blocked? && init[j].event.Blocked?
      ensures EarnedBetween(init, i, j)
    {
      assert EarnedBetween(log, i, j);
      var k :| 0 <= k < j && log[k].event.Suspicious? && log[i].created < log[k].created <= log[j].created;
      assert init[k] == log[k];
    }
  }
}
