/** Runs in which two blocks of one address overlap, and with them the exact
    conditions under which the settings allow it. */
module LoginOverlapRuns {
  import opened Counters
  import opened LoginAnomaly
  import opened LoginOverlap

  const FIRST: Time := 900_000

  /** A user name of `n` letters. */
  function Name(n: nat): string { seq(n, i => 'a') }

  /** `n` failures with as many names, all at `t`. */
  function Fails(t: Time, n: nat): seq<Action> {
    if n == 0 then [] else Fails(t, n - 1) + [Report(Failure(Name(n)), t)]
  }

  /** The records they leave, stored at `c`. */
  function FailLog(c: Time, n: nat): seq<Record> {
    if n == 0 then [] else FailLog(c, n - 1) + [Record(c, Failure(Name(n)))]
  }

  function Enough(s: Settings): nat {
    if s.minFailures > s.minUsernames then s.minFailures else s.minUsernames
  }

  /** Enough failures to look suspicious, and the call that records it. */
  function Provoke(s: Settings, t: Time): seq<Action> { Fails(t, Enough(s)) + [Suspect(t, t, true)] }

  function ProvokeLog(s: Settings, c: Time): seq<Record> {
    FailLog(c, Enough(s)) + [Record(c, Suspicious)]
  }

  lemma RunOnce(s: Settings, before: seq<Action>, a: Action)
    ensures Run(s, before + [a]) == Step(s, Run(s, before), a)
  {
    assert (before + [a])[..|before|] == before;
  }

  lemma {:induction false} RunFails(s: Settings, before: seq<Action>, t: Time, n: nat)
    ensures Run(s, before + Fails(t, n)) == Run(s, before) + FailLog(Stored(t), n)
  {
    if n == 0 {
      assert before + [] == before && Run(s, before) + [] == Run(s, before);
    } else {
      RunFails(s, before, t, n - 1);
      var last := Report(Failure(Name(n)), t);
      Joined(before, Fails(t, n - 1), last);
      RunOnce(s, before + Fails(t, n - 1), last);
      Joined(Run(s, before), FailLog(Stored(t), n - 1), Record(Stored(t), Failure(Name(n))));
    }
  }

  lemma Joined<T>(a: seq<T>, b: seq<T>, x: T)
    ensures a + (b + [x]) == (a + b) + [x]
  {
  }

  lemma {:induction false} FailLogIs(c: Time, n: nat)
    ensures |FailLog(c, n)| == n
    ensures forall r :: r in FailLog(c, n) ==> r.created == c && r.event.Failure?
    ensures Failures(FailLog(c, n)) == FailLog(c, n)
    ensures Blocks(FailLog(c, n)) == [] && LatestSuspicious(FailLog(c, n)).None?
  {
    if n > 0 {
      FailLogIs(c, n - 1);
      assert FailLog(c, n)[..n - 1] == FailLog(c, n - 1);
    }
  }

  lemma {:induction false} ManyNames(c: Time, n: nat)
    ensures |Usernames(FailLog(c, n))| == n
    ensures forall name :: name in Usernames(FailLog(c, n)) ==> 0 < |name| <= n
  {
    if n > 0 {
      ManyNames(c, n - 1);
      OneMoreName(FailLog(c, n - 1), Record(c, Failure(Name(n))));
      assert |Name(n)| == n && Name(n) !in Usernames(FailLog(c, n - 1));
    }
  }

  lemma OneMoreName(log: seq<Record>, r: Record)
    requires r.event.Failure? && r.event.username != ""
    ensures Usernames(log + [r]) == Usernames(log) + {r.event.username}
  {
    assert forall x :: x in log + [r] <==> x in log || x == r;
  }

  // --- reading a log that has grown

  lemma {:induction false} SinceAppend(a: seq<Record>, b: seq<Record>, cutoff: Time)
    ensures Since(a + b, cutoff) == Since(a, cutoff) + Since(b, cutoff)
  {
    if b == [] {
      assert a + b == a;
    } else {
      assert (a + b)[..|a + b| - 1] == a + b[..|b| - 1];
      SinceAppend(a, b[..|b| - 1], cutoff);
    }
  }

  lemma {:induction false} SinceAll(log: seq<Record>, cutoff: Time)
    requires forall r :: r in log ==> r.created >= cutoff
    ensures Since(log, cutoff) == log
  {
    if log != [] {
      SinceAll(log[..|log| - 1], cutoff);
      assert log[|log| - 1] in log;
    }
  }

  lemma {:induction false} SinceNone(log: seq<Record>, cutoff: Time)
    requires forall r :: r in log ==> r.created < cutoff
    ensures Since(log, cutoff) == []
  {
    if log != [] {
      SinceNone(log[..|log| - 1], cutoff);
      assert log[|log| - 1] in log;
    }
  }

  lemma {:induction false} BlocksAppend(a: seq<Record>, b: seq<Record>)
    ensures Blocks(a + b) == Blocks(a) + Blocks(b)
  {
    if b == [] {
      assert a + b == a;
    } else {
      assert (a + b)[..|a + b| - 1] == a + b[..|b| - 1];
      BlocksAppend(a, b[..|b| - 1]);
    }
  }

  lemma {:induction false} FailuresAppend(a: seq<Record>, b: seq<Record>)
    ensures Failures(a + b) == Failures(a) + Failures(b)
  {
    if b == [] {
      assert a + b == a;
    } else {
      assert (a + b)[..|a + b| - 1] == a + b[..|b| - 1];
      FailuresAppend(a, b[..|b| - 1]);
    }
  }

  lemma {:induction false} NoSuspicious(log: seq<Record>)
    requires forall r :: r in log ==> !r.event.Suspicious?
    ensures LatestSuspicious(log).None?
  {
    if log != [] {
      NoSuspicious(log[..|log| - 1]);
      assert log[|log| - 1] in log;
    }
  }

  /** A time within a second after a whole second. */
  lemma StoredAs(whole: Time, fraction: int)
    requires whole % SECOND == 0 && 0 <= fraction < SECOND
    ensures Stored(whole + fraction) == whole
  {
  }

  // --- one provocation

  lemma EnoughFailures(s: Settings, old_: seq<Record>, c: Time)
    ensures var seen := Failures(old_ + FailLog(c, Enough(s)));
            |seen| >= s.minFailures && |Usernames(seen)| >= s.minUsernames
  {
    var n := Enough(s);
    FailLogIs(c, n);
    ManyNames(c, n);
    FailuresAppend(old_, FailLog(c, n));
    var seen := Failures(old_) + FailLog(c, n);
    assert Usernames(FailLog(c, n)) <= Usernames(seen);
    SubsetNotLarger(Usernames(FailLog(c, n)), Usernames(seen));
  }

  lemma {:induction false} SubsetNotLarger(a: set<string>, b: set<string>)
    requires a <= b
    ensures |a| <= |b|
  {
    if a != {} {
      var x :| x in a;
      SubsetNotLarger(a - {x}, b - {x});
    }
  }

  /** With no suspicious record in the window, the provocation is recorded. */
  lemma ProvokeIsLogged(s: Settings, before: seq<Action>, log: seq<Record>, t: Time)
    requires Run(s, before) == log && s.window >= SECOND
    requires forall r :: r in log && r.event.Suspicious? ==> r.created < t - s.window
    ensures Run(s, before + Provoke(s, t)) == log + ProvokeLog(s, Stored(t))
  {
    var n, c := Enough(s), Stored(t);
    RunFails(s, before, t, n);
    Joined(before, Fails(t, n), Suspect(t, t, true));
    RunOnce(s, before + Fails(t, n), Suspect(t, t, true));
    assert c >= t - s.window by { StoredBounds(t, t); }
    ProvokedLooksSuspicious(s, log, c, t - s.window);
    Joined(log, FailLog(c, n), Record(c, Suspicious));
  }

  lemma ProvokedLooksSuspicious(s: Settings, log: seq<Record>, c: Time, cutoff: Time)
    requires cutoff <= c
    requires forall r :: r in log && r.event.Suspicious? ==> r.created < cutoff
    ensures LooksSuspicious(s, Since(log + FailLog(c, Enough(s)), cutoff))
  {
    var fails := FailLog(c, Enough(s));
    FailLogIs(c, Enough(s));
    SinceAppend(log, fails, cutoff);
    SinceAll(fails, cutoff);
    NothingSuspicious(log, fails, cutoff);
    EnoughFailures(s, Since(log, cutoff), c);
  }

  lemma NothingSuspicious(log: seq<Record>, fails: seq<Record>, cutoff: Time)
    requires forall r :: r in log && r.event.Suspicious? ==> r.created < cutoff
    requires forall r :: r in fails ==> r.event.Failure?
    ensures LatestSuspicious(Since(log, cutoff) + fails).None?
  {
    var seen := Since(log, cutoff) + fails;
    forall r | r in seen ensures !r.event.Suspicious? {
      if r in Since(log, cutoff) { SinceShows(log, cutoff, r); }
    }
    NoSuspicious(seen);
  }

  // --- one block

  /** A block that begins at `t`, stored at `c`. */
  function NewRecord(c: Time, t: Time, minutes: nat): Record { Record(c, Blocked(t + minutes * MINUTE, minutes)) }

  lemma EnforceIsLogged(s: Settings, before: seq<Action>, log: seq<Record>, t: Time, minutes: nat)
    requires Run(s, before) == log
    requires Decide(s, Since(log, t - LookBack(s)), t) == NewBlock(t + minutes * MINUTE, minutes)
    ensures Run(s, before + [Enforce(t, t, true)]) == log + [NewRecord(Stored(t), t, minutes)]
  {
    RunOnce(s, before, Enforce(t, t, true));
    StepOfBlock(s, log, t, minutes);
  }

  lemma StepOfBlock(s: Settings, log: seq<Record>, t: Time, minutes: nat)
    requires Decide(s, Since(log, t - LookBack(s)), t) == NewBlock(t + minutes * MINUTE, minutes)
    ensures Step(s, log, Enforce(t, t, true)) == log + [NewRecord(Stored(t), t, minutes)]
  {
  }

  lemma DecidesToBlock(s: Settings, shown: seq<Record>, t: Time, suspicious: Time)
    requires LatestSuspicious(shown) == Some(suspicious)
    requires var blocks := Blocks(shown);
             blocks != [] ==> var last := blocks[|blocks| - 1]; last.event.until <= t && last.created < suspicious
    ensures var minutes := BlockMinutes(s, |Blocks(shown)|);
            Decide(s, shown, t) == NewBlock(t + minutes * MINUTE, minutes)
  {
  }

  lemma LatestAfterProvoke(s: Settings, log: seq<Record>, c: Time)
    requires forall r :: r in log ==> r.created <= c
    ensures LatestSuspicious(log + ProvokeLog(s, c)) == Some(c)
  {
    var all := log + ProvokeLog(s, c);
    var last := |all| - 1;
    assert all[last] == Record(c, Suspicious);
    FailLogIs(c, Enough(s));
    SuspiciousStays(all, last);
    var i := LatestSuspiciousIsThere(all);
    assert all[i] in log || all[i] in ProvokeLog(s, c);
  }

  lemma BlocksAfterProvoke(s: Settings, log: seq<Record>, c: Time)
    ensures Blocks(log + ProvokeLog(s, c)) == Blocks(log)
    ensures forall r :: r in ProvokeLog(s, c) ==> r.created == c && !r.event.Blocked?
  {
    FailLogIs(c, Enough(s));
    BlocksAppend(log, ProvokeLog(s, c));
    BlocksAppend(FailLog(c, Enough(s)), [Record(c, Suspicious)]);
    assert Blocks([Record(c, Suspicious)]) == [];
    assert Blocks(log) + [] == Blocks(log);
  }

  // --- timed runs

  lemma TimedMore(actions: seq<Action>, more: seq<Action>, t: Time)
    requires Timed(actions) && forall a :: a in actions ==> a.at <= t
    requires forall a :: a in more ==> Start(a) == t == a.at && (a.Report? ==> a.event.Failure?)
    ensures Timed(actions + more) && forall a :: a in actions + more ==> a.at <= t
  {
    var all := actions + more;
    forall i | 0 <= i < |all|
      ensures i < |actions| ==> all[i] in actions
      ensures i >= |actions| ==> all[i] in more
    {
    }
  }

  lemma PromptMore(actions: seq<Action>, more: seq<Action>, delay: nat)
    requires Prompt(actions, delay) && forall a :: a in more ==> a.at <= Start(a) + delay
    ensures Prompt(actions + more, delay)
  {
    var all := actions + more;
    forall i | 0 <= i < |all| ensures all[i].at <= Start(all[i]) + delay {
      if i >= |actions| { assert all[i] in more; }
    }
  }

  lemma {:induction false} FailsAt(t: Time, n: nat)
    ensures forall a :: a in Fails(t, n) ==> Start(a) == t == a.at && a.Report? && a.event.Failure?
  {
    if n > 0 { FailsAt(t, n - 1); }
  }

  lemma ProvokeAt(s: Settings, t: Time)
    ensures forall a :: a in Provoke(s, t) ==> Start(a) == t == a.at && (a.Report? ==> a.event.Failure?)
  {
    FailsAt(t, Enough(s));
  }

  /** The last step of every overlapping run: everything stored so far has left
      the look-back, one of the blocks has not ended, and the address provokes
      a new one. */
  lemma ForgottenBlockOverlaps(s: Settings, actions: seq<Action>, i: nat, t: Time, delay: nat)
    requires Timed(actions) && Prompt(actions, delay) && (forall a :: a in actions ==> a.at <= t)
    requires s.window >= SECOND && LookBack(s) >= SECOND
    requires forall r :: r in Run(s, actions) ==> r.created < t - LookBack(s)
    requires forall r :: r in Run(s, actions) && r.event.Suspicious? ==> r.created < t - s.window
    requires i < |Run(s, actions)| && Run(s, actions)[i].event.Blocked? && t < Run(s, actions)[i].event.until
    ensures OverlapWithin(s, delay)
  {
    var log, all := Run(s, actions), actions + Provoke(s, t) + [Enforce(t, t, true)];
    AttemptTimed(s, actions, t);
    AttemptPrompt(s, actions, t, delay);
    var minutes := AttemptAfterAll(s, actions, t);
    var now := log + ProvokeLog(s, Stored(t));
    var block := NewRecord(Stored(t), t, minutes);
    assert (now + [block])[i] == log[i] && (now + [block])[|now|] == block;
    OverlapIn(now + [block], i, |now|, t);
  }

  /** The new block is the only one the look-back shows. */
  lemma AttemptAfterAll(s: Settings, actions: seq<Action>, t: Time) returns (minutes: nat)
    requires s.window >= SECOND && LookBack(s) >= SECOND
    requires forall r :: r in Run(s, actions) ==> r.created < t - LookBack(s)
    requires forall r :: r in Run(s, actions) && r.event.Suspicious? ==> r.created < t - s.window
    ensures Run(s, actions + Provoke(s, t) + [Enforce(t, t, true)])
         == Run(s, actions) + ProvokeLog(s, Stored(t)) + [NewRecord(Stored(t), t, minutes)]
  {
    minutes := BlockMinutes(s, 0);
    assert Stored(t) >= t - LookBack(s) by { StoredBounds(t, t); }
    ProvokeIsLogged(s, actions, Run(s, actions), t);
    BlockIsLogged(s, actions + Provoke(s, t), Run(s, actions), t, Stored(t), minutes);
  }

  lemma BlockIsLogged(s: Settings, provoked: seq<Action>, log: seq<Record>, t: Time, c: Time, minutes: nat)
    requires Run(s, provoked) == log + ProvokeLog(s, c) && minutes == BlockMinutes(s, 0)
    requires t - LookBack(s) <= c && forall r :: r in log ==> r.created < t - LookBack(s)
    ensures Run(s, provoked + [Enforce(t, t, true)]) == log + ProvokeLog(s, c) + [NewRecord(Stored(t), t, minutes)]
  {
    ProvocationIsBlocked(s, log, c, t, t - LookBack(s));
    EnforceIsLogged(s, provoked, log + ProvokeLog(s, c), t, minutes);
  }

  lemma ProvocationIsBlocked(s: Settings, log: seq<Record>, c: Time, t: Time, cutoff: Time)
    requires cutoff <= c && forall r :: r in log ==> r.created < cutoff
    ensures Decide(s, Since(log + ProvokeLog(s, c), cutoff), t)
         == NewBlock(t + BlockMinutes(s, 0) * MINUTE, BlockMinutes(s, 0))
  {
    OnlyTheProvocation(s, log, c, cutoff);
    var shown := Since(log + ProvokeLog(s, c), cutoff);
    assert |Blocks(shown)| == 0;
    DecidesToBlock(s, shown, t, c);
  }

  lemma AttemptPrompt(s: Settings, actions: seq<Action>, t: Time, delay: nat)
    requires Prompt(actions, delay)
    ensures Prompt(actions + Provoke(s, t) + [Enforce(t, t, true)], delay)
  {
    ProvokeAt(s, t);
    PromptMore(actions, Provoke(s, t), delay);
    PromptMore(actions + Provoke(s, t), [Enforce(t, t, true)], delay);
  }

  lemma AttemptTimed(s: Settings, actions: seq<Action>, t: Time)
    requires Timed(actions) && forall a :: a in actions ==> a.at <= t
    ensures var all := actions + Provoke(s, t) + [Enforce(t, t, true)];
            Timed(all) && forall a :: a in all ==> a.at <= t
  {
    ProvokeAt(s, t);
    TimedMore(actions, Provoke(s, t), t);
    TimedMore(actions + Provoke(s, t), [Enforce(t, t, true)], t);
  }

  lemma OverlapIn(log: seq<Record>, i: nat, j: nat, t: Time)
    requires i < j < |log| && log[i].event.Blocked? && log[j].event.Blocked?
    requires BlockStart(log[j]) == t < log[i].event.until
    ensures !BlocksApart(log, 0)
  {
  }

  lemma OnlyTheProvocation(s: Settings, log: seq<Record>, c: Time, cutoff: Time)
    requires cutoff <= c && forall r :: r in log ==> r.created < cutoff
    ensures var shown := Since(log + ProvokeLog(s, c), cutoff);
            Blocks(shown) == [] && LatestSuspicious(shown) == Some(c)
  {
    SinceAppend(log, ProvokeLog(s, c), cutoff);
    SinceNone(log, cutoff);
    BlocksAfterProvoke(s, [], c);
    SinceAll(ProvokeLog(s, c), cutoff);
    assert [] + ProvokeLog(s, c) == ProvokeLog(s, c);
    LatestAfterProvoke(s, [], c);
    assert Blocks([]) == [];
  }

  // ------------------------------------------------ a first block that is long enough

  lemma ProvokeBlocked(s: Settings, before: seq<Action>, log: seq<Record>, t: Time, k: nat, suspicious: Time)
    requires Run(s, before) == log && Since(log, t - LookBack(s)) == log
    requires LatestSuspicious(log) == Some(suspicious) && |Blocks(log)| == k
    requires k > 0 ==> var last := Blocks(log)[k - 1]; last.event.until <= t && last.created < suspicious
    ensures Run(s, before + [Enforce(t, t, true)]) == log + [NewRecord(Stored(t), t, BlockMinutes(s, k))]
  {
    DecidesToBlock(s, log, t, suspicious);
    EnforceIsLogged(s, before, log, t, BlockMinutes(s, k));
  }

  /** The first provocation is stored at 0. */
  lemma FirstProvocation(s: Settings)
    requires s.window >= SECOND
    ensures Run(s, Provoke(s, FIRST)) == ProvokeLog(s, 0)
    ensures Timed(Provoke(s, FIRST)) && forall a :: a in Provoke(s, FIRST) ==> a.at <= FIRST
    ensures forall r :: r in ProvokeLog(s, 0) ==> r.created == 0 && !r.event.Blocked?
  {
    StoredAs(0, FIRST);
    ProvokeIsLogged(s, [], [], FIRST);
    assert [] + Provoke(s, FIRST) == Provoke(s, FIRST) && [] + ProvokeLog(s, 0) == ProvokeLog(s, 0);
    BlocksAfterProvoke(s, [], 0);
    ProvokeAt(s, FIRST);
    TimedMore([], Provoke(s, FIRST), FIRST);
  }

  lemma FirstRead(s: Settings, cutoff: Time)
    requires cutoff <= 0
    ensures var log := ProvokeLog(s, 0);
            Since(log, cutoff) == log && LatestSuspicious(log) == Some(0) && Blocks(log) == []
  {
    var log := ProvokeLog(s, 0);
    assert [] + log == log && Blocks([]) == [];
    LatestAfterProvoke(s, [], 0);
    BlocksAfterProvoke(s, [], 0);
    SinceAll(log, cutoff);
  }

  /** The block begins when that record is about to leave the look-back. */
  lemma LateBlock(s: Settings, t: Time)
    requires s.window >= SECOND && FIRST <= t <= LookBack(s)
    ensures var actions := Provoke(s, FIRST) + [Enforce(t, t, true)];
            && Timed(actions) && Prompt(actions, 0) && (forall a :: a in actions ==> a.at <= t)
            && Run(s, actions) == ProvokeLog(s, 0) + [NewRecord(Stored(t), t, BlockMinutes(s, 0))]
  {
    FirstProvocation(s);
    FirstRead(s, t - LookBack(s));
    ProvokeBlocked(s, Provoke(s, FIRST), ProvokeLog(s, 0), t, 0, 0);
    TimedMore(Provoke(s, FIRST), [Enforce(t, t, true)], t);
    LatePrompt(s, t);
  }

  lemma LatePrompt(s: Settings, t: Time)
    ensures Prompt(Provoke(s, FIRST) + [Enforce(t, t, true)], 0)
  {
    ProvokeAt(s, FIRST);
    PromptMore([], Provoke(s, FIRST), 0);
    assert [] + Provoke(s, FIRST) == Provoke(s, FIRST);
    PromptMore(Provoke(s, FIRST), [Enforce(t, t, true)], 0);
  }

  lemma LateLog(s: Settings, t: Time, r: Record)
    requires s.window >= SECOND && r in ProvokeLog(s, 0) + [NewRecord(Stored(t), t, BlockMinutes(s, 0))]
    ensures r.created == 0 || r.created == Stored(t)
    ensures r.event.Suspicious? ==> r.created == 0
  {
    FirstProvocation(s);
  }

  /** If the first block is as long as the look-back, an overlap only needs the
      second suspicious record to fit between the first and the block's end. */
  lemma LongFirstBlockOverlaps(s: Settings)
    requires InWholeSeconds(s) && SECOND <= LookBack(s) <= BlockMinutes(s, 0) * MINUTE
    requires SECOND <= s.window < 2 * LookBack(s)
    ensures OverlapWithin(s, 0)
  {
    LateTimes(LookBack(s), s.window);
    LateRun(s, LookBack(s), LookBack(s) - 100_000, 2 * LookBack(s) - 500_000);
  }

  lemma LateTimes(lookBack: int, window: int)
    requires lookBack % SECOND == 0 && window % SECOND == 0 && window < 2 * lookBack
    ensures Stored(lookBack - 100_000) == lookBack - SECOND && window <= 2 * lookBack - SECOND
  {
    StoredAs(lookBack - SECOND, 900_000);
    WindowRoom(window, lookBack);
  }

  lemma LateRun(s: Settings, lookBack: int, t: Time, u: Time)
    requires SECOND <= lookBack == LookBack(s) <= BlockMinutes(s, 0) * MINUTE
    requires t == lookBack - 100_000 && u == t + lookBack - 400_000 && Stored(t) == lookBack - SECOND
    requires SECOND <= s.window <= 2 * lookBack - SECOND
    ensures OverlapWithin(s, 0)
  {
    LateBlock(s, t);
    LateOverlaps(s, Provoke(s, FIRST) + [Enforce(t, t, true)], t, u);
  }

  lemma LateOverlaps(s: Settings, actions: seq<Action>, t: Time, u: Time)
    requires s.window >= SECOND && LookBack(s) >= SECOND
    requires Timed(actions) && Prompt(actions, 0) && (forall a :: a in actions ==> a.at <= t) && t <= u < t + BlockMinutes(s, 0) * MINUTE
    requires Run(s, actions) == ProvokeLog(s, 0) + [NewRecord(Stored(t), t, BlockMinutes(s, 0))]
    requires 0 < u - LookBack(s) && Stored(t) < u - LookBack(s) && 0 < u - s.window
    ensures OverlapWithin(s, 0)
  {
    var log := Run(s, actions);
    forall r | r in log
      ensures r.created < u - LookBack(s) && (r.event.Suspicious? ==> r.created < u - s.window)
    {
      LateLog(s, t, r);
    }
    assert log[|log| - 1] == NewRecord(Stored(t), t, BlockMinutes(s, 0));
    ForgottenBlockOverlaps(s, actions, |log| - 1, u, 0);
  }

  lemma WindowRoom(window: int, lookBack: int)
    requires window % SECOND == 0 && lookBack % SECOND == 0 && window < 2 * lookBack
    ensures window <= 2 * lookBack - SECOND
  {
  }

  /** Without escalation, and in whole minutes, blocks can overlap exactly when
      the window is shorter than two blocks. */
  lemma OverlapExactlyWhen(s: Settings)
    requires !s.escalation && s.multiplier >= 1
    requires s.blockWindow > 0 && s.blockWindow % MINUTE == 0 && s.window > 0 && s.window % MINUTE == 0
    ensures OverlapPossible(s) <==> s.window < 2 * s.blockWindow
  {
    WholeMinuteSettings(s);
    if s.window < 2 * s.blockWindow {
      LongFirstBlockOverlaps(s);
      WithinIsPossible(s, 0);
    } else {
      forall actions | Timed(actions) ensures BlocksApart(Run(s, actions), 0) {
        NeverOverlaps(s, actions);
      }
    }
  }

  lemma WithinIsPossible(s: Settings, delay: nat)
    requires OverlapWithin(s, delay)
    ensures OverlapPossible(s)
  {
  }

  lemma MoreDelay(s: Settings, less: nat, more: nat)
    requires OverlapWithin(s, less) && less <= more
    ensures OverlapWithin(s, more)
  {
    var actions :| Timed(actions) && Prompt(actions, less) && !BlocksApart(Run(s, actions), 0);
    assert Prompt(actions, more);
  }

  lemma WholeMinuteSettings(s: Settings)
    requires !s.escalation && s.multiplier >= 1
    requires s.blockWindow > 0 && s.blockWindow % MINUTE == 0 && s.window > 0 && s.window % MINUTE == 0
    ensures InWholeSeconds(s) && s.window >= SECOND
    ensures LookBack(s) == s.blockWindow >= SECOND
    ensures forall k: nat :: BlockMinutes(s, k) * MINUTE == s.blockWindow
  {
    var minutes := s.blockWindow / MINUTE;
    assert s.blockWindow == minutes * MINUTE && minutes >= 1;
    assert s.blockWindow == (minutes * 60) * SECOND;
    WholeSeconds(minutes * 60);
    var w := s.window / MINUTE;
    assert s.window == w * MINUTE && w >= 1;
    assert s.window == (w * 60) * SECOND;
    WholeSeconds(w * 60);
  }

  lemma WholeSeconds(n: int)
    ensures (n * SECOND) % SECOND == 0
  {
  }

  // ---------------------------------------------------------- escalation in a row

  function Longer(a: int, b: int): int { if a < b then b else a }

  /** The least time in which `i` blocks can follow each other. */
  function Gap(s: Settings, i: nat): int {
    if i == 0 then 0 else Gap(s, i - 1) + Longer(BlockMinutes(s, i - 1) * MINUTE, s.window)
  }

  function At(s: Settings, i: nat): Time { FIRST + Gap(s, i) }

  const DELAY: nat := 100_000

  /** `i` blocks in a row, the last one begun at `t` and stored at `c`; the last
      suspicious record was stored at `m`. */
  ghost predicate RowOk(s: Settings, i: nat, actions: seq<Action>, log: seq<Record>, t: Time, c: Time, m: Time) {
    && i > 0 && Timed(actions) && Prompt(actions, DELAY) && |Blocks(log)| == i && log != []
    && (forall a :: a in actions ==> a.at <= t + DELAY)
    && (forall r :: r in log ==> r.created <= c && (r.event.Suspicious? ==> r.created <= m))
    && (forall r :: r in log && r.event.Blocked? ==> SECOND <= r.created)
    && log[|log| - 1] == Blocks(log)[i - 1] == NewRecord(c, t, BlockMinutes(s, i - 1))
  }

  lemma {:induction false} GapInSeconds(s: Settings, i: nat)
    requires s.window % SECOND == 0 && s.window >= SECOND
    ensures Gap(s, i) >= 0 && Gap(s, i) % SECOND == 0 && Stored(At(s, i)) == Gap(s, i)
    ensures i > 0 ==> Gap(s, i - 1) + s.window <= Gap(s, i) && At(s, i - 1) + BlockMinutes(s, i - 1) * MINUTE <= At(s, i)
  {
    if i > 0 {
      GapInSeconds(s, i - 1);
      var m := BlockMinutes(s, i - 1);
      assert m * MINUTE == (m * 60) * SECOND;
      WholeSeconds(m * 60);
      SumOfSeconds(Gap(s, i - 1), Longer(m * MINUTE, s.window));
    }
    StoredAs(Gap(s, i), FIRST);
  }

  lemma SumOfSeconds(a: int, b: int)
    requires a % SECOND == 0 && b % SECOND == 0
    ensures (a + b) % SECOND == 0
  {
  }

  /** The first block of the row, its record stored a tenth of a second late. */
  lemma FirstInARow(s: Settings) returns (actions: seq<Action>)
    requires s.window >= SECOND && LookBack(s) >= FIRST
    ensures RowOk(s, 1, actions, Run(s, actions), FIRST, SECOND, 0)
  {
    FirstRun(s);
    FirstTimed(s);
    FirstProvocation(s);
    actions := Provoke(s, FIRST) + [Enforce(FIRST, SECOND, true)];
    FirstRow(s, actions, ProvokeLog(s, 0), NewRecord(SECOND, FIRST, BlockMinutes(s, 0)));
  }

  lemma FirstRow(s: Settings, actions: seq<Action>, log: seq<Record>, block: Record)
    requires Timed(actions) && Prompt(actions, DELAY) && (forall a :: a in actions ==> a.at <= FIRST + DELAY)
    requires block == NewRecord(SECOND, FIRST, BlockMinutes(s, 0)) && Blocks(log) == []
    requires forall r :: r in log ==> r.created == 0 && !r.event.Blocked?
    ensures RowOk(s, 1, actions, log + [block], FIRST, SECOND, 0)
  {
    assert (log + [block])[..|log|] == log;
  }

  lemma FirstRun(s: Settings)
    requires s.window >= SECOND && LookBack(s) >= FIRST
    ensures Run(s, Provoke(s, FIRST) + [Enforce(FIRST, SECOND, true)])
         == ProvokeLog(s, 0) + [NewRecord(SECOND, FIRST, BlockMinutes(s, 0))]
    ensures Blocks(ProvokeLog(s, 0)) == []
  {
    FirstProvocation(s);
    FirstDecision(s, FIRST - LookBack(s));
    RunOnce(s, Provoke(s, FIRST), Enforce(FIRST, SECOND, true));
    assert Stored(SECOND) == SECOND by { StoredAs(SECOND, 0); }
    LateStep(s, ProvokeLog(s, 0), FIRST, SECOND, BlockMinutes(s, 0));
  }

  lemma FirstDecision(s: Settings, cutoff: Time)
    requires cutoff <= 0
    ensures Blocks(ProvokeLog(s, 0)) == []
    ensures Decide(s, Since(ProvokeLog(s, 0), cutoff), FIRST)
         == NewBlock(FIRST + BlockMinutes(s, 0) * MINUTE, BlockMinutes(s, 0))
  {
    FirstRead(s, cutoff);
    DecidesToBlock(s, ProvokeLog(s, 0), FIRST, 0);
  }

  lemma FirstTimed(s: Settings)
    ensures var actions := Provoke(s, FIRST) + [Enforce(FIRST, SECOND, true)];
            Timed(actions) && Prompt(actions, DELAY) && forall a :: a in actions ==> a.at <= FIRST + DELAY
  {
    var provoked := Provoke(s, FIRST);
    ProvokeAt(s, FIRST);
    TimedMore([], provoked, FIRST);
    PromptMore([], provoked, DELAY);
    assert [] + provoked == provoked;
    LateIsTimed(provoked, FIRST, SECOND);
  }

  lemma LateIsTimed(actions: seq<Action>, t: Time, at: Time)
    requires Timed(actions) && Prompt(actions, DELAY) && (forall a :: a in actions ==> a.at <= t)
    requires t <= at <= t + DELAY
    ensures var all := actions + [Enforce(t, at, true)];
            Timed(all) && Prompt(all, DELAY) && forall a :: a in all ==> a.at <= t + DELAY
  {
    var all := actions + [Enforce(t, at, true)];
    forall i | 0 <= i < |actions| ensures all[i] == actions[i] && all[i] in actions {}
  }

  lemma LateStep(s: Settings, log: seq<Record>, t: Time, at: Time, minutes: nat)
    requires Decide(s, Since(log, t - LookBack(s)), t) == NewBlock(t + minutes * MINUTE, minutes)
    ensures Step(s, log, Enforce(t, at, true)) == log + [NewRecord(Stored(at), t, minutes)]
  {
  }

  /** When the next provocation of the row comes. */
  lemma NextTime(s: Settings, i: nat)
    requires i > 0 && s.window % SECOND == 0 && s.window >= SECOND && s.multiplier >= 1
    ensures var t, t', c' := At(s, i - 1), At(s, i), Gap(s, i);
            && Stored(t') == c' && SECOND < c' && t + DELAY <= t' && t + BlockMinutes(s, i - 1) * MINUTE <= t'
            && Gap(s, i - 1) < c' && Gap(s, i - 1) < t' - s.window
  {
    GapInSeconds(s, i);
    GapInSeconds(s, i - 1);
    BlockIsAMinute(s, i - 1);
  }

  lemma BlockIsAMinute(s: Settings, k: nat)
    requires s.multiplier >= 1
    ensures BlockMinutes(s, k) >= 1
  {
    PowerMonotone(s.multiplier, 0, k);
    MulMonotone(WholeMinutes(s.blockWindow), 1, Power(s.multiplier, k));
  }

  lemma RowRun(s: Settings, i: nat, actions: seq<Action>, log: seq<Record>, t: Time, c: Time, m: Time, t': Time, c': Time)
    requires Run(s, actions) == log && RowOk(s, i, actions, log, t, c, m)
    requires s.window >= SECOND && t' - LookBack(s) <= SECOND <= c' && Stored(t') == c' && t + DELAY <= t'
    requires c < c' && m <= c' && m < t' - s.window && t + BlockMinutes(s, i - 1) * MINUTE <= t'
    ensures var next := actions + Provoke(s, t') + [Enforce(t', t', true)];
            RowOk(s, i + 1, next, Run(s, next), t', c', c')
  {
    var next := actions + Provoke(s, t') + [Enforce(t', t', true)];
    RowLog(s, i, actions, log, t, c, m, t', c');
    AttemptTimed(s, actions, t');
    AttemptPrompt(s, actions, t', DELAY);
    RowGrows(s, log, c', NewRecord(c', t', BlockMinutes(s, i)));
    RowNext(s, i, next, log, Run(s, next), t', c');
  }

  lemma RowLog(s: Settings, i: nat, actions: seq<Action>, log: seq<Record>, t: Time, c: Time, m: Time, t': Time, c': Time)
    requires Run(s, actions) == log && RowOk(s, i, actions, log, t, c, m)
    requires s.window >= SECOND && t' - LookBack(s) <= SECOND <= c' && Stored(t') == c'
    requires c < c' && m < t' - s.window && t + BlockMinutes(s, i - 1) * MINUTE <= t'
    ensures Run(s, actions + Provoke(s, t') + [Enforce(t', t', true)])
         == log + ProvokeLog(s, c') + [NewRecord(c', t', BlockMinutes(s, i))]
  {
    ProvokeIsLogged(s, actions, log, t');
    RowBlocked(s, i, log, t, c, t', c');
    EnforceIsLogged(s, actions + Provoke(s, t'), log + ProvokeLog(s, c'), t', BlockMinutes(s, i));
  }

  lemma RowBlocked(s: Settings, i: nat, log: seq<Record>, t: Time, c: Time, t': Time, c': Time)
    requires t' - LookBack(s) <= SECOND <= c' && |Blocks(log)| == i > 0 && c < c'
    requires forall r :: r in log ==> r.created <= c'
    requires forall r :: r in log && r.event.Blocked? ==> SECOND <= r.created
    requires Blocks(log)[i - 1] == NewRecord(c, t, BlockMinutes(s, i - 1))
    requires t + BlockMinutes(s, i - 1) * MINUTE <= t'
    ensures Decide(s, Since(log + ProvokeLog(s, c'), t' - LookBack(s)), t')
         == NewBlock(t' + BlockMinutes(s, i) * MINUTE, BlockMinutes(s, i))
  {
    RowShown(s, log, c', t' - LookBack(s));
    DecidesToBlock(s, Since(log + ProvokeLog(s, c'), t' - LookBack(s)), t', c');
  }

  lemma RowNext(s: Settings, i: nat, next: seq<Action>, log: seq<Record>, run: seq<Record>, t: Time, c: Time)
    requires Timed(next) && Prompt(next, DELAY) && (forall a :: a in next ==> a.at <= t) && |Blocks(log)| == i
    requires run == log + ProvokeLog(s, c) + [NewRecord(c, t, BlockMinutes(s, i))]
    requires Blocks(run) == Blocks(log) + [NewRecord(c, t, BlockMinutes(s, i))]
    requires forall r :: r in run ==> r.created <= c && (r.event.Blocked? ==> SECOND <= r.created)
    ensures RowOk(s, i + 1, next, run, t, c, c)
  {
  }

  /** Every block is shown, whatever else is. */
  lemma RowShown(s: Settings, log: seq<Record>, c: Time, cutoff: Time)
    requires cutoff <= SECOND <= c && (forall r :: r in log ==> r.created <= c)
    requires forall r :: r in log && r.event.Blocked? ==> SECOND <= r.created
    ensures var shown := Since(log + ProvokeLog(s, c), cutoff);
            LatestSuspicious(shown) == Some(c) && Blocks(shown) == Blocks(log)
  {
    BlocksAfterProvoke(s, Since(log, cutoff), c);
    SinceAppend(log, ProvokeLog(s, c), cutoff);
    SinceAll(ProvokeLog(s, c), cutoff);
    AllBlocksShown(log, cutoff);
    forall r | r in Since(log, cutoff) ensures r.created <= c { SinceShows(log, cutoff, r); }
    LatestAfterProvoke(s, Since(log, cutoff), c);
  }

  lemma {:induction false} AllBlocksShown(log: seq<Record>, cutoff: Time)
    requires forall r :: r in log && r.event.Blocked? ==> cutoff <= r.created
    ensures Blocks(Since(log, cutoff)) == Blocks(log)
  {
    if log != [] {
      var init, r := log[..|log| - 1], log[|log| - 1];
      assert log == init + [r] && r in log;
      AllBlocksShown(init, cutoff);
      ShownStep(init, r, cutoff);
    }
  }

  lemma RowGrows(s: Settings, log: seq<Record>, c: Time, block: Record)
    requires block.event.Blocked? && block.created == c && SECOND <= c
    requires forall r :: r in log ==> r.created <= c && (r.event.Blocked? ==> SECOND <= r.created)
    ensures var next := log + ProvokeLog(s, c) + [block];
            && Blocks(next) == Blocks(log) + [block]
            && (forall r :: r in next ==> r.created <= c && (r.event.Blocked? ==> SECOND <= r.created))
  {
    var now := log + ProvokeLog(s, c);
    BlocksAfterProvoke(s, log, c);
    assert (now + [block])[..|now|] == now;
  }

  /** `i + 1` provocations, each as soon as the block before it is over. */
  lemma {:induction false} Row(s: Settings, i: nat) returns (actions: seq<Action>, c: Time)
    requires s.multiplier >= 1 && s.window % SECOND == 0 && s.window >= SECOND && LookBack(s) >= SECOND
    requires Gap(s, i) <= LookBack(s)
    ensures c == Gap(s, i) || (i == 0 && c == SECOND)
    ensures RowOk(s, i + 1, actions, Run(s, actions), At(s, i), c, Gap(s, i))
  {
    if i == 0 {
      actions := FirstInARow(s);
      c := SECOND;
    } else {
      NextTime(s, i);
      var before, c0 := Row(s, i - 1);
      c := Gap(s, i);
      actions := RowMore(s, i, before, At(s, i - 1), c0, Gap(s, i - 1), At(s, i), c);
    }
  }

  lemma RowMore(s: Settings, i: nat, before: seq<Action>, t: Time, c: Time, m: Time, t': Time, c': Time)
    returns (actions: seq<Action>)
    requires RowOk(s, i, before, Run(s, before), t, c, m)
    requires s.window >= SECOND && t' - LookBack(s) <= SECOND <= c' && Stored(t') == c' && t + DELAY <= t'
    requires c < c' && m <= c' && m < t' - s.window && t + BlockMinutes(s, i - 1) * MINUTE <= t'
    ensures RowOk(s, i + 1, actions, Run(s, actions), t', c', c')
  {
    RowRun(s, i, before, Run(s, before), t, c, m, t', c');
    actions := before + Provoke(s, t') + [Enforce(t', t', true)];
  }

  /** With escalation: if `k` blocks in a row fit into the look-back and the one
      after them is as long as the look-back, a run overlaps. */
  lemma EscalatedBlockOverlaps(s: Settings, k: nat)
    requires InWholeSeconds(s) && SECOND <= s.window <= LookBack(s)
    requires Gap(s, k) <= LookBack(s) <= BlockMinutes(s, k) * MINUTE
    ensures OverlapWithin(s, DELAY)
  {
    if k == 0 {
      LongFirstBlockOverlaps(s);
      MoreDelay(s, 0, DELAY);
    } else {
      var actions, c := Row(s, k);
      RowOverlaps(s, k, actions, At(s, k), c);
    }
  }

  lemma RowOverlaps(s: Settings, k: nat, actions: seq<Action>, t: Time, c: Time)
    requires RowOk(s, k + 1, actions, Run(s, actions), t, c, c) && t == c + FIRST
    requires SECOND <= s.window <= LookBack(s) <= BlockMinutes(s, k) * MINUTE
    ensures OverlapWithin(s, DELAY)
  {
    var log, u := Run(s, actions), t + LookBack(s) - 400_000;
    forall r | r in log ensures r.created < u - LookBack(s) && r.created < u - s.window {
      assert r.created <= c;
    }
    ForgottenBlockOverlaps(s, actions, |log| - 1, u, DELAY);
  }

  // --------------------------------------------------------- exactly when, in general

  /** Settings in whole minutes, the window no longer than the first block. */
  predicate InWholeMinutes(s: Settings) {
    && s.multiplier >= 1 && s.window > 0 && s.window % MINUTE == 0
    && s.blockWindow > 0 && s.blockWindow % MINUTE == 0
    && (s.escalationWindow.Some? ==> s.escalationWindow.value % MINUTE == 0)
    && s.window <= BlockMinutes(s, 0) * MINUTE
  }

  /** `k` blocks in a row fit into the look-back and the next is as long as it. */
  predicate Reaches(s: Settings, k: nat) {
    AllSpent(s, k) * MINUTE <= LookBack(s) <= BlockMinutes(s, k) * MINUTE
  }

  lemma MinutesAreSeconds(n: int)
    requires n % MINUTE == 0
    ensures n % SECOND == 0
  {
    var m := n / MINUTE;
    assert n == m * MINUTE == (m * 60) * SECOND;
    WholeSeconds(m * 60);
  }

  lemma WholeMinutesInSeconds(s: Settings)
    requires InWholeMinutes(s)
    ensures InWholeSeconds(s) && s.window >= SECOND && LookBack(s) >= MINUTE && LookBack(s) % MINUTE == 0
    ensures BlockMinutes(s, 0) * MINUTE <= LookBack(s)
  {
    MinutesAreSeconds(s.window);
    MinutesAreSeconds(LookBack(s));
    FirstBlockFits(s);
  }

  lemma FirstBlockFits(s: Settings)
    requires s.blockWindow > 0 && s.blockWindow % MINUTE == 0
    ensures BlockMinutes(s, 0) * MINUTE <= s.blockWindow
  {
    var minutes := s.blockWindow / MINUTE;
    assert s.blockWindow == minutes * MINUTE && minutes >= 1;
    assert Power(s.multiplier, 0) == 1;
  }

  lemma {:induction false} GapIsSpent(s: Settings, k: nat)
    requires s.multiplier >= 1 && s.window <= BlockMinutes(s, 0) * MINUTE
    ensures Gap(s, k) == AllSpent(s, k) * MINUTE
  {
    if k > 0 {
      GapIsSpent(s, k - 1);
      EscalationIsMonotoneAndCapped(s, 0, k - 1);
    }
  }

  lemma ReachingOverlaps(s: Settings, k: nat)
    requires InWholeMinutes(s) && Reaches(s, k)
    ensures OverlapWithin(s, DELAY)
  {
    WholeMinutesInSeconds(s);
    GapIsSpent(s, k);
    EscalatedBlockOverlaps(s, k);
  }

  lemma MinutesAndDelay(a: int, b: int, delay: int)
    requires b % MINUTE == 0 && a * MINUTE <= b + delay && 0 <= delay < MINUTE
    ensures a * MINUTE <= b
  {
    var m := b / MINUTE;
    assert b == m * MINUTE && a * MINUTE < (m + 1) * MINUTE;
    assert a < m + 1;
  }

  /** In whole minutes, with a window no longer than the first block and records
      stored within a minute: blocks can overlap exactly when some number of
      blocks in a row fits into the look-back and the next is as long as it. */
  lemma OverlapWithinExactlyWhen(s: Settings, delay: nat)
    requires InWholeMinutes(s) && DELAY <= delay < MINUTE
    ensures OverlapWithin(s, delay) <==> exists k: nat :: Reaches(s, k)
  {
    WholeMinutesInSeconds(s);
    if k: nat :| Reaches(s, k) {
      ReachingOverlaps(s, k);
      MoreDelay(s, DELAY, delay);
    } else {
      forall k: nat
        ensures SafeLengthWithin(s, k, delay)
      {
        assert !Reaches(s, k);
        if AllSpent(s, k) * MINUTE <= LookBack(s) + delay { MinutesAndDelay(AllSpent(s, k), LookBack(s), delay); }
      }
      forall actions | Timed(actions) && Prompt(actions, delay) ensures BlocksApart(Run(s, actions), 0) {
        NeverOverlapsWithin(s, actions, delay);
      }
    }
  }

  /** And if already the blocks that lead up to such a length take longer than
      the look-back, no run does. */
  lemma EscalationNeverOverlaps(s: Settings, k: nat)
    requires InWholeSeconds(s)
    requires k > 0 && BlockMinutes(s, k - 1) * MINUTE < LookBack(s) < Spent(s, k) * MINUTE
    ensures !OverlapPossible(s)
  {
    forall n: nat ensures SafeLength(s, n) {
      if n < k {
        EscalationIsMonotoneAndCapped(s, n, k - 1);
      } else {
        SpentGrows(s, k, n);
      }
    }
    forall actions | Timed(actions) ensures BlocksApart(Run(s, actions), 0) {
      NeverOverlaps(s, actions);
    }
  }

  lemma {:induction false} SpentGrows(s: Settings, a: nat, b: nat)
    requires a <= b
    ensures Spent(s, a) <= Spent(s, b)
  {
    if a < b {
      SpentGrows(s, a, b - 1);
    }
  }

  /** The settings the program ships with. */
  const SHIPPED := Settings(15 * MINUTE, 5, 3, 30 * MINUTE, false, Some(1440 * MINUTE), 2, Some(1440 * MINUTE))

  /** As shipped, blocks can overlap; with escalation switched on they cannot:
      a block of a day would need more than a day of blocks before it. */
  lemma ShippedSettings()
    ensures OverlapPossible(SHIPPED)
    ensures !OverlapPossible(SHIPPED.(escalation := true))
  {
    OverlapExactlyWhen(SHIPPED);
    var s := SHIPPED.(escalation := true);
    assert WholeMinutes(30 * MINUTE) == 30 && WholeMinutes(1440 * MINUTE) == 1440;
    assert Power(2, 1) == 2;
    assert Power(2, 2) == 4;
    assert Power(2, 3) == 8;
    assert Power(2, 4) == 16;
    assert Power(2, 5) == 32;
    assert BlockMinutes(s, 1) == 60 && BlockMinutes(s, 2) == 120 && BlockMinutes(s, 3) == 240;
    assert BlockMinutes(s, 4) == 480 && BlockMinutes(s, 5) == 960;
    assert Spent(s, 2) == 60;
    assert Spent(s, 3) == 180;
    assert Spent(s, 4) == 420;
    assert Spent(s, 5) == 900;
    assert Spent(s, 6) == 1860;
    EscalationNeverOverlaps(s, 6);
  }

  /** The rounding of stored times also lets two suspicious records lie exactly,
      not more than, a window apart, whatever the settings. */
  lemma SuspicionsExactlyAWindowApart(s: Settings) returns (actions: seq<Action>, i: nat, j: nat)
    requires s.window >= SECOND && s.window % SECOND == 0
    ensures Timed(actions) && i < j < |Run(s, actions)|
    ensures Run(s, actions)[i].event.Suspicious? && Run(s, actions)[j].event.Suspicious?
    ensures Run(s, actions)[j].created - Run(s, actions)[i].created == s.window
  {
    var t, log := s.window + 500_000, ProvokeLog(s, 0);
    assert Stored(t) == s.window by { StoredAs(s.window, 500_000); }
    FirstProvocation(s);
    ProvokeIsLogged(s, Provoke(s, FIRST), log, t);
    actions, i, j := Provoke(s, FIRST) + Provoke(s, t), |log| - 1, |log| + |ProvokeLog(s, s.window)| - 1;
    ProvokeAt(s, t);
    TimedMore(Provoke(s, FIRST), Provoke(s, t), t);
    assert (log + ProvokeLog(s, s.window))[j] == Record(s.window, Suspicious);
  }
}
