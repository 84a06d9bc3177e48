/** Do two blocks of one address ever overlap? A block is forgotten when its
    record leaves the look-back, which may be up to a second before the block
    ends, because records are stored in whole seconds. */
module LoginOverlap {
  import opened Counters
  import opened LoginAnomaly

  /** The settings let some run start a block before an earlier one has ended. */
  ghost predicate OverlapPossible(s: Settings) {
    exists actions :: Timed(actions) && !BlocksApart(Run(s, actions), 0)
  }

  /** Every record is stored at most `delay` after its call began. */
  ghost predicate Prompt(actions: seq<Action>, delay: int) {
    forall i :: 0 <= i < |actions| ==> actions[i].at <= Start(actions[i]) + delay
  }

  /** Some run with prompt records does. */
  ghost predicate OverlapWithin(s: Settings, delay: int) {
    exists actions :: Timed(actions) && Prompt(actions, delay) && !BlocksApart(Run(s, actions), 0)
  }

  // ------------------------------------------------------------ one more block

  lemma NoBlockAdded(log: seq<Record>, event: Event, at: Time, slack: int)
    requires BlocksApart(log, slack) && !event.Blocked?
    ensures BlocksApart(Append(log, event, at), slack)
  {
    assert forall i :: 0 <= i < |log| ==> Append(log, event, at)[i] == log[i];
  }

  /** A new block keeps its distance if the last one does, shown or not. */
  lemma BlockAdded(s: Settings, log: seq<Record>, t: Time, now: Time, at: Time, slack: nat)
    requires RunOk(s, log, t) && t <= now && BlocksApart(log, slack)
    requires Decide(s, Since(log, now - LookBack(s)), now).NewBlock?
    requires var b := LastBlock(log);
             b >= 0 && log[b].created < now - LookBack(s) ==> log[b].event.until <= now + slack
    ensures var d := Decide(s, Since(log, now - LookBack(s)), now);
            BlocksApart(Append(log, Blocked(d.until, d.minutes), at), slack)
  {
    var d := Decide(s, Since(log, now - LookBack(s)), now);
    var next := Append(log, Blocked(d.until, d.minutes), at);
    assert forall i :: 0 <= i < |log| ==> next[i] == log[i];
    assert BlockStart(next[|log|]) == now;
    var k := NewBlockIsEarned(s, log, now);
    var b := LastBlock(log);
    forall i | 0 <= i < |log| && log[i].event.Blocked? ensures log[i].event.until <= now + slack {
      if i < b {
        assert log[i].event.until <= BlockStart(log[b]) + slack;
        assert BlockStart(log[b]) <= t;
      }
    }
  }

  // ---------------------------------------------------- a second of room is enough

  /** Every block, however escalated, fits into the look-back with `room` to spare. */
  predicate LongestBlockFits(s: Settings, room: int) {
    if !s.escalation then WholeMinutes(s.blockWindow) * MINUTE + room <= LookBack(s)
    else s.maxBlockWindow.Some? && WholeMinutes(s.maxBlockWindow.value) * MINUTE + room <= LookBack(s)
  }

  lemma UnseenBlockIsOver(s: Settings, r: Record, k: nat, now: Time, room: int)
    requires r.event.Blocked? && r.created < now - LookBack(s) && BlockStart(r) - SECOND < r.created
    requires r.event.minutes == BlockMinutes(s, k) && LongestBlockFits(s, room)
    ensures r.event.until <= now + (SECOND - room)
  {
  }

  lemma EnforceKeepsApart(s: Settings, log: seq<Record>, t: Time, now: Time, at: Time, room: int)
    requires RunOk(s, log, t) && t <= now && 0 <= room <= SECOND
    requires LongestBlockFits(s, room) && BlocksApart(log, SECOND - room)
    requires Decide(s, Since(log, now - LookBack(s)), now).NewBlock?
    ensures var d := Decide(s, Since(log, now - LookBack(s)), now);
            BlocksApart(Append(log, Blocked(d.until, d.minutes), at), SECOND - room)
  {
    var b := LastBlock(log);
    if b >= 0 && log[b].created < now - LookBack(s) {
      UnseenBlockIsOver(s, log[b], ShownBlocks(s, log[..b], BlockStart(log[b])), now, room);
    }
    BlockAdded(s, log, t, now, at, SECOND - room);
  }

  lemma StepKeepsApart(s: Settings, log: seq<Record>, t: Time, a: Action, room: int)
    requires RunOk(s, log, t) && Admitted(t, a) && 0 <= room <= SECOND
    requires LongestBlockFits(s, room) && BlocksApart(log, SECOND - room)
    ensures BlocksApart(Step(s, log, a), SECOND - room)
  {
    if Step(s, log, a) == log {
    } else if a.Enforce? {
      EnforceKeepsApart(s, log, t, a.now, a.at, room);
    } else {
      NoBlockAdded(log, if a.Report? then a.event else Suspicious, a.at, SECOND - room);
    }
  }

  lemma {:induction false} BlocksStayApart(s: Settings, actions: seq<Action>, room: int)
    requires Timed(actions) && 0 <= room <= SECOND && LongestBlockFits(s, room)
    ensures BlocksApart(Run(s, actions), SECOND - room)
  {
    if actions != [] {
      var init, a := actions[..|actions| - 1], actions[|actions| - 1];
      LastIsAdmitted(actions);
      BlocksStayApart(s, init, room);
      EveryRunOk(s, init, Start(a));
      StepKeepsApart(s, Run(s, init), Clock(init, Start(a)), a, room);
    }
  }

  /** Blocks that fit into the look-back overlap by at most a second, and not at
      all with a second of room. */
  lemma BlocksNeverOverlap(s: Settings, actions: seq<Action>, i: nat, j: nat)
    requires Timed(actions) && i < j < |Run(s, actions)|
    requires Run(s, actions)[i].event.Blocked? && Run(s, actions)[j].event.Blocked?
    ensures LongestBlockFits(s, SECOND) ==> Run(s, actions)[i].event.until <= BlockStart(Run(s, actions)[j])
    ensures LongestBlockFits(s, 0) ==> Run(s, actions)[i].event.until <= BlockStart(Run(s, actions)[j]) + SECOND
  {
    if LongestBlockFits(s, SECOND) { BlocksStayApart(s, actions, SECOND); }
    if LongestBlockFits(s, 0) { BlocksStayApart(s, actions, 0); }
  }

  // -------------------------------------------- which blocks can outlive the look-back

  /** Minutes of the blocks that begin and end between the first of `k` blocks
      in a row and the block after them. */
  function Spent(s: Settings, k: nat): nat {
    if k <= 1 then 0 else Spent(s, k - 1) + BlockMinutes(s, k - 1)
  }

  /** A block as long as the look-back needs `k` blocks in it before it, and an
      overlap needs two suspicious records closer than the window: no length
      that satisfies the first leaves room for the second. */
  ghost predicate NoBlockOutlives(s: Settings) { forall k: nat :: SafeLength(s, k) }

  predicate SafeLength(s: Settings, k: nat) {
    BlockMinutes(s, k) * MINUTE >= LookBack(s) && Spent(s, k) * MINUTE <= LookBack(s) ==>
      s.window >= BlockMinutes(s, k) * MINUTE + LookBack(s)
  }

  predicate InWholeSeconds(s: Settings) {
    s.multiplier >= 1 && LookBack(s) >= 0 && LookBack(s) % SECOND == 0 && s.window % SECOND == 0
  }

  lemma {:induction false} MoreShownEarlier(log: seq<Record>, early: Time, late: Time)
    requires early <= late
    ensures |Blocks(Since(log, late))| <= |Blocks(Since(log, early))|
  {
    if log != [] {
      var init, r := log[..|log| - 1], log[|log| - 1];
      MoreShownEarlier(init, early, late);
      ShownStep(init, r, early);
      ShownStep(init, r, late);
      assert log == init + [r];
    }
  }

  lemma ShownStep(log: seq<Record>, r: Record, cutoff: Time)
    ensures Blocks(Since(log + [r], cutoff))
         == Blocks(Since(log, cutoff)) + if r.created >= cutoff && r.event.Blocked? then [r] else []
  {
    assert (log + [r])[..|log|] == log;
    var shown := Since(log, cutoff);
    if r.created >= cutoff { assert (shown + [r])[..|shown|] == shown; } else { assert shown + [] == shown; }
  }

  lemma {:induction false} ShownWasStored(log: seq<Record>, cutoff: Time, t: Time)
    requires forall i :: 0 <= i < |log| ==> log[i].created <= t
    requires Blocks(Since(log, cutoff)) != []
    ensures cutoff <= t
  {
    var init, r := log[..|log| - 1], log[|log| - 1];
    assert log == init + [r];
    ShownStep(init, r, cutoff);
    if !(r.created >= cutoff && r.event.Blocked?) { ShownWasStored(init, cutoff, t); }
  }

  ghost predicate ChainOk(s: Settings, log: seq<Record>, t: Time) {
    && BlocksApart(log, 0) && LengthsFollow(s, log) && BlocksComeAfter(log)
    && (forall i :: 0 <= i < |log| ==> log[i].created <= t)
    && (forall i :: 0 <= i < |log| && log[i].event.Blocked? ==> log[i].event.until <= t)
  }

  lemma ChainPrefix(s: Settings, log: seq<Record>, t: Time)
    requires ChainOk(s, log, t) && log != []
    ensures ChainOk(s, log[..|log| - 1], t)
    ensures log[|log| - 1].event.Blocked? ==> ChainOk(s, log[..|log| - 1], BlockStart(log[|log| - 1]))
  {
    var init := log[..|log| - 1];
    assert forall i :: 0 <= i < |init| ==> init[i] == log[i] && init[..i] == log[..i];
  }

  lemma OneMoreSpent(s: Settings, n: nat, cutoff: Time, start: Time, minutes: nat, t: Time)
    requires n > 0 && cutoff + Spent(s, n) * MINUTE <= start && start + minutes * MINUTE <= t
    requires minutes >= BlockMinutes(s, n)
    ensures cutoff + Spent(s, n + 1) * MINUTE <= t
  {
    assert Spent(s, n + 1) == Spent(s, n) + BlockMinutes(s, n);
  }

  /** A block is at least as long as the rule says for the blocks before it. */
  lemma LongEnough(s: Settings, log: seq<Record>, start: Time, n: nat)
    requires LengthsFollow(s, log) && s.multiplier >= 1 && log != []
    requires log[|log| - 1].event.Blocked? && BlockStart(log[|log| - 1]) == start
    requires n <= ShownBlocks(s, log[..|log| - 1], start)
    ensures log[|log| - 1].event.minutes >= BlockMinutes(s, n)
  {
    EscalationIsMonotoneAndCapped(s, n, ShownBlocks(s, log[..|log| - 1], start));
  }

  /** Blocks in a row take their time: with `n` of them in the look-back since
      `cutoff`, those after the first are over by `t`. */
  lemma {:induction false} ChainTakesTime(s: Settings, log: seq<Record>, cutoff: Time, t: Time)
    requires ChainOk(s, log, t) && s.multiplier >= 1
    requires t - LookBack(s) <= cutoff <= t
    ensures cutoff + Spent(s, |Blocks(Since(log, cutoff))|) * MINUTE <= t
  {
    if log != [] {
      var init, r := log[..|log| - 1], log[|log| - 1];
      assert log == init + [r];
      ShownStep(init, r, cutoff);
      ChainPrefix(s, log, t);
      var n := |Blocks(Since(init, cutoff))|;
      if r.created >= cutoff && r.event.Blocked? {
        if n > 0 {
          var start := BlockStart(r);
          ShownWasStored(init, cutoff, start);
          ChainTakesTime(s, init, cutoff, start);
          MoreShownEarlier(init, start - LookBack(s), cutoff);
          LongEnough(s, log, start, n);
          OneMoreSpent(s, n, cutoff, start, r.event.minutes, t);
        }
      } else {
        ChainTakesTime(s, init, cutoff, t);
      }
    }
  }

  lemma WholeMinuteGap(minutes: int, lookBack: int)
    requires lookBack % SECOND == 0 && minutes * MINUTE > lookBack - SECOND
    ensures minutes * MINUTE >= lookBack
  {
    assert MINUTE == 60 * SECOND;
    assert (minutes * 60) * SECOND > lookBack - SECOND;
    WholeSecondGap(minutes * 60 * SECOND, lookBack);
  }

  /** Every block as long as the look-back meets a window that is longer than
      both together. */
  ghost predicate LongBlocksMeetWindow(s: Settings, log: seq<Record>) {
    forall b :: 0 <= b < |log| && log[b].event.Blocked? && log[b].event.minutes * MINUTE >= LookBack(s) ==>
      s.window >= log[b].event.minutes * MINUTE + LookBack(s)
  }

  /** The last block of a run, out of sight: it is over. */
  lemma UnseenIsOver(s: Settings, log: seq<Record>, t: Time, now: Time, k: nat)
    requires RunOk(s, log, t) && t <= now && InWholeSeconds(s) && LongBlocksMeetWindow(s, log)
    requires LastBlock(log) >= 0 && log[LastBlock(log)].created < now - LookBack(s)
    requires k < |log| && log[k].event.Suspicious? && log[LastBlock(log)].created < log[k].created
    ensures log[LastBlock(log)].event.until <= now
  {
    var b := LastBlock(log);
    if log[b].event.minutes * MINUTE >= LookBack(s) {
      CauseAndNext(s, log, t, b, k);
    } else {
      ShortBlockIsOver(s, log[b], now);
    }
  }

  lemma ShortBlockIsOver(s: Settings, r: Record, now: Time)
    requires r.event.Blocked? && r.created < now - LookBack(s) && BlockStart(r) - SECOND < r.created
    requires LookBack(s) % SECOND == 0 && r.event.minutes * MINUTE < LookBack(s)
    ensures r.event.until <= now
  {
    if r.event.minutes * MINUTE > LookBack(s) - SECOND { WholeMinuteGap(r.event.minutes, LookBack(s)); }
  }

  lemma WindowOfLongBlock(s: Settings, log: seq<Record>, t: Time, b: nat)
    requires RunOk(s, log, t) && BlocksApart(log, 0) && b < |log| && log[b].event.Blocked?
    requires s.multiplier >= 1 && LookBack(s) >= 0 && NoBlockOutlives(s)
    requires log[b].event.minutes * MINUTE >= LookBack(s)
    ensures s.window >= log[b].event.minutes * MINUTE + LookBack(s)
  {
    ChainBefore(s, log, t, b);
    WindowAfter(s, log[..b], log[b]);
  }

  lemma WindowAfter(s: Settings, before: seq<Record>, r: Record)
    requires r.event.Blocked? && ChainOk(s, before, BlockStart(r)) && s.multiplier >= 1 && LookBack(s) >= 0
    requires r.event.minutes == BlockMinutes(s, ShownBlocks(s, before, BlockStart(r)))
    requires NoBlockOutlives(s) && r.event.minutes * MINUTE >= LookBack(s)
    ensures s.window >= r.event.minutes * MINUTE + LookBack(s)
  {
    ChainTakesTime(s, before, BlockStart(r) - LookBack(s), BlockStart(r));
    WindowAt(s, ShownBlocks(s, before, BlockStart(r)));
  }

  lemma WindowAt(s: Settings, k: nat)
    requires NoBlockOutlives(s)
    requires BlockMinutes(s, k) * MINUTE >= LookBack(s) && Spent(s, k) * MINUTE <= LookBack(s)
    ensures s.window >= BlockMinutes(s, k) * MINUTE + LookBack(s)
  {
    assert SafeLength(s, k);
  }

  lemma ChainBefore(s: Settings, log: seq<Record>, t: Time, b: nat)
    requires RunOk(s, log, t) && BlocksApart(log, 0) && b < |log| && log[b].event.Blocked?
    ensures ChainOk(s, log[..b], BlockStart(log[b]))
    ensures log[b].event.minutes == BlockMinutes(s, ShownBlocks(s, log[..b], BlockStart(log[b])))
  {
    var init := log[..b];
    assert forall i :: 0 <= i < |init| ==> init[i] == log[i] && init[..i] == log[..i];
  }

  /** The suspicious record behind a block and one that comes after it are a
      window apart, so the later one lies that far after the look-back began. */
  lemma CauseAndNext(s: Settings, log: seq<Record>, t: Time, b: nat, k: nat)
    requires StoredInOrder(log) && NotAfter(log, t) && SuspicionsApart(s, log) && s.window % SECOND == 0
    requires b < |log| && log[b].event.Blocked? && HasCause(s, log, b)
    requires k < |log| && log[k].event.Suspicious? && log[b].created < log[k].created
    ensures BlockStart(log[b]) - LookBack(s) + s.window <= log[k].created <= t
  {
    var m :| 0 <= m < b && log[m].event.Suspicious? && BlockStart(log[b]) - LookBack(s) <= log[m].created;
    assert log[m].created <= log[b].created;
    assert m < k;
    GapOfSuspicions(s, log, m, k);
  }

  lemma GapOfSuspicions(s: Settings, log: seq<Record>, m: nat, k: nat)
    requires m < k < |log| && log[m].event.Suspicious? && log[k].event.Suspicious? && SuspicionsApart(s, log)
    requires log[m].created % SECOND == 0 && log[k].created % SECOND == 0 && s.window % SECOND == 0
    ensures s.window <= log[k].created - log[m].created
  {
    WholeSecondGap(log[k].created - log[m].created, s.window);
  }

  lemma EnforceNeverOverlaps(s: Settings, log: seq<Record>, t: Time, now: Time, at: Time)
    requires RunOk(s, log, t) && t <= now && BlocksApart(log, 0) && InWholeSeconds(s) && LongBlocksMeetWindow(s, log)
    requires Decide(s, Since(log, now - LookBack(s)), now).NewBlock?
    ensures var d := Decide(s, Since(log, now - LookBack(s)), now);
            BlocksApart(Append(log, Blocked(d.until, d.minutes), at), 0)
  {
    var b := LastBlock(log);
    if b >= 0 && log[b].created < now - LookBack(s) {
      var k := NewBlockIsEarned(s, log, now);
      UnseenIsOver(s, log, t, now, k);
    }
    BlockAdded(s, log, t, now, at, 0);
  }

  lemma StepNeverOverlaps(s: Settings, log: seq<Record>, t: Time, a: Action)
    requires RunOk(s, log, t) && Admitted(t, a) && BlocksApart(log, 0) && InWholeSeconds(s)
    requires LongBlocksMeetWindow(s, log)
    ensures BlocksApart(Step(s, log, a), 0)
  {
    if Step(s, log, a) == log {
    } else if a.Enforce? {
      EnforceNeverOverlaps(s, log, t, a.now, a.at);
    } else {
      NoBlockAdded(log, if a.Report? then a.event else Suspicious, a.at, 0);
    }
  }

  /** If no block outlives the look-back, blocks never overlap, in any run. */
  lemma {:induction false} NeverOverlaps(s: Settings, actions: seq<Action>)
    requires Timed(actions) && InWholeSeconds(s) && NoBlockOutlives(s)
    ensures BlocksApart(Run(s, actions), 0)
  {
    if actions != [] {
      var init, a := actions[..|actions| - 1], actions[|actions| - 1];
      var log, t := Run(s, init), Clock(init, Start(a));
      LastIsAdmitted(actions);
      NeverOverlaps(s, init);
      EveryRunOk(s, init, Start(a));
      forall b | 0 <= b < |log| && log[b].event.Blocked? && log[b].event.minutes * MINUTE >= LookBack(s)
        ensures s.window >= log[b].event.minutes * MINUTE + LookBack(s)
      {
        WindowOfLongBlock(s, log, t, b);
      }
      StepNeverOverlaps(s, log, t, a);
    }
  }

  // ------------------------------------------------------------ with prompt records

  /** Minutes of the first `k` blocks in a row. */
  function AllSpent(s: Settings, k: nat): nat {
    if k == 0 then 0 else AllSpent(s, k - 1) + BlockMinutes(s, k - 1)
  }

  ghost predicate StoredPromptly(log: seq<Record>, delay: int) {
    forall i :: 0 <= i < |log| && log[i].event.Blocked? ==> log[i].created <= BlockStart(log[i]) + delay
  }

  lemma {:induction false} PromptRun(s: Settings, actions: seq<Action>, delay: int)
    requires Prompt(actions, delay)
    requires forall i :: 0 <= i < |actions| && actions[i].Report? ==> !actions[i].event.Blocked?
    ensures StoredPromptly(Run(s, actions), delay)
  {
    if actions != [] {
      var init, a := actions[..|actions| - 1], actions[|actions| - 1];
      PromptRun(s, init, delay);
      PromptStep(s, Run(s, init), a, delay);
    }
  }

  lemma PromptStep(s: Settings, log: seq<Record>, a: Action, delay: int)
    requires StoredPromptly(log, delay) && a.at <= Start(a) + delay && (a.Report? ==> !a.event.Blocked?)
    ensures StoredPromptly(Step(s, log, a), delay)
  {
    var next := Step(s, log, a);
    assert forall i :: 0 <= i < |log| ==> next[i] == log[i];
    if a.Enforce? && |next| > |log| {
      assert BlockStart(next[|log|]) == a.now;
      StoredBounds(a.at, a.at);
    }
  }

  /** With prompt records the first block shown counts as well. */
  lemma {:induction false} ChainTakesAll(s: Settings, log: seq<Record>, cutoff: Time, t: Time, delay: nat)
    requires ChainOk(s, log, t) && s.multiplier >= 1 && StoredPromptly(log, delay)
    requires t - LookBack(s) <= cutoff <= t
    ensures var n := |Blocks(Since(log, cutoff))|;
            n > 0 ==> cutoff - delay + AllSpent(s, n) * MINUTE <= t
  {
    if log != [] {
      var init, r := log[..|log| - 1], log[|log| - 1];
      assert log == init + [r];
      ShownStep(init, r, cutoff);
      ChainPrefix(s, log, t);
      PromptPrefix(log, |log| - 1, delay);
      var n := |Blocks(Since(init, cutoff))|;
      if r.created >= cutoff && r.event.Blocked? {
        var start := BlockStart(r);
        if n > 0 {
          ShownWasStored(init, cutoff, start);
          ChainTakesAll(s, init, cutoff, start, delay);
          MoreShownEarlier(init, start - LookBack(s), cutoff);
        }
        LongEnough(s, log, start, n);
        assert AllSpent(s, n + 1) == AllSpent(s, n) + BlockMinutes(s, n);
      } else {
        ChainTakesAll(s, init, cutoff, t, delay);
      }
    }
  }

  /** No block as long as the look-back comes after blocks that fit into it. */
  ghost predicate NoBlockOutlivesWithin(s: Settings, delay: int) { forall k: nat :: SafeLengthWithin(s, k, delay) }

  predicate SafeLengthWithin(s: Settings, k: nat, delay: int) {
    BlockMinutes(s, k) * MINUTE >= LookBack(s) && AllSpent(s, k) * MINUTE <= LookBack(s) + delay ==>
      s.window >= BlockMinutes(s, k) * MINUTE + LookBack(s)
  }

  lemma WindowOfPromptBlock(s: Settings, log: seq<Record>, t: Time, b: nat, delay: nat)
    requires RunOk(s, log, t) && BlocksApart(log, 0) && b < |log| && log[b].event.Blocked?
    requires s.multiplier >= 1 && LookBack(s) >= 0 && StoredPromptly(log, delay) && NoBlockOutlivesWithin(s, delay)
    requires log[b].event.minutes * MINUTE >= LookBack(s)
    ensures s.window >= log[b].event.minutes * MINUTE + LookBack(s)
  {
    ChainBefore(s, log, t, b);
    PromptPrefix(log, b, delay);
    PromptWindowAfter(s, log[..b], log[b], delay);
  }

  lemma PromptPrefix(log: seq<Record>, b: nat, delay: nat)
    requires StoredPromptly(log, delay) && b <= |log|
    ensures StoredPromptly(log[..b], delay)
  {
    assert forall i :: 0 <= i < b ==> log[..b][i] == log[i];
  }

  lemma PromptWindowAfter(s: Settings, before: seq<Record>, r: Record, delay: nat)
    requires r.event.Blocked? && ChainOk(s, before, BlockStart(r)) && s.multiplier >= 1 && LookBack(s) >= 0
    requires r.event.minutes == BlockMinutes(s, ShownBlocks(s, before, BlockStart(r)))
    requires StoredPromptly(before, delay) && NoBlockOutlivesWithin(s, delay)
    requires r.event.minutes * MINUTE >= LookBack(s)
    ensures s.window >= r.event.minutes * MINUTE + LookBack(s)
  {
    ChainTakesAll(s, before, BlockStart(r) - LookBack(s), BlockStart(r), delay);
    PromptWindowAt(s, ShownBlocks(s, before, BlockStart(r)), delay);
  }

  lemma PromptWindowAt(s: Settings, k: nat, delay: nat)
    requires NoBlockOutlivesWithin(s, delay) && LookBack(s) >= 0
    requires BlockMinutes(s, k) * MINUTE >= LookBack(s)
    requires k > 0 ==> AllSpent(s, k) * MINUTE <= LookBack(s) + delay
    ensures s.window >= BlockMinutes(s, k) * MINUTE + LookBack(s)
  {
    assert SafeLengthWithin(s, k, delay);
  }

  lemma {:induction false} NeverOverlapsWithin(s: Settings, actions: seq<Action>, delay: nat)
    requires Timed(actions) && Prompt(actions, delay) && InWholeSeconds(s) && NoBlockOutlivesWithin(s, delay)
    ensures BlocksApart(Run(s, actions), 0)
  {
    if actions != [] {
      var init, a := actions[..|actions| - 1], actions[|actions| - 1];
      var log, t := Run(s, init), Clock(init, Start(a));
      LastIsAdmitted(actions);
      NeverOverlapsWithin(s, init, delay);
      EveryRunOk(s, init, Start(a));
      PromptRun(s, init, delay);
      forall b | 0 <= b < |log| && log[b].event.Blocked? && log[b].event.minutes * MINUTE >= LookBack(s)
        ensures s.window >= log[b].event.minutes * MINUTE + LookBack(s)
      {
        WindowOfPromptBlock(s, log, t, b, delay);
      }
      StepNeverOverlaps(s, log, t, a);
    }
  }
}
