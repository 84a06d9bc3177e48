/** What stands in a minute record, counted straight from the log lines: the
    break-downs by method, encoded character, pattern and target, and the time
    of the last block. */
module HistoryCounts {
  import opened Counters
  import opened HistoryState
  import opened HistoryRun

  // ---------------------------------------------------------------- what is counted

  /** A log line that shows a request to be counted for the minute from `m` on:
      stamped within it, parsed, and not served by one of Traefik's own routers.
      Said of the line alone. */
  ghost predicate RequestOf(l: Line, m: Time) {
    && l.at.Some? && m <= l.at.value < m + 60_000_000
    && l.request.Some? && !exists name :: l.request.value.router == Some(name + "@internal")
  }

  /** ... and that was blocked for an encoded character. */
  ghost predicate BlockOf(l: Line, m: Time) {
    RequestOf(l, m) && |l.request.value.encoded| > 0
  }

  lemma MinuteStartIs(t: Time, m: Time)
    requires m % MINUTE == 0
    ensures MinuteStart(t) == m <==> m <= t < m + MINUTE
  {
    var q := m / MINUTE;
    assert m == q * MINUTE;
    if m <= t < m + MINUTE {
      RemainderIs(t, q);
    }
  }

  lemma RemainderIs(t: Time, q: int)
    requires q * MINUTE <= t < (q + 1) * MINUTE
    ensures t % MINUTE == t - q * MINUTE
  {
  }

  lemma InternalIs(r: Request)
    ensures Internal(r) <==> exists name :: r.router == Some(name + "@internal")
  {
    if r.router.Some? {
      StartsAndEnds(r.router.value, "@internal");
      if Internal(r) {
        var name :| r.router.value == name + "@internal";
        assert r.router == Some(name + "@internal");
      }
    }
  }

  lemma InMinuteIs(l: Line, m: Time)
    requires m % MINUTE == 0
    ensures InMinute(l, m) <==> RequestOf(l, m)
    ensures InMinute(l, m) && Blocked(l.request.value) <==> BlockOf(l, m)
  {
    if l.at.Some? { MinuteStartIs(l.at.value, m); }
    if l.request.Some? { InternalIs(l.request.value); }
  }

  lemma SinglePassStep(log: seq<Line>, m: Time)
    requires log != []
    ensures var before, l := MinuteAt(SinglePass(log[..|log| - 1]), m), log[|log| - 1];
            MinuteAt(SinglePass(log), m) == if InMinute(l, m) then Book(before, l.request.value, l.at.value) else before
  {
  }

  // --------------------------------------------------- totals, methods, characters

  lemma {:induction false} CountsOf(log: seq<Line>, m: Time)
    requires m % MINUTE == 0
    ensures MinuteAt(SinglePass(log), m).total == CountIf(log, l => RequestOf(l, m))
    ensures MinuteAt(SinglePass(log), m).blocked == CountIf(log, l => BlockOf(l, m))
  {
    if log != [] {
      CountsOf(log[..|log| - 1], m);
      SinglePassStep(log, m);
      InMinuteIs(log[|log| - 1], m);
    }
  }

  lemma {:induction false} MethodsOf(log: seq<Line>, m: Time, k: string)
    requires m % MINUTE == 0
    ensures Get(MinuteAt(SinglePass(log), m).methods, k)
         == CountIf(log, l => BlockOf(l, m) && l.request.value.method_ == k)
  {
    if log != [] {
      MethodsOf(log[..|log| - 1], m, k);
      SinglePassStep(log, m);
      InMinuteIs(log[|log| - 1], m);
    }
  }

  /** Each encoded character a request was blocked for counts once; the parser
      lists none twice. */
  lemma {:induction false} CharactersOf(log: seq<Line>, m: Time, e: string)
    requires m % MINUTE == 0
    requires forall i :: 0 <= i < |log| && log[i].request.Some? ==> ListedOnce(log[i].request.value.encoded)
    ensures Get(MinuteAt(SinglePass(log), m).encoded, e)
         == CountIf(log, l => BlockOf(l, m) && e in l.request.value.encoded)
  {
    if log != [] {
      var l := log[|log| - 1];
      CharactersOf(log[..|log| - 1], m, e);
      SinglePassStep(log, m);
      InMinuteIs(l, m);
      if BlockOf(l, m) {
        CountEachIs(MinuteAt(SinglePass(log[..|log| - 1]), m).encoded, l.request.value.encoded, e);
      }
    }
  }

  ghost predicate ListedOnce(keys: seq<string>) {
    forall i, j :: 0 <= i < j < |keys| ==> keys[i] != keys[j]
  }

  lemma {:induction false} CountEachIs(counts: map<string, nat>, keys: seq<string>, e: string)
    requires ListedOnce(keys)
    ensures Get(CountEach(counts, keys), e) == Get(counts, e) + if e in keys then 1 else 0
  {
    if keys != [] {
      var init, k := keys[..|keys| - 1], keys[|keys| - 1];
      CountEachIs(counts, init, e);
      assert keys == init + [k];
    }
  }

  // ------------------------------------------------------ capped: patterns and targets

  /** The first `cap` different keys of the sequence. */
  ghost predicate AmongFirst(keys: seq<string>, cap: nat, k: string) {
    exists i :: 0 <= i < |keys| && keys[i] == k && |DistinctIn(keys[..i])| < cap
  }

  function DistinctIn(keys: seq<string>): set<string> { set i | 0 <= i < |keys| :: keys[i] }

  /** The counters after booking `keys` in order under a cap. */
  function BookCapped(keys: seq<string>, cap: nat, overflow: string): map<string, nat> {
    if keys == [] then map[] else
      var before := BookCapped(keys[..|keys| - 1], cap, overflow);
      Plus(before, CappedKey(before, keys[|keys| - 1], cap, overflow), 1)
  }

  /** The keys that keep their name, found one after the other. */
  function Kept(keys: seq<string>, cap: nat): set<string> {
    if keys == [] then {} else
      var before, k := Kept(keys[..|keys| - 1], cap), keys[|keys| - 1];
      if k in before || |before| >= cap then before else before + {k}
  }

  lemma {:induction false} KeptWithin(keys: seq<string>, cap: nat)
    ensures |Kept(keys, cap)| <= cap && Kept(keys, cap) <= DistinctIn(keys)
    ensures |Kept(keys, cap)| < cap ==> Kept(keys, cap) == DistinctIn(keys)
  {
    if keys != [] {
      var init, k := keys[..|keys| - 1], keys[|keys| - 1];
      KeptWithin(init, cap);
      DistinctNext(init, k);
      assert keys == init + [k];
    }
  }

  lemma DistinctNext(keys: seq<string>, k: string)
    ensures DistinctIn(keys + [k]) == DistinctIn(keys) + {k}
  {
    var all := keys + [k];
    forall x | x in DistinctIn(keys) + {k} ensures x in DistinctIn(all) {
      if x == k {
        assert all[|keys|] == k;
      } else {
        var i :| 0 <= i < |keys| && keys[i] == x;
        assert all[i] == x;
      }
    }
  }

  /** They are the first `cap` different ones. */
  lemma {:induction false} KeptAreFirst(keys: seq<string>, cap: nat, k: string)
    ensures k in Kept(keys, cap) <==> AmongFirst(keys, cap, k)
  {
    if keys != [] {
      var init, last := keys[..|keys| - 1], keys[|keys| - 1];
      KeptAreFirst(init, cap, k);
      AmongFirstNext(init, last, cap, k);
      assert keys == init + [last];
      SmallerKept(init, cap);
    }
  }

  lemma AmongFirstNext(keys: seq<string>, last: string, cap: nat, k: string)
    ensures AmongFirst(keys + [last], cap, k)
       <==> AmongFirst(keys, cap, k) || (last == k && |DistinctIn(keys)| < cap)
  {
    var all := keys + [last];
    assert forall i :: 0 <= i <= |keys| ==> all[..i] == keys[..i];
    if AmongFirst(keys, cap, k) {
      var i :| 0 <= i < |keys| && keys[i] == k && |DistinctIn(keys[..i])| < cap;
      assert all[i] == k;
    }
    if last == k && |DistinctIn(keys)| < cap {
      assert all[|keys|] == k && keys[..|keys|] == keys;
    }
    if AmongFirst(all, cap, k) {
      var i :| 0 <= i < |all| && all[i] == k && |DistinctIn(all[..i])| < cap;
      if i == |keys| { assert keys[..|keys|] == keys; } else { assert keys[i] == k; }
    }
  }

  lemma SmallerKept(keys: seq<string>, cap: nat)
    ensures |Kept(keys, cap)| < cap <==> |DistinctIn(keys)| < cap
  {
    KeptWithin(keys, cap);
    SubsetSize(Kept(keys, cap), DistinctIn(keys));
  }

  lemma {:induction false} SubsetSize(a: set<string>, b: set<string>)
    requires a <= b
    ensures |a| <= |b|
  {
    if a != {} {
      var x :| x in a;
      SubsetSize(a - {x}, b - {x});
    }
  }

  /** Which keys the counters have: the kept ones, and the overflow key once it
      was needed. */
  ghost predicate CappedShape(keys: seq<string>, cap: nat, overflow: string) {
    var counts, kept := BookCapped(keys, cap, overflow), Kept(keys, cap);
    && kept <= counts.Keys <= kept + {overflow}
    && (overflow in counts && overflow !in kept ==> |kept| >= cap)
  }

  lemma {:induction false} ShapeOf(keys: seq<string>, cap: nat, overflow: string)
    ensures CappedShape(keys, cap, overflow)
    ensures keys != [] ==>
              var init, k := keys[..|keys| - 1], keys[|keys| - 1];
              CappedKey(BookCapped(init, cap, overflow), k, cap, overflow) == if k in Kept(keys, cap) then k else overflow
  {
    if keys != [] {
      var init, k := keys[..|keys| - 1], keys[|keys| - 1];
      ShapeOf(init, cap, overflow);
      KeptWithin(init, cap);
      NextKey(BookCapped(init, cap, overflow), Kept(init, cap), k, cap, overflow);
    }
  }

  lemma NextKey(counts: map<string, nat>, kept: set<string>, k: string, cap: nat, overflow: string)
    requires kept <= counts.Keys <= kept + {overflow} && |kept| <= cap
    requires overflow in counts && overflow !in kept ==> |kept| >= cap
    ensures var after := if k in kept || |kept| >= cap then kept else kept + {k};
            CappedKey(counts, k, cap, overflow) == if k in after then k else overflow
  {
    assert |counts| == |counts.Keys|;
    SubsetSize(kept, counts.Keys);
    if |kept| < cap {
      assert counts.Keys == kept;
    }
  }

  /** A key once left out stays left out, a key once kept stays kept. */
  lemma {:induction false} KeptForGood(keys: seq<string>, cap: nat, i: nat)
    requires i < |keys|
    ensures keys[i] in Kept(keys[..i + 1], cap) <==> keys[i] in Kept(keys, cap)
  {
    if i < |keys| - 1 {
      var init := keys[..|keys| - 1];
      KeptForGood(init, cap, i);
      assert init[..i + 1] == keys[..i + 1] && init[i] == keys[i];
      if keys[i] !in Kept(init, cap) {
        assert keys[i] in DistinctIn(init);
        KeptWithin(init, cap);
      }
    } else {
      assert keys[..i + 1] == keys;
    }
  }

  /** The key under which the place is booked, whatever comes later. */
  ghost function BookedAs(keys: seq<string>, cap: nat, overflow: string, x: string): string {
    if AmongFirst(keys, cap, x) then x else overflow
  }

  /** A capped counter holds: under one of the first `cap` different keys its
      occurrences, under the overflow key all occurrences of the others. */
  lemma {:induction false} CappedCounts(keys: seq<string>, cap: nat, overflow: string, k: string)
    ensures Get(BookCapped(keys, cap, overflow), k)
         == CountIf(keys, x => BookedAs(keys, cap, overflow, x) == k)
  {
    CappedCountsTo(keys, |keys|, cap, overflow, k, x => BookedAs(keys, cap, overflow, x) == k);
    assert keys[..|keys|] == keys;
  }

  lemma {:induction false} CappedCountsTo(keys: seq<string>, n: nat, cap: nat, overflow: string, k: string, p: string -> bool)
    requires n <= |keys| && forall x :: p(x) <==> BookedAs(keys, cap, overflow, x) == k
    ensures Get(BookCapped(keys[..n], cap, overflow), k) == CountIf(keys[..n], p)
  {
    if n > 0 {
      CappedCountsTo(keys, n - 1, cap, overflow, k, p);
      BookedAt(keys, n - 1, cap, overflow);
      GetPlus(BookCapped(keys[..n - 1], cap, overflow), BookedAs(keys, cap, overflow, keys[n - 1]), k);
      CountIfNext(keys[..n - 1], keys[n - 1], p);
      assert keys[..n] == keys[..n - 1] + [keys[n - 1]];
    }
  }

  lemma GetPlus(counts: map<string, nat>, key: string, k: string)
    ensures Get(Plus(counts, key, 1), k) == Get(counts, k) + if key == k then 1 else 0
  {
  }

  lemma BookedAt(keys: seq<string>, i: nat, cap: nat, overflow: string)
    requires i < |keys|
    ensures BookCapped(keys[..i + 1], cap, overflow)
         == Plus(BookCapped(keys[..i], cap, overflow), BookedAs(keys, cap, overflow, keys[i]), 1)
  {
    ShapeOf(keys[..i + 1], cap, overflow);
    assert keys[..i + 1][..i] == keys[..i];
    KeptForGood(keys, cap, i);
    KeptAreFirst(keys, cap, keys[i]);
  }

  /** Patterns and targets of the blocked requests of a minute, in log order. */
  ghost function PatternsIn(log: seq<Line>, m: Time): seq<string> {
    if log == [] then [] else
      var l := log[|log| - 1];
      PatternsIn(log[..|log| - 1], m) + if BlockOf(l, m) then [Pattern(l.request.value)] else []
  }

  ghost function TargetsIn(log: seq<Line>, m: Time): seq<string> {
    if log == [] then [] else
      var l := log[|log| - 1];
      TargetsIn(log[..|log| - 1], m) + if BlockOf(l, m) then [TargetKey(l.request.value)] else []
  }

  lemma {:induction false} PatternsAreCapped(log: seq<Line>, m: Time)
    requires m % MINUTE == 0
    ensures MinuteAt(SinglePass(log), m).patterns == BookCapped(PatternsIn(log, m), 5, "OTHER")
  {
    if log != [] {
      var init, l := log[..|log| - 1], log[|log| - 1];
      PatternsAreCapped(init, m);
      SinglePassStep(log, m);
      InMinuteIs(l, m);
      if BlockOf(l, m) {
        CappedNext(PatternsIn(init, m), Pattern(l.request.value), 5, "OTHER");
      } else {
        assert PatternsIn(init, m) + [] == PatternsIn(init, m);
      }
    }
  }

  lemma {:induction false} TargetsAreCapped(log: seq<Line>, m: Time)
    requires m % MINUTE == 0
    ensures MinuteAt(SinglePass(log), m).targets == BookCapped(TargetsIn(log, m), 5, "unknown")
  {
    if log != [] {
      var init, l := log[..|log| - 1], log[|log| - 1];
      TargetsAreCapped(init, m);
      SinglePassStep(log, m);
      InMinuteIs(l, m);
      if BlockOf(l, m) {
        CappedNext(TargetsIn(init, m), TargetKey(l.request.value), 5, "unknown");
      } else {
        assert TargetsIn(init, m) + [] == TargetsIn(init, m);
      }
    }
  }

  lemma CappedNext(keys: seq<string>, k: string, cap: nat, overflow: string)
    ensures BookCapped(keys + [k], cap, overflow)
         == Plus(BookCapped(keys, cap, overflow), CappedKey(BookCapped(keys, cap, overflow), k, cap, overflow), 1)
  {
    assert (keys + [k])[..|keys|] == keys;
  }

  // ------------------------------------------------------------- the keys themselves

  /** A pattern is the characters in upper case with a plus between them. */
  lemma {:induction false} JoinPlusEnds(words: seq<string>, w: string)
    ensures JoinPlus([w]) == w
    ensures words != [] ==> JoinPlus(words + [w]) == JoinPlus(words) + "+" + w
  {
    if |words| > 1 {
      var rest := words[1..];
      JoinPlusEnds(rest, w);
      assert (words + [w])[1..] == rest + [w];
      assert words[0] + "+" + (JoinPlus(rest) + "+" + w) == (words[0] + "+" + JoinPlus(rest)) + "+" + w;
    } else if |words| == 1 {
      assert (words + [w])[1..] == [w] && words == [words[0]];
    }
  }

  lemma PatternIs(r: Request)
    ensures |r.encoded| == 1 ==> Pattern(r) == Upper(r.encoded[0])
    ensures |r.encoded| > 1 ==>
              var init, last := r.(encoded := r.encoded[..|r.encoded| - 1]), r.encoded[|r.encoded| - 1];
              Pattern(r) == Pattern(init) + "+" + Upper(last)
  {
    if r.encoded != [] {
      var n := |r.encoded| - 1;
      var init, last := r.encoded[..n], r.encoded[n];
      assert UpperAll(r.encoded) == UpperAll(init) + [Upper(last)];
      JoinPlusEnds(UpperAll(init), Upper(last));
      assert n == 0 ==> UpperAll(init) == [];
      assert [] + [Upper(last)] == [Upper(last)];
    }
  }

  lemma UpperIs(s: string, i: nat)
    requires i < |s|
    ensures |Upper(s)| == |s|
    ensures 'a' <= s[i] <= 'z' ==> 'A' <= Upper(s)[i] <= 'Z' && Upper(s)[i] as int - 'A' as int == s[i] as int - 'a' as int
    ensures !('a' <= s[i] <= 'z') ==> Upper(s)[i] == s[i]
  {
  }

  /** The hashed host if the log has one, else the router, else "unknown". */
  lemma TargetKeyIs(r: Request)
    ensures forall hash :: r.hostHash == Some(hash) ==> TargetKey(r) == "host:" + hash
    ensures r.hostHash == None ==> forall name :: r.router == Some(name) ==> TargetKey(r) == name
    ensures r.hostHash == None && r.router == None ==> TargetKey(r) == "unknown"
  {
  }

  // -------------------------------------------------------------------- the times

  ghost predicate LastTells(last: Option<Time>, lines: seq<Line>, m: Time) {
    && (last.Some? <==> exists i :: 0 <= i < |lines| && BlockOf(lines[i], m))
    && (last.Some? ==> exists i :: 0 <= i < |lines| && BlockOf(lines[i], m) && lines[i].at == last)
    && (forall i :: 0 <= i < |lines| && BlockOf(lines[i], m) ==> lines[i].at.value <= last.value)
  }

  lemma {:induction false} LastBlockIs(log: seq<Line>, m: Time)
    requires m % MINUTE == 0
    ensures LastTells(MinuteAt(SinglePass(log), m).lastBlockedAt, log, m)
  {
    if log != [] {
      var init, l := log[..|log| - 1], log[|log| - 1];
      LastBlockIs(init, m);
      SinglePassStep(log, m);
      InMinuteIs(l, m);
      LaterBlock(MinuteAt(SinglePass(init), m).lastBlockedAt, init, l, m);
      assert log == init + [l];
    }
  }

  lemma LaterBlock(before: Option<Time>, init: seq<Line>, l: Line, m: Time)
    requires LastTells(before, init, m)
    ensures LastTells(if BlockOf(l, m) then Some(Later(before, l.at.value)) else before, init + [l], m)
  {
    var lines := init + [l];
    assert lines[|init|] == l && forall i :: 0 <= i < |init| ==> init[i] == lines[i];
    if before.Some? {
      var i :| 0 <= i < |init| && BlockOf(init[i], m) && init[i].at == before;
      assert BlockOf(lines[i], m) && lines[i].at == before;
    }
  }

  /** The merge counts the line: within the last 24 hours, a request that is not
      Traefik's own, and not behind the cursor. */
  ghost predicate Taken(s: State, l: Line, checkedAt: Time) {
    && l.at.Some? && checkedAt - 24 * 3_600_000_000 <= l.at.value <= checkedAt
    && l.request.Some? && !(exists name :: l.request.value.router == Some(name + "@internal"))
    && (s.cursorAt.Some? ==>
          || s.cursorAt.value < l.at.value
          || (s.cursorAt == l.at && l.fingerprint !in s.cursorFingerprints))
  }

  /** The start of counting: the earliest request ever counted. */
  lemma CountedSinceIs(s: State, lines: seq<Line>, checkedAt: Time)
    ensures var r := Merge(s, lines, checkedAt).countedSince;
            && (r.Some? <==> s.countedSince.Some? || exists i :: 0 <= i < |lines| && Taken(s, lines[i], checkedAt))
            && (r.Some? ==> r == s.countedSince
                            || exists i :: 0 <= i < |lines| && Taken(s, lines[i], checkedAt) && lines[i].at == r)
            && (s.countedSince.Some? ==> r.value <= s.countedSince.value)
            && (forall i :: 0 <= i < |lines| && Taken(s, lines[i], checkedAt) ==> r.value <= lines[i].at.value)
  {
    CountedSinceSteps(s, lines, checkedAt);
  }

  ghost predicate EarliestTaken(r: Option<Time>, s: State, lines: seq<Line>, checkedAt: Time) {
    && (r.Some? <==> s.countedSince.Some? || exists i :: 0 <= i < |lines| && Taken(s, lines[i], checkedAt))
    && (r.Some? ==> r == s.countedSince
                    || exists i :: 0 <= i < |lines| && Taken(s, lines[i], checkedAt) && lines[i].at == r)
    && (s.countedSince.Some? ==> r.value <= s.countedSince.value)
    && (forall i :: 0 <= i < |lines| && Taken(s, lines[i], checkedAt) ==> r.value <= lines[i].at.value)
  }

  lemma {:induction false} CountedSinceSteps(s: State, lines: seq<Line>, checkedAt: Time)
    ensures EarliestTaken(RollUp(Tally(s.minutes, s.countedSince), FreshLines(s, lines, checkedAt)).countedSince,
                          s, lines, checkedAt)
  {
    if lines != [] {
      var init, l := lines[..|lines| - 1], lines[|lines| - 1];
      CountedSinceSteps(s, init, checkedAt);
      TakenIs(s, l, checkedAt);
      FreshStep(s, lines, checkedAt);
      var before := RollUp(Tally(s.minutes, s.countedSince), FreshLines(s, init, checkedAt)).countedSince;
      EarlierTaken(before, s, init, l, checkedAt);
      assert lines == init + [l];
    }
  }

  lemma EarlierTaken(before: Option<Time>, s: State, init: seq<Line>, l: Line, checkedAt: Time)
    requires EarliestTaken(before, s, init, checkedAt)
    ensures EarliestTaken(if Taken(s, l, checkedAt) then Some(Earlier(before, l.at.value)) else before,
                          s, init + [l], checkedAt)
  {
    var lines := init + [l];
    assert lines[|init|] == l && forall i :: 0 <= i < |init| ==> init[i] == lines[i];
    if before.Some? && before != s.countedSince {
      var i :| 0 <= i < |init| && Taken(s, init[i], checkedAt) && init[i].at == before;
      assert Taken(s, lines[i], checkedAt) && lines[i].at == before;
    }
    if i :| 0 <= i < |init| && Taken(s, init[i], checkedAt) { assert Taken(s, lines[i], checkedAt); }
  }

  lemma TakenIs(s: State, l: Line, checkedAt: Time)
    ensures Taken(s, l, checkedAt) <==> Fresh(s, l, checkedAt) && Countable(l)
  {
    if l.request.Some? { InternalIs(l.request.value); }
  }

  /** The start of observation: the earliest stamp ever read, or the first check
      if nothing stamped was read. */
  lemma ObservedSinceIs(s: State, lines: seq<Line>, checkedAt: Time)
    ensures var r := Merge(s, lines, checkedAt).observedSince;
            && r.Some?
            && (r == s.observedSince || (exists i :: 0 <= i < |lines| && lines[i].at == r)
                || (r == Some(checkedAt) && s.observedSince == None && forall i :: 0 <= i < |lines| ==> lines[i].at == None))
            && (s.observedSince.Some? ==> r.value <= s.observedSince.value)
            && (forall i :: 0 <= i < |lines| && lines[i].at.Some? ==> r.value <= lines[i].at.value)
  {
    EarliestIs(lines);
  }

  lemma {:induction false} EarliestIs(lines: seq<Line>)
    ensures Earliest(lines).None? <==> forall i :: 0 <= i < |lines| ==> lines[i].at == None
    ensures Earliest(lines).Some? ==> exists i :: 0 <= i < |lines| && lines[i].at == Earliest(lines)
    ensures forall i :: 0 <= i < |lines| && lines[i].at.Some? ==> Earliest(lines).value <= lines[i].at.value
  {
    if lines != [] {
      var init, l := lines[..|lines| - 1], lines[|lines| - 1];
      EarliestIs(init);
      assert forall i :: 0 <= i < |init| ==> init[i] == lines[i];
      if Earliest(init).Some? {
        var i :| 0 <= i < |init| && init[i].at == Earliest(init);
        assert lines[i].at == Earliest(init);
      }
      assert lines[|init|] == l;
    }
  }

  // ------------------------------------------------------------ over every run

  lemma {:induction false} MinutesAreWhole(log: seq<Line>, m: Time)
    requires m in SinglePass(log)
    ensures m % MINUTE == 0
  {
    var init, l := log[..|log| - 1], log[|log| - 1];
    if m in SinglePass(init) {
      MinutesAreWhole(init, m);
    } else {
      WholeMinute(l.at.value);
    }
  }

  lemma WholeMinute(t: Time)
    ensures MinuteStart(t) % MINUTE == 0
  {
    var q := t / MINUTE;
    assert t - t % MINUTE == q * MINUTE;
  }

  /** The record tells of the lines of its minute: for each method, how many
      blocked requests have it; for each encoded character, how many were
      blocked for it; for each of the first five patterns and targets, how many
      have it, and under "OTHER" and "unknown" all the rest; and when the last
      one came. */
  ghost predicate Tells(minute: Minute, lines: seq<Line>, m: Time) {
    && minute.total == CountIf(lines, l => RequestOf(l, m))
    && minute.blocked == CountIf(lines, l => BlockOf(l, m))
    && (forall k :: Get(minute.methods, k) == CountIf(lines, l => BlockOf(l, m) && l.request.value.method_ == k))
    && (forall k :: Get(minute.encoded, k) == CountIf(lines, l => BlockOf(l, m) && k in l.request.value.encoded))
    && CappedTells(minute.patterns, PatternsIn(lines, m), "OTHER")
    && CappedTells(minute.targets, TargetsIn(lines, m), "unknown")
    && LastTells(minute.lastBlockedAt, lines, m)
  }

  ghost predicate CappedTells(counts: map<string, nat>, keys: seq<string>, overflow: string) {
    forall k :: Get(counts, k) == CountIf(keys, x => BookedAs(keys, 5, overflow, x) == k)
  }

  lemma SinglePassTells(log: seq<Line>, m: Time)
    requires m % MINUTE == 0
    requires forall i :: 0 <= i < |log| && log[i].request.Some? ==> ListedOnce(log[i].request.value.encoded)
    ensures Tells(MinuteAt(SinglePass(log), m), log, m)
  {
    var minute := MinuteAt(SinglePass(log), m);
    CountsOf(log, m);
    forall k ensures Get(minute.methods, k) == CountIf(log, l => BlockOf(l, m) && l.request.value.method_ == k) {
      MethodsOf(log, m, k);
    }
    forall k ensures Get(minute.encoded, k) == CountIf(log, l => BlockOf(l, m) && k in l.request.value.encoded) {
      CharactersOf(log, m, k);
    }
    PatternsAreCapped(log, m);
    CappedTellsAll(PatternsIn(log, m), "OTHER");
    TargetsAreCapped(log, m);
    CappedTellsAll(TargetsIn(log, m), "unknown");
    LastBlockIs(log, m);
  }

  lemma CappedTellsAll(keys: seq<string>, overflow: string)
    ensures CappedTells(BookCapped(keys, 5, overflow), keys, overflow)
  {
    forall k ensures Get(BookCapped(keys, 5, overflow), k) == CountIf(keys, x => BookedAs(keys, 5, overflow, x) == k) {
      CappedCounts(keys, 5, overflow, k);
    }
  }

  /** In every good run each retained minute tells of the lines read so far. */
  lemma RetainedBreakdownsAreExact(log: seq<Line>, tail: nat, polls: seq<Poll>, m: Time)
    requires GoodLog(log) && GoodRun(log, tail, polls) && Run(log, tail, polls).Some?
    requires m in Run(log, tail, polls).value.minutes
    requires forall i :: 0 <= i < |log| && log[i].request.Some? ==> ListedOnce(log[i].request.value.encoded)
    ensures Seen(polls) <= |log| && Tells(Run(log, tail, polls).value.minutes[m], log[..Seen(polls)], m)
  {
    IncrementalEqualsSinglePass(log, tail, polls);
    MinutesAreWhole(log[..Seen(polls)], m);
    SinglePassTells(log[..Seen(polls)], m);
  }

  // ------------------------------------------------------------------- one request

  /** A blocked GET of `/a%2fb%5cc` on a host with a hash, on an empty minute. */
  lemma OneBlockedRequest(hash: string, at: Time)
    ensures Book(EMPTY_MINUTE, Request(["%2F", "%5C"], "GET", Some("r@docker"), Some(hash)), at)
         == Minute(1, 1, map["%2F" := 1, "%5C" := 1], map["GET" := 1], map["%2F+%5C" := 1],
                   map["host:" + hash := 1], Some(at))
  {
    SamplePattern();
    SampleCharacters();
  }

  lemma SamplePattern()
    ensures JoinPlus(UpperAll(["%2F", "%5C"])) == "%2F+%5C"
  {
    assert Upper("%2F") == "%2F" && Upper("%5C") == "%5C";
    assert UpperAll(["%2F", "%5C"]) == ["%2F", "%5C"];
    assert ["%2F", "%5C"][1..] == ["%5C"];
    assert "%2F" + "+" + "%5C" == "%2F+%5C";
  }

  lemma SampleCharacters()
    ensures CountEach(map[], ["%2F", "%5C"]) == map["%2F" := 1, "%5C" := 1]
  {
    var both := ["%2F", "%5C"];
    assert both[..1] == ["%2F"] && ["%2F"][..0] == [];
    assert CountEach(map[], ["%2F"]) == map["%2F" := 1];
    assert "%2F"[1] != "%5C"[1];
  }
}
