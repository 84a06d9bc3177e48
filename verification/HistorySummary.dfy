/** What is read out of the minute counters: the window summary behind an alert
    and the 24-hour view. At every layer the parts add up to the blocked count. */
module HistorySummary {
  import opened Counters
  import opened HistoryState
  import opened HistoryRun
  import opened HistoryCounts

  // -------------------------------------------------------------------- ranking

  datatype Ranked = Ranked(name: string, count: nat)

  function Self(r: Ranked): Ranked { r }

  /** The sort key `(-count, name)`. */
  predicate RanksBefore(a: Ranked, b: Ranked) {
    a.count > b.count || (a.count == b.count && TextLeq(a.name, b.name))
  }

  ghost predicate RankOrdered<T>(rank: T -> Ranked, s: seq<T>) {
    forall i, j :: 0 <= i < j < |s| ==> RanksBefore(rank(s[i]), rank(s[j]))
  }

  lemma RanksBeforeTransitive(a: Ranked, b: Ranked, c: Ranked)
    requires RanksBefore(a, b) && RanksBefore(b, c)
    ensures RanksBefore(a, c)
  {
    if a.count == b.count && b.count == c.count {
      TextLeqTransitive(a.name, b.name, c.name);
    }
  }

  /** Stable insertion: after every entry of equal rank. */
  function InsertRanked<T>(rank: T -> Ranked, x: T, s: seq<T>): (t: seq<T>) {
    if s == [] then [x]
    else if !RanksBefore(rank(s[0]), rank(x)) then [x] + s
    else [s[0]] + InsertRanked(rank, x, s[1..])
  }

  lemma {:induction false} InsertedMembers<T(!new)>(rank: T -> Ranked, x: T, s: seq<T>)
    ensures multiset(InsertRanked(rank, x, s)) == multiset(s) + multiset{x}
    ensures forall y :: y in InsertRanked(rank, x, s) <==> y == x || y in s
  {
    if s != [] && RanksBefore(rank(s[0]), rank(x)) {
      InsertedMembers(rank, x, s[1..]);
    }
    assert s != [] ==> s == [s[0]] + s[1..];
  }

  lemma {:induction false} InsertedOrdered<T(!new)>(rank: T -> Ranked, x: T, s: seq<T>)
    requires RankOrdered(rank, s)
    ensures RankOrdered(rank, InsertRanked(rank, x, s))
  {
    if s == [] {
    } else if !RanksBefore(rank(s[0]), rank(x)) {
      TextLeqTotal(rank(x).name, rank(s[0]).name);
      forall j | 0 < j < |s| ensures RanksBefore(rank(x), rank(s[j])) {
        RanksBeforeTransitive(rank(x), rank(s[0]), rank(s[j]));
      }
    } else {
      InsertedOrdered(rank, x, s[1..]);
      var rest := InsertRanked(rank, x, s[1..]);
      InsertedMembers(rank, x, s[1..]);
      forall j | 0 <= j < |rest| ensures RanksBefore(rank(s[0]), rank(rest[j])) {
        var y := rest[j];
        assert y in InsertRanked(rank, x, s[1..]);
        if y != x {
          assert y in s[1..];
          assert exists k :: 0 < k < |s| && s[k] == y;
        }
      }
    }
  }

  ghost function SumRanked<T>(rank: T -> Ranked, s: seq<T>): nat {
    if s == [] then 0 else SumRanked(rank, s[..|s| - 1]) + rank(s[|s| - 1]).count
  }

  lemma {:induction false} SumRankedAppend<T>(rank: T -> Ranked, a: seq<T>, b: seq<T>)
    ensures SumRanked(rank, a + b) == SumRanked(rank, a) + SumRanked(rank, b)
  {
    if b == [] {
      assert a + b == a;
    } else {
      assert (a + b)[..|a + b| - 1] == a + b[..|b| - 1];
      SumRankedAppend(rank, a, b[..|b| - 1]);
    }
  }

  lemma {:induction false} SumInserted<T>(rank: T -> Ranked, x: T, s: seq<T>)
    ensures SumRanked(rank, InsertRanked(rank, x, s)) == SumRanked(rank, s) + rank(x).count
  {
    assert SumRanked(rank, [x]) == rank(x).count;
    if s == [] {
    } else if !RanksBefore(rank(s[0]), rank(x)) {
      SumRankedAppend(rank, [x], s);
    } else {
      SumInserted(rank, x, s[1..]);
      SumRankedAppend(rank, [s[0]], s[1..]);
      assert s == [s[0]] + s[1..];
      SumRankedAppend(rank, [s[0]], InsertRanked(rank, x, s[1..]));
    }
  }

  /** `sorted(items, key=(-count, name))` */
  method SortRanked<T(!new)>(rank: T -> Ranked, s: seq<T>) returns (sorted: seq<T>)
    ensures Sorts(rank, s, sorted)
    ensures forall y :: y in sorted <==> y in s
  {
    sorted := [];
    for i := 0 to |s|
      invariant Sorts(rank, s[..i], sorted)
    {
      SortStep(rank, s, i, sorted);
      sorted := InsertRanked(rank, s[i], sorted);
    }
    assert s[..|s|] == s;
    assert forall y :: y in sorted <==> y in multiset(sorted);
  }

  ghost predicate Sorts<T(!new)>(rank: T -> Ranked, s: seq<T>, sorted: seq<T>) {
    && RankOrdered(rank, sorted) && multiset(sorted) == multiset(s)
    && SumRanked(rank, sorted) == SumRanked(rank, s)
  }

  lemma SortStep<T(!new)>(rank: T -> Ranked, s: seq<T>, i: nat, sorted: seq<T>)
    requires i < |s| && Sorts(rank, s[..i], sorted)
    ensures Sorts(rank, s[..i + 1], InsertRanked(rank, s[i], sorted))
  {
    assert s[..i + 1] == s[..i] + [s[i]];
    assert s[..i + 1][..i] == s[..i];
    SumInserted(rank, s[i], sorted);
    InsertedOrdered(rank, s[i], sorted);
    InsertedMembers(rank, s[i], sorted);
  }

  // --- sorting keeps keys distinct

  ghost predicate DistinctBy<T>(key: T -> string, s: seq<T>) {
    forall i, j :: 0 <= i < j < |s| ==> key(s[i]) != key(s[j])
  }

  lemma {:induction false} OncePerKey<T>(key: T -> string, s: seq<T>, a: T)
    requires DistinctBy(key, s)
    ensures multiset(s)[a] <= 1
  {
    if s != [] {
      var init := s[..|s| - 1];
      assert s == init + [s[|s| - 1]];
      OncePerKey(key, init, a);
      forall i | 0 <= i < |init| ensures init[i] != s[|s| - 1] {
        assert init[i] == s[i];
      }
    }
  }

  lemma TwiceCounted<T>(s: seq<T>, i: nat, j: nat)
    requires i < j < |s| && s[i] == s[j]
    ensures multiset(s)[s[i]] >= 2
  {
    assert s == s[..j] + [s[j]] + s[j + 1..];
    assert s[..j][i] in s[..j];
  }

  lemma SortedDistinct<T>(key: T -> string, s: seq<T>, sorted: seq<T>)
    requires DistinctBy(key, s) && multiset(sorted) == multiset(s)
    ensures DistinctBy(key, sorted)
  {
    forall i, j | 0 <= i < j < |sorted| ensures key(sorted[i]) != key(sorted[j]) {
      OncePerKey(key, s, sorted[i]);
      if sorted[i] == sorted[j] { TwiceCounted(sorted, i, j); }
      assert sorted[i] in multiset(s) && sorted[j] in multiset(s);
      var k :| 0 <= k < |s| && s[k] == sorted[i];
      var l :| 0 <= l < |s| && s[l] == sorted[j];
    }
  }

  function NameOf(r: Ranked): string { r.name }

  /** `_rank_counts` */
  method RankCounts(counts: map<string, nat>) returns (ranked: seq<Ranked>)
    ensures RankOrdered(Self, ranked)
    ensures forall i, j :: 0 <= i < j < |ranked| ==>
              ranked[i].count > ranked[j].count
              || (ranked[i].count == ranked[j].count && TextLeq(ranked[i].name, ranked[j].name))
    ensures forall r :: r in ranked <==> r.name in counts && counts[r.name] == r.count
    ensures |ranked| == |counts| && DistinctBy(NameOf, ranked)
    ensures SumRanked(Self, ranked) == Sum(counts)
  {
    var items := Items(counts);
    ranked := SortRanked(Self, items);
    SortedDistinct(NameOf, items, ranked);
    assert |multiset(ranked)| == |ranked| && |multiset(items)| == |items|;
    forall i, j | 0 <= i < j < |ranked|
      ensures ranked[i].count > ranked[j].count
              || (ranked[i].count == ranked[j].count && TextLeq(ranked[i].name, ranked[j].name))
    {
      assert RanksBefore(Self(ranked[i]), Self(ranked[j]));
    }
  }

  method Items(counts: map<string, nat>) returns (items: seq<Ranked>)
    ensures forall r :: r in items <==> r.name in counts && counts[r.name] == r.count
    ensures |items| == |counts| && DistinctBy(NameOf, items)
    ensures SumRanked(Self, items) == Sum(counts)
  {
    items := [];
    var todo := counts;
    while todo != map[]
      invariant Listing(items, todo, counts)
      decreases |todo|
    {
      var k :| k in todo;
      ListOne(items, todo, counts, k);
      items := items + [Ranked(k, todo[k])];
      todo := todo - {k};
    }
  }

  /** `items` lists the counters that are no longer in `todo`. */
  ghost predicate Listing(items: seq<Ranked>, todo: map<string, nat>, counts: map<string, nat>) {
    && todo.Keys <= counts.Keys && (forall k :: k in todo ==> todo[k] == counts[k])
    && (forall r :: r in items <==> r.name in counts && r.name !in todo && counts[r.name] == r.count)
    && |items| + |todo| == |counts| && DistinctBy(NameOf, items)
    && SumRanked(Self, items) + Sum(todo) == Sum(counts)
  }

  lemma ListOne(items: seq<Ranked>, todo: map<string, nat>, counts: map<string, nat>, k: string)
    requires Listing(items, todo, counts) && k in todo
    ensures Listing(items + [Ranked(k, todo[k])], todo - {k}, counts)
  {
    var r := Ranked(k, todo[k]);
    SumRemove(todo, k);
    assert (items + [r])[..|items|] == items;
    assert todo.Keys - {k} == (todo - {k}).Keys && |todo.Keys - {k}| == |todo| - 1;
    NewNameDistinct(items, r);
  }

  lemma NewNameDistinct(items: seq<Ranked>, r: Ranked)
    requires DistinctBy(NameOf, items) && forall x :: x in items ==> x.name != r.name
    ensures DistinctBy(NameOf, items + [r])
  {
    forall i | 0 <= i < |items| ensures NameOf(items[i]) != NameOf(r) { assert items[i] in items; }
  }

  // ------------------------------------------------------------- window summary

  datatype Summary = Summary(
    blocked: nat, total: nat, complete: bool,
    targets: seq<Ranked>, methods: seq<Ranked>, patterns: seq<Ranked>)

  const MAX_PATTERN_RESULTS: nat := 5

  function SummaryCutoff(checkedAt: Time, windowMinutes: nat): Time {
    MinuteStart(checkedAt - windowMinutes * MINUTE)
  }

  predicate Within(m: Time, from: Time, to: Time) { from <= m <= to }

  function BlockedIn(minutes: map<Time, Minute>, from: Time, to: Time): map<Time, nat> {
    map m | m in minutes && Within(m, from, to) :: minutes[m].blocked
  }

  function TotalIn(minutes: map<Time, Minute>, from: Time, to: Time): map<Time, nat> {
    map m | m in minutes && Within(m, from, to) :: minutes[m].total
  }

  ghost function BlockedSum(minutes: map<Time, Minute>, from: Time, to: Time): nat {
    Sum(BlockedIn(minutes, from, to))
  }

  ghost function TotalSum(minutes: map<Time, Minute>, from: Time, to: Time): nat {
    Sum(TotalIn(minutes, from, to))
  }

  datatype Breakdown = ByTarget | ByMethod | ByPattern

  function CountsOf(minute: Minute, b: Breakdown): map<string, nat> {
    match b
    case ByTarget => minute.targets
    case ByMethod => minute.methods
    case ByPattern => minute.patterns
  }

  function KeyIn(minutes: map<Time, Minute>, from: Time, to: Time, b: Breakdown, key: string): map<Time, nat> {
    map m | m in minutes && Within(m, from, to) :: Get(CountsOf(minutes[m], b), key)
  }

  /** What the minutes of the window hold for `key`, all together. */
  ghost function KeySum(minutes: map<Time, Minute>, from: Time, to: Time, b: Breakdown, key: string): nat {
    Sum(KeyIn(minutes, from, to, b, key))
  }

  /** Some minute of the window has `key` in its break-down. */
  ghost predicate Listed(minutes: map<Time, Minute>, from: Time, to: Time, b: Breakdown, key: string) {
    exists m :: m in minutes && Within(m, from, to) && key in CountsOf(minutes[m], b)
  }

  ghost predicate AddsUp(counts: map<string, nat>, minutes: map<Time, Minute>, from: Time, to: Time, b: Breakdown) {
    && (forall key :: key in counts <==> Listed(minutes, from, to, b, key))
    && (forall key :: Get(counts, key) == KeySum(minutes, from, to, b, key))
  }

  /** The ranking names each of the window's keys once, with its sum, and
      nothing else. */
  ghost predicate ExactRanking(ranked: seq<Ranked>, minutes: map<Time, Minute>, from: Time, to: Time, b: Breakdown) {
    && DistinctBy(NameOf, ranked)
    && forall r :: r in ranked <==>
         Listed(minutes, from, to, b, r.name) && r.count == KeySum(minutes, from, to, b, r.name)
  }

  /** What the loop over the minutes accumulates. */
  datatype Window = Window(
    blocked: nat, total: nat,
    targets: map<string, nat>, methods: map<string, nat>, patterns: map<string, nat>)

  function PartOf(w: Window, b: Breakdown): map<string, nat> {
    match b
    case ByTarget => w.targets
    case ByMethod => w.methods
    case ByPattern => w.patterns
  }

  ghost predicate WindowBalanced(w: Window) {
    && w.blocked <= w.total
    && (forall b :: Sum(PartOf(w, b)) == w.blocked)
  }

  lemma MinuteAddsUp(minute: Minute, b: Breakdown)
    requires Balanced(minute)
    ensures Sum(CountsOf(minute, b)) == minute.blocked
  {
  }

  method AddMinute(w: Window, minute: Minute) returns (next: Window)
    ensures next.blocked == w.blocked + minute.blocked && next.total == w.total + minute.total
    ensures forall b :: PartOf(next, b) == MergeMaps(PartOf(w, b), CountsOf(minute, b))
  {
    var targets := MergeCounts(w.targets, minute.targets);
    var methods := MergeCounts(w.methods, minute.methods);
    var patterns := MergeCounts(w.patterns, minute.patterns);
    next := Window(w.blocked + minute.blocked, w.total + minute.total, targets, methods, patterns);
  }

  lemma MinuteKeepsWindowBalanced(w: Window, minute: Minute, next: Window)
    requires WindowBalanced(w) && Balanced(minute)
    requires next.blocked == w.blocked + minute.blocked && next.total == w.total + minute.total
    requires forall b :: PartOf(next, b) == MergeMaps(PartOf(w, b), CountsOf(minute, b))
    ensures WindowBalanced(next)
  {
    forall b ensures Sum(PartOf(next, b)) == next.blocked {
      MinuteAddsUp(minute, b);
      SumMerge(PartOf(w, b), CountsOf(minute, b));
    }
  }

  ghost predicate WindowExact(w: Window, minutes: map<Time, Minute>, from: Time, to: Time) {
    && w.blocked == BlockedSum(minutes, from, to)
    && w.total == TotalSum(minutes, from, to)
    && (forall b :: AddsUp(PartOf(w, b), minutes, from, to, b))
  }

  method AccumulateWindow(minutes: map<Time, Minute>, from: Time, to: Time) returns (w: Window)
    requires AllBalanced(minutes)
    ensures WindowBalanced(w) && WindowExact(w, minutes, from, to)
  {
    w := Window(0, 0, map[], map[], map[]);
    var todo := minutes.Keys;
    NothingAccumulated(minutes, from, to);
    while todo != {}
      invariant todo <= minutes.Keys && WindowBalanced(w)
      invariant WindowExact(w, minutes - todo, from, to)
    {
      var m := Pick(todo);
      ghost var before := w;
      if from <= m <= to {
        w := AddMinute(w, minutes[m]);
        MinuteKeepsWindowBalanced(before, minutes[m], w);
      }
      ExactAfterMinute(before, w, minutes, todo, m, from, to);
      todo := todo - {m};
    }
    assert minutes - {} == minutes;
  }

  lemma NothingAccumulated(minutes: map<Time, Minute>, from: Time, to: Time)
    ensures WindowExact(Window(0, 0, map[], map[], map[]), minutes - minutes.Keys, from, to)
  {
    assert minutes - minutes.Keys == map[];
    assert BlockedIn(map[], from, to) == map[] && TotalIn(map[], from, to) == map[];
    forall b, key ensures KeySum(map[], from, to, b, key) == 0 {
      assert KeyIn(map[], from, to, b, key) == map[];
    }
  }

  lemma ExactAfterMinute(w: Window, next: Window, minutes: map<Time, Minute>, todo: set<Time>, m: Time,
                         from: Time, to: Time)
    requires todo <= minutes.Keys && m in todo && WindowExact(w, minutes - todo, from, to)
    requires !Within(m, from, to) ==> next == w
    requires Within(m, from, to) ==>
               && next.blocked == w.blocked + minutes[m].blocked && next.total == w.total + minutes[m].total
               && (forall b :: PartOf(next, b) == MergeMaps(PartOf(w, b), CountsOf(minutes[m], b)))
    ensures WindowExact(next, minutes - (todo - {m}), from, to)
  {
    WindowSumStep(minutes, todo, m, from, to);
    forall b ensures AddsUp(PartOf(next, b), minutes - (todo - {m}), from, to, b) {
      AddsUpStep(PartOf(w, b), PartOf(next, b), minutes, todo, m, from, to, b);
    }
  }

  lemma AddsUpStep(counts: map<string, nat>, next: map<string, nat>, minutes: map<Time, Minute>, todo: set<Time>,
                   m: Time, from: Time, to: Time, b: Breakdown)
    requires todo <= minutes.Keys && m in todo && AddsUp(counts, minutes - todo, from, to, b)
    requires next == if Within(m, from, to) then MergeMaps(counts, CountsOf(minutes[m], b)) else counts
    ensures AddsUp(next, minutes - (todo - {m}), from, to, b)
  {
    forall key ensures key in next <==> Listed(minutes - (todo - {m}), from, to, b, key) {
      ListedStep(minutes, todo, m, from, to, b, key);
    }
    forall key ensures Get(next, key) == KeySum(minutes - (todo - {m}), from, to, b, key) {
      KeySumStep(minutes, todo, m, from, to, b, key);
    }
  }

  lemma ListedStep(minutes: map<Time, Minute>, todo: set<Time>, m: Time, from: Time, to: Time, b: Breakdown, key: string)
    requires todo <= minutes.Keys && m in todo
    ensures Listed(minutes - (todo - {m}), from, to, b, key)
       <==> Listed(minutes - todo, from, to, b, key) || (Within(m, from, to) && key in CountsOf(minutes[m], b))
  {
    var rest, more := minutes - todo, minutes - (todo - {m});
    assert m in more && more[m] == minutes[m];
    forall k | k in rest ensures k in more && more[k] == rest[k] {}
    forall k | k in more && k != m ensures k in rest && more[k] == rest[k] {}
  }

  lemma KeySumStep(minutes: map<Time, Minute>, todo: set<Time>, m: Time, from: Time, to: Time, b: Breakdown, key: string)
    requires todo <= minutes.Keys && m in todo
    ensures KeySum(minutes - (todo - {m}), from, to, b, key)
         == KeySum(minutes - todo, from, to, b, key)
            + if Within(m, from, to) then Get(CountsOf(minutes[m], b), key) else 0
  {
    var counts := KeyIn(minutes - todo, from, to, b, key);
    var n := Get(CountsOf(minutes[m], b), key);
    if Within(m, from, to) {
      assert KeyIn(minutes - (todo - {m}), from, to, b, key) == counts[m := n];
      SumInsert(counts, m, n);
    } else {
      assert KeyIn(minutes - (todo - {m}), from, to, b, key) == counts;
    }
  }

  /** What an alert or a chart reads of a window that starts at `from`: exact
      sums, targets and methods ranked with their exact counts, and the five
      largest patterns. */
  ghost predicate Summarizes(r: Summary, minutes: map<Time, Minute>, from: Time, to: Time) {
    && r.blocked == BlockedSum(minutes, from, to)
    && r.total == TotalSum(minutes, from, to)
    && RankOrdered(Self, r.targets) && ExactRanking(r.targets, minutes, from, to, ByTarget)
    && RankOrdered(Self, r.methods) && ExactRanking(r.methods, minutes, from, to, ByMethod)
    && (exists all :: RankOrdered(Self, all) && ExactRanking(all, minutes, from, to, ByPattern)
                      && r.patterns == AtMost(all, MAX_PATTERN_RESULTS))
  }

  /** Exact sums and rankings, and break-downs that add up to the blocked count
      whenever every minute is balanced. */
  method SummarizeRecentBlocks(s: State, checkedAt: Time, windowMinutes: nat) returns (r: Summary)
    requires AllBalanced(s.minutes)
    ensures Summarizes(r, s.minutes, SummaryCutoff(checkedAt, windowMinutes), checkedAt)
    ensures r.blocked <= r.total
    ensures SumRanked(Self, r.targets) == r.blocked && SumRanked(Self, r.methods) == r.blocked
    ensures SumRanked(Self, r.patterns) <= r.blocked
    ensures r.complete <==> s.countedSince.Some? && s.countedSince.value <= SummaryCutoff(checkedAt, windowMinutes)
  {
    var cutoff := SummaryCutoff(checkedAt, windowMinutes);
    var w := AccumulateWindow(s.minutes, cutoff, checkedAt);
    var targets := RankBreakdown(w, s.minutes, cutoff, checkedAt, ByTarget);
    var methods := RankBreakdown(w, s.minutes, cutoff, checkedAt, ByMethod);
    var patterns := RankBreakdown(w, s.minutes, cutoff, checkedAt, ByPattern);
    SumRankedPrefix(patterns, MAX_PATTERN_RESULTS);
    r := Summary(w.blocked, w.total, s.countedSince.Some? && s.countedSince.value <= cutoff,
                 targets, methods, AtMost(patterns, MAX_PATTERN_RESULTS));
  }

  /** What the window's minutes hold for `k` in one of their records. */
  ghost function FieldSum(minutes: map<Time, Minute>, from: Time, to: Time, field: Minute -> map<string, nat>, k: string): nat {
    Sum(map m | m in minutes && from <= m <= to :: Get(field(minutes[m]), k))
  }

  /** Each entry carries its sum; a key that is not shown has no larger one, and
      none is missing from a list of fewer than `limit`. */
  ghost predicate Ranks(ranked: seq<Ranked>, minutes: map<Time, Minute>, from: Time, to: Time,
                        field: Minute -> map<string, nat>, limit: nat) {
    && (forall x :: x in ranked ==> x.count == FieldSum(minutes, from, to, field, x.name))
    && forall m, k :: m in minutes && from <= m <= to && k in field(minutes[m]) ==>
         || Shows(ranked, k)
         || (|ranked| == limit && forall x :: x in ranked ==> FieldSum(minutes, from, to, field, k) <= x.count)
  }

  ghost predicate Shows(ranked: seq<Ranked>, name: string) { exists x :: x in ranked && x.name == name }

  /** The summary told on the minutes' own records: targets and methods rank all
      of theirs, the patterns the first five. */
  lemma SummaryOfFields(r: Summary, minutes: map<Time, Minute>, from: Time, to: Time)
    requires Summarizes(r, minutes, from, to)
    ensures r.blocked == Sum(map m | m in minutes && from <= m <= to :: minutes[m].blocked)
    ensures r.total == Sum(map m | m in minutes && from <= m <= to :: minutes[m].total)
    ensures Ranks(r.targets, minutes, from, to, (m: Minute) => m.targets, |r.targets| + 1)
    ensures Ranks(r.methods, minutes, from, to, (m: Minute) => m.methods, |r.methods| + 1)
    ensures |r.patterns| <= 5 && Ranks(r.patterns, minutes, from, to, (m: Minute) => m.patterns, 5)
  {
    assert BlockedIn(minutes, from, to) == map m | m in minutes && from <= m <= to :: minutes[m].blocked;
    assert TotalIn(minutes, from, to) == map m | m in minutes && from <= m <= to :: minutes[m].total;
    RankingRanks(r.targets, r.targets, minutes, from, to, ByTarget, (m: Minute) => m.targets, |r.targets| + 1);
    RankingRanks(r.methods, r.methods, minutes, from, to, ByMethod, (m: Minute) => m.methods, |r.methods| + 1);
    var all :| RankOrdered(Self, all) && ExactRanking(all, minutes, from, to, ByPattern)
               && r.patterns == AtMost(all, MAX_PATTERN_RESULTS);
    RankingRanks(all, r.patterns, minutes, from, to, ByPattern, (m: Minute) => m.patterns, MAX_PATTERN_RESULTS);
  }

  lemma RankingRanks(all: seq<Ranked>, first: seq<Ranked>, minutes: map<Time, Minute>, from: Time, to: Time,
                     b: Breakdown, field: Minute -> map<string, nat>, limit: nat)
    requires RankOrdered(Self, all) && ExactRanking(all, minutes, from, to, b) && first == AtMost(all, limit)
    requires forall minute :: field(minute) == CountsOf(minute, b)
    ensures Ranks(first, minutes, from, to, field, limit)
  {
    forall k ensures KeySum(minutes, from, to, b, k) == FieldSum(minutes, from, to, field, k) {
      assert KeyIn(minutes, from, to, b, k) == map m | m in minutes && from <= m <= to :: Get(field(minutes[m]), k);
    }
    forall x | x in first ensures x in all {
      var i :| 0 <= i < |first| && first[i] == x;
      assert all[i] == x;
    }
    forall m, k | m in minutes && from <= m <= to && k in field(minutes[m])
      ensures Shows(first, k)
           || (|first| == limit && forall x :: x in first ==> FieldSum(minutes, from, to, field, k) <= x.count)
    {
      ListedIsShown(all, minutes, from, to, b, m, k);
      FirstOutrank(all, first, limit, k, KeySum(minutes, from, to, b, k));
    }
  }

  lemma ListedIsShown(ranked: seq<Ranked>, minutes: map<Time, Minute>, from: Time, to: Time, b: Breakdown, m: Time, k: string)
    requires ExactRanking(ranked, minutes, from, to, b) && m in minutes && Within(m, from, to)
    ensures k in CountsOf(minutes[m], b) ==> Ranked(k, KeySum(minutes, from, to, b, k)) in ranked && Shows(ranked, k)
  {
    if k in CountsOf(minutes[m], b) {
      var x := Ranked(k, KeySum(minutes, from, to, b, k));
      assert Listed(minutes, from, to, b, x.name);
      assert x in ranked;
    }
  }

  lemma FirstOutrank(all: seq<Ranked>, first: seq<Ranked>, limit: nat, k: string, n: nat)
    requires RankOrdered(Self, all) && first == AtMost(all, limit) && Ranked(k, n) in all
    ensures Shows(first, k) || (|first| == limit && forall x :: x in first ==> n <= x.count)
  {
    var i :| 0 <= i < |all| && all[i] == Ranked(k, n);
    if i < |first| {
      assert first[i] == Ranked(k, n);
    } else {
      forall x | x in first ensures n <= x.count {
        var j :| 0 <= j < |first| && first[j] == x;
        assert RanksBefore(Self(all[j]), Self(all[i]));
      }
    }
  }

  method RankBreakdown(w: Window, ghost minutes: map<Time, Minute>, ghost from: Time, ghost to: Time, b: Breakdown)
    returns (ranked: seq<Ranked>)
    requires AddsUp(PartOf(w, b), minutes, from, to, b)
    ensures RankOrdered(Self, ranked) && ExactRanking(ranked, minutes, from, to, b)
    ensures SumRanked(Self, ranked) == Sum(PartOf(w, b))
  {
    ranked := RankCounts(PartOf(w, b));
    forall r: Ranked
      ensures r in ranked <==> Listed(minutes, from, to, b, r.name) && r.count == KeySum(minutes, from, to, b, r.name)
    {
      assert Get(PartOf(w, b), r.name) == KeySum(minutes, from, to, b, r.name);
    }
  }

  lemma SumRankedPrefix(s: seq<Ranked>, n: nat)
    ensures SumRanked(Self, AtMost(s, n)) <= SumRanked(Self, s)
  {
    if |s| > n {
      SumRankedAppend(Self, s[..n], s[n..]);
      assert s == s[..n] + s[n..];
    }
  }

  lemma WindowSumStep(minutes: map<Time, Minute>, todo: set<Time>, m: Time, from: Time, to: Time)
    requires todo <= minutes.Keys && m in todo
    ensures BlockedSum(minutes - (todo - {m}), from, to)
         == BlockedSum(minutes - todo, from, to) + if Within(m, from, to) then minutes[m].blocked else 0
    ensures TotalSum(minutes - (todo - {m}), from, to)
         == TotalSum(minutes - todo, from, to) + if Within(m, from, to) then minutes[m].total else 0
  {
    var b, t := BlockedIn(minutes - todo, from, to), TotalIn(minutes - todo, from, to);
    if Within(m, from, to) {
      assert BlockedIn(minutes - (todo - {m}), from, to) == b[m := minutes[m].blocked];
      assert TotalIn(minutes - (todo - {m}), from, to) == t[m := minutes[m].total];
      SumInsert(b, m, minutes[m].blocked);
      SumInsert(t, m, minutes[m].total);
    } else {
      assert BlockedIn(minutes - (todo - {m}), from, to) == b;
      assert TotalIn(minutes - (todo - {m}), from, to) == t;
    }
  }

  // ------------------------------------------------------------- 24-hour view

  const HISTORY_WINDOW_HOURS: nat := 24
  const HOUR: int := 60 * MINUTE

  ghost function SumNats(s: seq<nat>): nat {
    if s == [] then 0 else SumNats(s[..|s| - 1]) + s[|s| - 1]
  }

  lemma {:induction false} SumNatsBump(s: seq<nat>, i: nat, n: nat)
    requires i < |s|
    ensures SumNats(s[i := s[i] + n]) == SumNats(s) + n
  {
    var t := s[i := s[i] + n];
    if i == |s| - 1 {
      assert t[..|t| - 1] == s[..|s| - 1];
    } else {
      assert t[..|t| - 1] == s[..|s| - 1][i := s[i] + n];
      SumNatsBump(s[..|s| - 1], i, n);
    }
  }

  lemma {:induction false} SumNatsZero(s: seq<nat>)
    requires forall i :: 0 <= i < |s| ==> s[i] == 0
    ensures SumNats(s) == 0
  {
    if s != [] {
      SumNatsZero(s[..|s| - 1]);
    }
  }

  function BucketIndex(started: Time, windowStart: Time): (i: nat)
    requires windowStart <= started
    ensures i < HISTORY_WINDOW_HOURS
    ensures windowStart + i * HOUR <= started
    ensures i < HISTORY_WINDOW_HOURS - 1 ==> started < windowStart + (i + 1) * HOUR
  {
    var hours := (started - windowStart) / HOUR;
    if hours < HISTORY_WINDOW_HOURS - 1 then hours else HISTORY_WINDOW_HOURS - 1
  }

  predicate InBucket(m: Time, checkedAt: Time, i: nat) {
    && Within(m, checkedAt - HISTORY_WINDOW, checkedAt)
    && BucketIndex(m, checkedAt - HISTORY_WINDOW) == i
  }

  function BucketMap(minutes: map<Time, Minute>, checkedAt: Time, i: nat): map<Time, nat> {
    map m | m in minutes && InBucket(m, checkedAt, i) :: minutes[m].blocked
  }

  ghost function BucketSum(minutes: map<Time, Minute>, checkedAt: Time, i: nat): nat {
    Sum(BucketMap(minutes, checkedAt, i))
  }

  ghost predicate EachBucketHolds(buckets: seq<nat>, minutes: map<Time, Minute>, checkedAt: Time) {
    && |buckets| == HISTORY_WINDOW_HOURS
    && forall i :: 0 <= i < |buckets| ==> buckets[i] == BucketSum(minutes, checkedAt, i)
  }

  /** The hourly buckets: bucket `i` holds the blocked requests of its hour, the
      last one also the minute that starts exactly at the check; together they
      are all blocked requests of the window. */
  method HourBuckets(minutes: map<Time, Minute>, checkedAt: Time) returns (buckets: seq<nat>)
    ensures EachBucketHolds(buckets, minutes, checkedAt)
    ensures SumNats(buckets) == BlockedSum(minutes, checkedAt - HISTORY_WINDOW, checkedAt)
  {
    buckets := seq(HISTORY_WINDOW_HOURS, i => 0);
    SumNatsZero(buckets);
    NoMinutesNoBuckets(minutes, checkedAt);
    var todo := minutes.Keys;
    while todo != {}
      invariant todo <= minutes.Keys
      invariant EachBucketHolds(buckets, minutes - todo, checkedAt)
      invariant SumNats(buckets) == BlockedSum(minutes - todo, checkedAt - HISTORY_WINDOW, checkedAt)
    {
      var m := Pick(todo);
      BucketsAfterMinute(buckets, minutes, todo, m, checkedAt);
      BucketTotalAfterMinute(buckets, minutes, todo, m, checkedAt);
      buckets := AddToBucket(buckets, m, minutes[m].blocked, checkedAt);
      todo := todo - {m};
    }
    assert minutes - {} == minutes;
  }

  lemma NoMinutesNoBuckets(minutes: map<Time, Minute>, checkedAt: Time)
    ensures forall i :: BucketSum(minutes - minutes.Keys, checkedAt, i) == 0
    ensures BlockedSum(minutes - minutes.Keys, checkedAt - HISTORY_WINDOW, checkedAt) == 0
  {
    assert minutes - minutes.Keys == map[];
    forall i ensures BucketSum(minutes - minutes.Keys, checkedAt, i) == 0 {
      assert BucketMap(map[], checkedAt, i) == map[];
    }
    assert BlockedIn(map[], checkedAt - HISTORY_WINDOW, checkedAt) == map[];
  }

  function AddToBucket(buckets: seq<nat>, m: Time, blocked: nat, checkedAt: Time): seq<nat>
    requires |buckets| == HISTORY_WINDOW_HOURS
  {
    if checkedAt - HISTORY_WINDOW <= m <= checkedAt then
      var index := BucketIndex(m, checkedAt - HISTORY_WINDOW);
      buckets[index := buckets[index] + blocked]
    else buckets
  }

  lemma BucketsAfterMinute(buckets: seq<nat>, minutes: map<Time, Minute>, todo: set<Time>, m: Time, checkedAt: Time)
    requires todo <= minutes.Keys && m in todo
    requires EachBucketHolds(buckets, minutes - todo, checkedAt)
    ensures EachBucketHolds(AddToBucket(buckets, m, minutes[m].blocked, checkedAt), minutes - (todo - {m}), checkedAt)
  {
    BucketSumsStep(minutes, todo, m, checkedAt);
  }

  lemma BucketTotalAfterMinute(buckets: seq<nat>, minutes: map<Time, Minute>, todo: set<Time>, m: Time, checkedAt: Time)
    requires todo <= minutes.Keys && m in todo && |buckets| == HISTORY_WINDOW_HOURS
    requires SumNats(buckets) == BlockedSum(minutes - todo, checkedAt - HISTORY_WINDOW, checkedAt)
    ensures SumNats(AddToBucket(buckets, m, minutes[m].blocked, checkedAt))
         == BlockedSum(minutes - (todo - {m}), checkedAt - HISTORY_WINDOW, checkedAt)
  {
    var n := minutes[m].blocked;
    var before := BlockedSum(minutes - todo, checkedAt - HISTORY_WINDOW, checkedAt);
    var after := BlockedSum(minutes - (todo - {m}), checkedAt - HISTORY_WINDOW, checkedAt);
    assert after == before + if Within(m, checkedAt - HISTORY_WINDOW, checkedAt) then n else 0 by {
      WindowSumStep(minutes, todo, m, checkedAt - HISTORY_WINDOW, checkedAt);
    }
    BucketTotalStep(buckets, m, n, checkedAt, before, after);
  }

  lemma BucketTotalStep(buckets: seq<nat>, m: Time, n: nat, checkedAt: Time, before: nat, after: nat)
    requires |buckets| == HISTORY_WINDOW_HOURS && SumNats(buckets) == before
    requires after == before + if Within(m, checkedAt - HISTORY_WINDOW, checkedAt) then n else 0
    ensures SumNats(AddToBucket(buckets, m, n, checkedAt)) == after
  {
    if Within(m, checkedAt - HISTORY_WINDOW, checkedAt) {
      SumNatsBump(buckets, BucketIndex(m, checkedAt - HISTORY_WINDOW), n);
    }
  }

  lemma BucketSumsStep(minutes: map<Time, Minute>, todo: set<Time>, m: Time, checkedAt: Time)
    requires todo <= minutes.Keys && m in todo
    ensures forall i: nat ::
              BucketSum(minutes - (todo - {m}), checkedAt, i)
              == BucketSum(minutes - todo, checkedAt, i) + if InBucket(m, checkedAt, i) then minutes[m].blocked else 0
  {
    forall i: nat
      ensures BucketSum(minutes - (todo - {m}), checkedAt, i)
           == BucketSum(minutes - todo, checkedAt, i) + if InBucket(m, checkedAt, i) then minutes[m].blocked else 0
    {
      BucketStep(minutes, todo, m, checkedAt, i);
    }
  }

  lemma BucketStep(minutes: map<Time, Minute>, todo: set<Time>, m: Time, checkedAt: Time, i: nat)
    requires todo <= minutes.Keys && m in todo
    ensures BucketSum(minutes - (todo - {m}), checkedAt, i)
         == BucketSum(minutes - todo, checkedAt, i) + if InBucket(m, checkedAt, i) then minutes[m].blocked else 0
  {
    var b := BucketMap(minutes - todo, checkedAt, i);
    if InBucket(m, checkedAt, i) {
      assert BucketMap(minutes - (todo - {m}), checkedAt, i) == b[m := minutes[m].blocked];
      SumInsert(b, m, minutes[m].blocked);
    } else {
      assert BucketMap(minutes - (todo - {m}), checkedAt, i) == b;
    }
  }

  // ----------------------------------------------------------- window = log count

  /** Blocked requests of the log whose minute starts in `[from, to]`, counted
      line by line. */
  function CountBlockedWithin(lines: seq<Line>, from: Time, to: Time): nat {
    if lines == [] then 0 else
      var l := lines[|lines| - 1];
      CountBlockedWithin(lines[..|lines| - 1], from, to)
      + if Countable(l) && Blocked(l.request.value) && Within(MinuteStart(l.at.value), from, to) then 1 else 0
  }

  lemma BlockedInUpdate(minutes: map<Time, Minute>, m: Time, minute: Minute, from: Time, to: Time)
    requires Within(m, from, to)
    ensures BlockedSum(minutes[m := minute], from, to) + MinuteAt(minutes, m).blocked
         == BlockedSum(minutes, from, to) + minute.blocked
  {
    var b := BlockedIn(minutes, from, to);
    assert BlockedIn(minutes[m := minute], from, to) == b[m := minute.blocked];
    if m in b {
      SumRemove(b, m);
      SumRemove(b[m := minute.blocked], m);
      assert b[m := minute.blocked] - {m} == b - {m};
    } else {
      SumInsert(b, m, minute.blocked);
    }
  }

  lemma {:induction false} SinglePassWindow(log: seq<Line>, from: Time, to: Time)
    ensures BlockedSum(SinglePass(log), from, to) == CountBlockedWithin(log, from, to)
  {
    if log != [] {
      var init, l := log[..|log| - 1], log[|log| - 1];
      SinglePassWindow(init, from, to);
      if Countable(l) {
        var m := MinuteStart(l.at.value);
        var minute := Book(MinuteAt(SinglePass(init), m), l.request.value, l.at.value);
        assert SinglePass(log) == SinglePass(init)[m := minute];
        if Within(m, from, to) {
          BlockedInUpdate(SinglePass(init), m, minute, from, to);
        } else {
          assert BlockedIn(SinglePass(log), from, to) == BlockedIn(SinglePass(init), from, to);
        }
      } else {
        assert SinglePass(log) == SinglePass(init);
      }
    }
  }

  /** The first minute start a window can still show at `checkedAt`. */
  function WindowFrom(cutoff: Time, checkedAt: Time): Time {
    if cutoff < checkedAt - HISTORY_WINDOW then checkedAt - HISTORY_WINDOW else cutoff
  }

  lemma KeptWindow(minutes: map<Time, Minute>, cutoff: Time, c: Time)
    ensures BlockedSum(KeepFrom(minutes, c - HISTORY_WINDOW), cutoff, c)
         == BlockedSum(minutes, WindowFrom(cutoff, c), c)
  {
    assert BlockedIn(KeepFrom(minutes, c - HISTORY_WINDOW), cutoff, c)
        == BlockedIn(minutes, WindowFrom(cutoff, c), c);
  }

  lemma KeptWindowOfLog(kept: map<Time, Minute>, seen: seq<Line>, cutoff: Time, c: Time)
    requires kept == KeepFrom(SinglePass(seen), c - HISTORY_WINDOW)
    ensures BlockedSum(kept, cutoff, c) == CountBlockedWithin(seen, WindowFrom(cutoff, c), c)
  {
    KeptWindow(SinglePass(seen), cutoff, c);
    SinglePassWindow(seen, WindowFrom(cutoff, c), c);
  }

  /** The count an alert compares with its threshold is, in every good run, the
      number of blocked requests the log itself shows for the window's minutes
      (the oldest, partly expired minute aside when the window is the full day). */
  lemma AlertCountMatchesLog(log: seq<Line>, tail: nat, polls: seq<Poll>, windowMinutes: nat)
    requires GoodLog(log) && GoodRun(log, tail, polls)
    requires Run(log, tail, polls).Some?
    ensures LastCheck(polls).Some? && Seen(polls) <= |log|
    ensures var c := LastCheck(polls).value;
            var cutoff := SummaryCutoff(c, windowMinutes);
            BlockedSum(Run(log, tail, polls).value.minutes, cutoff, c)
            == CountBlockedWithin(log[..Seen(polls)], WindowFrom(cutoff, c), c)
  {
    IncrementalEqualsSinglePass(log, tail, polls);
    var c := LastCheck(polls).value;
    KeptWindowOfLog(Run(log, tail, polls).value.minutes, log[..Seen(polls)], SummaryCutoff(c, windowMinutes), c);
  }

  // ------------------------------------------------------------ the alert and the log

  /** A blocked request stamped from `from` on, told from the line alone. */
  ghost predicate BlockFrom(l: Line, from: Time) {
    && l.at.Some? && from <= l.at.value && l.request.Some? && |l.request.value.encoded| > 0
    && !exists name :: l.request.value.router == Some(name + "@internal")
  }

  lemma BlockFromIs(l: Line, from: Time, to: Time)
    requires from % MINUTE == 0 && (l.at.Some? ==> l.at.value <= to)
    ensures Countable(l) && Blocked(l.request.value) && Within(MinuteStart(l.at.value), from, to) <==> BlockFrom(l, from)
  {
    if l.request.Some? { InternalIs(l.request.value); }
    if l.at.Some? { MinuteStartBounds(l.at.value, from); }
  }

  lemma MinuteStartBounds(t: Time, from: Time)
    requires from % MINUTE == 0
    ensures MinuteStart(t) <= t < MinuteStart(t) + MINUTE
    ensures from <= MinuteStart(t) <==> from <= t
  {
    WholeMinute(t);
    var m := MinuteStart(t);
    if from <= t && m < from { WholeMinutesApart(m, from); }
  }

  lemma WholeMinutesApart(a: Time, b: Time)
    requires a % MINUTE == 0 && b % MINUTE == 0 && a < b
    ensures a + MINUTE <= b
  {
  }

  lemma {:induction false} WithinIsFrom(lines: seq<Line>, from: Time, to: Time)
    requires from % MINUTE == 0 && forall i :: 0 <= i < |lines| && lines[i].at.Some? ==> lines[i].at.value <= to
    ensures CountBlockedWithin(lines, from, to) == CountIf(lines, l => BlockFrom(l, from))
  {
    if lines != [] {
      WithinIsFrom(lines[..|lines| - 1], from, to);
      BlockFromIs(lines[|lines| - 1], from, to);
    }
  }

  lemma KeyUpdate(minutes: map<Time, Minute>, m: Time, minute: Minute, from: Time, to: Time, b: Breakdown, key: string)
    requires Within(m, from, to)
    ensures KeySum(minutes[m := minute], from, to, b, key) + Get(CountsOf(MinuteAt(minutes, m), b), key)
         == KeySum(minutes, from, to, b, key) + Get(CountsOf(minute, b), key)
  {
    var before, n := KeyIn(minutes, from, to, b, key), Get(CountsOf(minute, b), key);
    assert KeyIn(minutes[m := minute], from, to, b, key) == before[m := n];
    if m in before {
      SumRemove(before, m);
      SumRemove(before[m := n], m);
      assert before[m := n] - {m} == before - {m};
    } else {
      SumInsert(before, m, n);
    }
  }

  lemma {:induction false} MethodWindow(lines: seq<Line>, from: Time, to: Time, key: string)
    requires from % MINUTE == 0 && forall i :: 0 <= i < |lines| && lines[i].at.Some? ==> lines[i].at.value <= to
    ensures KeySum(SinglePass(lines), from, to, ByMethod, key)
         == CountIf(lines, l => BlockFrom(l, from) && l.request.value.method_ == key)
  {
    if lines != [] {
      var init, l := lines[..|lines| - 1], lines[|lines| - 1];
      MethodWindow(init, from, to, key);
      BlockFromIs(l, from, to);
      MethodStep(SinglePass(init), l, from, to, key);
      assert SinglePass(lines) == if Countable(l) then AddRequest(RollUp(Tally(map[], None), init), l).minutes else SinglePass(init);
    }
  }

  lemma MethodStep(minutes: map<Time, Minute>, l: Line, from: Time, to: Time, key: string)
    ensures Countable(l) ==>
              var m := MinuteStart(l.at.value);
              KeySum(minutes[m := Book(MinuteAt(minutes, m), l.request.value, l.at.value)], from, to, ByMethod, key)
              == KeySum(minutes, from, to, ByMethod, key)
                 + if Blocked(l.request.value) && Within(m, from, to) && l.request.value.method_ == key then 1 else 0
  {
    if Countable(l) {
      var m := MinuteStart(l.at.value);
      var minute := Book(MinuteAt(minutes, m), l.request.value, l.at.value);
      if Within(m, from, to) {
        KeyUpdate(minutes, m, minute, from, to, ByMethod, key);
      } else {
        assert KeyIn(minutes[m := minute], from, to, ByMethod, key) == KeyIn(minutes, from, to, ByMethod, key);
      }
    }
  }

  /** The whole minute in which the window of a check begins. */
  predicate WindowBegins(checkedAt: Time, windowMinutes: nat, from: Time) {
    from % MINUTE == 0 && from <= checkedAt - windowMinutes * MINUTE < from + MINUTE
  }

  lemma CutoffIs(checkedAt: Time, windowMinutes: nat, from: Time)
    requires WindowBegins(checkedAt, windowMinutes, from)
    ensures from % MINUTE == 0
    ensures SummaryCutoff(checkedAt, windowMinutes) == from
    ensures windowMinutes < 1440 ==> checkedAt - HISTORY_WINDOW <= from
  {
    MinuteStartIs(checkedAt - windowMinutes * MINUTE, from);
  }

  /** What an alert reports is in the log, line by line: for a window of less than
      a day, from the whole minute in which it begins, the blocked count is the
      number of blocked requests, and each method's count that of those with
      the method. */
  lemma SummaryMatchesLog(log: seq<Line>, tail: nat, polls: seq<Poll>, windowMinutes: nat, from: Time, r: Summary)
    requires GoodLog(log) && GoodRun(log, tail, polls) && Run(log, tail, polls).Some? && windowMinutes < 1440
    requires LastCheck(polls).Some?
    requires var c := LastCheck(polls).value;
             && WindowBegins(c, windowMinutes, from)
             && Summarizes(r, Run(log, tail, polls).value.minutes, SummaryCutoff(c, windowMinutes), c)
    ensures Seen(polls) <= |log|
    ensures r.blocked == CountIf(log[..Seen(polls)], l => BlockFrom(l, from))
    ensures forall x :: x in r.methods ==>
              x.count == CountIf(log[..Seen(polls)], l => BlockFrom(l, from) && l.request.value.method_ == x.name)
  {
    IncrementalEqualsSinglePass(log, tail, polls);
    var c, seen := LastCheck(polls).value, log[..Seen(polls)];
    SeenBeforeCheck(log, tail, polls);
    CutoffIs(c, windowMinutes, from);
    SummaryOfSeen(Run(log, tail, polls).value.minutes, seen, from, c, r);
  }

  lemma SummaryOfSeen(kept: map<Time, Minute>, seen: seq<Line>, from: Time, c: Time, r: Summary)
    requires kept == KeepFrom(SinglePass(seen), c - HISTORY_WINDOW) && Summarizes(r, kept, from, c)
    requires from % MINUTE == 0 && c - HISTORY_WINDOW <= from
    requires forall i :: 0 <= i < |seen| && seen[i].at.Some? ==> seen[i].at.value <= c
    ensures r.blocked == CountIf(seen, l => BlockFrom(l, from))
    ensures forall x :: x in r.methods ==>
              x.count == CountIf(seen, l => BlockFrom(l, from) && l.request.value.method_ == x.name)
  {
    KeptWindowOfLog(kept, seen, from, c);
    WithinIsFrom(seen, from, c);
    MethodsMatchLog(kept, seen, from, c, r.methods);
  }

  lemma MethodsMatchLog(kept: map<Time, Minute>, seen: seq<Line>, from: Time, c: Time, methods: seq<Ranked>)
    requires kept == KeepFrom(SinglePass(seen), c - HISTORY_WINDOW)
    requires from % MINUTE == 0 && c - HISTORY_WINDOW <= from
    requires forall i :: 0 <= i < |seen| && seen[i].at.Some? ==> seen[i].at.value <= c
    requires ExactRanking(methods, kept, from, c, ByMethod)
    ensures forall x :: x in methods ==>
              x.count == CountIf(seen, l => BlockFrom(l, from) && l.request.value.method_ == x.name)
  {
    forall x | x in methods
      ensures x.count == CountIf(seen, l => BlockFrom(l, from) && l.request.value.method_ == x.name)
    {
      KeptKeys(SinglePass(seen), from, c, ByMethod, x.name);
      MethodWindow(seen, from, c, x.name);
    }
  }

  lemma KeptKeys(minutes: map<Time, Minute>, from: Time, c: Time, b: Breakdown, key: string)
    requires c - HISTORY_WINDOW <= from
    ensures KeySum(KeepFrom(minutes, c - HISTORY_WINDOW), from, c, b, key) == KeySum(minutes, from, c, b, key)
  {
    assert KeyIn(KeepFrom(minutes, c - HISTORY_WINDOW), from, c, b, key) == KeyIn(minutes, from, c, b, key);
  }

  /** Everything read so far is stamped no later than the last check. */
  lemma {:induction false} SeenBeforeCheck(log: seq<Line>, tail: nat, polls: seq<Poll>)
    requires GoodLog(log) && GoodRun(log, tail, polls)
    ensures Seen(polls) <= |log|
    ensures LastCheck(polls).None? ==> Seen(polls) == 0
    ensures LastCheck(polls).Some? ==>
              forall i :: 0 <= i < Seen(polls) ==> log[i].at.value <= LastCheck(polls).value
  {
    if polls != [] {
      SeenBeforeCheck(log, tail, polls[..|polls| - 1]);
    }
  }
}
