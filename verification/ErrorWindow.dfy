/** Peak error counts over a sliding window, the alert threshold recommended
    from them, and the monitor that later counts against that threshold. Times
    are UTC microseconds; a log line comes parsed. */
module ErrorWindow {
  import opened Counters

  type Time = int

  const MINUTE: int := 60_000_000
  const DAY: int := 24 * 60 * MINUTE
  const MIN_WINDOW_MINUTES: nat := 5
  const MAX_WINDOW_MINUTES: nat := 60
  const MAX_THRESHOLD: nat := 10_000
  const DEFAULT_NOT_FOUND_THRESHOLD: nat := 20
  const DEFAULT_SERVER_ERROR_THRESHOLD: nat := 1

  datatype RequestLine = RequestLine(at: Time, path: string, status: int)

  // ------------------------------------------------------------- counting in windows

  /** How many of the times lie in the closed interval. */
  function CountIn(times: seq<Time>, from: Time, to: Time): nat {
    if times == [] then 0 else
      CountIn(times[..|times| - 1], from, to) + if from <= times[|times| - 1] <= to then 1 else 0
  }

  ghost predicate Sorted(s: seq<Time>) { forall i, j :: 0 <= i < j < |s| ==> s[i] <= s[j] }

  function Insert(t: Time, s: seq<Time>): (r: seq<Time>)
    requires Sorted(s)
    ensures Sorted(r) && |r| == |s| + 1
    ensures forall x :: x in r <==> x == t || x in s
  {
    if s == [] || s[|s| - 1] <= t then s + [t]
    else
      var rest := Insert(t, s[..|s| - 1]);
      assert forall i :: 0 <= i < |rest| ==> rest[i] in rest;
      rest + [s[|s| - 1]]
  }

  lemma {:induction false} InsertCounts(t: Time, s: seq<Time>, from: Time, to: Time)
    requires Sorted(s)
    ensures CountIn(Insert(t, s), from, to) == CountIn(s, from, to) + if from <= t <= to then 1 else 0
  {
    if s == [] || s[|s| - 1] <= t {
      assert (s + [t])[..|s|] == s;
    } else {
      InsertCounts(t, s[..|s| - 1], from, to);
      var rest := Insert(t, s[..|s| - 1]);
      assert (rest + [s[|s| - 1]])[..|rest|] == rest;
    }
  }

  method SortTimes(times: seq<Time>) returns (ordered: seq<Time>)
    ensures Sorted(ordered) && |ordered| == |times|
    ensures forall from, to :: CountIn(ordered, from, to) == CountIn(times, from, to)
  {
    ordered := [];
    for i := 0 to |times|
      invariant Sorted(ordered) && |ordered| == i
      invariant forall from, to :: CountIn(ordered, from, to) == CountIn(times[..i], from, to)
    {
      assert times[..i + 1][..i] == times[..i];
      forall from, to ensures CountIn(Insert(times[i], ordered), from, to) == CountIn(times[..i + 1], from, to) {
        InsertCounts(times[i], ordered, from, to);
      }
      ordered := Insert(times[i], ordered);
    }
    assert times[..|times|] == times;
  }

  /** Elements `a..b` are inside, all others outside. */
  lemma {:induction false} CountExactly(s: seq<Time>, from: Time, to: Time, a: nat, b: nat)
    requires a <= b <= |s|
    requires forall k :: 0 <= k < |s| ==> (from <= s[k] <= to <==> a <= k < b)
    ensures CountIn(s, from, to) == b - a
  {
    if s != [] {
      var init := s[..|s| - 1];
      if b == |s| {
        if a < b { CountExactly(init, from, to, a, b - 1); } else { CountExactly(init, from, to, |init|, |init|); }
      } else {
        CountExactly(init, from, to, a, b);
      }
    }
  }

  lemma {:induction false} CountAtLeast(s: seq<Time>, from: Time, to: Time, a: nat, b: nat)
    requires a <= b <= |s|
    requires forall k :: a <= k < b ==> from <= s[k] <= to
    ensures CountIn(s, from, to) >= b - a
  {
    if s != [] && a < b {
      var init := s[..|s| - 1];
      if b == |s| { CountAtLeast(init, from, to, a, b - 1); } else { CountAtLeast(init, from, to, a, b); }
    }
  }

  /** The first element of a sorted sequence that is at least `t`. */
  lemma FirstAtLeast(s: seq<Time>, t: Time) returns (a: nat)
    requires Sorted(s)
    ensures a <= |s|
    ensures forall k :: 0 <= k < |s| ==> (t <= s[k] <==> a <= k)
  {
    a := 0;
    while a < |s| && s[a] < t
      invariant a <= |s|
      invariant forall k :: 0 <= k < a ==> s[k] < t
    {
      a := a + 1;
    }
  }

  /** Every run of times that fits into the window has at most `maximum` members. */
  ghost predicate BoundsRuns(s: seq<Time>, upTo: nat, window: int, maximum: nat)
    requires upTo <= |s|
  {
    forall a, e :: 0 <= a <= e < upTo && s[e] - s[a] <= window ==> e - a + 1 <= maximum
  }

  /** The count of the window that starts at `t`. */
  function CountFrom(times: seq<Time>, t: Time, window: int): nat { CountIn(times, t, t + window) }

  /** `maximum` is the largest count of any closed interval of that length. */
  ghost predicate IsMaximum(times: seq<Time>, window: int, maximum: nat) {
    && (forall t :: CountFrom(times, t, window) <= maximum)
    && (exists t :: CountFrom(times, t, window) == maximum)
  }

  lemma RunBoundIsWindowBound(s: seq<Time>, window: int, maximum: nat, t: Time)
    requires Sorted(s) && window >= 0 && BoundsRuns(s, |s|, window, maximum)
    ensures CountFrom(s, t, window) <= maximum
  {
    var a := FirstAtLeast(s, t);
    var b := FirstAtLeast(s, t + window + 1);
    if a < b {
      CountExactly(s, t, t + window, a, b);
      assert s[b - 1] - s[a] <= window;
    } else {
      CountExactly(s, t, t + window, a, a);
    }
  }

  method AdvanceStart(ordered: seq<Time>, from: nat, end: nat, window: int) returns (start: nat)
    requires window >= 0 && from <= end < |ordered|
    requires forall k :: 0 <= k < from ==> ordered[end] - ordered[k] > window
    ensures from <= start <= end && ordered[end] - ordered[start] <= window
    ensures forall k :: 0 <= k < start ==> ordered[end] - ordered[k] > window
  {
    start := from;
    while ordered[end] - ordered[start] > window
      invariant from <= start <= end
      invariant forall k :: 0 <= k < start ==> ordered[end] - ordered[k] > window
      decreases end - start
    {
      start := start + 1;
    }
  }

  /** The two pointers: for each `end` the first `start` still in its window. */
  method PeakOfSorted(ordered: seq<Time>, window: int) returns (maximum: nat, ghost best: Time)
    requires window >= 0 && Sorted(ordered)
    ensures BoundsRuns(ordered, |ordered|, window, maximum)
    ensures CountFrom(ordered, best, window) >= maximum
  {
    var start := 0;
    maximum := 0;
    ghost var first := 0;
    for end := 0 to |ordered|
      invariant 0 <= start <= end
      invariant end > 0 ==> forall k :: 0 <= k < start ==> ordered[end - 1] - ordered[k] > window
      invariant BoundsRuns(ordered, end, window, maximum)
      invariant 0 <= first && first + maximum <= end
      invariant maximum > 0 ==> ordered[first + maximum - 1] - ordered[first] <= window
    {
      start := AdvanceStart(ordered, start, end, window);
      if end - start + 1 > maximum {
        maximum := end - start + 1;
        first := start;
      }
    }
    best := if maximum > 0 then ordered[first] else 0;
    RunIsCounted(ordered, first, maximum, window);
  }

  lemma RunIsCounted(s: seq<Time>, first: nat, length: nat, window: int)
    requires Sorted(s) && first + length <= |s|
    requires length > 0 ==> s[first + length - 1] - s[first] <= window
    ensures length > 0 ==> CountFrom(s, s[first], window) >= length
  {
    if length > 0 {
      CountAtLeast(s, s[first], s[first] + window, first, first + length);
    }
  }

  /** `_max_window_count` */
  method MaxWindowCount(times: seq<Time>, window: int) returns (maximum: nat)
    requires window >= 0
    ensures IsMaximum(times, window, maximum)
  {
    var ordered := SortTimes(times);
    ghost var best;
    maximum, best := PeakOfSorted(ordered, window);
    forall t ensures CountFrom(times, t, window) <= maximum {
      RunBoundIsWindowBound(ordered, window, maximum, t);
    }
    assert CountFrom(times, best, window) == maximum;
  }

  // ------------------------------------------------------------------ the threshold

  function RecommendThreshold(peak: nat, default_: nat): nat {
    var margin := if (peak + 4) / 5 > 1 then (peak + 4) / 5 else 1;
    var wanted := if peak + margin > default_ then peak + margin else default_;
    if wanted < MAX_THRESHOLD then wanted else MAX_THRESHOLD
  }

  /** The recommendation stays above the observed peak exactly when the peak is
      below the largest threshold that can be set. */
  lemma RecommendationIsQuiet(peak: nat, default_: nat)
    requires default_ <= MAX_THRESHOLD
    ensures peak < RecommendThreshold(peak, default_) <==> peak < MAX_THRESHOLD
    ensures default_ <= RecommendThreshold(peak, default_) <= MAX_THRESHOLD
  {
  }

  /** Below the cap it is the least threshold that is no lower than the default
      and above the peak by one and by a fifth of it. */
  lemma RecommendationIsLeast(peak: nat, default_: nat, n: nat)
    requires n >= default_ && n > peak && 5 * (n - peak) >= peak
    ensures RecommendThreshold(peak, default_) <= n
    ensures var r := RecommendThreshold(peak, default_);
            r == 10_000 || (r < 10_000 && r >= default_ && r > peak && 5 * (r - peak) >= peak)
  {
  }

  // ------------------------------------------------------------------ excluded paths

  function TrimSlashes(path: string): string {
    if path != [] && path[|path| - 1] == '/' then TrimSlashes(path[..|path| - 1]) else path
  }

  predicate ExcludedBy(path: string, excluded: string) {
    var prefix := TrimSlashes(excluded);
    prefix != [] && (path == prefix || StartsWith(path, prefix + "/"))
  }

  /** `_match_excluded_path`: the longest excluded prefix of the path. */
  function MatchExcluded(path: string, excluded: seq<string>): (best: Option<string>)
    ensures best.None? <==> forall e :: e in excluded ==> !ExcludedBy(path, e)
    ensures best.Some? ==> exists e :: e in excluded && ExcludedBy(path, e) && best.value == TrimSlashes(e)
    ensures best.Some? ==> forall e :: e in excluded && ExcludedBy(path, e) ==> |TrimSlashes(e)| <= |best.value|
  {
    if excluded == [] then None else
      var before := MatchExcluded(path, excluded[..|excluded| - 1]);
      var last := excluded[|excluded| - 1];
      assert forall e :: e in excluded <==> e in excluded[..|excluded| - 1] || e == last;
      if ExcludedBy(path, last) && (before.None? || |before.value| < |TrimSlashes(last)|) then Some(TrimSlashes(last))
      else before
  }

  /** `path` is the listed path, without the slashes it may end in, or goes on
      with a slash after it. */
  ghost predicate Covers(listed: string, path: string) {
    exists n :: 0 < n <= |listed| && n <= |path| && CoversAt(listed, path, n)
  }

  ghost predicate CoversAt(listed: string, path: string, n: nat)
    requires 0 < n <= |listed| && n <= |path|
  {
    && listed[n - 1] != '/' && (forall i :: n <= i < |listed| ==> listed[i] == '/')
    && path[..n] == listed[..n] && (|path| == n || path[n] == '/')
  }

  lemma {:induction false} TrimSlashesIs(path: string)
    ensures var n := |TrimSlashes(path)|;
            && n <= |path| && path[..n] == TrimSlashes(path) && (n > 0 ==> path[n - 1] != '/')
            && forall i :: n <= i < |path| ==> path[i] == '/'
  {
    if path != [] && path[|path| - 1] == '/' {
      TrimSlashesIs(path[..|path| - 1]);
    }
  }

  lemma CoversIs(listed: string, path: string)
    ensures Covers(listed, path) <==> ExcludedBy(path, listed)
  {
    var prefix, n := TrimSlashes(listed), |TrimSlashes(listed)|;
    TrimSlashesIs(listed);
    if ExcludedBy(path, listed) {
      GoesOn(path, prefix);
      assert CoversAt(listed, path, n);
    }
    if m :| 0 < m <= |listed| && m <= |path| && CoversAt(listed, path, m) {
      assert m == n;
      GoesOn(path, prefix);
    }
  }

  lemma GoesOn(path: string, prefix: string)
    ensures path == prefix || StartsWith(path, prefix + "/")
       <==> |prefix| <= |path| && path[..|prefix|] == prefix && (|path| == |prefix| || path[|prefix|] == '/')
  {
    var n := |prefix|;
    if n < |path| { assert path[..n + 1] == path[..n] + [path[n]]; }
    if StartsWith(path, prefix + "/") { assert path[..n] == path[..n + 1][..n]; }
  }

  // ------------------------------------------------- how excluded paths are entered

  const MAX_EXCLUDED_PATHS: nat := 50
  const MAX_EXCLUDED_PATH_LENGTH: nat := 200

  /** `str.isspace` */
  predicate IsSpace(c: char) {
    var n := c as int;
    || 0x09 <= n <= 0x0D || 0x1C <= n <= 0x20 || n == 0x85 || n == 0xA0 || n == 0x1680
    || 0x2000 <= n <= 0x200A || n == 0x2028 || n == 0x2029 || n == 0x202F || n == 0x205F || n == 0x3000
  }

  /** `str.strip` */
  function Strip(s: string): string
    decreases |s|
  {
    if s == [] then []
    else if IsSpace(s[0]) then Strip(s[1..])
    else if IsSpace(s[|s| - 1]) then Strip(s[..|s| - 1]) else s
  }

  /** `s[i..j]` is `s` without the white space at its ends. */
  ghost predicate Stripped(s: string, i: nat, j: nat) {
    && i <= j <= |s| && (i < j ==> !IsSpace(s[i]) && !IsSpace(s[j - 1]))
    && (forall k :: 0 <= k < i ==> IsSpace(s[k])) && (forall k :: j <= k < |s| ==> IsSpace(s[k]))
  }

  /** Only white space is taken away, at both ends, and all of it. */
  lemma {:induction false} StripIs(s: string) returns (i: nat, j: nat)
    ensures Stripped(s, i, j) && Strip(s) == s[i..j]
    decreases |s|
  {
    i, j := 0, |s|;
    if s != [] {
      if IsSpace(s[0]) {
        var a, b := StripIs(s[1..]);
        i, j := a + 1, b + 1;
        StrippedHead(s, a, b);
      } else if IsSpace(s[|s| - 1]) {
        i, j := StripIs(s[..|s| - 1]);
        StrippedTail(s, i, j);
      }
    }
  }

  lemma StrippedTail(s: string, a: nat, b: nat)
    requires s != [] && IsSpace(s[|s| - 1]) && Stripped(s[..|s| - 1], a, b)
    ensures Stripped(s, a, b) && s[..|s| - 1][a..b] == s[a..b]
  {
    assert forall k :: 0 <= k < |s| - 1 ==> s[k] == s[..|s| - 1][k];
  }

  lemma StrippedHead(s: string, a: nat, b: nat)
    requires s != [] && IsSpace(s[0]) && Stripped(s[1..], a, b)
    ensures Stripped(s, a + 1, b + 1) && s[1..][a..b] == s[a + 1..b + 1]
  {
    assert forall k :: 1 <= k < |s| ==> s[k] == s[1..][k - 1];
  }

  /** A path an administrator may exclude. */
  predicate Excludable(path: string) {
    && StartsWith(path, "/api/") && path != "/api/" && |path| <= MAX_EXCLUDED_PATH_LENGTH
    && (forall i :: 0 <= i < |path| ==> !IsSpace(path[i]))
    && '?' !in path && '#' !in path
  }

  /** The entries that are kept: stripped, without trailing slashes, each once,
      in the order of their first appearance. */
  function Normalized(values: seq<string>): seq<string> {
    if values == [] then [] else
      var before := Normalized(values[..|values| - 1]);
      var path := TrimSlashes(Strip(values[|values| - 1]));
      if Strip(values[|values| - 1]) == "" || path in before then before else before + [path]
  }

  /** A path is kept exactly when an entry gives it, once, and before those that
      only later entries give. */
  lemma {:induction false} NormalizedAre(values: seq<string>)
    ensures forall p :: p in Normalized(values) <==> Entered(values, p)
    ensures forall k, l :: 0 <= k < l < |Normalized(values)| ==>
              Normalized(values)[k] != Normalized(values)[l] && EnteredFirst(values, Normalized(values)[k], Normalized(values)[l])
  {
    if values != [] {
      var init, n := values[..|values| - 1], |values| - 1;
      NormalizedAre(init);
      var before := Normalized(init);
      forall p ensures Entered(values, p) <==> Entered(init, p) || Gives(values[n], p) {
        if Entered(init, p) { var i :| 0 <= i < |init| && Gives(init[i], p); assert Gives(values[i], p); }
        if i :| 0 <= i < |values| && Gives(values[i], p) { if i < n { assert Gives(init[i], p); } }
      }
      forall p, q | EnteredFirst(init, p, q) ensures EnteredFirst(values, p, q) {
        var i :| 0 <= i < |init| && FirstAt(init, p, q, i);
        assert FirstAt(values, p, q, i);
      }
      forall p, q | p in before && !Entered(init, q) ensures EnteredFirst(values, p, q) {
        var i :| 0 <= i < |init| && Gives(init[i], p);
        assert FirstAt(values, p, q, i);
      }
    }
  }

  ghost predicate Gives(value: string, p: string) { Strip(value) != "" && p == TrimSlashes(Strip(value)) }

  ghost predicate Entered(values: seq<string>, p: string) { exists i :: 0 <= i < |values| && Gives(values[i], p) }

  ghost predicate FirstAt(values: seq<string>, p: string, q: string, i: nat)
    requires i < |values|
  {
    Gives(values[i], p) && forall j :: 0 <= j <= i ==> !Gives(values[j], q)
  }

  ghost predicate EnteredFirst(values: seq<string>, p: string, q: string) {
    exists i :: 0 <= i < |values| && FirstAt(values, p, q, i)
  }

  ghost predicate AllExcludable(values: seq<string>) {
    forall i :: 0 <= i < |values| ==> Strip(values[i]) == "" || Excludable(Strip(values[i]))
  }

  /** `normalize_manager_http_excluded_paths`, used for the preview request and
      for the stored settings alike; `None` is the error it raises. */
  method NormalizeExcludedPaths(values: seq<string>) returns (r: Option<seq<string>>)
    ensures r.Some? <==> AllExcludable(values) && |Normalized(values)| <= MAX_EXCLUDED_PATHS
    ensures r.Some? ==> r.value == Normalized(values)
    ensures r.Some? ==> Trimmed(r.value)
  {
    var paths: seq<string> := [];
    for i := 0 to |values|
      invariant paths == Normalized(values[..i]) && AllExcludable(values[..i])
    {
      assert values[..i + 1][..i] == values[..i];
      var path := Strip(values[i]);
      if path != "" {
        if !StartsWith(path, "/api/") || path == "/api/" || |path| > MAX_EXCLUDED_PATH_LENGTH
           || (exists k :: 0 <= k < |path| && IsSpace(path[k])) || '?' in path || '#' in path {
          return None;
        }
        var trimmed := TrimSlashes(path);
        if trimmed !in paths {
          paths := paths + [trimmed];
        }
      }
    }
    assert values[..|values|] == values;
    NormalizedIsTrimmed(values);
    r := if |paths| > MAX_EXCLUDED_PATHS then None else Some(paths);
  }

  ghost predicate Trimmed(paths: seq<string>) { forall e :: e in paths ==> TrimSlashes(e) == e }

  lemma {:induction false} TrimTwice(path: string)
    ensures TrimSlashes(TrimSlashes(path)) == TrimSlashes(path)
  {
    if path != [] && path[|path| - 1] == '/' {
      TrimTwice(path[..|path| - 1]);
    }
  }

  lemma {:induction false} NormalizedIsTrimmed(values: seq<string>)
    ensures Trimmed(Normalized(values))
  {
    if values != [] {
      NormalizedIsTrimmed(values[..|values| - 1]);
      TrimTwice(Strip(values[|values| - 1]));
    }
  }

  // --------------------------------------------------------------- the two readers

  datatype Kind = NotFound | ServerError

  predicate IsError(l: RequestLine, kind: Kind) {
    if kind == NotFound then l.status == 404 else 500 <= l.status <= 599
  }

  predicate Counts(l: RequestLine, kind: Kind, excluded: seq<string>) {
    IsError(l, kind) && MatchExcluded(l.path, excluded).None?
  }

  /** Times of the errors of one kind within `[from, to]`, in log order. */
  function ErrorTimes(lines: seq<RequestLine>, kind: Kind, excluded: seq<string>, from: Time, to: Time): seq<Time> {
    if lines == [] then [] else
      var l := lines[|lines| - 1];
      ErrorTimes(lines[..|lines| - 1], kind, excluded, from, to)
      + if from <= l.at <= to && Counts(l, kind, excluded) then [l.at] else []
  }

  /** A request of the log that counts: the status of the kind, within the time,
      and not covered by a listed path. */
  ghost predicate Erred(l: RequestLine, kind: Kind, excluded: seq<string>, from: Time, to: Time) {
    && from <= l.at <= to
    && (if kind.NotFound? then l.status == 404 else 500 <= l.status < 600)
    && forall e :: e in excluded ==> !Covers(e, l.path)
  }

  lemma ErredIs(l: RequestLine, kind: Kind, excluded: seq<string>, from: Time, to: Time)
    ensures Erred(l, kind, excluded, from, to) <==> from <= l.at <= to && Counts(l, kind, excluded)
  {
    forall e ensures Covers(e, l.path) <==> ExcludedBy(l.path, e) { CoversIs(e, l.path); }
  }

  lemma {:induction false} ErrorsAre(lines: seq<RequestLine>, kind: Kind, excluded: seq<string>, from: Time, to: Time)
    ensures |ErrorTimes(lines, kind, excluded, from, to)|
         == CountIf(lines, (l: RequestLine) => Erred(l, kind, excluded, from, to))
  {
    if lines != [] {
      ErrorsAre(lines[..|lines| - 1], kind, excluded, from, to);
      ErredIs(lines[|lines| - 1], kind, excluded, from, to);
    }
  }

  datatype Preview = Preview(
    windowMinutes: nat, peakNotFound: nat, peakServerError: nat,
    notFoundThreshold: nat, serverErrorThreshold: nat)

  /** The nearest number of minutes from five to sixty. */
  function Clamp(minutes: int): (n: nat)
    ensures 5 <= n <= 60 && (n < minutes ==> n == 60) && (n > minutes ==> n == 5)
  {
    if minutes < MIN_WINDOW_MINUTES then MIN_WINDOW_MINUTES
    else if minutes > MAX_WINDOW_MINUTES then MAX_WINDOW_MINUTES else minutes
  }

  /** An error within the day whose excluded prefix is not itself a listed path:
      the look-up of its counter fails. */
  ghost predicate Trips(l: RequestLine, excluded: seq<string>, current: Time) {
    && current - DAY <= l.at <= current && (IsError(l, NotFound) || IsError(l, ServerError))
    && MatchExcluded(l.path, excluded).Some? && MatchExcluded(l.path, excluded).value !in excluded
  }

  /** The largest count of one kind in any window inside the day's log. */
  ghost predicate IsPeak(lines: seq<RequestLine>, kind: Kind, excluded: seq<string>, current: Time,
                         window: int, peak: nat) {
    IsMaximum(ErrorTimes(lines, kind, excluded, current - DAY, current), window, peak)
  }

  /** The errors of the day in one window. */
  ghost function DayWindow(lines: seq<RequestLine>, kind: Kind, excluded: seq<string>, current: Time,
                           t: Time, window: int): nat {
    CountIf(lines, (l: RequestLine) =>
      Erred(l, kind, excluded, current - 24 * 3_600_000_000, current) && t <= l.at <= t + window)
  }

  /** The peak told on the log: the most errors of the day in any one window. */
  lemma PeakOfLines(lines: seq<RequestLine>, kind: Kind, excluded: seq<string>, current: Time, window: int, peak: nat)
    requires IsPeak(lines, kind, excluded, current, window, peak)
    ensures forall t :: DayWindow(lines, kind, excluded, current, t, window) <= peak
    ensures exists t :: DayWindow(lines, kind, excluded, current, t, window) == peak
  {
    var day := ErrorTimes(lines, kind, excluded, current - DAY, current);
    forall t ensures DayWindow(lines, kind, excluded, current, t, window) == CountFrom(day, t, window) {
      DayWindowIs(lines, kind, excluded, current, t, window);
    }
    var t :| CountFrom(day, t, window) == peak;
    assert DayWindow(lines, kind, excluded, current, t, window) == peak;
  }

  lemma {:induction false} DayWindowIs(lines: seq<RequestLine>, kind: Kind, excluded: seq<string>, current: Time,
                                       t: Time, window: int)
    ensures DayWindow(lines, kind, excluded, current, t, window)
         == CountIn(ErrorTimes(lines, kind, excluded, current - DAY, current), t, t + window)
  {
    if lines != [] {
      var init, l := lines[..|lines| - 1], lines[|lines| - 1];
      DayWindowIs(init, kind, excluded, current, t, window);
      ErredIs(l, kind, excluded, current - DAY, current);
      var day := ErrorTimes(init, kind, excluded, current - DAY, current);
      assert (day + [l.at])[..|day|] == day && day + [] == day;
    }
  }

  /** `build_manager_http_error_preview`; `None` is the failed look-up. */
  method BuildPreview(lines: seq<RequestLine>, current: Time, windowMinutes: int, excluded: seq<string>)
    returns (r: Option<Preview>)
    ensures r.None? <==> exists i :: 0 <= i < |lines| && Trips(lines[i], excluded, current)
    ensures r.Some? ==>
      && r.value.windowMinutes == Clamp(windowMinutes)
      && IsPeak(lines, NotFound, excluded, current, r.value.windowMinutes * MINUTE, r.value.peakNotFound)
      && IsPeak(lines, ServerError, excluded, current, r.value.windowMinutes * MINUTE, r.value.peakServerError)
      && r.value.notFoundThreshold == RecommendThreshold(r.value.peakNotFound, DEFAULT_NOT_FOUND_THRESHOLD)
      && r.value.serverErrorThreshold == RecommendThreshold(r.value.peakServerError, DEFAULT_SERVER_ERROR_THRESHOLD)
  {
    var collected := CollectTimes(lines, current, excluded);
    if collected.None? {
      return None;
    }
    var minutes := Clamp(windowMinutes);
    var peakNotFound := MaxWindowCount(collected.value.0, minutes * MINUTE);
    var peakServerError := MaxWindowCount(collected.value.1, minutes * MINUTE);
    r := Some(Preview(minutes, peakNotFound, peakServerError,
                      RecommendThreshold(peakNotFound, DEFAULT_NOT_FOUND_THRESHOLD),
                      RecommendThreshold(peakServerError, DEFAULT_SERVER_ERROR_THRESHOLD)));
  }

  /** The loop over the log: the day's times of either kind. */
  method CollectTimes(lines: seq<RequestLine>, current: Time, excluded: seq<string>)
    returns (r: Option<(seq<Time>, seq<Time>)>)
    ensures r.None? <==> exists i :: 0 <= i < |lines| && Trips(lines[i], excluded, current)
    ensures r.Some? ==>
      && r.value.0 == ErrorTimes(lines, NotFound, excluded, current - DAY, current)
      && r.value.1 == ErrorTimes(lines, ServerError, excluded, current - DAY, current)
  {
    var notFound: seq<Time>, serverError: seq<Time> := [], [];
    for i := 0 to |lines|
      invariant Collected(lines[..i], excluded, current, notFound, serverError)
    {
      var l := lines[i];
      assert lines[..i + 1] == lines[..i] + [l];
      var reading := ReadLine(l, current, excluded);
      CollectedNext(lines[..i], l, excluded, current, notFound, serverError, reading);
      if reading.LookupFails? {
        assert Trips(lines[i], excluded, current);
        return None;
      } else if reading.IsNotFound? {
        notFound := notFound + [l.at];
      } else if reading.IsServerError? {
        serverError := serverError + [l.at];
      }
    }
    assert lines[..|lines|] == lines;
    r := Some((notFound, serverError));
  }

  ghost predicate Collected(lines: seq<RequestLine>, excluded: seq<string>, current: Time,
                            notFound: seq<Time>, serverError: seq<Time>) {
    && (forall k :: 0 <= k < |lines| ==> !Trips(lines[k], excluded, current))
    && notFound == ErrorTimes(lines, NotFound, excluded, current - DAY, current)
    && serverError == ErrorTimes(lines, ServerError, excluded, current - DAY, current)
  }

  lemma CollectedNext(lines: seq<RequestLine>, l: RequestLine, excluded: seq<string>, current: Time,
                      notFound: seq<Time>, serverError: seq<Time>, reading: Reading)
    requires Collected(lines, excluded, current, notFound, serverError)
    requires reading.LookupFails? <==> Trips(l, excluded, current)
    requires reading.IsNotFound? <==> current - DAY <= l.at <= current && Counts(l, NotFound, excluded)
    requires reading.IsServerError? <==> current - DAY <= l.at <= current && Counts(l, ServerError, excluded)
    ensures !reading.LookupFails? ==>
              Collected(lines + [l], excluded, current,
                        if reading.IsNotFound? then notFound + [l.at] else notFound,
                        if reading.IsServerError? then serverError + [l.at] else serverError)
  {
    assert (lines + [l])[..|lines|] == lines;
    assert notFound + [] == notFound && serverError + [] == serverError;
  }

  datatype Reading = Ignored | LookupFails | IsNotFound | IsServerError

  method ReadLine(l: RequestLine, current: Time, excluded: seq<string>) returns (r: Reading)
    ensures r.LookupFails? <==> Trips(l, excluded, current)
    ensures r.IsNotFound? <==> current - DAY <= l.at <= current && Counts(l, NotFound, excluded)
    ensures r.IsServerError? <==> current - DAY <= l.at <= current && Counts(l, ServerError, excluded)
  {
    if l.at > current || l.at < current - DAY || (l.status != 404 && !(500 <= l.status <= 599)) {
      return Ignored;
    }
    var path := MatchExcluded(l.path, excluded);
    if path.Some? {
      return if path.value !in excluded then LookupFails else Ignored;
    }
    return if l.status == 404 then IsNotFound else IsServerError;
  }

  /** Listed paths without a trailing slash never trip the preview. */
  lemma TrimmedPathsNeverTrip(l: RequestLine, excluded: seq<string>, current: Time)
    requires Trimmed(excluded)
    ensures !Trips(l, excluded, current)
  {
  }

  /** The preview as the settings page asks for it: refused exactly for a list
      the normaliser refuses, and then the look-up never fails. */
  method PreviewRoute(lines: seq<RequestLine>, current: Time, windowMinutes: int, values: seq<string>)
    returns (r: Option<Preview>)
    ensures r.Some? <==> AllExcludable(values) && |Normalized(values)| <= MAX_EXCLUDED_PATHS
    ensures r.Some? ==>
      && r.value.windowMinutes == Clamp(windowMinutes)
      && IsPeak(lines, NotFound, Normalized(values), current, r.value.windowMinutes * MINUTE, r.value.peakNotFound)
      && IsPeak(lines, ServerError, Normalized(values), current, r.value.windowMinutes * MINUTE, r.value.peakServerError)
      && r.value.notFoundThreshold == RecommendThreshold(r.value.peakNotFound, DEFAULT_NOT_FOUND_THRESHOLD)
      && r.value.serverErrorThreshold == RecommendThreshold(r.value.peakServerError, DEFAULT_SERVER_ERROR_THRESHOLD)
  {
    var excluded := NormalizeExcludedPaths(values);
    if excluded.None? {
      return None;
    }
    forall i | 0 <= i < |lines| ensures !Trips(lines[i], excluded.value, current) {
      TrimmedPathsNeverTrip(lines[i], excluded.value, current);
    }
    r := BuildPreview(lines, current, windowMinutes, excluded.value);
  }

  /** `count_manager_http_errors`: the monitor's counts at one check. */
  method CountErrors(lines: seq<RequestLine>, checkedAt: Time, windowMinutes: int, excluded: seq<string>)
    returns (notFound: nat, serverError: nat)
    ensures var from := checkedAt - (if windowMinutes > 1 then windowMinutes else 1) * MINUTE;
            && notFound == |ErrorTimes(lines, NotFound, excluded, from, checkedAt)|
            && serverError == |ErrorTimes(lines, ServerError, excluded, from, checkedAt)|
    ensures var from := checkedAt - (if windowMinutes > 1 then windowMinutes else 1) * 60_000_000;
            && notFound == CountIf(lines, (l: RequestLine) => Erred(l, NotFound, excluded, from, checkedAt))
            && serverError == CountIf(lines, (l: RequestLine) => Erred(l, ServerError, excluded, from, checkedAt))
  {
    var from := checkedAt - (if windowMinutes > 1 then windowMinutes else 1) * MINUTE;
    notFound, serverError := 0, 0;
    for i := 0 to |lines|
      invariant notFound == |ErrorTimes(lines[..i], NotFound, excluded, from, checkedAt)|
      invariant serverError == |ErrorTimes(lines[..i], ServerError, excluded, from, checkedAt)|
    {
      var l := lines[i];
      assert lines[..i + 1][..i] == lines[..i];
      if from <= l.at <= checkedAt && MatchExcluded(l.path, excluded).None?
         && (l.status == 404 || 500 <= l.status <= 599) {
        if l.status == 404 {
          notFound := notFound + 1;
        } else {
          serverError := serverError + 1;
        }
      }
    }
    assert lines[..|lines|] == lines;
    ErrorsAre(lines, NotFound, excluded, from, checkedAt);
    ErrorsAre(lines, ServerError, excluded, from, checkedAt);
  }

  /** The monitor's window, counted on the day's error times. */
  lemma {:induction false} WindowOfDay(lines: seq<RequestLine>, kind: Kind, excluded: seq<string>,
                                       dayFrom: Time, dayTo: Time, from: Time, to: Time)
    requires dayFrom <= from && to <= dayTo
    ensures |ErrorTimes(lines, kind, excluded, from, to)|
         == CountIn(ErrorTimes(lines, kind, excluded, dayFrom, dayTo), from, to)
  {
    if lines != [] {
      var init, l := lines[..|lines| - 1], lines[|lines| - 1];
      WindowOfDay(init, kind, excluded, dayFrom, dayTo, from, to);
      var day := ErrorTimes(init, kind, excluded, dayFrom, dayTo);
      if dayFrom <= l.at <= dayTo && Counts(l, kind, excluded) {
        assert (day + [l.at])[..|day|] == day;
      } else {
        assert day + [] == day;
      }
    }
  }

  /** The advice holds: at every check whose window lies inside the previewed
      day, the monitor's count over the same log stays below the recommended
      threshold, provided the peak is below 10,000. */
  lemma RecommendedThresholdStaysQuiet(lines: seq<RequestLine>, kind: Kind, excluded: seq<string>, current: Time,
                                       windowMinutes: nat, peak: nat, default_: nat, checkedAt: Time)
    requires IsPeak(lines, kind, excluded, current, windowMinutes * MINUTE, peak)
    requires peak < MAX_THRESHOLD && default_ <= MAX_THRESHOLD
    requires current - DAY <= checkedAt - windowMinutes * MINUTE && checkedAt <= current
    ensures |ErrorTimes(lines, kind, excluded, checkedAt - windowMinutes * MINUTE, checkedAt)|
          < RecommendThreshold(peak, default_)
  {
    var from := checkedAt - windowMinutes * MINUTE;
    WindowOfDay(lines, kind, excluded, current - DAY, current, from, checkedAt);
    RecommendationIsQuiet(peak, default_);
    assert CountFrom(ErrorTimes(lines, kind, excluded, current - DAY, current), from, windowMinutes * MINUTE) <= peak;
  }
}
