/** Which service a blocked target is charged to: by the hash of its host or
    by the router's name, and the five services an alert names. */
module TargetServices {
  import opened Counters
  import opened HistoryState
  import opened HistoryRun
  import opened HistorySummary

  // -------------------------------------------------------- service attribution

  /** A managed service; `hostHash` is the hash of its domain's host name. */
  datatype Service = Service(name: string, domain: string, hostHash: Option<string>)

  datatype Attributed = Attributed(key: string, serviceName: string, domain: Option<string>, count: nat)

  function SafeDomain(s: Service): string {
    seq(|s.domain|, i requires 0 <= i < |s.domain| => if s.domain[i] == '.' then '-' else s.domain[i])
  }

  function BeforeAt(s: string): string {
    if s == [] || s[0] == '@' then [] else [s[0]] + BeforeAt(s[1..])
  }

  predicate DomainMatches(s: Service, routerBase: string) {
    routerBase == SafeDomain(s) || StartsWith(routerBase, SafeDomain(s) + "-")
  }

  /** Of the services whose safe domain the router name starts with, the one
      with the longest; the first of them when several are as long. */
  function BestMatch(services: seq<Service>, routerBase: string): (best: Option<Service>)
    ensures best.Some? ==> best.value in services && DomainMatches(best.value, routerBase)
    ensures forall s :: s in services && DomainMatches(s, routerBase) ==>
              best.Some? && |s.domain| <= |best.value.domain|
  {
    if services == [] then None else
      var before := BestMatch(services[..|services| - 1], routerBase);
      var s := services[|services| - 1];
      if DomainMatches(s, routerBase) && (before.None? || |before.value.domain| < |s.domain|) then Some(s)
      else before
  }

  /** Ties go to the service listed first. */
  lemma {:induction false} BestMatchIsFirst(services: seq<Service>, routerBase: string) returns (i: nat)
    requires BestMatch(services, routerBase).Some?
    ensures i < |services| && services[i] == BestMatch(services, routerBase).value
    ensures forall j :: 0 <= j < i && DomainMatches(services[j], routerBase) ==>
              |services[j].domain| < |services[i].domain|
  {
    var init, s := services[..|services| - 1], services[|services| - 1];
    var before := BestMatch(init, routerBase);
    if DomainMatches(s, routerBase) && (before.None? || |before.value.domain| < |s.domain|) {
      i := |services| - 1;
      forall j | 0 <= j < i && DomainMatches(services[j], routerBase)
        ensures |services[j].domain| < |services[i].domain|
      {
        assert init[j] in init;
      }
    } else {
      i := BestMatchIsFirst(init, routerBase);
    }
  }

  /** The last service listed for the host hash. */
  function ByHostHash(services: seq<Service>, hash: string): (found: Option<Service>)
    ensures found.Some? <==> exists i :: 0 <= i < |services| && services[i].hostHash == Some(hash)
    ensures found.Some? ==> exists i :: 0 <= i < |services| && services[i] == found.value && ServesHost(services, i, hash)
  {
    if services == [] then None
    else if services[|services| - 1].hostHash == Some(hash) then Some(services[|services| - 1])
    else ByHostHash(services[..|services| - 1], hash)
  }

  function MatchService(services: seq<Service>, routerBase: string): Option<Service> {
    if StartsWith(routerBase, "host:") then ByHostHash(services, routerBase[5..])
    else BestMatch(services, routerBase)
  }

  predicate Unattributable(services: seq<Service>, router: string) {
    && MatchService(services, BeforeAt(router)).None?
    && (StartsWith(BeforeAt(router), "host:") || BeforeAt(router) == "unknown")
  }

  /** The key a target is booked under: the matched service's domain, else the
      router's own name. */
  function AttributionKey(services: seq<Service>, router: string): string {
    var matched := MatchService(services, BeforeAt(router));
    if matched.Some? && matched.value.domain != "" then matched.value.domain else BeforeAt(router)
  }

  /** Sum of the targets that are booked under `key`. */
  function CountFor(services: seq<Service>, targets: seq<Ranked>, key: string): nat {
    if targets == [] then 0 else
      var t := targets[|targets| - 1];
      CountFor(services, targets[..|targets| - 1], key)
      + if !Unattributable(services, t.name) && AttributionKey(services, t.name) == key then t.count else 0
  }

  predicate BookedUnder(services: seq<Service>, router: string, key: string) {
    !Unattributable(services, router) && AttributionKey(services, router) == key
  }

  /** Name and domain are those of the service that the first target booked
      under the key was matched to, or that target's own name. */
  ghost predicate Identified(a: Attributed, services: seq<Service>, targets: seq<Ranked>) {
    exists i :: 0 <= i < |targets| && IdentifiedBy(a, services, targets[i].name)
             && forall j :: 0 <= j < i ==> !BookedUnder(services, targets[j].name, a.key)
  }

  predicate IdentifiedBy(a: Attributed, services: seq<Service>, router: string) {
    var matched := MatchService(services, BeforeAt(router));
    && !Unattributable(services, router) && a.key == AttributionKey(services, router)
    && a.serviceName == (if matched.Some? then matched.value.name else BeforeAt(router))
    && a.domain == if matched.Some? then Some(matched.value.domain) else None
  }

  function RankOf(a: Attributed): Ranked { Ranked(a.serviceName, a.count) }

  lemma SumUpdated(s: seq<Attributed>, i: nat, a: Attributed)
    requires i < |s|
    ensures SumRanked(RankOf, s[i := a]) + s[i].count == SumRanked(RankOf, s) + a.count
  {
    var head, rest := s[..i], s[i + 1..];
    assert s == head + [s[i]] + rest;
    assert s[i := a] == head + [a] + rest;
    SumRankedAppend(RankOf, head + [s[i]], rest);
    SumRankedAppend(RankOf, head, [s[i]]);
    SumRankedAppend(RankOf, head + [a], rest);
    SumRankedAppend(RankOf, head, [a]);
    assert SumRanked(RankOf, [a]) == a.count && SumRanked(RankOf, [s[i]]) == s[i].count;
  }

  method FindKey(totals: seq<Attributed>, key: string) returns (at: int)
    ensures -1 <= at < |totals|
    ensures at >= 0 ==> totals[at].key == key
    ensures at < 0 ==> forall i :: 0 <= i < |totals| ==> totals[i].key != key
  {
    for i := 0 to |totals|
      invariant forall j :: 0 <= j < i ==> totals[j].key != key
    {
      if totals[i].key == key {
        return i;
      }
    }
    return -1;
  }

  function KeyOf(a: Attributed): string { a.key }

  ghost predicate DistinctKeys(s: seq<Attributed>) { DistinctBy(KeyOf, s) }

  const MAX_TARGET_SERVICES: nat := 5

  /** Each entry carries the exact sum of the targets booked under its key. */
  ghost predicate ExactTotals(totals: seq<Attributed>, services: seq<Service>, targets: seq<Ranked>) {
    && (forall a :: a in totals ==> a.count == CountFor(services, targets, a.key))
    && (forall a :: a in totals ==> Identified(a, services, targets))
    && Covers(totals, services, targets)
  }

  method CollectTotals(targets: seq<Ranked>, services: seq<Service>) returns (totals: seq<Attributed>, other: nat)
    ensures ExactTotals(totals, services, targets) && DistinctKeys(totals)
    ensures SumRanked(RankOf, totals) + other == SumRanked(Self, targets)
  {
    totals, other := [], 0;
    for i := 0 to |targets|
      invariant SumRanked(RankOf, totals) + other == SumRanked(Self, targets[..i])
      invariant DistinctKeys(totals) && ExactTotals(totals, services, targets[..i])
    {
      var t := targets[i];
      assert targets[..i + 1] == targets[..i] + [t];
      assert targets[..i + 1][..i] == targets[..i];
      var base := BeforeAt(t.name);
      var matched := MatchService(services, base);
      if matched.None? && (StartsWith(base, "host:") || base == "unknown") {
        other := other + t.count;
        HiddenKeepsExact(totals, services, targets[..i], t);
      } else {
        totals := BookTarget(totals, services, targets[..i], t);
      }
    }
    assert targets[..|targets|] == targets;
  }

  lemma HiddenKeepsExact(totals: seq<Attributed>, services: seq<Service>, seen: seq<Ranked>, t: Ranked)
    requires Unattributable(services, t.name) && ExactTotals(totals, services, seen)
    ensures ExactTotals(totals, services, seen + [t])
  {
    assert (seen + [t])[..|seen|] == seen;
    forall a | a in totals ensures Identified(a, services, seen + [t]) {
      IdentityStays(a, a, services, seen, t);
    }
  }

  /** The five services with the most blocked requests, each with the exact sum
      of the targets attributed to it, and one number for all the others; no
      blocked request is lost or counted twice, and an attributed target that
      is not named has no more requests than any that is. */
  method ResolveTargetServices(targets: seq<Ranked>, services: seq<Service>)
    returns (named: seq<Attributed>, other: nat)
    ensures SumRanked(RankOf, named) + other == SumRanked(Self, targets)
    ensures NamesLargest(named, services, targets)
    ensures AllTold(named, services, targets)
  {
    var totals, hidden := CollectTotals(targets, services);
    var ordered := OrderTotals(totals, services, targets);
    var rest;
    named, rest := CutOff(ordered);
    other := hidden + rest;
    FirstAreLargest(ordered, named, services, targets);
    NamedTold(named, services, targets);
  }

  lemma FirstAreLargest(ordered: seq<Attributed>, named: seq<Attributed>, services: seq<Service>, targets: seq<Ranked>)
    requires RankOrdered(RankOf, ordered) && named == AtMost(ordered, MAX_TARGET_SERVICES)
    requires DistinctKeys(ordered) && ExactTotals(ordered, services, targets)
    ensures NamesLargest(named, services, targets)
  {
    LargestAreNamed(ordered, named, services, targets);
    assert RankOrdered(RankOf, named) && DistinctKeys(named) by {
      assert forall i :: 0 <= i < |named| ==> named[i] == ordered[i];
    }
    forall a | a in named ensures a in ordered {
      var i :| 0 <= i < |named| && named[i] == a;
      assert ordered[i] == a;
    }
  }

  /** At most five entries, none twice, in order, each exact; nothing left out
      is larger, and with fewer than five nothing is left out. */
  ghost predicate NamesLargest(named: seq<Attributed>, services: seq<Service>, targets: seq<Ranked>) {
    && |named| <= MAX_TARGET_SERVICES && RankOrdered(RankOf, named) && DistinctKeys(named)
    && (forall a :: a in named ==> a.count == CountFor(services, targets, a.key))
    && (forall a :: a in named ==> Identified(a, services, targets))
    && (|named| < MAX_TARGET_SERVICES ==> Covers(named, services, targets))
    && LargestNamed(named, services, targets)
  }

  method CutOff(ordered: seq<Attributed>) returns (named: seq<Attributed>, rest: nat)
    ensures named == AtMost(ordered, MAX_TARGET_SERVICES)
    ensures SumRanked(RankOf, named) + rest == SumRanked(RankOf, ordered)
  {
    named, rest := AtMost(ordered, MAX_TARGET_SERVICES), 0;
    if |ordered| > MAX_TARGET_SERVICES {
      SumRankedAppend(RankOf, ordered[..MAX_TARGET_SERVICES], ordered[MAX_TARGET_SERVICES..]);
      assert ordered == ordered[..MAX_TARGET_SERVICES] + ordered[MAX_TARGET_SERVICES..];
      rest := SumOf(ordered[MAX_TARGET_SERVICES..]);
    }
  }

  method OrderTotals(totals: seq<Attributed>, ghost services: seq<Service>, ghost targets: seq<Ranked>)
    returns (ordered: seq<Attributed>)
    requires DistinctKeys(totals) && ExactTotals(totals, services, targets)
    ensures RankOrdered(RankOf, ordered) && SumRanked(RankOf, ordered) == SumRanked(RankOf, totals)
    ensures DistinctKeys(ordered) && ExactTotals(ordered, services, targets)
  {
    ordered := SortRanked(RankOf, totals);
    SameMembers(totals, ordered, services, targets);
    SortedDistinct(KeyOf, totals, ordered);
  }

  lemma SameMembers(totals: seq<Attributed>, ordered: seq<Attributed>, services: seq<Service>, targets: seq<Ranked>)
    requires ExactTotals(totals, services, targets)
    requires forall a :: a in ordered <==> a in totals
    ensures ExactTotals(ordered, services, targets)
  {
    forall key | HasKey(totals, key) ensures HasKey(ordered, key) {
      var a :| a in totals && a.key == key;
      assert a in ordered;
    }
  }

  method SumOf(s: seq<Attributed>) returns (n: nat)
    ensures n == SumRanked(RankOf, s)
  {
    n := 0;
    for i := 0 to |s|
      invariant n == SumRanked(RankOf, s[..i])
    {
      assert s[..i + 1][..i] == s[..i];
      n := n + s[i].count;
    }
    assert s[..|s|] == s;
  }

  ghost predicate Covers(totals: seq<Attributed>, services: seq<Service>, targets: seq<Ranked>) {
    forall i :: 0 <= i < |targets| && !Unattributable(services, targets[i].name) ==>
      HasKey(totals, AttributionKey(services, targets[i].name))
  }

  ghost predicate HasKey(s: seq<Attributed>, key: string) { exists a :: a in s && a.key == key }

  ghost predicate LargestNamed(named: seq<Attributed>, services: seq<Service>, targets: seq<Ranked>) {
    forall i, a :: 0 <= i < |targets| && !Unattributable(services, targets[i].name) && a in named ==>
      || HasKey(named, AttributionKey(services, targets[i].name))
      || CountFor(services, targets, AttributionKey(services, targets[i].name)) <= a.count
  }

  lemma LargestAreNamed(ordered: seq<Attributed>, named: seq<Attributed>, services: seq<Service>, targets: seq<Ranked>)
    requires RankOrdered(RankOf, ordered) && named == AtMost(ordered, MAX_TARGET_SERVICES)
    requires forall a :: a in ordered ==> a.count == CountFor(services, targets, a.key)
    requires Covers(ordered, services, targets)
    ensures LargestNamed(named, services, targets)
  {
    forall i, a | 0 <= i < |targets| && !Unattributable(services, targets[i].name) && a in named
      ensures HasKey(named, AttributionKey(services, targets[i].name))
           || CountFor(services, targets, AttributionKey(services, targets[i].name)) <= a.count
    {
      var key := AttributionKey(services, targets[i].name);
      assert HasKey(ordered, key);
      var b :| b in ordered && b.key == key;
      var j :| 0 <= j < |ordered| && ordered[j] == b;
      if j < |named| {
        assert named[j] == b;
      } else {
        var k :| 0 <= k < |named| && named[k] == a;
        assert ordered[k] == a && k < j;
        assert RanksBefore(RankOf(ordered[k]), RankOf(ordered[j]));
      }
    }
  }

  method BookTarget(totals: seq<Attributed>, services: seq<Service>, ghost seen: seq<Ranked>, t: Ranked)
    returns (booked: seq<Attributed>)
    requires !Unattributable(services, t.name)
    requires DistinctKeys(totals) && ExactTotals(totals, services, seen)
    ensures DistinctKeys(booked) && SumRanked(RankOf, booked) == SumRanked(RankOf, totals) + t.count
    ensures ExactTotals(booked, services, seen + [t])
  {
    var base := BeforeAt(t.name);
    var matched := MatchService(services, base);
    var key := AttributionKey(services, t.name);
    var at := FindKey(totals, key);
    if at >= 0 {
      booked := totals[at := totals[at].(count := totals[at].count + t.count)];
      KnownKeyBooked(totals, booked, services, seen, t, at);
    } else {
      var name := if matched.Some? then matched.value.name else base;
      var domain := if matched.Some? then Some(matched.value.domain) else None;
      var entry := Attributed(key, name, domain, t.count);
      booked := totals + [entry];
      NewKeyBooked(totals, entry, services, seen, t);
    }
  }

  lemma KnownKeyBooked(totals: seq<Attributed>, booked: seq<Attributed>, services: seq<Service>,
                       seen: seq<Ranked>, t: Ranked, at: nat)
    requires !Unattributable(services, t.name)
    requires DistinctKeys(totals) && ExactTotals(totals, services, seen)
    requires at < |totals| && totals[at].key == AttributionKey(services, t.name)
    requires booked == totals[at := totals[at].(count := totals[at].count + t.count)]
    ensures DistinctKeys(booked) && SumRanked(RankOf, booked) == SumRanked(RankOf, totals) + t.count
    ensures ExactTotals(booked, services, seen + [t])
  {
    assert totals[at] in totals;
    SumUpdated(totals, at, booked[at]);
    SameKeysDistinct(totals, booked);
    BookedIsExact(totals, booked, services, seen, t, at);
  }

  lemma SameKeysDistinct(totals: seq<Attributed>, booked: seq<Attributed>)
    requires DistinctKeys(totals) && |booked| == |totals|
    requires forall i :: 0 <= i < |booked| ==> booked[i].key == totals[i].key
    ensures DistinctKeys(booked)
  {
  }

  lemma NewKeyBooked(totals: seq<Attributed>, entry: Attributed, services: seq<Service>, seen: seq<Ranked>, t: Ranked)
    requires DistinctKeys(totals) && ExactTotals(totals, services, seen)
    requires forall i :: 0 <= i < |totals| ==> totals[i].key != entry.key
    requires IdentifiedBy(entry, services, t.name) && entry.count == t.count
    ensures DistinctKeys(totals + [entry])
    ensures SumRanked(RankOf, totals + [entry]) == SumRanked(RankOf, totals) + t.count
    ensures ExactTotals(totals + [entry], services, seen + [t])
  {
    NewKeyDistinct(totals, entry);
    NeverBooked(totals, services, seen, entry.key);
    NoneBookedUnder(totals, services, seen, entry.key);
    var booked := totals + [entry];
    assert booked[|totals|] == entry;
    BookedIsExact(totals, booked, services, seen, t, |totals|);
  }

  lemma NewKeyDistinct(totals: seq<Attributed>, entry: Attributed)
    requires DistinctKeys(totals)
    requires forall i :: 0 <= i < |totals| ==> totals[i].key != entry.key
    ensures DistinctKeys(totals + [entry])
    ensures SumRanked(RankOf, totals + [entry]) == SumRanked(RankOf, totals) + entry.count
  {
    assert (totals + [entry])[..|totals|] == totals;
  }

  /** Only entry `at` differs, or is new. */
  ghost predicate SameBut(totals: seq<Attributed>, booked: seq<Attributed>, at: nat) {
    forall i :: 0 <= i < |booked| && i != at ==> i < |totals| && booked[i] == totals[i]
  }

  lemma BookedIsExact(totals: seq<Attributed>, booked: seq<Attributed>, services: seq<Service>,
                      seen: seq<Ranked>, t: Ranked, at: nat)
    requires !Unattributable(services, t.name)
    requires DistinctKeys(booked) && ExactTotals(totals, services, seen)
    requires at < |booked| && |totals| <= |booked|
    requires SameBut(totals, booked, at)
    requires booked[at].key == AttributionKey(services, t.name)
    requires booked[at].count == CountFor(services, seen, booked[at].key) + t.count
    requires if at < |totals| then booked[at] == totals[at].(count := booked[at].count)
             else IdentifiedBy(booked[at], services, t.name)
                  && forall j :: 0 <= j < |seen| ==> !BookedUnder(services, seen[j].name, booked[at].key)
    ensures ExactTotals(booked, services, seen + [t])
  {
    BookedCounts(totals, booked, services, seen, t, at);
    forall a | a in booked ensures Identified(a, services, seen + [t]) {
      var i :| 0 <= i < |booked| && booked[i] == a;
      if i < |totals| { assert totals[i] in totals; }
      StillIdentified(totals, a, i, services, seen, t);
    }
    BookedCovers(totals, booked, services, seen, t, at);
  }

  lemma BookedCounts(totals: seq<Attributed>, booked: seq<Attributed>, services: seq<Service>,
                     seen: seq<Ranked>, t: Ranked, at: nat)
    requires !Unattributable(services, t.name) && DistinctKeys(booked)
    requires forall a :: a in totals ==> a.count == CountFor(services, seen, a.key)
    requires at < |booked| && |totals| <= |booked|
    requires SameBut(totals, booked, at)
    requires booked[at].key == AttributionKey(services, t.name)
    requires booked[at].count == CountFor(services, seen, booked[at].key) + t.count
    ensures forall a :: a in booked ==> a.count == CountFor(services, seen + [t], a.key)
  {
    assert (seen + [t])[..|seen|] == seen;
    forall a | a in booked ensures a.count == CountFor(services, seen + [t], a.key) {
      var i :| 0 <= i < |booked| && booked[i] == a;
      if i != at {
        assert totals[i] in totals;
        assert KeyOf(booked[i]) != KeyOf(booked[at]);
      }
    }
  }

  lemma BookedCovers(totals: seq<Attributed>, booked: seq<Attributed>, services: seq<Service>,
                     seen: seq<Ranked>, t: Ranked, at: nat)
    requires Covers(totals, services, seen) && at < |booked| && |totals| <= |booked|
    requires SameBut(totals, booked, at)
    requires at < |totals| ==> booked[at].key == totals[at].key
    requires booked[at].key == AttributionKey(services, t.name)
    ensures Covers(booked, services, seen + [t])
  {
    forall k | HasKey(totals, k) ensures HasKey(booked, k) {
      var a :| a in totals && a.key == k;
      var i :| 0 <= i < |totals| && totals[i] == a;
      assert booked[i] in booked && booked[i].key == k;
    }
    assert booked[at] in booked;
    assert HasKey(booked, AttributionKey(services, t.name));
  }

  lemma StillIdentified(totals: seq<Attributed>, a: Attributed, i: nat, services: seq<Service>, seen: seq<Ranked>, t: Ranked)
    requires i < |totals| ==> Identified(totals[i], services, seen) && a == totals[i].(count := a.count)
    requires i >= |totals| ==> IdentifiedBy(a, services, t.name)
    requires i >= |totals| ==> forall j :: 0 <= j < |seen| ==> !BookedUnder(services, seen[j].name, a.key)
    ensures Identified(a, services, seen + [t])
  {
    if i < |totals| {
      IdentityStays(totals[i], a, services, seen, t);
    } else {
      assert (seen + [t])[|seen|] == t;
      assert forall j :: 0 <= j < |seen| ==> (seen + [t])[j] == seen[j];
    }
  }

  lemma IdentityStays(before: Attributed, a: Attributed, services: seq<Service>, seen: seq<Ranked>, t: Ranked)
    requires Identified(before, services, seen) && a == before.(count := a.count)
    ensures Identified(a, services, seen + [t])
  {
    var i :| 0 <= i < |seen| && IdentifiedBy(before, services, seen[i].name)
             && forall j :: 0 <= j < i ==> !BookedUnder(services, seen[j].name, before.key);
    assert forall j :: 0 <= j <= i ==> (seen + [t])[j] == seen[j];
    assert IdentifiedBy(a, services, (seen + [t])[i].name);
  }

  lemma NoneBookedUnder(totals: seq<Attributed>, services: seq<Service>, seen: seq<Ranked>, key: string)
    requires Covers(totals, services, seen)
    requires forall i :: 0 <= i < |totals| ==> totals[i].key != key
    ensures forall j :: 0 <= j < |seen| ==> !BookedUnder(services, seen[j].name, key)
  {
  }

  lemma {:induction false} NeverBooked(totals: seq<Attributed>, services: seq<Service>, seen: seq<Ranked>, key: string)
    requires Covers(totals, services, seen)
    requires forall i :: 0 <= i < |totals| ==> totals[i].key != key
    ensures CountFor(services, seen, key) == 0
  {
    if seen != [] {
      var t := seen[|seen| - 1];
      if !Unattributable(services, t.name) && AttributionKey(services, t.name) == key {
        assert false;
      }
      NeverBooked(totals, services, seen[..|seen| - 1], key);
    }
  }

  // -------------------------------------------- attribution, told from the texts

  /** `base` is what comes before the first `@`. */
  predicate IsBase(router: string, base: string) {
    && |base| <= |router| && router[..|base|] == base && '@' !in base
    && (|router| == |base| || router[|base|] == '@')
  }

  lemma {:induction false} BeforeAtIs(router: string, base: string)
    ensures IsBase(router, base) <==> base == BeforeAt(router)
  {
    if router != [] && router[0] != '@' {
      var tail := BeforeAt(router[1..]);
      BeforeAtIs(router[1..], tail);
      assert router[..|tail| + 1] == [router[0]] + router[1..][..|tail|];
      assert IsBase(router, BeforeAt(router));
      if IsBase(router, base) {
        assert base != [] && base[0] == router[0];
        assert router[1..][..|base| - 1] == router[..|base|][1..] == base[1..];
        BeforeAtIs(router[1..], base[1..]);
      }
    }
  }

  /** The last of the list for the host hash stands at `i`. */
  predicate ServesHost(services: seq<Service>, i: int, hash: string) {
    && 0 <= i < |services| && services[i].hostHash == Some(hash)
    && forall j :: i < j < |services| ==> services[j].hostHash != Some(hash)
  }

  /** The router's name is the domain written with dashes, or goes on with a
      dash after it. */
  predicate NamesDomain(base: string, domain: string) {
    && |domain| <= |base|
    && (forall i :: 0 <= i < |domain| ==> base[i] == if domain[i] == '.' then '-' else domain[i])
    && (|base| == |domain| || base[|domain|] == '-')
  }

  lemma NamesDomainIs(s: Service, base: string)
    ensures NamesDomain(base, s.domain) <==> DomainMatches(s, base)
  {
    var safe := SafeDomain(s);
    if DomainMatches(s, base) {
      if base != safe {
        var dashed := safe + "-";
        assert base[..|dashed|] == dashed;
        assert forall i :: 0 <= i < |dashed| ==> base[i] == base[..|dashed|][i];
      }
    }
    if NamesDomain(base, s.domain) {
      if |base| == |safe| { assert base == safe; } else { assert base[..|safe| + 1] == safe + "-"; }
    }
  }

  /** Of the services the router's name fits, the one at `i` has the longest
      domain and is the first of those. */
  predicate ServesName(services: seq<Service>, i: int, base: string) {
    && 0 <= i < |services| && NamesDomain(base, services[i].domain)
    && forall j :: 0 <= j < |services| && NamesDomain(base, services[j].domain) ==>
         |services[j].domain| < |services[i].domain| || (|services[j].domain| == |services[i].domain| && i <= j)
  }

  predicate Serves(services: seq<Service>, i: int, base: string) {
    if |base| >= 5 && base[..5] == "host:" then ServesHost(services, i, base[5..]) else ServesName(services, i, base)
  }

  /** A target is matched to a service exactly when one of the list serves its
      base, and then to that one. */
  lemma MatchServes(services: seq<Service>, base: string)
    ensures var matched := MatchService(services, base);
            && (matched.Some? <==> exists i :: Serves(services, i, base))
            && forall i :: Serves(services, i, base) ==> matched == Some(services[i])
  {
    if StartsWith(base, "host:") {
      HostServes(services, base[5..]);
      assert forall i :: Serves(services, i, base) <==> ServesHost(services, i, base[5..]);
    } else {
      NameServes(services, base);
      assert forall i :: Serves(services, i, base) <==> ServesName(services, i, base);
    }
  }

  lemma HostServes(services: seq<Service>, hash: string)
    ensures ByHostHash(services, hash).Some? ==> exists i :: ServesHost(services, i, hash)
    ensures forall i :: ServesHost(services, i, hash) ==> ByHostHash(services, hash) == Some(services[i])
  {
  }

  lemma NameServes(services: seq<Service>, base: string)
    ensures BestMatch(services, base).Some? ==> exists i :: ServesName(services, i, base)
    ensures forall i :: ServesName(services, i, base) ==> BestMatch(services, base) == Some(services[i])
  {
    forall s: Service ensures NamesDomain(base, s.domain) <==> DomainMatches(s, base) { NamesDomainIs(s, base); }
    if BestMatch(services, base).Some? {
      var i := BestMatchIsFirst(services, base);
      forall j | 0 <= j < |services| && NamesDomain(base, services[j].domain)
        ensures |services[j].domain| < |services[i].domain| || (|services[j].domain| == |services[i].domain| && i <= j)
      {
        assert services[j] in services;
      }
      assert ServesName(services, i, base);
      forall k | ServesName(services, k, base) ensures k == i {
        assert NamesDomain(base, services[i].domain);
      }
    }
  }

  /** The service at `i` serves the target; `i` is -1 when none does. */
  ghost predicate ServedBy(services: seq<Service>, router: string, base: string, i: int) {
    && IsBase(router, base)
    && if i == -1 then forall j :: !Serves(services, j, base) else Serves(services, i, base)
  }

  lemma ServedByExists(services: seq<Service>, router: string) returns (base: string, i: int)
    ensures ServedBy(services, router, base, i) && base == BeforeAt(router)
  {
    base, i := BeforeAt(router), -1;
    BeforeAtIs(router, base);
    if k :| Serves(services, k, base) { i := k; }
  }

  /** A target is charged to `key`: the domain of the service that serves it, or
      the target's base when none does (or the domain is empty). An unserved
      host, and an unserved `unknown`, are charged to nothing. */
  ghost predicate ChargedTo(services: seq<Service>, router: string, key: string) {
    exists base, i :: ServedBy(services, router, base, i) && Charges(services, base, i, key)
  }

  ghost predicate Charges(services: seq<Service>, base: string, i: int, key: string) {
    if 0 <= i < |services| then key == if services[i].domain != "" then services[i].domain else base
    else key == base && base != "unknown" && !exists hash :: base == "host:" + hash
  }

  lemma ChargedIsBooked(services: seq<Service>, router: string, key: string)
    ensures ChargedTo(services, router, key) <==> BookedUnder(services, router, key)
  {
    var base, i := ServedByExists(services, router);
    MatchServes(services, base);
    StartsAndEnds(base, "host:");
    assert BookedUnder(services, router, key) <==> Charges(services, base, i, key);
    if b, k :| ServedBy(services, router, b, k) && Charges(services, b, k, key) {
      BeforeAtIs(router, b);
    }
  }

  /** The requests of all targets charged to `key`. */
  ghost function ChargeOf(services: seq<Service>, targets: seq<Ranked>, key: string): nat {
    SumRanked(t => if ChargedTo(services, NameOf(t), key) then t else Ranked("", 0), targets)
  }

  lemma {:induction false} CountForIs(services: seq<Service>, targets: seq<Ranked>, key: string)
    ensures CountFor(services, targets, key) == ChargeOf(services, targets, key)
  {
    if targets != [] {
      CountForIs(services, targets[..|targets| - 1], key);
      ChargedIsBooked(services, targets[|targets| - 1].name, key);
    }
  }

  /** What an entry says, told from the list of services and the targets: the sum
      of the targets charged to its key, and the name and domain of the service
      that serves the first of them. */
  ghost predicate Told(a: Attributed, services: seq<Service>, targets: seq<Ranked>) {
    && a.count == ChargeOf(services, targets, a.key)
    && exists k, base, i ::
         && 0 <= k < |targets| && ServedBy(services, targets[k].name, base, i) && Charges(services, base, i, a.key)
         && (forall j :: 0 <= j < k ==> !ChargedTo(services, targets[j].name, a.key))
         && (i == -1 ==> a.serviceName == base && a.domain == None)
         && (i != -1 ==> a.serviceName == services[i].name && a.domain == Some(services[i].domain))
  }

  lemma EntryTold(a: Attributed, services: seq<Service>, targets: seq<Ranked>)
    requires a.count == CountFor(services, targets, a.key) && Identified(a, services, targets)
    ensures Told(a, services, targets)
  {
    CountForIs(services, targets, a.key);
    var k :| 0 <= k < |targets| && IdentifiedBy(a, services, targets[k].name)
             && forall j :: 0 <= j < k ==> !BookedUnder(services, targets[j].name, a.key);
    forall j | 0 <= j < k ensures !ChargedTo(services, targets[j].name, a.key) {
      ChargedIsBooked(services, targets[j].name, a.key);
    }
    var base, i := ServedByExists(services, targets[k].name);
    MatchServes(services, base);
    StartsAndEnds(base, "host:");
    assert Charges(services, base, i, a.key);
  }

  /** The entries say what the targets and the list of services do, and a target
      charged to a key that is not named has no larger a sum than any named. */
  ghost predicate AllTold(named: seq<Attributed>, services: seq<Service>, targets: seq<Ranked>) {
    && (forall a :: a in named ==> Told(a, services, targets))
    && forall t, key, a :: t in targets && ChargedTo(services, NameOf(t), key) && a in named ==>
         HasKey(named, key) || ChargeOf(services, targets, key) <= a.count
  }

  lemma NamedTold(named: seq<Attributed>, services: seq<Service>, targets: seq<Ranked>)
    requires NamesLargest(named, services, targets)
    ensures AllTold(named, services, targets)
  {
    forall a | a in named ensures Told(a, services, targets) { EntryTold(a, services, targets); }
    forall t, key, a | t in targets && ChargedTo(services, NameOf(t), key) && a in named
      ensures HasKey(named, key) || ChargeOf(services, targets, key) <= a.count
    {
      ChargedIsBooked(services, t.name, key);
      CountForIs(services, targets, key);
      var i :| 0 <= i < |targets| && targets[i] == t;
      assert !Unattributable(services, targets[i].name) && AttributionKey(services, targets[i].name) == key;
    }
  }

  // -------------------------------------------------------------- the alert check

  datatype AlertDetail = AlertDetail(
    blocked: nat, total: nat, complete: bool,
    named: seq<Attributed>, other: nat, methods: seq<Ranked>, patterns: seq<Ranked>)

  /** The numbers of one alert, taken from the state any run has saved: the
      services named in it and the rest add up to its blocked count, and so do
      the request methods; each named service carries exactly what the window's
      minutes hold for the targets attributed to it. */
  method BuildAlert(log: seq<Line>, tail: nat, ghost polls: seq<Poll>, saved: State,
                    checkedAt: Time, windowMinutes: nat, services: seq<Service>)
    returns (alert: AlertDetail, ghost targets: seq<Ranked>)
    requires Legal(log, polls) && Run(log, tail, polls) == Some(saved)
    ensures Summarizes(Summary(alert.blocked, alert.total, alert.complete, targets, alert.methods, alert.patterns),
                       saved.minutes, SummaryCutoff(checkedAt, windowMinutes), checkedAt)
    ensures SumRanked(RankOf, alert.named) + alert.other == alert.blocked
    ensures SumRanked(Self, alert.methods) == alert.blocked
    ensures alert.blocked <= alert.total
    ensures alert.complete <==>
              saved.countedSince.Some? && saved.countedSince.value <= SummaryCutoff(checkedAt, windowMinutes)
    ensures NamesLargest(alert.named, services, targets)
    ensures AllTold(alert.named, services, targets)
  {
    RunKeepsBalance(log, tail, polls);
    var summary := SummarizeRecentBlocks(saved, checkedAt, windowMinutes);
    targets := summary.targets;
    var named, other := ResolveTargetServices(summary.targets, services);
    alert := AlertDetail(summary.blocked, summary.total, summary.complete, named, other,
                         summary.methods, summary.patterns);
  }
}
