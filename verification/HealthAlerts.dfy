/** Health alerts of the manager's own containers: one small state machine per
    component, driven by periodic checks with a cooldown. */
module HealthAlerts {
  import opened Counters

  type Time = int

  datatype Health = Healthy | Unhealthy

  datatype Entry = Entry(status: Option<Health>, alertActive: bool, lastAlertAt: Option<Time>)

  const UNKNOWN := Entry(None, false, None)

  datatype EventKind = WentUnhealthy | Recovered

  datatype Event = Event(name: string, kind: EventKind, at: Time)

  /** One component of an inspection; `health` is absent while starting. */
  datatype Component = Component(name: string, health: Option<Health>)

  type State = map<string, Entry>

  predicate AlertDue(previous: Entry, now: Time, cooldown: int) {
    previous.lastAlertAt.None? || now - previous.lastAlertAt.value >= cooldown
  }

  function PreviousOf(s: State, name: string): Entry { if name in s then s[name] else UNKNOWN }

  /** The event one reading of a component raises. */
  function Raised(previous: Entry, health: Health, now: Time, cooldown: int): Option<EventKind> {
    match health
    case Unhealthy =>
      if (previous.status != Some(Unhealthy) || !previous.alertActive) && AlertDue(previous, now, cooldown)
      then Some(WentUnhealthy) else None
    case Healthy =>
      if previous.status == Some(Unhealthy) && previous.alertActive then Some(Recovered) else None
  }

  function NextEntry(previous: Entry, health: Health, now: Time, cooldown: int): Entry {
    var raised := Raised(previous, health, now, cooldown);
    Entry(Some(health),
          health == Unhealthy
          && (raised == Some(WentUnhealthy) || (previous.status == Some(Unhealthy) && previous.alertActive)),
          if raised == Some(WentUnhealthy) then Some(now) else previous.lastAlertAt)
  }

  datatype Outcome = Outcome(state: State, events: seq<Event>)

  /** A check compares every component with the state before the check. */
  function Check(before: State, components: seq<Component>, now: Time, cooldown: int): Outcome {
    if components == [] then Outcome(before, []) else
      var done := Check(before, components[..|components| - 1], now, cooldown);
      var c := components[|components| - 1];
      if c.health.None? then done else
        var previous := PreviousOf(before, c.name);
        var raised := Raised(previous, c.health.value, now, cooldown);
        Outcome(done.state[c.name := NextEntry(previous, c.health.value, now, cooldown)],
                done.events + if raised.Some? then [Event(c.name, raised.value, now)] else [])
  }

  class Monitor {
    var state: State
    var events: seq<Event>

    constructor ()
      ensures state == map[] && events == []
    {
      state, events := map[], [];
    }

    /** `check_manager_health_once`, with monitoring on. */
    method CheckOnce(components: seq<Component>, now: Time, cooldown: int)
      modifies this
      ensures state == Check(old(state), components, now, cooldown).state
      ensures events == old(events) + Check(old(state), components, now, cooldown).events
    {
      var before, next := state, state;
      ghost var seen := events;
      for i := 0 to |components|
        invariant next == Check(before, components[..i], now, cooldown).state
        invariant events == seen + Check(before, components[..i], now, cooldown).events
        invariant state == before
      {
        assert components[..i + 1][..i] == components[..i];
        var c := components[i];
        if c.health.Some? {
          var health := c.health.value;
          var previous := if c.name in before then before[c.name] else UNKNOWN;
          var transitioned := previous.status != Some(health);
          var active := previous.alertActive;
          var event: Option<EventKind> := None;
          if health == Unhealthy {
            if (transitioned || !active) && AlertDue(previous, now, cooldown) {
              event, active := Some(WentUnhealthy), true;
            } else if transitioned {
              active := false;
            }
          } else {
            if previous.status == Some(Unhealthy) && active {
              event := Some(Recovered);
            }
            active := false;
          }
          next := next[c.name := Entry(Some(health), active,
                                       if event == Some(WentUnhealthy) then Some(now) else previous.lastAlertAt)];
          if event.Some? {
            events := events + [Event(c.name, event.value, now)];
          }
        }
      }
      assert components[..|components|] == components;
      state := next;
    }
  }

  // ---------------------------------------------------------------------- whole runs

  datatype Inspection = Inspection(components: seq<Component>, now: Time)

  ghost predicate DistinctNames(components: seq<Component>) {
    forall i, j :: 0 <= i < j < |components| ==> components[i].name != components[j].name
  }

  function Run(checks: seq<Inspection>, cooldown: int): Outcome {
    if checks == [] then Outcome(map[], []) else
      var before := Run(checks[..|checks| - 1], cooldown);
      var c := checks[|checks| - 1];
      var done := Check(before.state, c.components, c.now, cooldown);
      Outcome(done.state, before.events + done.events)
  }

  /** The events of one component, in order. */
  function Of(events: seq<Event>, name: string): seq<Event> {
    if events == [] then [] else
      Of(events[..|events| - 1], name)
      + if events[|events| - 1].name == name then [events[|events| - 1]] else []
  }

  lemma {:induction false} OfAppend(a: seq<Event>, b: seq<Event>, name: string)
    ensures Of(a + b, name) == Of(a, name) + Of(b, name)
  {
    if b == [] {
      assert a + b == a;
    } else {
      assert (a + b)[..|a + b| - 1] == a + b[..|b| - 1];
      OfAppend(a, b[..|b| - 1], name);
    }
  }

  /** A component's reading in a check, if it has one. */
  function Reading(components: seq<Component>, name: string): Option<Health> {
    if components == [] then None
    else if components[|components| - 1].name == name && components[|components| - 1].health.Some?
    then components[|components| - 1].health
    else Reading(components[..|components| - 1], name)
  }

  function RaisedEvents(previous: Entry, reading: Option<Health>, name: string, now: Time, cooldown: int): seq<Event> {
    if reading.None? then [] else
      var raised := Raised(previous, reading.value, now, cooldown);
      if raised.Some? then [Event(name, raised.value, now)] else []
  }

  /** In a check every component moves on its own. */
  lemma {:induction false} CheckByComponent(before: State, components: seq<Component>, now: Time, cooldown: int, name: string)
    requires DistinctNames(components)
    ensures var done := Check(before, components, now, cooldown);
            var reading := Reading(components, name);
            && Of(done.events, name) == RaisedEvents(PreviousOf(before, name), reading, name, now, cooldown)
            && PreviousOf(done.state, name)
               == if reading.None? then PreviousOf(before, name)
                  else NextEntry(PreviousOf(before, name), reading.value, now, cooldown)
  {
    if components != [] {
      var init, c := components[..|components| - 1], components[|components| - 1];
      CheckByComponent(before, init, now, cooldown, name);
      if c.name == name { NoReading(init, name); }
      assert components == init + [c];
      if c.health.Some? { LastComponent(before, init, c, now, cooldown, name); }
    }
  }

  lemma LastComponent(before: State, init: seq<Component>, c: Component, now: Time, cooldown: int, name: string)
    requires c.health.Some?
    ensures var done := Check(before, init, now, cooldown);
            var next := Check(before, init + [c], now, cooldown);
            && Of(next.events, name)
               == Of(done.events, name)
                  + (if c.name == name then RaisedEvents(PreviousOf(before, name), c.health, name, now, cooldown) else [])
            && PreviousOf(next.state, name)
               == if c.name == name then NextEntry(PreviousOf(before, name), c.health.value, now, cooldown)
                  else PreviousOf(done.state, name)
  {
    assert (init + [c])[..|init|] == init;
    var raised := RaisedEvents(PreviousOf(before, c.name), c.health, c.name, now, cooldown);
    OfAppend(Check(before, init, now, cooldown).events, raised, name);
    OfAtMostOne(raised, name);
  }

  lemma OfAtMostOne(events: seq<Event>, name: string)
    requires |events| <= 1
    ensures Of(events, name) == if events != [] && events[0].name == name then events else []
  {
    if events != [] { assert events[..0] == [] && [events[0]] == events; }
  }

  lemma {:induction false} NoReading(components: seq<Component>, name: string)
    requires forall i :: 0 <= i < |components| ==> components[i].name != name
    ensures Reading(components, name).None?
  {
    if components != [] {
      NoReading(components[..|components| - 1], name);
    }
  }

  /** Unhealthy and recovered in turn, beginning with unhealthy. */
  ghost predicate Alternates(events: seq<Event>) {
    forall i :: 0 <= i < |events| ==> events[i].kind == if i % 2 == 0 then WentUnhealthy else Recovered
  }

  ghost predicate CooldownKept(events: seq<Event>, cooldown: int) {
    forall i, j :: 0 <= i && j == i + 2 && j < |events| && events[i].kind == WentUnhealthy ==>
      events[j].at - events[i].at >= cooldown
  }

  /** The entry says what the events say. */
  ghost predicate Tells(entry: Entry, events: seq<Event>) {
    && (entry.alertActive <==> events != [] && events[|events| - 1].kind == WentUnhealthy)
    && (entry.alertActive ==> entry.status == Some(Unhealthy))
    && (entry.lastAlertAt.None? <==> events == [])
    && (events != [] ==>
          var last := if events[|events| - 1].kind == WentUnhealthy || |events| < 2 then |events| - 1 else |events| - 2;
          entry.lastAlertAt == Some(events[last].at))
  }

  ghost predicate ComponentOk(entry: Entry, events: seq<Event>, cooldown: int) {
    Alternates(events) && CooldownKept(events, cooldown) && Tells(entry, events)
  }

  lemma ReadingKeepsOk(previous: Entry, events: seq<Event>, health: Health, name: string, now: Time, cooldown: int)
    requires ComponentOk(previous, events, cooldown)
    ensures ComponentOk(NextEntry(previous, health, now, cooldown),
                        events + RaisedEvents(previous, Some(health), name, now, cooldown), cooldown)
  {
    var raised := Raised(previous, health, now, cooldown);
    var next := events + RaisedEvents(previous, Some(health), name, now, cooldown);
    assert forall i :: 0 <= i < |events| ==> next[i] == events[i];
    if raised.None? {
      assert next == events;
    } else {
      var n := |events|;
      assert next[n] == Event(name, raised.value, now);
      if raised.value == WentUnhealthy {
        assert n == 0 || events[n - 1].kind == Recovered;
      } else {
        assert events[n - 1].kind == WentUnhealthy;
      }
    }
  }

  lemma {:induction false} EveryRunOk(checks: seq<Inspection>, cooldown: int, name: string)
    requires forall i :: 0 <= i < |checks| ==> DistinctNames(checks[i].components)
    ensures var done := Run(checks, cooldown);
            ComponentOk(PreviousOf(done.state, name), Of(done.events, name), cooldown)
  {
    if checks != [] {
      var init, c := checks[..|checks| - 1], checks[|checks| - 1];
      EveryRunOk(init, cooldown, name);
      var before := Run(init, cooldown);
      var previous := PreviousOf(before.state, name);
      CheckByComponent(before.state, c.components, c.now, cooldown, name);
      OfAppend(before.events, Check(before.state, c.components, c.now, cooldown).events, name);
      var reading := Reading(c.components, name);
      if reading.Some? {
        ReadingKeepsOk(previous, Of(before.events, name), reading.value, name, c.now, cooldown);
      } else {
        assert Of(before.events, name) + [] == Of(before.events, name);
      }
    }
  }

  /** Over any run of checks each component's events strictly alternate, alerts
      keep the cooldown, and the stored flag is up exactly while the last event
      is an alert. */
  lemma AlertsAlternate(checks: seq<Inspection>, cooldown: int, name: string, i: nat)
    requires forall k :: 0 <= k < |checks| ==> DistinctNames(checks[k].components)
    requires i < |Of(Run(checks, cooldown).events, name)|
    ensures var events := Of(Run(checks, cooldown).events, name);
            && events[i].kind == (if i % 2 == 0 then WentUnhealthy else Recovered)
            && (i % 2 == 0 && i + 2 < |events| ==> events[i + 2].at - events[i].at >= cooldown)
            && (PreviousOf(Run(checks, cooldown).state, name).alertActive <==> |events| % 2 == 1)
  {
    EveryRunOk(checks, cooldown, name);
    var events := Of(Run(checks, cooldown).events, name);
    assert events[|events| - 1].kind == if (|events| - 1) % 2 == 0 then WentUnhealthy else Recovered;
  }

  // ---------------------------------------------------- when an event is raised

  /** The component's last event stands at `k`. */
  ghost predicate LastOf(events: seq<Event>, name: string, k: int) {
    && 0 <= k < |events| && events[k].name == name
    && forall j :: k < j < |events| ==> events[j].name != name
  }

  /** The component's last alert stands at `k`. */
  ghost predicate LastAlert(events: seq<Event>, name: string, k: int) {
    && 0 <= k < |events| && events[k].name == name && events[k].kind == WentUnhealthy
    && forall j :: k < j < |events| ==> events[j].name != name || events[j].kind != WentUnhealthy
  }

  /** The component's last event is an alert. */
  ghost predicate Standing(events: seq<Event>, name: string) {
    exists k :: LastOf(events, name, k) && events[k].kind == WentUnhealthy
  }

  /** There is no alert for the component, or the last is a cooldown ago. */
  ghost predicate Cooled(events: seq<Event>, name: string, now: Time, cooldown: int) {
    forall k :: LastAlert(events, name, k) ==> now - events[k].at >= cooldown
  }

  lemma {:induction false} OfMember(events: seq<Event>, name: string, e: Event)
    ensures e in Of(events, name) <==> e in events && e.name == name
  {
    if events != [] {
      var init := events[..|events| - 1];
      assert events == init + [events[|events| - 1]];
      OfMember(init, name, e);
    }
  }

  lemma {:induction false} StandingIs(events: seq<Event>, name: string)
    ensures var own := Of(events, name);
            Standing(events, name) <==> own != [] && own[|own| - 1].kind == WentUnhealthy
  {
    if events != [] {
      var init, n := events[..|events| - 1], |events| - 1;
      assert events == init + [events[n]];
      StandingIs(init, name);
      if events[n].name == name {
        assert LastOf(events, name, n);
      } else {
        assert forall k :: LastOf(init, name, k) <==> LastOf(events, name, k);
      }
    }
  }

  /** The time of the last alert in a component's own events. */
  ghost function AlertTime(own: seq<Event>): Option<Time> {
    if own == [] then None
    else if own[|own| - 1].kind == WentUnhealthy then Some(own[|own| - 1].at)
    else AlertTime(own[..|own| - 1])
  }

  lemma {:induction false} CooledIs(events: seq<Event>, name: string, now: Time, cooldown: int)
    ensures var last := AlertTime(Of(events, name));
            Cooled(events, name, now, cooldown) <==> last.None? || now - last.value >= cooldown
  {
    if events != [] {
      var init, n := events[..|events| - 1], |events| - 1;
      assert events == init + [events[n]];
      CooledIs(init, name, now, cooldown);
      if events[n].name == name && events[n].kind == WentUnhealthy {
        assert LastAlert(events, name, n);
      } else {
        assert forall k :: LastAlert(init, name, k) <==> LastAlert(events, name, k);
        assert forall k :: LastAlert(init, name, k) ==> init[k] == events[k];
        var own := Of(init, name);
        if events[n].name == name { assert (own + [events[n]])[..|own|] == own; } else { assert own + [] == own; }
      }
    }
  }

  lemma StoredAlertTime(entry: Entry, own: seq<Event>, cooldown: int)
    requires ComponentOk(entry, own, cooldown)
    ensures entry.lastAlertAt == AlertTime(own)
  {
    var n := |own|;
    if n > 0 && own[n - 1].kind != WentUnhealthy {
      assert n >= 2 && own[n - 2].kind == WentUnhealthy;
      assert own[..n - 1][n - 2] == own[n - 2];
    }
  }

  /** Over every run: a component that a check reads unhealthy is alerted exactly
      when its last event is not an alert and its last alert, if there is one,
      is at least the cooldown ago; one read healthy has recovered exactly when
      its last event is an alert; and nothing else is said of it. */
  lemma EventsExactlyWhen(checks: seq<Inspection>, c: Inspection, cooldown: int, i: nat)
    requires forall k :: 0 <= k < |checks| ==> DistinctNames(checks[k].components)
    requires DistinctNames(c.components) && i < |c.components|
    ensures var name, health := c.components[i].name, c.components[i].health;
            var before, after := Run(checks, cooldown).events, Run(checks + [c], cooldown).events;
            && |before| <= |after| && after[..|before|] == before
            && (Event(name, WentUnhealthy, c.now) in after[|before|..] <==>
                  health == Some(Unhealthy) && !Standing(before, name) && Cooled(before, name, c.now, cooldown))
            && (Event(name, Recovered, c.now) in after[|before|..] <==>
                  health == Some(Healthy) && Standing(before, name))
            && (forall e :: e in after[|before|..] && e.name == name ==> e.at == c.now)
  {
    var name, health := c.components[i].name, c.components[i].health;
    assert (checks + [c])[..|checks|] == checks;
    var before := Run(checks, cooldown);
    var raised := Check(before.state, c.components, c.now, cooldown).events;
    var after := Run(checks + [c], cooldown).events;
    assert after == before.events + raised && after[|before.events|..] == raised;
    ReadingIs(c.components, i);
    EveryRunOk(checks, cooldown, name);
    NewEvents(before.state, before.events, c, cooldown, name);
    StandingIs(before.events, name);
    CooledIs(before.events, name, c.now, cooldown);
  }

  lemma NewEvents(state: State, before: seq<Event>, c: Inspection, cooldown: int, name: string)
    requires DistinctNames(c.components) && ComponentOk(PreviousOf(state, name), Of(before, name), cooldown)
    ensures var raised := Check(state, c.components, c.now, cooldown).events;
            var own, health := Of(before, name), Reading(c.components, name);
            var standing := own != [] && own[|own| - 1].kind == WentUnhealthy;
            var cooled := AlertTime(own).None? || c.now - AlertTime(own).value >= cooldown;
            && (Event(name, WentUnhealthy, c.now) in raised <==> health == Some(Unhealthy) && !standing && cooled)
            && (Event(name, Recovered, c.now) in raised <==> health == Some(Healthy) && standing)
            && (forall e :: e in raised && e.name == name ==> e.at == c.now)
  {
    CheckByComponent(state, c.components, c.now, cooldown, name);
    var raised := Check(state, c.components, c.now, cooldown).events;
    forall e ensures e in Of(raised, name) <==> e in raised && e.name == name { OfMember(raised, name, e); }
    RaisedIs(PreviousOf(state, name), Of(before, name), Reading(c.components, name), name, c.now, cooldown);
  }

  lemma RaisedIs(entry: Entry, own: seq<Event>, health: Option<Health>, name: string, now: Time, cooldown: int)
    requires ComponentOk(entry, own, cooldown)
    ensures var standing := own != [] && own[|own| - 1].kind == WentUnhealthy;
            var cooled := AlertTime(own).None? || now - AlertTime(own).value >= cooldown;
            RaisedEvents(entry, health, name, now, cooldown)
            == if health == Some(Unhealthy) && !standing && cooled then [Event(name, WentUnhealthy, now)]
               else if health == Some(Healthy) && standing then [Event(name, Recovered, now)]
               else []
  {
    StoredAlertTime(entry, own, cooldown);
  }

  lemma {:induction false} ReadingIs(components: seq<Component>, i: nat)
    requires DistinctNames(components) && i < |components|
    ensures Reading(components, components[i].name) == components[i].health
  {
    var n := |components| - 1;
    if i < n {
      ReadingIs(components[..n], i);
    } else {
      NoReading(components[..n], components[n].name);
    }
  }

  // ----------------------------------------------------------- threshold alerts

  /** The alert state of the block and HTTP error monitors. */
  datatype Threshold = Threshold(active: bool, lastAlertAt: Option<Time>)

  datatype Signal = High(at: Time) | Cleared(at: Time)

  predicate SignalDue(t: Threshold, now: Time, cooldown: int) {
    t.lastAlertAt.None? || now - t.lastAlertAt.value >= cooldown
  }

  function SignalFor(t: Threshold, breached: bool, now: Time, cooldown: int): Option<Signal> {
    if breached && (!t.active || SignalDue(t, now, cooldown)) then Some(High(now))
    else if !breached && t.active then Some(Cleared(now)) else None
  }

  function NextThreshold(t: Threshold, breached: bool, now: Time, cooldown: int): Threshold {
    var signal := SignalFor(t, breached, now, cooldown);
    Threshold(breached, if signal.Some? && signal.value.High? then Some(now) else t.lastAlertAt)
  }

  datatype Measured = Measured(breached: bool, now: Time)

  function ThresholdRun(checks: seq<Measured>, cooldown: int): (Threshold, seq<Signal>) {
    if checks == [] then (Threshold(false, None), []) else
      var (t, signals) := ThresholdRun(checks[..|checks| - 1], cooldown);
      var c := checks[|checks| - 1];
      var signal := SignalFor(t, c.breached, c.now, cooldown);
      (NextThreshold(t, c.breached, c.now, cooldown), signals + if signal.Some? then [signal.value] else [])
  }

  ghost predicate SignalsOk(t: Threshold, signals: seq<Signal>, cooldown: int) {
    && (t.active <==> signals != [] && signals[|signals| - 1].High?)
    && (t.active ==> t.lastAlertAt == Some(signals[|signals| - 1].at))
    && (signals != [] ==> signals[0].High?)
    && (forall i, j :: 0 <= i && j == i + 1 && j < |signals| ==>
          && (signals[j].Cleared? ==> signals[i].High?)
          && (signals[i].High? && signals[j].High? ==> signals[j].at - signals[i].at >= cooldown))
  }

  /** Over any run an all-clear always answers an alert, alerts that are not
      separated by an all-clear keep the cooldown, and the flag is up exactly
      while the last signal is an alert. */
  lemma {:induction false} ThresholdAlertsOk(checks: seq<Measured>, cooldown: int)
    ensures SignalsOk(ThresholdRun(checks, cooldown).0, ThresholdRun(checks, cooldown).1, cooldown)
  {
    if checks != [] {
      ThresholdAlertsOk(checks[..|checks| - 1], cooldown);
      var (t, signals) := ThresholdRun(checks[..|checks| - 1], cooldown);
      var c := checks[|checks| - 1];
      var signal := SignalFor(t, c.breached, c.now, cooldown);
      var next := ThresholdRun(checks, cooldown).1;
      assert forall i :: 0 <= i < |signals| ==> next[i] == signals[i];
    }
  }

  /** Over every run: a check above the threshold sends an alert exactly when the
      last signal is not one, or is one that is at least the cooldown ago; a
      check below it sends an all-clear exactly when the last signal is an
      alert. */
  lemma SignalsExactlyWhen(checks: seq<Measured>, c: Measured, cooldown: int)
    ensures var sent := ThresholdRun(checks, cooldown).1;
            var alerted := sent != [] && sent[|sent| - 1].High?;
            ThresholdRun(checks + [c], cooldown).1
            == if c.breached && (!alerted || c.now - sent[|sent| - 1].at >= cooldown) then sent + [High(c.now)]
               else if !c.breached && alerted then sent + [Cleared(c.now)]
               else sent
  {
    assert (checks + [c])[..|checks|] == checks;
    ThresholdAlertsOk(checks, cooldown);
  }
}
