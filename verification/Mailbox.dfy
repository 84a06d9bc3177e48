/** The single-slot mailbox between the dashboard and the host runner. A
    publisher writes its request to a file of its own, links that file to the
    well-known name (which fails if the name exists) and removes its own name;
    a runner that holds the lock reads the well-known name, handles the request
    and unlinks the name. Any number of publishers and runners interleave. */
module Mailbox {
  import opened Counters

  type RequestId = nat
  type RunnerId = nat

  const MAX_REQUEST_BYTES: nat := 4096

  /** The content behind a file name: still being written, or a whole request. */
  datatype Content = Partial | Whole(size: nat)

  datatype PublisherPhase = Writing | Ready | Accepted | Refused | Cleaned(accepted: bool)

  datatype RunnerPhase =
    | Idle
    | Holding                    // owns the lock
    | Noticed                    // saw that the request file exists
    | Read(id: RequestId)        // parsed it
    | Unreadable(id: RequestId)  // failed to
    | Handling(id: RequestId)
    | Finished                   // has unlinked the name

  datatype State = State(
    files: map<RequestId, Content>,
    publishers: map<RequestId, PublisherPhase>,
    slot: Option<RequestId>,
    owner: Option<RunnerId>,
    runners: map<RunnerId, RunnerPhase>,
    handled: seq<RequestId>,
    dropped: seq<RequestId>,
    faults: set<RequestId>)

  const START := State(map[], map[], None, None, map[], [], [], {})

  datatype Action =
    | Create(r: RequestId)
    | WriteOut(r: RequestId, size: nat)
    | WriteFails(r: RequestId)
    | Link(r: RequestId)
    | LinkFails(r: RequestId)
    | CleanUp(r: RequestId)
    | Lock(q: RunnerId)
    | Look(q: RunnerId)
    | ReadRequest(q: RunnerId, fault: bool)
    | Discard(q: RunnerId)
    | Postpone(q: RunnerId)
    | Begin(q: RunnerId)
    | End(q: RunnerId)
    | Release(q: RunnerId)

  function PhaseOf(s: State, q: RunnerId): RunnerPhase {
    if q in s.runners then s.runners[q] else Idle
  }

  predicate PublisherIs(s: State, r: RequestId, phase: PublisherPhase) {
    r in s.publishers && s.publishers[r] == phase
  }

  predicate Enabled(s: State, a: Action) {
    match a
    case Create(r) => r !in s.publishers && r !in s.files
    case WriteOut(r, _) => PublisherIs(s, r, Writing)
    case WriteFails(r) => PublisherIs(s, r, Writing)
    case Link(r) => PublisherIs(s, r, Ready)
    case LinkFails(r) => PublisherIs(s, r, Ready)
    case CleanUp(r) => PublisherIs(s, r, Accepted) || PublisherIs(s, r, Refused)
    case Lock(q) => PhaseOf(s, q).Idle? && s.owner.None?
    case Look(q) => PhaseOf(s, q).Holding?
    case ReadRequest(q, _) => PhaseOf(s, q).Noticed?
    case Discard(q) => PhaseOf(s, q).Unreadable?
    case Postpone(q) => PhaseOf(s, q).Read?
    case Begin(q) => PhaseOf(s, q).Read?
    case End(q) => PhaseOf(s, q).Handling?
    case Release(q) => PhaseOf(s, q).Holding? || PhaseOf(s, q).Finished?
  }

  function SetRunner(s: State, q: RunnerId, phase: RunnerPhase): State {
    s.(runners := s.runners[q := phase])
  }

  function SetPublisher(s: State, r: RequestId, phase: PublisherPhase): State {
    s.(publishers := s.publishers[r := phase])
  }

  /** A read succeeds on a whole request of at most 4096 bytes. */
  predicate Parses(s: State, r: RequestId, fault: bool) {
    !fault && r in s.files && s.files[r].Whole? && s.files[r].size <= MAX_REQUEST_BYTES
  }

  function Apply(s: State, a: Action): State
    requires Enabled(s, a)
  {
    match a
    case Create(r) => SetPublisher(s.(files := s.files[r := Partial]), r, Writing)
    case WriteOut(r, size) => SetPublisher(s.(files := s.files[r := Whole(size)]), r, Ready)
    case WriteFails(r) => SetPublisher(s, r, Refused)
    case Link(r) =>
      if s.slot.Some? then SetPublisher(s, r, Refused)
      else SetPublisher(s.(slot := Some(r)), r, Accepted)
    case LinkFails(r) => SetPublisher(s, r, Refused)
    case CleanUp(r) => SetPublisher(s, r, Cleaned(PublisherIs(s, r, Accepted)))
    case Lock(q) => SetRunner(s.(owner := Some(q)), q, Holding)
    case Look(q) => SetRunner(s, q, if s.slot.Some? then Noticed else Finished)
    case ReadRequest(q, fault) =>
      if s.slot.None? then SetRunner(s, q, Finished)
      else if Parses(s, s.slot.value, fault) then SetRunner(s, q, Read(s.slot.value))
      else
        SetRunner(s.(faults := if fault then s.faults + {s.slot.value} else s.faults), q, Unreadable(s.slot.value))
    case Discard(q) =>
      SetRunner(s.(dropped := if s.slot.Some? then s.dropped + [s.slot.value] else s.dropped, slot := None),
                q, Finished)
    case Postpone(q) => SetRunner(s, q, Finished)
    case Begin(q) => SetRunner(s.(handled := s.handled + [PhaseOf(s, q).id]), q, Handling(PhaseOf(s, q).id))
    case End(q) => SetRunner(s.(slot := None), q, Finished)
    case Release(q) => SetRunner(s.(owner := None), q, Idle)
  }

  // --------------------------------------------------------------- the invariant

  ghost predicate WasAccepted(s: State, r: RequestId) {
    PublisherIs(s, r, Accepted) || PublisherIs(s, r, Cleaned(true))
  }

  ghost predicate Distinct(ids: seq<RequestId>) {
    forall i, j :: 0 <= i < j < |ids| ==> ids[i] != ids[j]
  }

  /** Some runner has started on the request that is still in the slot. */
  ghost predicate InHand(s: State) {
    s.owner.Some? && PhaseOf(s, s.owner.value).Handling?
  }

  ghost predicate TooLarge(s: State, r: RequestId) {
    r in s.files && s.files[r].Whole? && s.files[r].size > MAX_REQUEST_BYTES
  }

  ghost predicate LockOk(s: State) {
    forall q: RunnerId :: !PhaseOf(s, q).Idle? ==> s.owner == Some(q)
  }

  /** Whoever has read a request still finds that very request in the slot. */
  ghost predicate SlotStable(s: State) {
    s.owner.Some? ==>
      match PhaseOf(s, s.owner.value)
      case Noticed => s.slot.Some?
      case Read(id) => s.slot == Some(id)
      case Unreadable(id) => s.slot == Some(id) && (id in s.faults || TooLarge(s, id))
      case Handling(id) => s.slot == Some(id) && |s.handled| > 0 && s.handled[|s.handled| - 1] == id
      case _ => true
  }

  ghost predicate FilesOk(s: State) {
    && s.publishers.Keys == s.files.Keys
    && (forall r :: r in s.publishers && (s.publishers[r] == Ready || WasAccepted(s, r)) ==> s.files[r].Whole?)
  }

  /** Every accepted request is in exactly one place: waiting or in hand in the
      slot, handled, or dropped unread. */
  ghost predicate Ledger(s: State) {
    && Distinct(s.handled) && Distinct(s.dropped)
    && (forall r :: r in s.handled ==> r !in s.dropped)
    && (forall r :: r in s.dropped ==> s.slot != Some(r))
    && (forall r :: r in s.handled && s.slot == Some(r) ==> InHand(s))
    && (s.slot.Some? && InHand(s) ==> s.slot.value in s.handled)
    && (forall r :: WasAccepted(s, r) <==> r in s.handled || r in s.dropped || s.slot == Some(r))
  }

  ghost predicate DropsExplained(s: State) {
    forall r :: r in s.dropped ==> r in s.faults || TooLarge(s, r)
  }

  ghost predicate Inv(s: State) {
    LockOk(s) && FilesOk(s) && SlotStable(s) && Ledger(s) && DropsExplained(s)
  }

  /** A runner is about to drop the request it could not read. */
  ghost predicate Discarding(s: State, r: RequestId) {
    s.owner.Some? && PhaseOf(s, s.owner.value) == Unreadable(r)
  }

  /** What is handled could be read, and a request that could not be read is
      dropped or about to be. */
  ghost predicate Judged(s: State) {
    && (forall r :: r in s.handled ==> r !in s.faults && !TooLarge(s, r))
    && (forall r :: r in s.faults ==> r in s.dropped || Discarding(s, r))
    && (s.owner.Some? && PhaseOf(s, s.owner.value).Read? ==>
          var id := PhaseOf(s, s.owner.value).id;
          id !in s.faults && !TooLarge(s, id))
  }

  lemma InvHoldsAtStart()
    ensures Inv(START) && Judged(START)
  {
  }

  /** A publisher step that leaves the slot alone. */
  lemma PublisherStepKeepsInv(s: State, a: Action)
    requires Inv(s) && Enabled(s, a)
    requires a.Create? || a.WriteOut? || a.WriteFails? || a.LinkFails? || a.CleanUp?
    ensures Inv(Apply(s, a))
  {
    var t := Apply(s, a);
    assert t == s.(files := t.files, publishers := t.publishers);
    forall r: RequestId ensures WasAccepted(t, r) <==> WasAccepted(s, r) {}
    forall q: RunnerId ensures PhaseOf(t, q) == PhaseOf(s, q) {}
    FilesStayOk(s, a);
    SameFiles(s, a);
    RecordsStayExplained(s, a);
    assert Ledger(t);
  }

  lemma FilesStayOk(s: State, a: Action)
    requires FilesOk(s) && Enabled(s, a)
    requires a.Create? || a.WriteOut? || a.WriteFails? || a.LinkFails? || a.CleanUp?
    ensures FilesOk(Apply(s, a))
  {
  }

  /** No accepted file changes, so what was read or dropped stays explained. */
  lemma RecordsStayExplained(s: State, a: Action)
    requires Inv(s) && Enabled(s, a)
    requires a.Create? || a.WriteOut? || a.WriteFails? || a.LinkFails? || a.CleanUp?
    ensures SlotStable(Apply(s, a)) && DropsExplained(Apply(s, a))
  {
    SameFiles(s, a);
    var t := Apply(s, a);
    forall r | WasAccepted(s, r) && TooLarge(s, r) ensures TooLarge(t, r) {}
    assert s.slot.Some? ==> WasAccepted(s, s.slot.value);
    assert t == s.(files := t.files, publishers := t.publishers);
  }

  lemma SameFiles(s: State, a: Action)
    requires FilesOk(s) && Enabled(s, a)
    requires a.Create? || a.WriteOut? || a.WriteFails? || a.LinkFails? || a.CleanUp?
    ensures forall r :: WasAccepted(s, r) ==>
              r in s.files && r in Apply(s, a).files && Apply(s, a).files[r] == s.files[r]
  {
  }

  lemma LinkKeepsInv(s: State, r: RequestId)
    requires Inv(s) && Enabled(s, Link(r))
    ensures Inv(Apply(s, Link(r)))
  {
    var t := Apply(s, Link(r));
    assert forall q :: PhaseOf(t, q) == PhaseOf(s, q);
    assert InHand(t) == InHand(s);
    assert forall x :: WasAccepted(t, x) <==> WasAccepted(s, x) || (x == r && s.slot.None?);
  }

  /** A runner step that leaves slot and ledger alone. */
  lemma RunnerStepKeepsInv(s: State, a: Action)
    requires Inv(s) && Enabled(s, a)
    requires a.Lock? || a.Look? || a.ReadRequest? || a.Postpone? || a.Release?
    ensures Inv(Apply(s, a))
  {
    var t := Apply(s, a);
    assert t == s.(owner := t.owner, runners := t.runners, faults := t.faults) && s.faults <= t.faults;
    assert forall p :: p != a.q ==> PhaseOf(t, p) == PhaseOf(s, p);
    assert LockOk(t);
    assert !InHand(s) && !InHand(t) by {
      assert s.owner.Some? ==> s.owner == Some(a.q);
      assert t.owner.Some? ==> t.owner == Some(a.q);
    }
    assert forall r :: WasAccepted(t, r) <==> WasAccepted(s, r);
    assert Ledger(t);
  }

  lemma BeginKeepsInv(s: State, q: RunnerId)
    requires Inv(s) && Enabled(s, Begin(q))
    ensures Inv(Apply(s, Begin(q)))
  {
    var t := Apply(s, Begin(q));
    assert forall p :: p != q ==> PhaseOf(t, p) == PhaseOf(s, p);
    assert forall r :: WasAccepted(t, r) <==> WasAccepted(s, r);
    var id := PhaseOf(s, q).id;
    assert id !in s.handled && id !in s.dropped;
  }

  lemma EndKeepsInv(s: State, q: RunnerId)
    requires Inv(s) && Enabled(s, End(q))
    ensures Inv(Apply(s, End(q)))
  {
    var t := Apply(s, End(q));
    assert forall p :: p != q ==> PhaseOf(t, p) == PhaseOf(s, p);
    assert forall r :: WasAccepted(t, r) <==> WasAccepted(s, r);
  }

  lemma DiscardKeepsInv(s: State, q: RunnerId)
    requires Inv(s) && Enabled(s, Discard(q))
    ensures Inv(Apply(s, Discard(q)))
  {
    var t := Apply(s, Discard(q));
    assert forall p :: p != q ==> PhaseOf(t, p) == PhaseOf(s, p);
    assert forall r :: WasAccepted(t, r) <==> WasAccepted(s, r);
  }

  lemma StepKeepsInv(s: State, a: Action)
    requires Inv(s) && Enabled(s, a)
    ensures Inv(Apply(s, a))
  {
    match a
    case Link(r) => LinkKeepsInv(s, r);
    case Begin(q) => BeginKeepsInv(s, q);
    case End(q) => EndKeepsInv(s, q);
    case Discard(q) => DiscardKeepsInv(s, q);
    case _ =>
      if a.Lock? || a.Look? || a.ReadRequest? || a.Postpone? || a.Release? {
        RunnerStepKeepsInv(s, a);
      } else {
        PublisherStepKeepsInv(s, a);
      }
  }

  lemma PublisherStepKeepsJudged(s: State, a: Action)
    requires Inv(s) && Judged(s) && Enabled(s, a)
    requires a.Create? || a.WriteOut? || a.WriteFails? || a.LinkFails? || a.CleanUp?
    ensures Judged(Apply(s, a))
  {
    SameFiles(s, a);
    var t := Apply(s, a);
    assert t == s.(files := t.files, publishers := t.publishers);
    forall r | WasAccepted(s, r) ensures TooLarge(t, r) == TooLarge(s, r) {}
  }

  lemma RunnerStepKeepsJudged(s: State, a: Action)
    requires Inv(s) && Judged(s) && Enabled(s, a)
    requires a.Lock? || a.Look? || a.Postpone? || a.Release? || a.End?
    ensures Judged(Apply(s, a))
  {
    var t := Apply(s, a);
    assert t.files == s.files && t.faults == s.faults && t.handled == s.handled && t.dropped == s.dropped;
    assert forall p :: p != a.q ==> PhaseOf(t, p) == PhaseOf(s, p);
  }

  lemma ReadKeepsJudged(s: State, q: RunnerId, fault: bool)
    requires Inv(s) && Judged(s) && Enabled(s, ReadRequest(q, fault))
    ensures Judged(Apply(s, ReadRequest(q, fault)))
  {
    var t := Apply(s, ReadRequest(q, fault));
    assert s.owner == Some(q) && t.owner == Some(q);
    assert forall r :: r in s.faults ==> r in s.dropped;
    assert s.slot.Some? ==> s.slot.value !in s.faults && s.slot.value !in s.handled;
    assert forall r :: TooLarge(t, r) == TooLarge(s, r);
  }

  lemma StepKeepsJudged(s: State, a: Action)
    requires Inv(s) && Judged(s) && Enabled(s, a)
    ensures Judged(Apply(s, a))
  {
    match a
    case Link(r) => assert Apply(s, a).files == s.files;
    case ReadRequest(q, fault) => ReadKeepsJudged(s, q, fault);
    case Begin(q) => assert Apply(s, a).files == s.files;
    case Discard(q) => assert Apply(s, a).files == s.files;
    case _ =>
      if a.Lock? || a.Look? || a.Postpone? || a.Release? || a.End? {
        RunnerStepKeepsJudged(s, a);
      } else {
        PublisherStepKeepsJudged(s, a);
      }
  }

  // ------------------------------------------------------------------- every run

  ghost predicate Possible(actions: seq<Action>)
    decreases |actions|, 0
  {
    actions != [] ==>
      Possible(actions[..|actions| - 1]) && Enabled(After(actions[..|actions| - 1]), actions[|actions| - 1])
  }

  ghost function After(actions: seq<Action>): State
    requires Possible(actions)
    decreases |actions|, 1
  {
    if actions == [] then START else Apply(After(actions[..|actions| - 1]), actions[|actions| - 1])
  }

  lemma {:induction false} InvAlways(actions: seq<Action>)
    requires Possible(actions)
    ensures Inv(After(actions)) && Judged(After(actions))
  {
    if actions == [] {
      InvHoldsAtStart();
    } else {
      InvAlways(actions[..|actions| - 1]);
      StepKeepsInv(After(actions[..|actions| - 1]), actions[|actions| - 1]);
      StepKeepsJudged(After(actions[..|actions| - 1]), actions[|actions| - 1]);
    }
  }

  /** In every interleaving, every request accepted so far is accounted for
      once: it is in the slot, or it was handled exactly once, or it was
      dropped; and once it has left the slot it was dropped if and only if a
      read of it failed or it was too large for the reader. */
  lemma AcceptedRequestsAreHandledOnce(actions: seq<Action>, r: RequestId)
    requires Possible(actions)
    ensures var s := After(actions);
            && Distinct(s.handled) && Distinct(s.dropped)
            && (WasAccepted(s, r) <==> r in s.handled || r in s.dropped || s.slot == Some(r))
            && !(r in s.handled && r in s.dropped)
            && (r in s.handled && s.slot == Some(r) ==> InHand(s))
            && (WasAccepted(s, r) && s.slot != Some(r) ==>
                  && (r in s.dropped <==> r in s.faults || TooLarge(s, r))
                  && (r in s.handled <==> !(r in s.faults || TooLarge(s, r))))
  {
    InvAlways(actions);
  }

  lemma OneMore(actions: seq<Action>, a: Action)
    requires Possible(actions) && Enabled(After(actions), a)
    ensures Possible(actions + [a]) && After(actions + [a]) == Apply(After(actions), a)
  {
    assert (actions + [a])[..|actions|] == actions;
  }

  /** From any run that leaves the lock free and a request in the slot, a runner
      can go on and empty the slot: it handles a request of up to 4096 bytes
      and drops a larger one. */
  lemma SlotCanBeServed(actions: seq<Action>, q: RunnerId) returns (longer: seq<Action>)
    requires Possible(actions) && After(actions).owner.None? && After(actions).slot.Some?
    ensures Possible(longer) && actions <= longer
    ensures var s, t, r := After(actions), After(longer), After(actions).slot.value;
            && t.slot.None? && t.owner.None? && t.files == s.files && t.publishers == s.publishers
            && r in s.files && s.files[r].Whole?
            && t.handled == (if s.files[r].size <= 4096 then s.handled + [r] else s.handled)
            && t.dropped == (if s.files[r].size <= 4096 then s.dropped else s.dropped + [r])
  {
    InvAlways(actions);
    var s, r := After(actions), After(actions).slot.value;
    assert PhaseOf(s, q).Idle? && WasAccepted(s, r) && s.files[r].Whole?;
    var read := SlotRead(actions, q, s, r);
    if s.files[r].size <= 4096 {
      longer := ReadIsHandled(read, q, s, r);
    } else {
      longer := UnreadIsDropped(read, q, s, r);
    }
  }

  lemma SlotRead(actions: seq<Action>, q: RunnerId, s: State, r: RequestId) returns (read: seq<Action>)
    requires Possible(actions) && s == After(actions) && s.slot == Some(r) && s.owner.None?
    requires PhaseOf(s, q).Idle? && r in s.files && s.files[r].Whole?
    ensures Possible(read) && actions <= read
    ensures After(read) == s.(owner := Some(q), runners := s.runners[q :=
                              if s.files[r].size <= 4096 then Read(r) else Unreadable(r)])
  {
    read := Continue(actions, Lock(q));
    read := Continue(read, Look(q));
    read := Continue(read, ReadRequest(q, false));
  }

  lemma ReadIsHandled(read: seq<Action>, q: RunnerId, s: State, r: RequestId) returns (longer: seq<Action>)
    requires Possible(read) && s.owner.None?
    requires After(read) == s.(owner := Some(q), runners := s.runners[q := Read(r)])
    ensures Possible(longer) && read <= longer
    ensures After(longer) == s.(slot := None, runners := s.runners[q := Idle], handled := s.handled + [r])
  {
    longer := Continue(read, Begin(q));
    longer := Continue(longer, End(q));
    longer := Continue(longer, Release(q));
  }

  lemma UnreadIsDropped(read: seq<Action>, q: RunnerId, s: State, r: RequestId) returns (longer: seq<Action>)
    requires Possible(read) && s.owner.None? && s.slot == Some(r)
    requires After(read) == s.(owner := Some(q), runners := s.runners[q := Unreadable(r)])
    ensures Possible(longer) && read <= longer
    ensures After(longer) == s.(slot := None, runners := s.runners[q := Idle], dropped := s.dropped + [r])
  {
    longer := Continue(read, Discard(q));
    longer := Continue(longer, Release(q));
  }

  /** From any run, a new request is accepted if it is linked while the slot is
      empty, and refused otherwise. */
  lemma PublisherIsAnswered(actions: seq<Action>, r: RequestId, size: nat) returns (longer: seq<Action>)
    requires Possible(actions) && r !in After(actions).publishers
    ensures Possible(longer) && actions <= longer
    ensures var s, t := After(actions), After(longer);
            && t.handled == s.handled && t.dropped == s.dropped && r in t.files && t.files[r] == Whole(size)
            && (if s.slot.None? then WasAccepted(t, r) && t.slot == Some(r) else !WasAccepted(t, r) && t.slot == s.slot)
  {
    InvAlways(actions);
    longer := Linked(actions, r, size, After(actions));
    longer := Continue(longer, CleanUp(r));
  }

  lemma Linked(actions: seq<Action>, r: RequestId, size: nat, s: State) returns (longer: seq<Action>)
    requires Possible(actions) && s == After(actions) && r !in s.publishers && r !in s.files
    ensures Possible(longer) && actions <= longer
    ensures After(longer) == s.(
              files := s.files[r := Whole(size)], slot := if s.slot.None? then Some(r) else s.slot,
              publishers := s.publishers[r := if s.slot.None? then Accepted else Refused])
  {
    longer := Continue(actions, Create(r));
    longer := Continue(longer, WriteOut(r, size));
    longer := Continue(longer, Link(r));
  }

  lemma Continue(actions: seq<Action>, a: Action) returns (longer: seq<Action>)
    requires Possible(actions) && Enabled(After(actions), a)
    ensures longer == actions + [a] && Possible(longer) && After(longer) == Apply(After(actions), a)
  {
    longer := actions + [a];
    OneMore(actions, a);
  }

  const PUBLISHED := State(map[], map[0 := Accepted], Some(0), None, map[], [], [], {})

  /** Request 0 of `size` bytes has been published. */
  lemma Published(size: nat) returns (actions: seq<Action>)
    ensures Possible(actions) && After(actions) == PUBLISHED.(files := map[0 := Whole(size)])
  {
    actions := Continue([], Create(0));
    actions := Continue(actions, WriteOut(0, size));
    actions := Continue(actions, Link(0));
  }

  /** One failed read, or one byte too many, loses an accepted request. */
  lemma AcceptedRequestCanBeLost(size: nat, fault: bool) returns (actions: seq<Action>)
    requires fault || size > MAX_REQUEST_BYTES
    ensures Possible(actions)
    ensures var s := After(actions);
            WasAccepted(s, 0) && s.dropped == [0] && s.handled == [] && s.slot.None?
  {
    actions := Published(size);
    actions := Continue(actions, Lock(0));
    actions := Continue(actions, Look(0));
    actions := Continue(actions, ReadRequest(0, fault));
    actions := Continue(actions, Discard(0));
  }

  /** Without read faults and oversized requests nothing is dropped unread, so
      once the slot is empty every accepted request has been handled. */
  lemma NothingDroppedUnread(actions: seq<Action>, r: RequestId)
    requires Possible(actions)
    requires After(actions).faults == {}
    requires forall f :: f in After(actions).files && After(actions).files[f].Whole? ==>
               After(actions).files[f].size <= MAX_REQUEST_BYTES
    ensures r !in After(actions).dropped
    ensures WasAccepted(After(actions), r) && After(actions).slot.None? ==> r in After(actions).handled
  {
    InvAlways(actions);
  }

  /** A runner reads whole requests only, and the name it unlinks is the one it
      has read: in no interleaving does another request get in between. */
  lemma RunnerDeletesWhatItRead(actions: seq<Action>, q: RunnerId)
    requires Possible(actions)
    ensures var s := After(actions);
            match PhaseOf(s, q)
            case Read(id) => s.slot == Some(id) && id in s.files && s.files[id].Whole?
            case Handling(id) => s.slot == Some(id) && id in s.files && s.files[id].Whole?
            case Unreadable(id) => s.slot == Some(id) && id in s.files && s.files[id].Whole?
            case _ => true
  {
    InvAlways(actions);
  }
}
