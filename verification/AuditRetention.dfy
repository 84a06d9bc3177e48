/** The retention run: old audit logs are written to an archive and then
    deleted, 500 at a time. The ghost trail records every state of table and
    archive directory, so that a statement about it holds at every crash point. */
module AuditRetention {
  import opened Counters
  import opened AuditArchive

  type ArchiveName = nat

  const BATCH_SIZE: nat := 500

  /** What survives a crash: the rows and the finished archives. */
  datatype Store = Store(rows: Rows, archives: map<ArchiveName, seq<Log>>)

  datatype Outcome = Completed(archived: nat, deleted: nat) | Raised

  // ---------------------------------------------------------------- conservation

  ghost predicate Archived(s: Store, id: string) {
    exists n :: n in s.archives && id in Ids(s.archives[n])
  }

  /** Nothing is stored that is not one of the logs. */
  ghost predicate Sound(all: Rows, s: Store) {
    && From(s.rows, all)
    && (forall n :: n in s.archives ==> AllFrom(s.archives[n], all) && ProperBatch(s.archives[n]))
  }

  /** Every log is a row or archived. */
  ghost predicate Complete(all: Rows, s: Store) {
    forall id :: id in all ==> id in s.rows || Archived(s, id)
  }

  ghost predicate Conserved(all: Rows, s: Store) { Sound(all, s) && Complete(all, s) }

  // --------------------------------------------------------------- the batch query

  predicate Expired(l: Log, cutoff: Moment) { l.createdAt < cutoff }

  /** `order_by(created_at, id)` */
  predicate Older(a: Log, b: Log) {
    a.createdAt < b.createdAt || (a.createdAt == b.createdAt && TextLeq(a.id, b.id))
  }

  lemma OlderTransitive(a: Log, b: Log, c: Log)
    requires Older(a, b) && Older(b, c)
    ensures Older(a, c)
  {
    if a.createdAt == b.createdAt && b.createdAt == c.createdAt {
      TextLeqTransitive(a.id, b.id, c.id);
    }
  }

  function ExpiredRows(rows: Rows, cutoff: Moment): Rows {
    map id | id in rows && Expired(rows[id], cutoff) :: rows[id]
  }

  ghost predicate Keyed(rows: Rows) { forall id :: id in rows ==> rows[id].id == id }

  /** The oldest row of a non-empty table. */
  method OldestRow(rows: Rows) returns (oldest: Log)
    requires rows != map[] && Keyed(rows)
    ensures oldest.id in rows && rows[oldest.id] == oldest
    ensures forall id :: id in rows ==> Older(oldest, rows[id])
  {
    var first := Pick(rows.Keys);
    oldest := rows[first];
    var todo := rows.Keys - {first};
    TextLeqTotal(first, first);
    while todo != {}
      invariant todo <= rows.Keys
      invariant oldest.id in rows && rows[oldest.id] == oldest
      invariant forall id :: id in rows && id !in todo ==> Older(oldest, rows[id])
    {
      var id := Pick(todo);
      var l := rows[id];
      TextLeqTotal(oldest.id, l.id);
      TextLeqTotal(l.id, l.id);
      if !Older(oldest, l) {
        forall other | other in rows && other !in todo ensures Older(l, rows[other]) {
          OlderTransitive(l, oldest, rows[other]);
        }
        oldest := l;
      }
      todo := todo - {id};
    }
  }

  /** The `BATCH_SIZE` oldest expired rows, oldest first, or all of them. */
  ghost predicate IsBatch(rows: Rows, cutoff: Moment, batch: seq<Log>) {
    && DistinctIds(batch) && AllFrom(batch, ExpiredRows(rows, cutoff))
    && (forall i, j :: 0 <= i < j < |batch| ==> Older(batch[i], batch[j]))
    && (forall i, id :: 0 <= i < |batch| && id in ExpiredRows(rows, cutoff) && id !in Ids(batch) ==>
          Older(batch[i], rows[id]))
    && |batch| <= BATCH_SIZE
    && (|batch| == BATCH_SIZE || Ids(batch) == ExpiredRows(rows, cutoff).Keys)
  }

  /** `left` is what the query has not returned yet. */
  ghost predicate QuerySoFar(expired: Rows, left: Rows, batch: seq<Log>) {
    && DistinctIds(batch) && AllFrom(batch, expired)
    && From(left, expired) && left.Keys == expired.Keys - Ids(batch)
    && (forall i, j :: 0 <= i < j < |batch| ==> Older(batch[i], batch[j]))
    && (forall i, id :: 0 <= i < |batch| && id in left ==> Older(batch[i], left[id]))
  }

  lemma QueryStep(expired: Rows, left: Rows, batch: seq<Log>, oldest: Log)
    requires QuerySoFar(expired, left, batch) && oldest.id in left && left[oldest.id] == oldest
    requires forall id :: id in left ==> Older(oldest, left[id])
    ensures QuerySoFar(expired, left - {oldest.id}, batch + [oldest])
  {
    var next := batch + [oldest];
    assert next[..|batch|] == batch;
    forall i | 0 <= i < |batch| ensures batch[i].id != oldest.id { InIds(batch, batch[i].id); }
  }

  method SelectBatch(rows: Rows, cutoff: Moment) returns (batch: seq<Log>)
    requires Keyed(rows)
    ensures IsBatch(rows, cutoff, batch)
    ensures batch == [] <==> ExpiredRows(rows, cutoff) == map[]
    ensures |batch| == 500 || forall id :: id in rows && rows[id].createdAt < cutoff ==> rows[id] in batch
    ensures forall i :: 0 <= i < |batch| ==> batch[i].createdAt < cutoff
    ensures forall i, j :: 0 <= i < j < |batch| ==>
              batch[i].createdAt < batch[j].createdAt
              || (batch[i].createdAt == batch[j].createdAt && TextLeq(batch[i].id, batch[j].id))
    ensures forall i, id :: 0 <= i < |batch| && id in rows && rows[id].createdAt < cutoff && rows[id] !in batch ==>
              batch[i].createdAt < rows[id].createdAt
              || (batch[i].createdAt == rows[id].createdAt && TextLeq(batch[i].id, rows[id].id))
  {
    var expired := ExpiredRows(rows, cutoff);
    var left := expired;
    batch := [];
    while left != map[] && |batch| < BATCH_SIZE
      invariant |batch| <= BATCH_SIZE
      invariant QuerySoFar(expired, left, batch)
      invariant batch == [] ==> left == expired
      decreases BATCH_SIZE - |batch|
    {
      var oldest := OldestRow(left);
      QueryStep(expired, left, batch, oldest);
      batch := batch + [oldest];
      left := left - {oldest.id};
    }
    BatchDone(rows, cutoff, left, batch);
    BatchMembers(rows, cutoff, batch);
  }

  lemma BatchMembers(rows: Rows, cutoff: Moment, batch: seq<Log>)
    requires IsBatch(rows, cutoff, batch) && Keyed(rows)
    ensures forall i :: 0 <= i < |batch| ==> batch[i].createdAt < cutoff
    ensures forall id :: id in rows && rows[id].createdAt < cutoff ==> (id in Ids(batch) <==> rows[id] in batch)
  {
    forall i | 0 <= i < |batch| ensures batch[i].createdAt < cutoff {
      assert batch[i].id in ExpiredRows(rows, cutoff);
    }
    forall id | id in rows && rows[id].createdAt < cutoff ensures id in Ids(batch) <==> rows[id] in batch {
      InIds(batch, id);
    }
  }

  lemma BatchDone(rows: Rows, cutoff: Moment, left: Rows, batch: seq<Log>)
    requires QuerySoFar(ExpiredRows(rows, cutoff), left, batch)
    requires |batch| <= BATCH_SIZE && (left == map[] || |batch| == BATCH_SIZE)
    ensures IsBatch(rows, cutoff, batch)
  {
    var expired := ExpiredRows(rows, cutoff);
    forall id | id in Ids(batch) ensures id in expired {
      InIds(batch, id);
      var i :| 0 <= i < |batch| && batch[i].id == id;
    }
    if left == map[] { assert Ids(batch) == expired.Keys; }
  }

  // --------------------------------------------------------------------- the run

  /** All batches of a run, one after the other. */
  function Joined(batches: seq<seq<Log>>): seq<Log> {
    if batches == [] then [] else Joined(batches[..|batches| - 1]) + batches[|batches| - 1]
  }

  method Chance() returns (happens: bool) { happens := *; }

  class Retention {
    var store: Store
    ghost var trail: seq<Store>

    /** The trail ends in the present. */
    ghost predicate Valid()
      reads this
    {
      trail != [] && trail[|trail| - 1] == store
    }

    constructor (store: Store)
      ensures Valid() && this.store == store && trail == [store]
    {
      this.store, this.trail := store, [store];
    }

    method Commit(s: Store)
      modifies this
      ensures Valid() && store == s && trail == old(trail) + [s]
    {
      store := s;
      trail := trail + [s];
    }

    /** `_write_archive`: the archive appears whole, or not at all; `os.replace`
        overwrites an archive that has the same name. */
    method WriteArchive(logs: seq<Log>) returns (ok: bool, ghost name: ArchiveName)
      requires Valid()
      modifies this
      ensures Valid()
      ensures !ok ==> store == old(store) && trail == old(trail)
      ensures ok ==>
        && store == old(store).(archives := old(store.archives)[name := logs])
        && trail == old(trail) + [store]
    {
      name := 0;
      var written := Chance();
      if !written {
        return false, 0;
      }
      var drawn: int := *;  // eight random hex digits
      var target: nat := if drawn < 0 then -drawn else drawn;
      Commit(store.(archives := store.archives[target := logs]));
      return true, target;
    }

    /** One turn of the loop after its query: archive, then delete. */
    method RemoveBatch(logs: seq<Log>, archiveOn: bool) returns (ok: bool, ghost writes: seq<Write>)
      requires Valid() && AllFrom(logs, store.rows) && ProperBatch(logs)
      modifies this
      ensures Valid() && old(trail) <= trail && |writes| <= 1
      ensures archiveOn ==>
        && Tracks(old(store), store, AllHarmless(writes))
        && (AllHarmless(writes) ==> TrailKeepsAll(old(store), trail, |old(trail)|))
      ensures writes != [] ==> writes[0].before == old(store) && writes[0].logs == logs
      ensures WritesIn(trail, |old(trail)|, writes)
      ensures store.rows == if ok then old(store.rows) - Ids(logs) else old(store.rows)
      ensures store.archives == if writes == [] then old(store.archives) else old(store.archives)[writes[0].name := logs]
      ensures ok ==> (writes != [] <==> archiveOn)
      ensures !archiveOn ==> writes == []
    {
      ghost var before := store;
      writes := [];
      if archiveOn {
        ghost var name;
        ok, name := WriteArchive(logs);
        if !ok {
          TracksItself(before);
          return;
        }
        writes := [Write(before, name, logs)];
        ArchiveTracks(before, store, name, logs);
        OneWrite(writes, old(trail), trail, |old(trail)|);
      }
      var committed := Chance();
      if !committed {
        return false, writes;
      }
      ghost var full, written := store, trail;
      Commit(store.(rows := store.rows - Ids(logs)));
      if archiveOn {
        DeleteTracks(full, store, logs, writes[0].name);
        TracksOn(before, full, store, AllHarmless(writes), true);
        WritesLater(written, trail, |old(trail)|, writes);
      }
      ok := true;
    }

    /** The run. `writes` lists the archives it wrote, each with the store it
        was written into. With archiving on, the run keeps every log that
        existed at the start, as a row or in a finished archive, exactly when
        each write had a new name or replaced an archive whose logs were all
        held elsewhere; drawing a new name each time is enough. Then nothing is
        missing at any point of it, also if it raises. A completed run leaves
        exactly the rows that are not expired, has put each removed log into
        exactly one of the archives it wrote, and counts every one of them. */
    method RunOnce(cutoff: Moment, archiveOn: bool)
      returns (result: Outcome, ghost batches: seq<seq<Log>>, ghost writes: seq<Write>)
      requires Valid() && Keyed(store.rows)
      modifies this
      ensures Valid() && Keyed(store.rows) && old(trail) <= trail
      ensures WritesIn(trail, |old(trail)|, writes)
      ensures archiveOn ==>
        forall all :: Conserved(all, old(store)) ==> (Conserved(all, store) <==> AllHarmless(writes))
      ensures archiveOn && AllHarmless(writes) ==> TrailKeepsAll(old(store), trail, |old(trail)|)
      ensures NewNames(old(store.archives), Names(writes)) ==> AllHarmless(writes)
      ensures result.Completed? ==>
        && AllExpiredRemoved(old(store.rows), store.rows, cutoff, batches)
        && result.deleted == |Joined(batches)|
        && result.archived == (if archiveOn then result.deleted else 0)
      ensures result.Completed? ==> KeepsSince(old(store.rows), store.rows, cutoff)
      ensures archiveOn && result.Completed? && NewNames(old(store.archives), Names(writes)) ==>
                WroteExactly(old(store.archives), store.archives, batches, Names(writes))
      ensures !archiveOn ==> store.archives == old(store.archives) && writes == []
    {
      ghost var before := store;
      NothingYet(before, cutoff, archiveOn);
      var counts;
      counts, batches, writes := RemoveAll(cutoff, archiveOn, before, |trail|);
      if counts.None? {
        return Raised, batches, writes;
      }
      NothingLeft(before.rows, store.rows, cutoff, batches);
      return Completed(counts.value.0, counts.value.1), batches, writes;
    }

    /** The loop: turn after turn until the query comes back empty. */
    method RemoveAll(cutoff: Moment, archiveOn: bool, ghost before: Store, ghost from: nat)
      returns (counts: Option<(nat, nat)>, ghost batches: seq<seq<Log>>, ghost writes: seq<Write>)
      requires from <= |trail| && Safe(before, archiveOn, from, [])
      requires Accounted(before, store, cutoff, archiveOn, [], [])
      modifies this
      ensures Safe(before, archiveOn, from, writes) && old(trail) <= trail
      ensures counts.Some? ==>
        && Accounted(before, store, cutoff, archiveOn, batches, Names(writes))
        && ExpiredRows(store.rows, cutoff) == map[]
        && counts.value.1 == |Joined(batches)|
        && counts.value.0 == (if archiveOn then counts.value.1 else 0)
    {
      var deleted := 0;
      batches, writes := [], [];
      var more := true;
      while more
        invariant Safe(before, archiveOn, from, writes) && old(trail) <= trail
        invariant Accounted(before, store, cutoff, archiveOn, batches, Names(writes))
        invariant deleted == |Joined(batches)|
        invariant !more ==> ExpiredRows(store.rows, cutoff) == map[]
        decreases more, |store.rows|
      {
        var removed;
        removed, batches, writes := Turn(cutoff, archiveOn, before, from, batches, writes);
        if removed.None? {
          return None, batches, writes;
        }
        more := removed.value > 0;
        deleted := deleted + removed.value;
      }
      counts := Some((if archiveOn then deleted else 0, deleted));
    }

    /** What has become of the logs that existed at the start. */
    ghost predicate Safe(before: Store, archiveOn: bool, from: nat, writes: seq<Write>)
      reads this
    {
      && Valid() && Keyed(store.rows) && WritesIn(trail, from, writes) && (!archiveOn ==> writes == [])
      && (!archiveOn ==> store.archives == before.archives)
      && (archiveOn ==>
            && Tracks(before, store, AllHarmless(writes))
            && (AllHarmless(writes) ==> TrailKeepsAll(before, trail, from)))
      && (NewNames(before.archives, Names(writes)) ==> AllHarmless(writes))
    }

    /** One turn of the loop: the number of logs it removed, if nothing raised. */
    method Turn(cutoff: Moment, archiveOn: bool, ghost before: Store, ghost from: nat,
                ghost batches: seq<seq<Log>>, ghost writes: seq<Write>)
      returns (removed: Option<nat>, ghost nowBatches: seq<seq<Log>>, ghost nowWrites: seq<Write>)
      requires from <= |trail| && Safe(before, archiveOn, from, writes)
      requires Accounted(before, store, cutoff, archiveOn, batches, Names(writes))
      modifies this
      ensures Safe(before, archiveOn, from, nowWrites) && old(trail) <= trail
      ensures removed.Some? ==> Accounted(before, store, cutoff, archiveOn, nowBatches, Names(nowWrites))
      ensures removed.Some? ==> |Joined(nowBatches)| == |Joined(batches)| + removed.value
      ensures removed == Some(0) ==> ExpiredRows(store.rows, cutoff) == map[]
      ensures removed.Some? && removed.value > 0 ==> |store.rows| < |old(store.rows)|
    {
      var logs := SelectBatch(store.rows, cutoff);
      if logs == [] {
        return Some(0), batches, writes;
      }
      ghost var midway := store;
      assert AllFrom(logs, store.rows) && ProperBatch(logs);
      var ok, more := RemoveBatch(logs, archiveOn);
      nowBatches, nowWrites := batches + [logs], writes + more;
      WritesJoined(old(trail), trail, from, writes, more);
      NamesJoined(writes, more);
      NewNameIsHarmless(before, midway, cutoff, archiveOn, batches, writes, more);
      if archiveOn {
        TrailExtended(before, midway, store, old(trail), trail, from, AllHarmless(writes), AllHarmless(more));
      }
      if !ok {
        return None, nowBatches, nowWrites;
      }
      BatchAccounted(before, midway, store, cutoff, archiveOn, batches, Names(writes), logs, Names(more));
      return Some(|logs|), nowBatches, nowWrites;
    }
  }

  // --------------------------------------------------------- the archives a run wrote

  /** An archive written into the store `before`. */
  datatype Write = Write(before: Store, name: ArchiveName, logs: seq<Log>)

  function Names(writes: seq<Write>): seq<ArchiveName> {
    seq(|writes|, i requires 0 <= i < |writes| => writes[i].name)
  }

  ghost predicate HarmlessWrite(w: Write) { Harmless(w.before, w.name) }

  ghost predicate AllHarmless(writes: seq<Write>) {
    forall i :: 0 <= i < |writes| ==> HarmlessWrite(writes[i])
  }

  /** The trail shows the write: the store before it and the store after it. */
  ghost predicate WriteAt(trail: seq<Store>, j: nat, w: Write) {
    && 0 < j < |trail| && trail[j - 1] == w.before
    && trail[j] == w.before.(archives := w.before.archives[w.name := w.logs])
  }

  ghost predicate WritesIn(trail: seq<Store>, from: nat, writes: seq<Write>) {
    forall i :: 0 <= i < |writes| ==> Happened(trail, from, writes[i])
  }

  ghost predicate Happened(trail: seq<Store>, from: nat, w: Write) {
    exists j: nat :: from <= j && WriteAt(trail, j, w)
  }

  lemma OneWrite(writes: seq<Write>, old_: seq<Store>, trail: seq<Store>, from: nat)
    requires |writes| == 1 && from == |old_| > 0 && old_[|old_| - 1] == writes[0].before
    requires var w := writes[0]; trail == old_ + [w.before.(archives := w.before.archives[w.name := w.logs])]
    ensures WritesIn(trail, from, writes)
    ensures AllHarmless(writes) <==> Harmless(writes[0].before, writes[0].name)
  {
    assert WriteAt(trail, from, writes[0]);
    if HarmlessWrite(writes[0]) { assert AllHarmless(writes); }
    if AllHarmless(writes) { assert HarmlessWrite(writes[0]); }
  }

  lemma WritesLater(old_: seq<Store>, trail: seq<Store>, from: nat, writes: seq<Write>)
    requires old_ <= trail && WritesIn(old_, from, writes)
    ensures WritesIn(trail, from, writes)
  {
    forall i | 0 <= i < |writes| ensures Happened(trail, from, writes[i]) {
      assert Happened(old_, from, writes[i]);
      var j: nat :| from <= j && WriteAt(old_, j, writes[i]);
      assert WriteAt(trail, j, writes[i]);
    }
  }

  lemma WritesJoined(old_: seq<Store>, trail: seq<Store>, from: nat, writes: seq<Write>, more: seq<Write>)
    requires old_ <= trail && from <= |old_| && WritesIn(old_, from, writes) && WritesIn(trail, |old_|, more)
    ensures WritesIn(trail, from, writes + more)
    ensures AllHarmless(writes + more) <==> AllHarmless(writes) && AllHarmless(more)
  {
    var all := writes + more;
    forall i | 0 <= i < |all| ensures Happened(trail, from, all[i]) {
      if i < |writes| {
        assert Happened(old_, from, writes[i]);
      var j: nat :| from <= j && WriteAt(old_, j, writes[i]);
        assert WriteAt(trail, j, all[i]);
      } else {
        assert Happened(trail, |old_|, more[i - |writes|]);
        var j: nat :| |old_| <= j && WriteAt(trail, j, more[i - |writes|]);
        assert WriteAt(trail, j, all[i]);
      }
    }
    HarmlessJoined(writes, more);
  }

  lemma HarmlessJoined(writes: seq<Write>, more: seq<Write>)
    ensures AllHarmless(writes + more) <==> AllHarmless(writes) && AllHarmless(more)
  {
    var all := writes + more;
    if AllHarmless(all) {
      forall i | 0 <= i < |writes| ensures HarmlessWrite(writes[i]) { assert HarmlessWrite(all[i]); }
      forall i | 0 <= i < |more| ensures HarmlessWrite(more[i]) { assert HarmlessWrite(all[|writes| + i]); }
    }
    if AllHarmless(writes) && AllHarmless(more) {
      forall i | 0 <= i < |all| ensures HarmlessWrite(all[i]) {
        if i < |writes| { assert HarmlessWrite(writes[i]); } else { assert HarmlessWrite(more[i - |writes|]); }
      }
    }
  }

  lemma NamesJoined(writes: seq<Write>, more: seq<Write>)
    ensures Names(writes + more) == Names(writes) + Names(more)
  {
    forall i | 0 <= i < |writes + more| ensures Names(writes + more)[i] == (Names(writes) + Names(more))[i] {}
  }

  /** The rows and archives are what removing `batches` leaves. */
  ghost predicate Accounted(before: Store, now: Store, cutoff: Moment, archiveOn: bool,
                            batches: seq<seq<Log>>, names: seq<ArchiveName>) {
    && RemovedSoFar(before.rows, now.rows, cutoff, batches)
    && (if archiveOn then
          NewNames(before.archives, names) ==> WroteExactly(before.archives, now.archives, batches, names)
        else now.archives == before.archives)
  }

  lemma NothingYet(before: Store, cutoff: Moment, archiveOn: bool)
    ensures Accounted(before, before, cutoff, archiveOn, [], []) && Tracks(before, before, true)
    ensures Names([]) == [] && AllHarmless([])
  {
    assert Joined([]) == [] && Ids([]) == {};
    assert before.rows - {} == before.rows;
    TracksItself(before);
  }

  lemma BatchAccounted(before: Store, midway: Store, now: Store, cutoff: Moment, archiveOn: bool,
                       batches: seq<seq<Log>>, names: seq<ArchiveName>, logs: seq<Log>, written: seq<ArchiveName>)
    requires Accounted(before, midway, cutoff, archiveOn, batches, names)
    requires IsBatch(midway.rows, cutoff, logs) && logs != []
    requires now.rows == midway.rows - Ids(logs)
    requires |written| <= 1 && (written != [] <==> archiveOn)
    requires now.archives == if written == [] then midway.archives else midway.archives[written[0] := logs]
    ensures Accounted(before, now, cutoff, archiveOn, batches + [logs], names + written)
    ensures |Joined(batches + [logs])| == |Joined(batches)| + |logs|
    ensures |now.rows| < |midway.rows|
  {
    BatchRemoved(before.rows, midway.rows, now.rows, cutoff, batches, logs);
    if archiveOn {
      ArchiveAccounted(before.archives, midway.archives, batches, names, logs, written);
    }
  }

  lemma ArchiveAccounted(before: map<ArchiveName, seq<Log>>, midway: map<ArchiveName, seq<Log>>,
                         batches: seq<seq<Log>>, names: seq<ArchiveName>, logs: seq<Log>, written: seq<ArchiveName>)
    requires NewNames(before, names) ==> WroteExactly(before, midway, batches, names)
    requires |written| == 1
    ensures NewNames(before, names + written) ==>
              WroteExactly(before, midway[written[0] := logs], batches + [logs], names + written)
  {
    if NewNames(before, names + written) {
      NewNamesPrefix(before, names, written);
      var name := written[0];
      assert written == [name] && name in written;
      NameListed(before, midway, batches, names, name, logs);
    }
  }

  /** The names drawn are new and differ from each other. */
  ghost predicate NewNames(before: map<ArchiveName, seq<Log>>, names: seq<ArchiveName>) {
    && (forall i :: 0 <= i < |names| ==> names[i] !in before)
    && (forall i, j :: 0 <= i < j < |names| ==> names[i] != names[j])
  }

  lemma NewNamesPrefix(before: map<ArchiveName, seq<Log>>, names: seq<ArchiveName>, more: seq<ArchiveName>)
    requires NewNames(before, names + more)
    ensures NewNames(before, names)
    ensures forall n :: n in more ==> n !in before && n !in names
  {
    var all := names + more;
    assert forall i :: 0 <= i < |names| ==> all[i] == names[i];
    assert forall j :: 0 <= j < |more| ==> all[|names| + j] == more[j];
  }

  lemma NewNameIsHarmless(before: Store, midway: Store, cutoff: Moment, archiveOn: bool,
                          batches: seq<seq<Log>>, writes: seq<Write>, more: seq<Write>)
    requires Accounted(before, midway, cutoff, archiveOn, batches, Names(writes))
    requires NewNames(before.archives, Names(writes)) ==> AllHarmless(writes)
    requires |more| <= 1 && (!archiveOn ==> more == []) && (more != [] ==> more[0].before == midway)
    ensures NewNames(before.archives, Names(writes) + Names(more)) ==> AllHarmless(writes) && AllHarmless(more)
  {
    if NewNames(before.archives, Names(writes) + Names(more)) {
      NewNamesPrefix(before.archives, Names(writes), Names(more));
      if more != [] { assert Names(more)[0] == more[0].name && more[0].name in Names(more); }
    }
  }

  // ------------------------------------------------------- what a write may destroy

  ghost predicate ArchivedElsewhere(s: Store, name: ArchiveName, id: string) {
    exists n :: n in s.archives && n != name && id in Ids(s.archives[n])
  }

  /** The name is new, or every log in the archive it overwrites is still a row
      or in another archive. */
  ghost predicate Harmless(s: Store, name: ArchiveName) {
    name in s.archives ==>
      forall id :: id in Ids(s.archives[name]) ==> id in s.rows || ArchivedElsewhere(s, name, id)
  }

  /** Whatever was stored before is still stored, and no log is missing now that
      was not missing before, exactly when `harmless`. */
  ghost predicate Tracks(before: Store, now: Store, harmless: bool) {
    forall all :: Sound(all, before) ==>
      Sound(all, now) && (Complete(all, now) <==> Complete(all, before) && harmless)
  }

  lemma TracksItself(s: Store)
    ensures Tracks(s, s, true)
  {
  }

  lemma TracksOn(a: Store, b: Store, c: Store, first: bool, second: bool)
    requires Tracks(a, b, first) && Tracks(b, c, second)
    ensures Tracks(a, c, first && second)
  {
  }

  /** Writing an archive conserves the logs exactly when it is harmless. */
  lemma ArchiveTracks(s: Store, t: Store, name: ArchiveName, logs: seq<Log>)
    requires t == s.(archives := s.archives[name := logs]) && AllFrom(logs, s.rows) && ProperBatch(logs)
    ensures Tracks(s, t, Harmless(s, name))
  {
    IdsWithin(logs, s.rows);
    forall all | Sound(all, s)
      ensures Sound(all, t) && (Complete(all, t) <==> Complete(all, s) && Harmless(s, name))
    {
      ArchiveSound(all, s, t, name, logs);
      if Complete(all, s) && Harmless(s, name) { ArchiveComplete(all, s, t, name, logs); }
      if Complete(all, t) {
        StillThere(all, s, t, name, logs);
        OverwrittenElsewhere(all, s, t, name, logs);
      }
    }
  }

  lemma ArchiveSound(all: Rows, s: Store, t: Store, name: ArchiveName, logs: seq<Log>)
    requires t == s.(archives := s.archives[name := logs]) && AllFrom(logs, s.rows) && ProperBatch(logs)
    requires Sound(all, s)
    ensures Sound(all, t)
  {
  }

  lemma ArchiveComplete(all: Rows, s: Store, t: Store, name: ArchiveName, logs: seq<Log>)
    requires t == s.(archives := s.archives[name := logs])
    requires Complete(all, s) && Harmless(s, name)
    ensures Complete(all, t)
  {
    forall id | id in all && id !in t.rows ensures Archived(t, id) {
      var n :| n in s.archives && id in Ids(s.archives[n]);
      if n != name {
        assert t.archives[n] == s.archives[n];
      } else {
        var other :| other in s.archives && other != name && id in Ids(s.archives[other]);
        assert t.archives[other] == s.archives[other];
      }
    }
  }

  lemma StillThere(all: Rows, s: Store, t: Store, name: ArchiveName, logs: seq<Log>)
    requires t == s.(archives := s.archives[name := logs]) && Ids(logs) <= s.rows.Keys
    requires Complete(all, t)
    ensures Complete(all, s)
  {
    forall id | id in all && id !in s.rows ensures Archived(s, id) {
      var n :| n in t.archives && id in Ids(t.archives[n]);
      assert n != name;
      assert n in s.archives && s.archives[n] == t.archives[n];
    }
  }

  lemma OverwrittenElsewhere(all: Rows, s: Store, t: Store, name: ArchiveName, logs: seq<Log>)
    requires t == s.(archives := s.archives[name := logs]) && Ids(logs) <= s.rows.Keys
    requires Sound(all, s) && Complete(all, t)
    ensures Harmless(s, name)
  {
    if name in s.archives {
      IdsWithin(s.archives[name], all);
      forall id | id in Ids(s.archives[name]) && id !in s.rows ensures ArchivedElsewhere(s, name, id) {
        assert id in all && Archived(t, id);
        var n :| n in t.archives && id in Ids(t.archives[n]);
        assert n != name;
        assert n in s.archives && s.archives[n] == t.archives[n];
      }
    }
  }

  /** Deleting archived rows loses nothing. */
  lemma DeleteTracks(s: Store, t: Store, logs: seq<Log>, name: ArchiveName)
    requires name in s.archives && s.archives[name] == logs
    requires t == s.(rows := s.rows - Ids(logs))
    ensures Tracks(s, t, true)
  {
    forall id ensures Archived(t, id) <==> Archived(s, id) {
      if Archived(s, id) {
        var n :| n in s.archives && id in Ids(s.archives[n]);
        assert n in t.archives;
      }
    }
    forall id | id in Ids(logs) ensures Archived(s, id) { assert name in s.archives; }
  }

  lemma OneId(l: Log)
    ensures Ids([l]) == {l.id}
  {
    assert [l][..0] == [];
  }

  /** Two runs in the same second that draw the same eight digits: the second
      archive replaces the first and its logs are gone. */
  lemma OverwriteLosesLogs(a: Log, b: Log, name: ArchiveName)
    requires a.id != b.id
    ensures var all := map[a.id := a, b.id := b];
            var s := Store(map[b.id := b], map[name := [a]]);
            var t := Store(map[b.id := b], map[name := [b]]);
            Conserved(all, s) && !Harmless(s, name) && !Conserved(all, t)
  {
    var s := Store(map[b.id := b], map[name := [a]]);
    var t := Store(map[b.id := b], map[name := [b]]);
    OneId(a);
    OneId(b);
    assert Archived(s, a.id) by { assert name in s.archives; }
    assert !Archived(t, a.id);
  }

  ghost predicate TrailKeepsAll(before: Store, trail: seq<Store>, from: nat) {
    forall i :: from <= i < |trail| ==> Tracks(before, trail[i], true)
  }

  lemma TrailExtended(before: Store, midway: Store, now: Store, old_: seq<Store>, trail: seq<Store>, from: nat,
                      harmless: bool, harmlessNow: bool)
    requires Tracks(before, midway, harmless) && Tracks(midway, now, harmlessNow) && from <= |old_|
    requires old_ <= trail && (harmless ==> TrailKeepsAll(before, old_, from))
    requires harmlessNow ==> TrailKeepsAll(midway, trail, |old_|)
    ensures Tracks(before, now, harmless && harmlessNow)
    ensures harmless && harmlessNow ==> TrailKeepsAll(before, trail, from)
  {
    TracksOn(before, midway, now, harmless, harmlessNow);
    if harmless && harmlessNow {
      forall i | from <= i < |trail| ensures Tracks(before, trail[i], true) {
        if i < |old_| {
          assert trail[i] == old_[i];
        } else {
          TracksOn(before, midway, trail[i], true, true);
        }
      }
    }
  }

  /** Exactly the expired rows are gone, each in exactly one of the batches. */
  ghost predicate AllExpiredRemoved(before: Rows, now: Rows, cutoff: Moment, batches: seq<seq<Log>>) {
    && now == before - ExpiredRows(before, cutoff).Keys
    && DistinctIds(Joined(batches))
    && Ids(Joined(batches)) == ExpiredRows(before, cutoff).Keys
    && |Joined(batches)| == |ExpiredRows(before, cutoff)|
  }

  ghost predicate RemovedSoFar(before: Rows, now: Rows, cutoff: Moment, batches: seq<seq<Log>>) {
    && now == before - Ids(Joined(batches))
    && DistinctIds(Joined(batches))
    && Ids(Joined(batches)) <= ExpiredRows(before, cutoff).Keys
  }

  /** The archives a run wrote: one new file per batch, holding just that batch. */
  ghost predicate WroteExactly(before: map<ArchiveName, seq<Log>>, after: map<ArchiveName, seq<Log>>,
                               batches: seq<seq<Log>>, names: seq<ArchiveName>) {
    && |names| == |batches|
    && (forall n :: n in before ==> n in after && after[n] == before[n])
    && (forall i, j :: 0 <= i < j < |names| ==> names[i] != names[j])
    && (forall i :: 0 <= i < |names| ==> names[i] !in before && names[i] in after && after[names[i]] == batches[i])
    && (forall n :: n in after ==> n in before || n in names)
  }

  lemma NameListed(before: map<ArchiveName, seq<Log>>, midway: map<ArchiveName, seq<Log>>,
                   batches: seq<seq<Log>>, names: seq<ArchiveName>, name: ArchiveName, logs: seq<Log>)
    requires WroteExactly(before, midway, batches, names) && name !in midway
    ensures WroteExactly(before, midway[name := logs], batches + [logs], names + [name])
  {
  }

  lemma {:induction false} DistinctCount(logs: seq<Log>)
    requires DistinctIds(logs)
    ensures |Ids(logs)| == |logs|
  {
    if logs != [] {
      DistinctCount(logs[..|logs| - 1]);
      InIds(logs[..|logs| - 1], logs[|logs| - 1].id);
    }
  }

  lemma NothingLeft(before: Rows, now: Rows, cutoff: Moment, batches: seq<seq<Log>>)
    requires RemovedSoFar(before, now, cutoff, batches)
    requires ExpiredRows(now, cutoff) == map[]
    ensures AllExpiredRemoved(before, now, cutoff, batches)
    ensures KeepsSince(before, now, cutoff)
  {
    var removed := Joined(batches);
    forall id | id in ExpiredRows(before, cutoff) ensures id in Ids(removed) {
      assert id in Ids(removed) || id in ExpiredRows(now, cutoff);
    }
    assert Ids(removed) == ExpiredRows(before, cutoff).Keys;
    DistinctCount(removed);
    assert |ExpiredRows(before, cutoff)| == |ExpiredRows(before, cutoff).Keys|;
  }

  /** A row is kept, as it is, exactly when it is not older than the cut-off. */
  ghost predicate KeepsSince(before: Rows, now: Rows, cutoff: Moment) {
    && (forall id :: id in now <==> id in before && before[id].createdAt >= cutoff)
    && (forall id :: id in now ==> now[id] == before[id])
  }

  /** Deleting a batch that was selected from what is left keeps the account of
      all batches, and the table gets smaller. */
  lemma BatchRemoved(before: Rows, midway: Rows, now: Rows, cutoff: Moment, batches: seq<seq<Log>>, logs: seq<Log>)
    requires RemovedSoFar(before, midway, cutoff, batches)
    requires now == midway - Ids(logs) && logs != []
    requires DistinctIds(logs) && AllFrom(logs, ExpiredRows(midway, cutoff))
    ensures RemovedSoFar(before, now, cutoff, batches + [logs])
    ensures |Joined(batches + [logs])| == |Joined(batches)| + |logs|
    ensures |now| < |midway|
  {
    var done := Joined(batches);
    assert (batches + [logs])[..|batches|] == batches;
    assert Joined(batches + [logs]) == done + logs;
    IdsAppend(done, logs);
    IdsWithin(logs, ExpiredRows(midway, cutoff));
    StillDistinct(done, logs, midway);
    RemovedTogether(before, done, logs, cutoff);
    InIds(logs, logs[0].id);
    assert now.Keys < midway.Keys by { assert logs[0].id in midway && logs[0].id !in now; }
    SmallerMap(now, midway);
  }

  lemma RemovedTogether(before: Rows, done: seq<Log>, logs: seq<Log>, cutoff: Moment)
    requires Ids(done + logs) == Ids(done) + Ids(logs)
    requires Ids(done) <= ExpiredRows(before, cutoff).Keys
    requires Ids(logs) <= ExpiredRows(before - Ids(done), cutoff).Keys
    ensures before - Ids(done) - Ids(logs) == before - Ids(done + logs)
    ensures Ids(done + logs) <= ExpiredRows(before, cutoff).Keys
  {
  }

  lemma IdsWithin(logs: seq<Log>, rows: Rows)
    requires AllFrom(logs, rows)
    ensures Ids(logs) <= rows.Keys
  {
    forall id | id in Ids(logs) ensures id in rows {
      InIds(logs, id);
      var i :| 0 <= i < |logs| && logs[i].id == id;
    }
  }

  lemma StillDistinct(done: seq<Log>, logs: seq<Log>, left: Rows)
    requires DistinctIds(done) && DistinctIds(logs) && Ids(done) !! left.Keys
    requires Ids(logs) <= left.Keys
    ensures DistinctIds(done + logs)
  {
    forall i, j | 0 <= i < |done| && 0 <= j < |logs| ensures done[i].id != logs[j].id {
      InIds(done, done[i].id);
      InIds(logs, logs[j].id);
    }
  }

  lemma SmallerMap(a: Rows, b: Rows)
    requires a.Keys < b.Keys
    ensures |a| < |b|
  {
    SubsetSmaller(a.Keys, b.Keys);
  }

  lemma {:induction false} SubsetSmaller(a: set<string>, b: set<string>)
    requires a < b
    ensures |a| < |b|
  {
    if a != {} {
      var x :| x in a;
      SubsetSmaller(a - {x}, b - {x});
    }
  }

  // ------------------------------------------------------------ from crash to restore

  /** Whatever state a run of retention jobs stopped in, restoring all archives
      in any order, repeats included, brings back exactly the original logs. */
  lemma CrashThenRestoreRebuilds(all: Rows, s: Store, order: seq<ArchiveName>)
    requires Conserved(all, s)
    requires forall n :: n in s.archives <==> n in order
    ensures RestoreAll(s.rows, seq(|order|, i requires 0 <= i < |order| => s.archives[order[i]])) == all
  {
    var archives := seq(|order|, i requires 0 <= i < |order| => s.archives[order[i]]);
    assert Covered(s.rows, archives, all) by {
      forall id | id in all && id !in s.rows
        ensures exists k :: 0 <= k < |archives| && id in Ids(archives[k])
      {
        var n :| n in s.archives && id in Ids(s.archives[n]);
        var k :| 0 <= k < |order| && order[k] == n;
        assert id in Ids(archives[k]);
      }
    }
    forall k | 0 <= k < |archives| ensures AllFrom(archives[k], all) { assert order[k] in s.archives; }
    RestoreRebuilds(s.rows, archives, all);
  }

  function FilesInOrder(env: Env, archives: map<ArchiveName, seq<Log>>, order: seq<ArchiveName>): seq<Archive>
    requires forall i :: 0 <= i < |order| ==> order[i] in archives
  {
    seq(|order|, i requires 0 <= i < |order| => WrittenArchive(env, archives[order[i]]))
  }

  /** The log is in an archive the reader takes. */
  ghost predicate Recoverable(env: Env, s: Store, id: string) {
    exists n :: n in s.archives && Readable(env, s.archives[n]) && id in Ids(s.archives[n])
  }

  /** The same through the bounded reader, from the files the job wrote: for
      logs with whatever texts, restoring all files, in any order and with
      repeats, brings back exactly the original logs if and only if every log
      that is no longer a row is in an archive all of whose logs are well formed
      and that is within the reader's limits. */
  lemma CrashThenRestoreFromFiles(env: Env, all: Rows, s: Store, order: seq<ArchiveName>)
    requires IsoInverts(env) && Conserved(all, s)
    requires forall n :: n in s.archives <==> n in order
    requires forall id :: id in all ==> CanonicalId(env, all[id])
    ensures RestoreFiles(env, s.rows, FilesInOrder(env, s.archives, order)) == all
       <==> forall id :: id in all && id !in s.rows ==> Recoverable(env, s, id)
  {
    var files := FilesInOrder(env, s.archives, order);
    WhatFilesRestore(env, all, s, order);
    SameRows(RestoreFiles(env, s.rows, files), all);
  }

  lemma SameRows(rows: Rows, all: Rows)
    requires From(rows, all)
    ensures rows == all <==> forall id :: id in all ==> id in rows
  {
    if forall id :: id in all ==> id in rows { assert rows.Keys == all.Keys; }
  }

  lemma WhatFilesRestore(env: Env, all: Rows, s: Store, order: seq<ArchiveName>)
    requires IsoInverts(env) && Sound(all, s)
    requires forall n :: n in s.archives <==> n in order
    requires forall id :: id in all ==> CanonicalId(env, all[id])
    ensures var rebuilt := RestoreFiles(env, s.rows, FilesInOrder(env, s.archives, order));
            From(rebuilt, all) && forall id :: id in rebuilt <==> id in s.rows || Recoverable(env, s, id)
  {
    var batches := seq(|order|, i requires 0 <= i < |order| => s.archives[order[i]]);
    var files := FilesInOrder(env, s.archives, order);
    forall k | 0 <= k < |batches|
      ensures AllFrom(batches[k], all) && ProperBatch(batches[k]) && files[k] == WrittenArchive(env, batches[k])
    {
      assert order[k] in s.archives;
    }
    FilesRestored(env, s.rows, batches, files, all);
    forall id ensures InReadable(env, batches, id) <==> Recoverable(env, s, id) {
      SameArchives(env, s, order, batches, id);
    }
  }

  lemma SameArchives(env: Env, s: Store, order: seq<ArchiveName>, batches: seq<seq<Log>>, id: string)
    requires forall n :: n in s.archives <==> n in order
    requires |batches| == |order| && forall i :: 0 <= i < |order| ==> batches[i] == s.archives[order[i]]
    ensures InReadable(env, batches, id) <==> Recoverable(env, s, id)
  {
    if InReadable(env, batches, id) {
      var k :| 0 <= k < |batches| && Readable(env, batches[k]) && id in Ids(batches[k]);
      assert order[k] in order;
    }
    if Recoverable(env, s, id) {
      var n :| n in s.archives && Readable(env, s.archives[n]) && id in Ids(s.archives[n]);
      var k :| 0 <= k < |order| && order[k] == n;
      assert Readable(env, batches[k]);
    }
  }

  /** A log whose line is over 1 MiB is selected, archived and deleted like any
      other, every log is accounted for, and no restore brings it back. */
  lemma OversizedLogIsNotRestorable(env: Env, log: Log, cutoff: Moment, name: ArchiveName, order: seq<ArchiveName>)
    requires IsoInverts(env) && CanonicalId(env, log) && Expired(log, cutoff)
    requires env.lineSize(Serialize(env, log)) > MAX_LINE_BYTES
    requires order != [] && forall i :: 0 <= i < |order| ==> order[i] == name
    ensures var all := map[log.id := log];
            var done := Store(all - Ids([log]), map[name := [log]]);
            && IsBatch(all, cutoff, [log])
            && Conserved(all, done)
            && RestoreFiles(env, done.rows, FilesInOrder(env, done.archives, order)) != all
  {
    var all := map[log.id := log];
    var done := Store(all - Ids([log]), map[name := [log]]);
    OneId(log);
    assert order[0] in order;
    assert ExpiredRows(all, cutoff) == all;
    assert Archived(done, log.id) by { assert name in done.archives; }
    assert [log][0] == log;
    CrashThenRestoreFromFiles(env, all, done, order);
    assert !Recoverable(env, done, log.id);
  }
}
