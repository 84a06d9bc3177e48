/** Audit log records on their way to an archive and back: serialisation, the
    bounded and validating reader, and the restore that adds what is missing. */
module AuditArchive {
  import opened Counters

  type Moment = int  // UTC

  /** An audit log row. `detail` stands for a JSON object. */
  datatype Log = Log(
    id: string, actor: string, action: string, resourceType: string, resourceId: string,
    resourceName: string, detail: Option<nat>, createdAt: Moment)

  datatype Json = Null | Text(text: string) | Number(digits: string) | Object(value: nat) | Other

  datatype Payload = Payload(
    id: Json, actor: Json, action: Json, resourceType: Json, resourceId: Json,
    resourceName: Json, detail: Json, createdAt: Json)

  /** What the standard library provides: UUID normalisation, ISO time texts,
      the size of a serialised record and of a compressed archive. */
  datatype Env = Env(
    canonicalUuid: string -> Option<string>,
    iso: Moment -> string,
    parseIso: string -> Option<Moment>,
    lineSize: Payload -> nat,
    compressedSize: seq<RawLine> -> nat)

  /** Reading back a written time gives that time. */
  ghost predicate IsoInverts(env: Env) {
    forall t :: env.parseIso(env.iso(t)) == Some(t)
  }

  // --------------------------------------------------------------- one record

  function Serialize(env: Env, log: Log): Payload {
    Payload(Text(log.id), Text(log.actor), Text(log.action), Text(log.resourceType),
            Text(log.resourceId), Text(log.resourceName),
            if log.detail.Some? then Object(log.detail.value) else Null,
            Text(env.iso(log.createdAt)))
  }

  function ValidText(value: Json, maxLength: nat): Option<string> {
    if value.Text? && 0 < |value.text| <= maxLength then Some(value.text) else None
  }

  function ValidUuid(env: Env, value: Json): Option<string> {
    match value
    case Text(s) => env.canonicalUuid(s)
    case Number(s) => env.canonicalUuid(s)
    case _ => None
  }

  /** `_validate_archive_record`; `None` stands for the error it raises. */
  function Validate(env: Env, p: Payload): Option<Log> {
    var id := ValidUuid(env, p.id);
    var actor := ValidText(p.actor, 100);
    var action := ValidText(p.action, 20);
    var resourceType := ValidText(p.resourceType, 50);
    var resourceId := ValidText(p.resourceId, 255);
    var resourceName := ValidText(p.resourceName, 255);
    var createdAt := if p.createdAt.Text? then env.parseIso(p.createdAt.text) else None;
    if id.None? || !(p.detail.Null? || p.detail.Object?) || actor.None? || action.None?
       || resourceType.None? || resourceId.None? || resourceName.None? || createdAt.None? then None
    else
      Some(Log(id.value, actor.value, action.value, resourceType.value, resourceId.value, resourceName.value,
               if p.detail.Object? then Some(p.detail.value) else None, createdAt.value))
  }

  predicate TextWithin(value: Json, maxLength: nat) { value.Text? && 1 <= |value.text| <= maxLength }

  /** A record is accepted exactly when its id is a UUID, its detail an object or
      null, its texts are within the columns' lengths and its time can be read;
      the log is then field by field what the record says. */
  lemma ValidateExactly(env: Env, p: Payload)
    ensures Validate(env, p).Some? <==>
              && ((p.id.Text? && env.canonicalUuid(p.id.text).Some?) || (p.id.Number? && env.canonicalUuid(p.id.digits).Some?))
              && TextWithin(p.actor, 100) && TextWithin(p.action, 20) && TextWithin(p.resourceType, 50)
              && TextWithin(p.resourceId, 255) && TextWithin(p.resourceName, 255)
              && (p.detail.Null? || p.detail.Object?)
              && p.createdAt.Text? && env.parseIso(p.createdAt.text).Some?
    ensures Validate(env, p).Some? ==>
              var log := Validate(env, p).value;
              && p.actor == Text(log.actor) && p.action == Text(log.action) && p.resourceType == Text(log.resourceType)
              && p.resourceId == Text(log.resourceId) && p.resourceName == Text(log.resourceName)
              && p.detail == (if log.detail.Some? then Object(log.detail.value) else Null)
              && env.parseIso(p.createdAt.text) == Some(log.createdAt)
              && env.canonicalUuid(if p.id.Text? then p.id.text else p.id.digits) == Some(log.id)
  {
  }

  /** The table's ids are UUIDs in their usual form. */
  predicate CanonicalId(env: Env, log: Log) { env.canonicalUuid(log.id) == Some(log.id) }

  predicate WellFormed(env: Env, log: Log) {
    && CanonicalId(env, log)
    && 0 < |log.actor| <= 100 && 0 < |log.action| <= 20 && 0 < |log.resourceType| <= 50
    && 0 < |log.resourceId| <= 255 && 0 < |log.resourceName| <= 255
  }

  /** A log comes back from its archive record unchanged exactly when its id is
      a canonical UUID and its text fields are non-empty and not too long. */
  lemma RoundTrip(env: Env, log: Log)
    requires IsoInverts(env)
    ensures Validate(env, Serialize(env, log)) == Some(log) <==> WellFormed(env, log)
    ensures CanonicalId(env, log) && !WellFormed(env, log) ==> Validate(env, Serialize(env, log)).None?
  {
    assert env.parseIso(env.iso(log.createdAt)) == Some(log.createdAt);
  }

  // --------------------------------------------------------------- one archive

  const MAX_COMPRESSED_BYTES: nat := 64 * 1024 * 1024
  const MAX_UNCOMPRESSED_BYTES: nat := 64 * 1024 * 1024
  const MAX_LINE_BYTES: nat := 1024 * 1024
  const MAX_RECORDS: nat := 10_000

  /** One line of the uncompressed archive; `payload` is absent if the line is
      not a JSON object. */
  datatype RawLine = RawLine(size: nat, blank: bool, payload: Option<Payload>)

  datatype Archive = Archive(compressed: nat, lines: seq<RawLine>)

  function LineRecord(env: Env, l: RawLine): Option<Log> {
    if l.payload.None? then None else Validate(env, l.payload.value)
  }

  /** The records of the lines that are not blank, in order. */
  function Records(env: Env, lines: seq<RawLine>): seq<Log> {
    if lines == [] then [] else
      var l := lines[|lines| - 1];
      Records(env, lines[..|lines| - 1])
      + if !l.blank && LineRecord(env, l).Some? then [LineRecord(env, l).value] else []
  }

  function TotalSize(lines: seq<RawLine>): nat {
    if lines == [] then 0 else TotalSize(lines[..|lines| - 1]) + lines[|lines| - 1].size
  }

  ghost predicate DistinctIds(logs: seq<Log>) {
    forall i, j :: 0 <= i < j < |logs| ==> logs[i].id != logs[j].id
  }

  ghost predicate LinesFit(env: Env, lines: seq<RawLine>) {
    && (forall i :: 0 <= i < |lines| ==> lines[i].size <= MAX_LINE_BYTES)
    && TotalSize(lines) <= MAX_UNCOMPRESSED_BYTES
    && (forall i :: 0 <= i < |lines| && !lines[i].blank ==> LineRecord(env, lines[i]).Some?)
    && DistinctIds(Records(env, lines)) && |Records(env, lines)| <= MAX_RECORDS
  }

  /** Exactly the archives the reader accepts. */
  ghost predicate Acceptable(env: Env, a: Archive) {
    && a.compressed <= MAX_COMPRESSED_BYTES
    && LinesFit(env, a.lines)
    && Records(env, a.lines) != []
  }

  function Ids(logs: seq<Log>): set<string> {
    if logs == [] then {} else Ids(logs[..|logs| - 1]) + {logs[|logs| - 1].id}
  }

  lemma {:induction false} InIds(logs: seq<Log>, id: string)
    ensures id in Ids(logs) <==> exists i :: 0 <= i < |logs| && logs[i].id == id
  {
    if logs != [] {
      var init := logs[..|logs| - 1];
      InIds(init, id);
      if id in Ids(init) {
        var i :| 0 <= i < |init| && init[i].id == id;
        assert logs[i].id == id;
      }
      if i :| 0 <= i < |logs| && logs[i].id == id {
        if i < |init| { assert init[i].id == id; }
      }
    }
  }

  lemma {:induction false} IdsAppend(a: seq<Log>, b: seq<Log>)
    ensures Ids(a + b) == Ids(a) + Ids(b)
  {
    if b == [] {
      assert a + b == a;
    } else {
      assert (a + b)[..|a + b| - 1] == a + b[..|b| - 1];
      IdsAppend(a, b[..|b| - 1]);
    }
  }

  lemma {:induction false} FitsPrefix(env: Env, lines: seq<RawLine>, i: nat)
    requires i <= |lines| && LinesFit(env, lines)
    ensures LinesFit(env, lines[..i])
    decreases |lines| - i
  {
    if i < |lines| {
      FitsPrefix(env, lines, i + 1);
      var longer := lines[..i + 1];
      assert longer[..i] == lines[..i];
      var r, s := Records(env, lines[..i]), Records(env, longer);
      assert r == s[..|r|];
      assert forall k :: 0 <= k < i ==> lines[..i][k] == longer[k];
    } else {
      assert lines[..i] == lines;
    }
  }

  /** `_read_archive_records`: reads the archive if and only if it is acceptable. */
  method ReadArchiveRecords(env: Env, a: Archive) returns (r: Option<seq<Log>>)
    ensures r.Some? <==> Acceptable(env, a)
    ensures r.Some? ==> r.value == Records(env, a.lines)
  {
    if a.compressed > MAX_COMPRESSED_BYTES {
      return None;
    }
    var records: seq<Log> := [];
    var seen: set<string> := {};
    var bytes := 0;
    var i := 0;
    while i < |a.lines|
      invariant 0 <= i <= |a.lines|
      invariant LinesFit(env, a.lines[..i])
      invariant records == Records(env, a.lines[..i]) && seen == Ids(records)
      invariant bytes == TotalSize(a.lines[..i])
    {
      var line := a.lines[i];
      ghost var longer := a.lines[..i + 1];
      assert longer[..i] == a.lines[..i];
      var taken := ReadLine(env, line, bytes, records, seen);
      LineTaken(env, a.lines[..i], line, taken);
      assert longer == a.lines[..i] + [line];
      if taken.None? {
        if LinesFit(env, a.lines) { FitsPrefix(env, a.lines, i + 1); }
        return None;
      }
      bytes := bytes + line.size;
      IdsAppend(records, taken.value);
      records := records + taken.value;
      seen := seen + Ids(taken.value);
      i := i + 1;
    }
    assert a.lines[..i] == a.lines;
    r := if records == [] then None else Some(records);
  }

  /** The checks on one line, in the reader's order. */
  method ReadLine(env: Env, line: RawLine, bytes: nat, records: seq<Log>, seen: set<string>)
    returns (taken: Option<seq<Log>>)
    requires seen == Ids(records)
    ensures taken.Some? <==>
              && line.size <= MAX_LINE_BYTES && bytes + line.size <= MAX_UNCOMPRESSED_BYTES
              && (line.blank
                  || (|records| < MAX_RECORDS && LineRecord(env, line).Some?
                      && LineRecord(env, line).value.id !in Ids(records)))
    ensures taken.Some? ==> taken.value == if line.blank then [] else [LineRecord(env, line).value]
  {
    if line.size > MAX_LINE_BYTES || bytes + line.size > MAX_UNCOMPRESSED_BYTES {
      return None;
    }
    if line.blank {
      return Some([]);
    }
    if |records| >= MAX_RECORDS {
      return None;
    }
    var record := LineRecord(env, line);
    if record.None? || record.value.id in seen {
      return None;
    }
    return Some([record.value]);
  }

  lemma DistinctAppend(logs: seq<Log>, x: Log)
    requires DistinctIds(logs)
    ensures DistinctIds(logs + [x]) <==> x.id !in Ids(logs)
  {
    var after := logs + [x];
    assert forall i :: 0 <= i < |logs| ==> after[i] == logs[i];
    InIds(logs, x.id);
    if x.id in Ids(logs) {
      var k :| 0 <= k < |logs| && logs[k].id == x.id;
      assert after[k].id == after[|logs|].id;
    }
  }

  lemma LineTaken(env: Env, lines: seq<RawLine>, line: RawLine, taken: Option<seq<Log>>)
    requires LinesFit(env, lines)
    requires taken.Some? <==>
               && line.size <= MAX_LINE_BYTES && TotalSize(lines) + line.size <= MAX_UNCOMPRESSED_BYTES
               && (line.blank
                   || (|Records(env, lines)| < MAX_RECORDS && LineRecord(env, line).Some?
                       && LineRecord(env, line).value.id !in Ids(Records(env, lines))))
    requires taken.Some? ==> taken.value == if line.blank then [] else [LineRecord(env, line).value]
    ensures LinesFit(env, lines + [line]) <==> taken.Some?
    ensures taken.Some? ==> Records(env, lines + [line]) == Records(env, lines) + taken.value
    ensures TotalSize(lines + [line]) == TotalSize(lines) + line.size
  {
    var longer := lines + [line];
    assert longer[..|lines|] == lines;
    assert longer[|lines|] == line;
    var before := Records(env, lines);
    if !line.blank && LineRecord(env, line).Some? {
      var x := LineRecord(env, line).value;
      assert Records(env, longer) == before + [x];
      DistinctAppend(before, x);
    } else {
      assert Records(env, longer) == before + [];
      assert before + [] == before;
    }
    assert forall i :: 0 <= i < |lines| ==> longer[i] == lines[i];
  }

  // ------------------------------------------------------- what retention writes

  function WrittenLine(env: Env, log: Log): RawLine {
    RawLine(env.lineSize(Serialize(env, log)), false, Some(Serialize(env, log)))
  }

  function WrittenLines(env: Env, logs: seq<Log>): seq<RawLine> {
    seq(|logs|, i requires 0 <= i < |logs| => WrittenLine(env, logs[i]))
  }

  lemma {:induction false} WrittenRecords(env: Env, logs: seq<Log>)
    requires IsoInverts(env) && forall i :: 0 <= i < |logs| ==> WellFormed(env, logs[i])
    ensures Records(env, WrittenLines(env, logs)) == logs
    ensures forall i :: 0 <= i < |logs| ==> LineRecord(env, WrittenLines(env, logs)[i]) == Some(logs[i])
  {
    if logs != [] {
      var init := logs[..|logs| - 1];
      WrittenRecords(env, init);
      RoundTrip(env, logs[|logs| - 1]);
      assert WrittenLines(env, logs)[..|logs| - 1] == WrittenLines(env, init);
    }
  }

  function WrittenArchive(env: Env, logs: seq<Log>): Archive {
    Archive(env.compressedSize(WrittenLines(env, logs)), WrittenLines(env, logs))
  }

  /** What is written of `logs` stays below the reader's limits. */
  ghost predicate Fits(env: Env, logs: seq<Log>) {
    && env.compressedSize(WrittenLines(env, logs)) <= MAX_COMPRESSED_BYTES
    && TotalSize(WrittenLines(env, logs)) <= MAX_UNCOMPRESSED_BYTES
    && forall i :: 0 <= i < |logs| ==> env.lineSize(Serialize(env, logs[i])) <= MAX_LINE_BYTES
  }

  /** What the reader takes: every log well formed, all sizes below its limits. */
  ghost predicate Readable(env: Env, logs: seq<Log>) {
    Fits(env, logs) && forall i :: 0 <= i < |logs| ==> WellFormed(env, logs[i])
  }

  /** The archive of a batch is read back as those logs exactly when each of
      them is well formed and lines and sizes stay below the reader's limits;
      the writer checks none of this. */
  lemma WrittenArchiveReadsBack(env: Env, logs: seq<Log>)
    requires IsoInverts(env) && forall i :: 0 <= i < |logs| ==> CanonicalId(env, logs[i])
    requires 0 < |logs| <= MAX_RECORDS && DistinctIds(logs)
    ensures Acceptable(env, WrittenArchive(env, logs)) <==> Readable(env, logs)
    ensures Readable(env, logs) ==> Records(env, WrittenLines(env, logs)) == logs
  {
    var lines := WrittenLines(env, logs);
    assert forall i :: 0 <= i < |logs| ==> lines[i].size == env.lineSize(Serialize(env, logs[i]));
    if forall i :: 0 <= i < |logs| ==> WellFormed(env, logs[i]) {
      WrittenRecords(env, logs);
    } else {
      var i :| 0 <= i < |logs| && !WellFormed(env, logs[i]);
      OneBadLogSpoilsTheArchive(env, logs, i);
    }
  }

  /** One log with, say, an empty actor, and none of its archive is restored. */
  lemma OneBadLogSpoilsTheArchive(env: Env, logs: seq<Log>, i: nat)
    requires IsoInverts(env) && i < |logs| && CanonicalId(env, logs[i]) && !WellFormed(env, logs[i])
    ensures !Acceptable(env, WrittenArchive(env, logs))
  {
    RoundTrip(env, logs[i]);
    assert LineRecord(env, WrittenLines(env, logs)[i]).None?;
  }

  // ------------------------------------------------------------------- restoring

  type Rows = map<string, Log>

  /** The rows after restoring `logs`: rows that exist stay as they are. */
  function RestoreInto(rows: Rows, logs: seq<Log>): Rows {
    if logs == [] then rows else
      var before := RestoreInto(rows, logs[..|logs| - 1]);
      var l := logs[|logs| - 1];
      if l.id in before then before else before[l.id := l]
  }

  lemma {:induction false} RestoreAdds(rows: Rows, logs: seq<Log>)
    ensures RestoreInto(rows, logs).Keys == rows.Keys + Ids(logs)
    ensures forall id :: id in rows ==> RestoreInto(rows, logs)[id] == rows[id]
    ensures forall id :: id in RestoreInto(rows, logs) && id !in rows ==>
              exists i :: 0 <= i < |logs| && logs[i].id == id && RestoreInto(rows, logs)[id] == logs[i]
  {
    if logs != [] {
      var init, l := logs[..|logs| - 1], logs[|logs| - 1];
      RestoreAdds(rows, init);
      var before := RestoreInto(rows, init);
      forall id | id in RestoreInto(rows, logs) && id !in rows
        ensures exists i :: 0 <= i < |logs| && logs[i].id == id && RestoreInto(rows, logs)[id] == logs[i]
      {
        if id in before {
          var i :| 0 <= i < |init| && init[i].id == id && before[id] == init[i];
          assert logs[i] == init[i];
        } else {
          assert logs[|logs| - 1].id == id;
        }
      }
    }
  }

  /** The rows after restoring one archive file: an archive the reader refuses
      leaves them alone. */
  ghost function RestoreFile(env: Env, rows: Rows, a: Archive): Rows {
    if Acceptable(env, a) then RestoreInto(rows, Records(env, a.lines)) else rows
  }

  ghost function RestoreFiles(env: Env, rows: Rows, files: seq<Archive>): Rows {
    if files == [] then rows
    else RestoreFile(env, RestoreFiles(env, rows, files[..|files| - 1]), files[|files| - 1])
  }

  const RESTORE_ID_QUERY_BATCH_SIZE: nat := 500

  class AuditTable {
    var rows: Rows

    constructor (rows: Rows)
      ensures this.rows == rows
    {
      this.rows := rows;
    }

    /** The ids of `logs` the table already holds, asked for 500 at a time. */
    method ExistingIds(logs: seq<Log>) returns (existing: set<string>)
      ensures existing == Ids(logs) * rows.Keys
    {
      existing := {};
      var start := 0;
      while start < |logs|
        invariant 0 <= start <= |logs|
        invariant existing == Ids(logs[..start]) * rows.Keys
      {
        var end := if start + RESTORE_ID_QUERY_BATCH_SIZE < |logs| then start + RESTORE_ID_QUERY_BATCH_SIZE else |logs|;
        existing := existing + Ids(logs[start..end]) * rows.Keys;
        IdsAppend(logs[..start], logs[start..end]);
        assert logs[..end] == logs[..start] + logs[start..end];
        start := end;
      }
      assert logs[..start] == logs;
    }

    /** `restore_audit_archive`: adds the records that are missing and reports
        how many; those that exist are left alone. */
    method Restore(logs: seq<Log>) returns (total: nat, restored: nat, skipped: nat)
      requires DistinctIds(logs)
      modifies this
      ensures rows == RestoreInto(old(rows), logs)
      ensures total == |logs| && restored + skipped == total
      ensures restored == |rows| - |old(rows)|
    {
      var existing := ExistingIds(logs);
      total, restored := |logs|, 0;
      ghost var before := rows;
      var next := rows;
      for i := 0 to |logs|
        invariant next == RestoreInto(before, logs[..i])
        invariant restored <= i && |next| == |before| + restored
      {
        assert logs[..i + 1][..i] == logs[..i];
        RestoreAdds(before, logs[..i]);
        NewToPrefix(logs, i);
        if logs[i].id !in existing {
          assert logs[i].id !in next;
          next := next[logs[i].id := logs[i]];
          restored := restored + 1;
        } else {
          assert logs[i].id in next;
        }
      }
      assert logs[..|logs|] == logs;
      rows := next;
      skipped := total - restored;
    }

    /** Reading and restoring: an archive the reader refuses changes nothing. */
    method RestoreArchive(env: Env, a: Archive) returns (counts: Option<(nat, nat, nat)>)
      modifies this
      ensures counts.Some? <==> Acceptable(env, a)
      ensures rows == RestoreFile(env, old(rows), a)
      ensures counts.Some? ==>
        && counts.value.0 == |Records(env, a.lines)| == counts.value.1 + counts.value.2
        && counts.value.1 == |rows| - |old(rows)|
    {
      var records := ReadArchiveRecords(env, a);
      if records.None? {
        return None;
      }
      var total, restored, skipped := Restore(records.value);
      counts := Some((total, restored, skipped));
    }
  }

  lemma NewToPrefix(logs: seq<Log>, i: nat)
    requires DistinctIds(logs) && i < |logs|
    ensures logs[i].id !in Ids(logs[..i]) && logs[i].id in Ids(logs)
  {
    InIds(logs[..i], logs[i].id);
    InIds(logs, logs[i].id);
  }

  /** Restoring an archive again changes nothing. */
  lemma RestoreTwice(rows: Rows, logs: seq<Log>)
    ensures RestoreInto(RestoreInto(rows, logs), logs) == RestoreInto(rows, logs)
  {
    RestoreAdds(rows, logs);
    NothingMissing(RestoreInto(rows, logs), logs);
  }

  lemma {:induction false} NothingMissing(rows: Rows, logs: seq<Log>)
    requires Ids(logs) <= rows.Keys
    ensures RestoreInto(rows, logs) == rows
  {
    if logs != [] {
      NothingMissing(rows, logs[..|logs| - 1]);
    }
  }

  // --------------------------------------------- rebuilding everything, in any order

  ghost predicate From(rows: Rows, all: Rows) {
    forall id :: id in rows ==> id in all && rows[id] == all[id]
  }

  ghost predicate AllFrom(logs: seq<Log>, all: Rows) {
    forall i :: 0 <= i < |logs| ==> logs[i].id in all && all[logs[i].id] == logs[i]
  }

  function RestoreAll(rows: Rows, archives: seq<seq<Log>>): Rows {
    if archives == [] then rows
    else RestoreInto(RestoreAll(rows, archives[..|archives| - 1]), archives[|archives| - 1])
  }

  lemma {:induction false} RestoreAllStaysWithin(rows: Rows, archives: seq<seq<Log>>, all: Rows)
    requires From(rows, all)
    requires forall k :: 0 <= k < |archives| ==> AllFrom(archives[k], all)
    ensures From(RestoreAll(rows, archives), all)
    ensures forall id :: id in rows ==> id in RestoreAll(rows, archives)
    ensures forall k :: 0 <= k < |archives| ==> Ids(archives[k]) <= RestoreAll(rows, archives).Keys
  {
    if archives != [] {
      var init := archives[..|archives| - 1];
      RestoreAllStaysWithin(rows, init, all);
      RestoreAdds(RestoreAll(rows, init), archives[|archives| - 1]);
      forall k | 0 <= k < |archives| - 1 ensures Ids(archives[k]) <= RestoreAll(rows, archives).Keys {
        assert init[k] == archives[k];
      }
    }
  }

  /** Some archive that the reader takes holds the log. */
  ghost predicate InReadable(env: Env, batches: seq<seq<Log>>, id: string) {
    exists k :: 0 <= k < |batches| && Readable(env, batches[k]) && id in Ids(batches[k])
  }

  /** As the retention job writes them: not empty, not too many, no id twice. */
  ghost predicate ProperBatch(logs: seq<Log>) { 0 < |logs| <= MAX_RECORDS && DistinctIds(logs) }

  lemma FileRestored(env: Env, rows: Rows, logs: seq<Log>, all: Rows)
    requires IsoInverts(env) && forall id :: id in all ==> CanonicalId(env, all[id])
    requires From(rows, all) && AllFrom(logs, all) && ProperBatch(logs)
    ensures var after := RestoreFile(env, rows, WrittenArchive(env, logs));
            && From(after, all)
            && after.Keys == rows.Keys + if Readable(env, logs) then Ids(logs) else {}
  {
    forall i | 0 <= i < |logs| ensures CanonicalId(env, logs[i]) { assert logs[i].id in all; }
    WrittenArchiveReadsBack(env, logs);
    RestoreAdds(rows, logs);
  }

  /** Restoring written archives, in whatever order and however often, brings
      back what the readable ones among them hold, and nothing else. */
  lemma {:induction false} FilesRestored(env: Env, rows: Rows, batches: seq<seq<Log>>, files: seq<Archive>, all: Rows)
    requires IsoInverts(env) && forall id :: id in all ==> CanonicalId(env, all[id])
    requires From(rows, all) && |files| == |batches|
    requires forall k :: 0 <= k < |batches| ==>
               AllFrom(batches[k], all) && ProperBatch(batches[k]) && files[k] == WrittenArchive(env, batches[k])
    ensures From(RestoreFiles(env, rows, files), all)
    ensures forall id :: id in RestoreFiles(env, rows, files) <==> id in rows || InReadable(env, batches, id)
  {
    if batches != [] {
      var n := |batches| - 1;
      FilesRestored(env, rows, batches[..n], files[..n], all);
      FileRestored(env, RestoreFiles(env, rows, files[..n]), batches[n], all);
      forall id ensures InReadable(env, batches, id)
                   <==> InReadable(env, batches[..n], id) || (Readable(env, batches[n]) && id in Ids(batches[n])) {
        OneMoreReadable(env, batches, id);
      }
    }
  }

  lemma OneMoreReadable(env: Env, batches: seq<seq<Log>>, id: string)
    requires batches != []
    ensures var n := |batches| - 1;
            InReadable(env, batches, id)
            <==> InReadable(env, batches[..n], id) || (Readable(env, batches[n]) && id in Ids(batches[n]))
  {
    var init := batches[..|batches| - 1];
    assert forall k :: 0 <= k < |init| ==> init[k] == batches[k];
    if InReadable(env, init, id) {
      var k :| 0 <= k < |init| && Readable(env, init[k]) && id in Ids(init[k]);
      assert Readable(env, batches[k]) && id in Ids(batches[k]);
    }
    if InReadable(env, batches, id) {
      var k :| 0 <= k < |batches| && Readable(env, batches[k]) && id in Ids(batches[k]);
      if k < |init| { assert Readable(env, init[k]) && id in Ids(init[k]); }
    }
  }

  ghost predicate Covered(rows: Rows, archives: seq<seq<Log>>, all: Rows) {
    forall id :: id in all ==> id in rows || exists k :: 0 <= k < |archives| && id in Ids(archives[k])
  }

  /** If every log is still a row or in one of the archives, restoring the
      archives, in whatever order and however often, rebuilds exactly the
      original set of records. */
  lemma RestoreRebuilds(rows: Rows, archives: seq<seq<Log>>, all: Rows)
    requires From(rows, all) && Covered(rows, archives, all)
    requires forall k :: 0 <= k < |archives| ==> AllFrom(archives[k], all)
    ensures RestoreAll(rows, archives) == all
  {
    RestoreAllStaysWithin(rows, archives, all);
    var rebuilt := RestoreAll(rows, archives);
    assert rebuilt.Keys == all.Keys;
  }
}
