/** The "last good" checkpoint of the Traefik compose files: one directory of
    copies per checkpoint and a manifest that names the current one. */
module Checkpoint {
  import opened Counters
  import opened HostFiles
  import opened HostRuntime

  type CheckpointId = nat

  const MAX_CHECKPOINT_BYTES: nat := 16 * 1024
  const MAX_COMPOSE_BYTES: nat := 1024 * 1024

  datatype Entry = Entry(path: Path, digest: Hash, mode: Mode)

  datatype Manifest = Manifest(
    id: CheckpointId, configHash: Hash, image: string, version: string, files: seq<Entry>)

  /** Live compose files, the manifest file and the checkpoint directories. */
  datatype Disk = Disk(
    compose: map<Path, File>,
    manifest: Option<Manifest>,
    dirs: map<CheckpointId, map<Path, File>>)

  /** What the host provides: the configured compose files, SHA-256, Docker's
      configuration hash of a set of compose files, and the size of a manifest
      once it is serialised. */
  datatype Env = Env(
    paths: ComposePaths,
    digest: string -> Hash,
    configHash: map<Path, File> -> Hash,
    manifestSize: Manifest -> nat)

  datatype Loaded = NoCheckpoint | Found(manifest: Manifest) | Invalid

  // -------------------------------------------------------------------- loading

  predicate Readable(f: File) { |f.content| <= MAX_COMPOSE_BYTES }

  /** `_validate_checkpoint_file` */
  predicate EntryMatches(env: Env, dir: map<Path, File>, e: Entry) {
    && e.path in dir
    && Readable(dir[e.path])
    && env.digest(dir[e.path].content) == e.digest
    && dir[e.path].mode == e.mode
  }

  function EntryPaths(files: seq<Entry>): seq<Path> {
    seq(|files|, i requires 0 <= i < |files| => files[i].path)
  }

  /** The manifest is well formed and its directory holds every file, complete
      and with the recorded digest and mode. */
  predicate Complete(env: Env, m: Manifest, dirs: map<CheckpointId, map<Path, File>>) {
    VersionFromImage(m.image) == Some(m.version) && Held(env, m, dirs)
  }

  predicate Held(env: Env, m: Manifest, dirs: map<CheckpointId, map<Path, File>>) {
    && EntryPaths(m.files) == env.paths
    && m.id in dirs
    && forall i :: 0 <= i < |m.files| ==> EntryMatches(env, dirs[m.id], m.files[i])
  }

  /** `load_runtime_checkpoint`; `Invalid` stands for the errors it raises. */
  function Load(env: Env, d: Disk): Loaded {
    if d.manifest.None? then NoCheckpoint
    else if env.manifestSize(d.manifest.value) > MAX_CHECKPOINT_BYTES then Invalid
    else if Complete(env, d.manifest.value, d.dirs) then Found(d.manifest.value)
    else Invalid
  }

  /** The manifest, if there is one, points at a complete directory. */
  predicate Intact(env: Env, d: Disk) {
    d.manifest.Some? ==> Complete(env, d.manifest.value, d.dirs)
  }

  /** `load_runtime_checkpoint`, check by check and file by file. It gives a
      checkpoint back exactly when there is one that is complete and whose
      manifest is not larger than the reader accepts, a limit the writer does
      not know; what it gives back can be restored from. */
  method LoadCheckpoint(env: Env, d: Disk) returns (r: Loaded)
    ensures r == Load(env, d)
    ensures r == NoCheckpoint <==> d.manifest.None?
    ensures r.Found? <==>
              && d.manifest.Some? && Intact(env, d)
              && env.manifestSize(d.manifest.value) <= MAX_CHECKPOINT_BYTES
    ensures r.Found? ==> d.manifest == Some(r.manifest)
  {
    if d.manifest.None? {
      return NoCheckpoint;
    }
    var m := d.manifest.value;
    if env.manifestSize(m) > MAX_CHECKPOINT_BYTES {
      return Invalid;
    }
    var complete := CheckManifest(env, m, d.dirs);
    r := if complete then Found(m) else Invalid;
  }

  method CheckManifest(env: Env, m: Manifest, dirs: map<CheckpointId, map<Path, File>>) returns (complete: bool)
    ensures complete == Complete(env, m, dirs)
  {
    if VersionFromImage(m.image) != Some(m.version) {
      return false;
    }
    complete := CheckFiles(env, m, dirs);
  }

  /** The list of files first, then file by file. */
  method CheckFiles(env: Env, m: Manifest, dirs: map<CheckpointId, map<Path, File>>) returns (held: bool)
    ensures held == Held(env, m, dirs)
  {
    if EntryPaths(m.files) != env.paths {
      return false;
    }
    for i := 0 to |m.files|
      invariant forall j :: 0 <= j < i ==> HoldsFile(env, m, dirs, j)
    {
      var ok := CheckFile(env, m, dirs, i);
      if !ok {
        MissingFile(env, m, dirs, i);
        return false;
      }
    }
    FilesHeld(env, m, dirs);
    held := true;
  }

  predicate HoldsFile(env: Env, m: Manifest, dirs: map<CheckpointId, map<Path, File>>, i: nat)
    requires i < |m.files|
  {
    m.id in dirs && EntryMatches(env, dirs[m.id], m.files[i])
  }

  method CheckFile(env: Env, m: Manifest, dirs: map<CheckpointId, map<Path, File>>, i: nat) returns (ok: bool)
    requires i < |m.files|
    ensures ok == HoldsFile(env, m, dirs, i)
  {
    var e := m.files[i];
    if m.id !in dirs || e.path !in dirs[m.id] {
      return false;
    }
    var copy := dirs[m.id][e.path];
    if |copy.content| > MAX_COMPOSE_BYTES {
      return false;
    }
    ok := env.digest(copy.content) == e.digest && copy.mode == e.mode;
  }

  lemma MissingFile(env: Env, m: Manifest, dirs: map<CheckpointId, map<Path, File>>, i: nat)
    requires i < |m.files| && !HoldsFile(env, m, dirs, i)
    ensures !Held(env, m, dirs)
  {
  }

  lemma FilesHeld(env: Env, m: Manifest, dirs: map<CheckpointId, map<Path, File>>)
    requires EntryPaths(m.files) == env.paths
    requires forall j :: 0 <= j < |m.files| ==> HoldsFile(env, m, dirs, j)
    ensures Held(env, m, dirs)
  {
    assert |m.files| == |env.paths| > 0;
    assert HoldsFile(env, m, dirs, 0);
    forall j | 0 <= j < |m.files| ensures EntryMatches(env, dirs[m.id], m.files[j]) {
      assert HoldsFile(env, m, dirs, j);
    }
  }

  /** The conditions for a checkpoint to be loaded, one by one. */
  lemma LoadsExactly(env: Env, d: Disk, m: Manifest)
    ensures Load(env, d) == Found(m) <==>
              && d.manifest == Some(m) && env.manifestSize(m) <= 16 * 1024
              && VersionFromImage(m.image) == Some(m.version) && AllKept(env, m, d.dirs)
  {
    HeldIs(env, m, d.dirs);
  }

  /** The manifest lists the configured files in order, and each is kept. */
  predicate AllKept(env: Env, m: Manifest, dirs: map<CheckpointId, map<Path, File>>) {
    && m.id in dirs && |m.files| == |env.paths|
    && forall i :: 0 <= i < |m.files| ==> m.files[i].path == env.paths[i] && KeptAs(env, dirs[m.id], m.files[i])
  }

  lemma HeldIs(env: Env, m: Manifest, dirs: map<CheckpointId, map<Path, File>>)
    ensures Held(env, m, dirs) <==> AllKept(env, m, dirs)
  {
    if AllKept(env, m, dirs) {
      assert EntryPaths(m.files) == env.paths;
    }
    if Held(env, m, dirs) {
      forall i | 0 <= i < |m.files| ensures m.files[i].path == env.paths[i] { assert EntryPaths(m.files)[i] == env.paths[i]; }
    }
  }

  /** The copy is there, not over 1 MiB, with the digest and the mode noted. */
  predicate KeptAs(env: Env, dir: map<Path, File>, e: Entry) {
    && e.path in dir && |dir[e.path].content| <= 1024 * 1024
    && dir[e.path].mode == e.mode && env.digest(dir[e.path].content) == e.digest
  }

  /** Loading looks at the manifest and its own directory only. */
  predicate SameCheckpoint(a: Disk, b: Disk) {
    && a.manifest == b.manifest
    && (a.manifest.Some? ==>
          var id := a.manifest.value.id;
          (id in a.dirs <==> id in b.dirs) && (id in a.dirs ==> a.dirs[id] == b.dirs[id]))
  }

  lemma SameCheckpointLoadsSame(env: Env, a: Disk, b: Disk)
    requires SameCheckpoint(a, b)
    ensures Load(env, a) == Load(env, b)
    ensures Intact(env, a) == Intact(env, b)
  {
  }

  lemma SameDirectoryHeld(env: Env, m: Manifest, a: Disk, b: Disk)
    requires SameCheckpoint(a, b) && a.manifest == Some(m) && Complete(env, m, a.dirs)
    ensures b.manifest == Some(m) && Complete(env, m, b.dirs) && b.dirs[m.id] == a.dirs[m.id]
  {
  }

  // --------------------------------------------------------------------- saving

  function ManifestFor(env: Env, id: CheckpointId, hash: Hash, image: string, version: string,
                       compose: map<Path, File>): Manifest
    requires forall i :: 0 <= i < |env.paths| ==> env.paths[i] in compose
  {
    Manifest(id, hash, image, version,
             seq(|env.paths|, i requires 0 <= i < |env.paths| =>
               Entry(env.paths[i], env.digest(compose[env.paths[i]].content), compose[env.paths[i]].mode)))
  }

  /** What a save may go through: before the manifest is replaced the old
      checkpoint is untouched, from then on the new one is complete. */
  ghost predicate OldOrNew(env: Env, before: Disk, d: Disk, m: Manifest) {
    || SameCheckpoint(before, d)
    || (d.manifest == Some(m) && Complete(env, m, d.dirs))
  }

  /** A crash during a save leaves the previous checkpoint or the new one to be
      loaded exactly when the manifest was not replaced yet, or is small enough
      to be read back (or nothing could be loaded before either). */
  lemma CrashLoadsOldOrNew(env: Env, before: Disk, d: Disk, m: Manifest)
    requires OldOrNew(env, before, d, m)
    ensures Load(env, d) == Load(env, before) || Load(env, d) == Found(m)
       <==> || SameCheckpoint(before, d) || Load(env, before) == Invalid
            || env.manifestSize(m) <= MAX_CHECKPOINT_BYTES
  {
    if SameCheckpoint(before, d) {
      SameCheckpointLoadsSame(env, before, d);
    }
  }

  // --- a host on which the limit bites

  /** Bytes of the `files` list with its commas, each mode being 420 (0o644). */
  function EntrySizes(paths: seq<Path>): nat {
    if paths == [] then 0 else EntrySizes(paths[..|paths| - 1]) + 99 + |paths[|paths| - 1]|
  }

  /** The length of the serialised manifest: a UUID, a hash, a time stamp and the
      field names make up the fixed part. */
  function JsonSize(m: Manifest): nat { 232 + |m.image| + |m.version| + EntrySizes(EntryPaths(m.files)) }

  function HostWith(paths: ComposePaths): Env { Env(paths, text => 0, files => 0, m => JsonSize(m)) }

  function ManifestOf(paths: ComposePaths, id: CheckpointId, image: string, version: string): Manifest {
    Manifest(id, 0, image, version, seq(|paths|, i requires 0 <= i < |paths| => Entry(paths[i], 0, 420)))
  }

  function DiskWith(paths: ComposePaths, m: Manifest, content: string): Disk {
    var files := map p | p in paths :: File(content, 420);
    Disk(files, Some(m), map[m.id := files])
  }

  /** A version text one character longer (v3.1.9 to v3.1.10) is enough: the
      save replaces a good checkpoint by one that cannot be loaded. */
  lemma OversizedManifestIsLost(paths: ComposePaths, repository: string, version: string, longer: string, content: string)
    requires ParseVersion(version).Some? && ParseVersion(longer).Some? && |longer| == |version| + 1
    requires |content| <= MAX_COMPOSE_BYTES
    requires 232 + |repository| + 1 + 2 * |version| + EntrySizes(paths) == MAX_CHECKPOINT_BYTES
    ensures var good := ManifestOf(paths, 0, repository + ":" + version, version);
            var lost := ManifestOf(paths, 1, repository + ":" + longer, longer);
            var before, after := DiskWith(paths, good, content), DiskWith(paths, lost, content);
            && Load(HostWith(paths), before) == Found(good)
            && OldOrNew(HostWith(paths), before, after, lost)
            && Load(HostWith(paths), after) == Invalid
  {
    TagOfComposedImage(repository, version);
    TagOfComposedImage(repository, longer);
    ManifestComplete(paths, 0, repository + ":" + version, version, content);
    ManifestComplete(paths, 1, repository + ":" + longer, longer, content);
  }

  lemma ManifestComplete(paths: ComposePaths, id: CheckpointId, image: string, version: string, content: string)
    requires VersionFromImage(image) == Some(version) && |content| <= MAX_COMPOSE_BYTES
    ensures var m := ManifestOf(paths, id, image, version);
            Complete(HostWith(paths), m, DiskWith(paths, m, content).dirs) && EntryPaths(m.files) == paths
  {
    var m := ManifestOf(paths, id, image, version);
    var dirs := DiskWith(paths, m, content).dirs;
    ManifestPaths(paths, id, image, version);
    forall j | 0 <= j < |m.files| ensures HoldsFile(HostWith(paths), m, dirs, j) {
      FileHeld(paths, m, content, j);
    }
    FilesHeld(HostWith(paths), m, dirs);
  }

  lemma ManifestPaths(paths: ComposePaths, id: CheckpointId, image: string, version: string)
    ensures EntryPaths(ManifestOf(paths, id, image, version).files) == paths
  {
  }

  lemma FileHeld(paths: ComposePaths, m: Manifest, content: string, j: nat)
    requires |content| <= MAX_COMPOSE_BYTES && j < |paths| && |m.files| == |paths|
    requires m.files[j] == Entry(paths[j], 0, 420)
    ensures HoldsFile(HostWith(paths), m, DiskWith(paths, m, content).dirs, j)
  {
    assert paths[j] in paths;
  }

  function Run(letter: char, n: nat): string { seq(n, i => letter) }

  /** File names of one to `n` letters. */
  function Names(n: nat): seq<Path> { if n == 0 then [] else Names(n - 1) + [Run('a', n)] }

  lemma {:induction false} NamesAre(n: nat)
    ensures |Names(n)| == n && forall i :: 0 <= i < n ==> Names(n)[i] == Run('a', i + 1)
  {
    if n > 0 {
      NamesAre(n - 1);
    }
  }

  function Letters(n: nat): nat { if n == 0 then 0 else Letters(n - 1) + n }

  lemma {:induction false} NamesSize(n: nat)
    ensures EntrySizes(Names(n)) == 99 * n + Letters(n)
  {
    if n > 0 {
      NamesSize(n - 1);
      OneMoreEntry(Names(n - 1), Run('a', n));
    }
  }

  lemma OneMoreEntry(paths: seq<Path>, path: Path)
    ensures EntrySizes(paths + [path]) == EntrySizes(paths) + 99 + |path|
  {
    assert (paths + [path])[..|paths|] == paths;
  }

  lemma {:induction false} LettersAre(n: nat)
    ensures 2 * Letters(n) == n * (n + 1)
  {
    if n > 0 {
      LettersAre(n - 1);
      assert n * (n + 1) == (n - 1) * n + 2 * n;
    }
  }

  /** Such hosts exist: 106 compose files with names of at most 105 letters. */
  lemma FullHostExists(repository: string, version: string) returns (paths: ComposePaths)
    requires |repository| == 7 && |version| == 6
    ensures 232 + |repository| + 1 + 2 * |version| + EntrySizes(paths) == MAX_CHECKPOINT_BYTES
    ensures |paths| == 106 && forall i :: 0 <= i < |paths| ==> |paths[i]| <= 105
  {
    NamesAre(105);
    NamesSize(105);
    LettersAre(105);
    var all := Names(105) + [Run('b', 73)];
    OneMoreEntry(Names(105), Run('b', 73));
    forall i, j | 0 <= i < j < |all| ensures all[i] != all[j] {
      if j < 105 {
        assert |all[i]| == i + 1 && |all[j]| == j + 1;
      } else {
        assert all[i][0] == 'a' && all[j][0] == 'b';
      }
    }
    paths := all;
  }
}
