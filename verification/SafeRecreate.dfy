/** The safe recreate of the Traefik container: checkpoint, `compose up`,
    validation, and recovery from the checkpoint. Every external command may
    fail, and `compose up` may leave any container behind, or none. The ghost
    trail records every state of the disk, so that a statement about the trail
    is a statement about every crash point. */
module SafeRecreate {
  import opened Counters
  import opened HostFiles
  import opened HostRuntime
  import opened Checkpoint

  datatype Outcome = Raised | Success | MetadataFailed | RolledBack | RollbackFailed

  /** How the steps of one recreate went; false for a step that was not reached. */
  datatype Steps = Steps(
    known: bool, valid: bool, secured: bool, up: bool, passed: bool, recorded: bool, saved: bool, heartbeat: bool,
    restored: bool, recovered: bool)

  /** The outcome the steps lead to. */
  ghost function OutcomeOf(s: Steps): (result: Outcome)
    ensures result == Raised <==> !(s.known && s.valid && s.secured)
    ensures result == Success <==>
              s.known && s.valid && s.secured && s.up && s.passed && s.recorded && s.saved && s.heartbeat
    ensures result == MetadataFailed <==>
              s.known && s.valid && s.secured && s.up && s.passed && !(s.recorded && s.saved && s.heartbeat)
    ensures result == RolledBack <==>
              s.known && s.valid && s.secured && !(s.up && s.passed) && s.restored && s.recovered
    ensures result == RollbackFailed <==>
              s.known && s.valid && s.secured && !(s.up && s.passed) && !(s.restored && s.recovered)
  {
    if !(s.known && s.valid && s.secured) then Raised
    else if s.up && s.passed then (if s.recorded && s.saved && s.heartbeat then Success else MetadataFailed)
    else if s.restored && s.recovered then RolledBack else RollbackFailed
  }

  class Host {
    const env: Env
    var disk: Disk
    var container: Option<Container>
    ghost var trail: seq<Disk>

    constructor (env: Env, disk: Disk, container: Option<Container>)
      ensures this.env == env && this.disk == disk && this.container == container
      ensures trail == [disk]
    {
      this.env, this.disk, this.container, this.trail := env, disk, container, [disk];
    }

    method Write(d: Disk)
      modifies `disk, `trail
      ensures disk == d && trail == old(trail) + [d]
    {
      disk := d;
      trail := trail + [d];
    }

    // ------------------------------------------------------ commands that may fail

    method CurrentConfigHash() returns (h: Option<Hash>, ghost asked: bool)
      ensures h == if asked && container.Some? then container.value.configHash else None
    {
      var answered := Chance();
      asked := answered;
      h := if answered && container.Some? then container.value.configHash else None;
    }

    method ComposeConfigHash() returns (h: Option<Hash>, ghost asked: bool)
      ensures h == if asked then Some(env.configHash(disk.compose)) else None
    {
      var answered := Chance();
      asked := answered;
      h := if answered then Some(env.configHash(disk.compose)) else None;
    }

    method InspectImage() returns (image: Option<string>)
      ensures image.Some? ==> container.Some? && container.value.image == image.value
    {
      var answered := Chance();
      image := if answered && container.Some? then Some(container.value.image) else None;
    }

    method SafeContainerId() returns (id: Option<nat>)
      ensures id.Some? ==> container.Some? && container.value.id == id.value
    {
      var answered := Chance();
      id := if answered && container.Some? then Some(container.value.id) else None;
    }

    /** Any container may be left behind, whether or not the command succeeds. */
    method ComposeUp(forceRecreate: bool) returns (ok: bool)
      modifies `container
    {
      container := *;
      ok := Chance();
    }

    /** `_require_runtime_compose_match` */
    method RuntimeMatchesCompose() returns (ok: bool, ghost asked: bool)
      ensures ok <==> asked && container.Some? && container.value.configHash == Some(env.configHash(disk.compose))
    {
      var running, a := CurrentConfigHash();
      var compose, b := ComposeConfigHash();
      asked := a && b;
      ok := running.Some? && running == compose;
    }

    // -------------------------------------------------------------- the checkpoint

    /** Copies the compose files into a new directory, replaces the manifest in
        one step and then removes the other directories. At every point of it
        the manifest names the previous checkpoint, untouched, or the new one
        `m`, complete. */
    method SaveCheckpoint(version: string) returns (ok: bool, ghost m: Manifest)
      modifies `disk, `trail
      ensures disk.compose == old(disk.compose)
      ensures OldOrNew(env, old(disk), disk, m)
      ensures ok ==>
        && disk.manifest == Some(m) && Complete(env, m, disk.dirs)
        && container.Some? && container.value.configHash == Some(m.configHash)
        && m.configHash == env.configHash(disk.compose) && m.version == version
        && CopiesOf(env, disk.dirs[m.id], disk.compose)
      ensures old(trail) <= trail
      ensures forall i :: |old(trail)| <= i < |trail| ==> OldOrNew(env, old(disk), trail[i], m)
    {
      m := Manifest(0, 0, "", "", []);
      var running, asked := CurrentConfigHash();
      var compose, answered := ComposeConfigHash();
      if running.None? || compose != running {
        return false, m;
      }
      var image := InspectImage();
      if image.None? || VersionFromImage(image.value) != Some(version) {
        return false, m;
      }
      var id: int := *;
      if id < 0 || id in disk.dirs || (disk.manifest.Some? && disk.manifest.value.id == id) {
        return false, m;  // mkdir refuses; a fresh UUID does not collide
      }
      ok, m := WriteCheckpoint(id, running.value, image.value, version);
    }

    method WriteCheckpoint(id: CheckpointId, hash: Hash, image: string, version: string)
      returns (ok: bool, ghost m: Manifest)
      requires id !in disk.dirs && (disk.manifest.Some? ==> disk.manifest.value.id != id)
      requires VersionFromImage(image) == Some(version)
      modifies `disk, `trail
      ensures disk.compose == old(disk.compose)
      ensures OldOrNew(env, old(disk), disk, m)
      ensures ok ==>
        && disk.manifest == Some(m) && Complete(env, m, disk.dirs)
        && m.configHash == hash && m.version == version
        && CopiesOf(env, disk.dirs[m.id], disk.compose)
      ensures old(trail) <= trail
      ensures forall i :: |old(trail)| <= i < |trail| ==> OldOrNew(env, old(disk), trail[i], m)
    {
      m := Manifest(0, 0, "", "", []);
      ok := CopyFiles(id);
      var written := Chance();
      if !ok || !written {
        RemoveDirectory(id);
        return false, m;
      }
      var manifest := ManifestFor(env, id, hash, image, version, disk.compose);
      m := manifest;
      CopiesAreComplete(env, m, disk.dirs, disk.compose);
      ghost var published, copied := disk.(manifest := Some(m)), trail;
      ok := Publish(manifest);
      SameDirectoryHeld(env, m, published, disk);
      TrailHeld(env, m, published, trail, |copied|);
    }

    /** The manifest file is replaced in one step, then the rest is pruned,
        unless listing the directories raises. */
    method Publish(m: Manifest) returns (ok: bool)
      requires m.id in disk.dirs
      modifies `disk, `trail
      ensures disk.compose == old(disk.compose)
      ensures SameCheckpoint(old(disk).(manifest := Some(m)), disk)
      ensures old(trail) <= trail
      ensures forall i :: |old(trail)| <= i < |trail| ==> SameCheckpoint(old(disk).(manifest := Some(m)), trail[i])
    {
      Write(disk.(manifest := Some(m)));
      ok := Chance();
      if ok {
        PruneOthers(m);
      }
    }

    /** The copy loop: each destination appears empty or partly written first,
        then complete, then with its mode; nothing else on the disk changes. */
    method CopyFiles(id: CheckpointId) returns (ok: bool)
      requires id !in disk.dirs
      requires disk.manifest.Some? ==> disk.manifest.value.id != id
      modifies `disk, `trail
      ensures disk.compose == old(disk.compose) && id in disk.dirs
      ensures SameCheckpoint(old(disk), disk)
      ensures ok ==> CopiesOf(env, disk.dirs[id], disk.compose)
      ensures ok ==> forall p :: p in env.paths ==> Readable(disk.dirs[id][p])
      ensures old(trail) <= trail
      ensures forall i :: |old(trail)| <= i < |trail| ==> SameCheckpoint(old(disk), trail[i])
    {
      ghost var before := disk;
      Write(disk.(dirs := disk.dirs[id := map[]]));
      for i := 0 to |env.paths|
        invariant disk.compose == before.compose && id in disk.dirs
        invariant SameCheckpoint(before, disk)
        invariant forall j :: 0 <= j < i ==>
                    && env.paths[j] in disk.compose
                    && env.paths[j] in disk.dirs[id]
                    && disk.dirs[id][env.paths[j]] == disk.compose[env.paths[j]]
                    && Readable(disk.compose[env.paths[j]])
        invariant old(trail) <= trail
        invariant forall k :: |old(trail)| <= k < |trail| ==> SameCheckpoint(before, trail[k])
      {
        var path := env.paths[i];
        if path !in disk.compose || !Readable(disk.compose[path]) {
          return false;
        }
        var source := disk.compose[path];
        var upTo: int := *;
        var partial := if 0 <= upTo <= |source.content| then source.content[..upTo] else source.content;
        Write(disk.(dirs := disk.dirs[id := disk.dirs[id][path := File(partial, 0)]]));
        var written := Chance();
        if !written {
          return false;
        }
        Write(disk.(dirs := disk.dirs[id := disk.dirs[id][path := source]]));
      }
      ok := true;
    }

    /** `rmtree(..., ignore_errors=True)`: files disappear one after the other
        and any of them may stay. */
    method RemoveDirectory(id: CheckpointId)
      requires disk.manifest.Some? ==> disk.manifest.value.id != id
      modifies `disk, `trail
      ensures disk.compose == old(disk.compose) && disk.manifest == old(disk.manifest)
      ensures forall other :: other != id ==>
                (other in disk.dirs <==> other in old(disk.dirs))
                && (other in disk.dirs ==> disk.dirs[other] == old(disk.dirs)[other])
      ensures SameCheckpoint(old(disk), disk)
      ensures old(trail) <= trail
      ensures forall i :: |old(trail)| <= i < |trail| ==> SameCheckpoint(old(disk), trail[i])
    {
      ghost var before := disk;
      if id !in disk.dirs {
        return;
      }
      var todo := disk.dirs[id].Keys;
      while todo != {}
        invariant id in disk.dirs
        invariant disk == before.(dirs := before.dirs[id := disk.dirs[id]])
        invariant old(trail) <= trail
        invariant forall k :: |old(trail)| <= k < |trail| ==> SameCheckpoint(before, trail[k])
        decreases todo
      {
        var path := Pick(todo);
        var removed := Chance();
        if removed {
          Write(disk.(dirs := disk.dirs[id := disk.dirs[id] - {path}]));
        }
        todo := todo - {path};
      }
      var removed := Chance();
      if removed {
        Write(disk.(dirs := disk.dirs - {id}));
      }
    }

    /** `_prune_old_checkpoints` */
    method PruneOthers(m: Manifest)
      requires disk.manifest == Some(m) && m.id in disk.dirs
      modifies `disk, `trail
      ensures disk.compose == old(disk.compose) && SameCheckpoint(old(disk), disk)
      ensures old(trail) <= trail
      ensures forall i :: |old(trail)| <= i < |trail| ==> SameCheckpoint(old(disk), trail[i])
    {
      ghost var before := disk;
      var todo := disk.dirs.Keys - {m.id};
      while todo != {}
        invariant m.id !in todo
        invariant disk.compose == before.compose && disk.manifest == Some(m)
        invariant SameCheckpoint(before, disk)
        invariant old(trail) <= trail
        invariant forall k :: |old(trail)| <= k < |trail| ==> SameCheckpoint(before, trail[k])
        decreases todo
      {
        var id := Pick(todo);
        RemoveDirectory(id);
        todo := todo - {id};
      }
    }

    /** The checkpoint of the running container: the stored one if its hash is
        the running one, else a new one made from matching compose files. */
    method EnsureCheckpoint(version: string) returns (checkpoint: Option<Manifest>)
      modifies `disk, `trail
      ensures disk.compose == old(disk.compose)
      ensures old(trail) <= trail
      ensures Intact(env, old(disk)) ==> Intact(env, disk)
      ensures Intact(env, old(disk)) ==> IntactSince(env, trail, |old(trail)|)
      ensures checkpoint.Some? ==>
        && Load(env, disk) == Found(checkpoint.value)
        && container.Some? && container.value.configHash == Some(checkpoint.value.configHash)
        && checkpoint.value.version == version
    {
      var stored := LoadCheckpoint(env, disk);
      if stored.Invalid? {
        return None;
      }
      var running, asked := CurrentConfigHash();
      if running.None? {
        return None;
      }
      if stored.Found? && stored.manifest.configHash == running.value {
        checkpoint := if stored.manifest.version == version then Some(stored.manifest) else None;
        return;
      }
      var compose, answered := ComposeConfigHash();
      if compose != running {
        return None;
      }
      var ok, m := SaveCheckpoint(version);
      forall i | |old(trail)| <= i < |trail| ensures Intact(env, old(disk)) ==> Intact(env, trail[i]) {
        StaysIntact(env, old(disk), trail[i], m);
      }
      StaysIntact(env, old(disk), disk, m);
      if !ok {
        return None;
      }
      var saved := LoadCheckpoint(env, disk);
      checkpoint := if saved.Found? then Some(saved.manifest) else None;
    }

    /** Writes the checkpoint's files back over the compose files. */
    method RestoreCheckpoint(checkpoint: Manifest) returns (ok: bool)
      requires Held(env, checkpoint, disk.dirs)
      modifies `disk, `trail
      ensures disk == old(disk).(compose := disk.compose)
      ensures ok ==> env.configHash(disk.compose) == checkpoint.configHash
      ensures ok ==> TextsOf(env, disk.dirs[checkpoint.id], disk.compose)
      ensures PartlyRestored(env.paths, disk.dirs[checkpoint.id], old(disk.compose), disk.compose)
      ensures old(trail) <= trail
      ensures forall i :: |old(trail)| <= i < |trail| ==> SameCheckpoint(old(disk), trail[i])
    {
      ghost var before := disk;
      for i := 0 to |env.paths|
        invariant disk == before.(compose := disk.compose)
        invariant RestoredUpTo(env.paths, i, disk.dirs[checkpoint.id], before.compose, disk.compose)
        invariant old(trail) <= trail
        invariant forall k :: |old(trail)| <= k < |trail| ==> SameCheckpoint(before, trail[k])
      {
        ok := RestoreFile(checkpoint, i, before.compose);
        if !ok {
          return;
        }
      }
      assert env.paths[..|env.paths|] == env.paths;
      var compose, answered := ComposeConfigHash();
      ok := compose == Some(checkpoint.configHash);
    }

    method RestoreFile(checkpoint: Manifest, i: nat, ghost before: map<Path, File>) returns (ok: bool)
      requires Held(env, checkpoint, disk.dirs) && i < |env.paths|
      requires RestoredUpTo(env.paths, i, disk.dirs[checkpoint.id], before, disk.compose)
      modifies `disk, `trail
      ensures disk == old(disk).(compose := disk.compose)
      ensures PartlyRestored(env.paths, disk.dirs[checkpoint.id], before, disk.compose)
      ensures ok ==> RestoredUpTo(env.paths, i + 1, disk.dirs[checkpoint.id], before, disk.compose)
      ensures trail == old(trail) || trail == old(trail) + [disk]
    {
      var entry := checkpoint.files[i];
      assert EntryPaths(checkpoint.files)[i] == entry.path == env.paths[i];
      assert EntryMatches(env, disk.dirs[checkpoint.id], entry);
      var written := Chance();
      if !written {
        return false;
      }
      var content := ReadText(disk.dirs[checkpoint.id][entry.path].content);
      RestoredFurther(env.paths, i, disk.dirs[checkpoint.id], before, disk.compose);
      Write(disk.(compose := disk.compose[entry.path := File(content, entry.mode)]));
      ok := true;
    }

    // ------------------------------------------------------------- the whole thing

    /** Success and roll-back both end with the running container, the compose
        files and the stored checkpoint in agreement; a roll-back is back at
        the configuration that ran before, at a version that was running
        before. No step leaves a checkpoint that is not intact. */
    method PerformRecreate(forceRecreate: bool) returns (result: Outcome, ghost steps: Steps)
      modifies `disk, `trail, `container
      ensures RecreateKept(env, old(container), old(disk.compose), container, disk, result)
      ensures result == OutcomeOf(steps)
      ensures old(trail) <= trail
      ensures Intact(env, old(disk)) ==> Intact(env, disk)
      ensures Intact(env, old(disk)) ==> IntactSince(env, trail, |old(trail)|)
    {
      var version := SafeCurrentVersion(container);
      steps := Steps(version.Some?, false, false, false, false, false, false, false, false, false);
      if version.None? {
        return Raised, steps;
      }
      var valid, rounds := ValidateRuntime(container, version.value);
      steps := steps.(valid := valid);
      if !valid {
        return Raised, steps;
      }
      var checkpoint := EnsureCheckpoint(version.value);
      steps := steps.(secured := checkpoint.Some?);
      if checkpoint.None? {
        return Raised, steps;
      }
      var previousId := SafeContainerId();
      ghost var before := container;
      var started, passed := StartNew(forceRecreate, version.value);
      steps := steps.(up := started, passed := passed);
      if passed {
        result, steps := Keep(checkpoint.value, before, steps);
      } else {
        result, steps := TakeBack(checkpoint.value, previousId, before, steps);
      }
    }

    method Keep(checkpoint: Manifest, ghost before: Option<Container>, ghost begun: Steps)
      returns (result: Outcome, ghost steps: Steps)
      requires Load(env, disk) == Found(checkpoint) && begun.known && begun.valid && begun.secured && begun.up && begun.passed
      requires before.Some? && Reports(before.value, checkpoint.version)
      requires container.Some? && Reports(container.value, checkpoint.version)
      requires container.value.configHash == Some(env.configHash(disk.compose))
      modifies `disk, `trail
      ensures result != Raised && result == OutcomeOf(steps)
      ensures RecreateKept(env, before, old(disk.compose), container, disk, result)
      ensures old(trail) <= trail && Intact(env, disk)
      ensures IntactSince(env, trail, |old(trail)|)
    {
      LoadedIs(env, disk, checkpoint);
      ghost var recorded, saved, heartbeat;
      result, recorded, saved, heartbeat := KeepNew(checkpoint.version);
      steps := begun.(recorded := recorded, saved := saved, heartbeat := heartbeat);
      NewIsKept(env, before, old(disk.compose), container, disk, result, checkpoint.version);
    }

    method TakeBack(checkpoint: Manifest, previousId: Option<nat>, ghost before: Option<Container>, ghost begun: Steps)
      returns (result: Outcome, ghost steps: Steps)
      requires Load(env, disk) == Found(checkpoint) && begun.known && begun.valid && begun.secured && !begun.passed
      requires before.Some? && Reports(before.value, checkpoint.version)
      requires before.value.configHash == Some(checkpoint.configHash)
      modifies `disk, `trail, `container
      ensures result != Raised && result == OutcomeOf(steps)
      ensures RecreateKept(env, before, old(disk.compose), container, disk, result)
      ensures old(trail) <= trail && Intact(env, disk)
      ensures IntactSince(env, trail, |old(trail)|)
    {
      ghost var restored, recovered;
      result, restored, recovered := Recover(checkpoint, previousId);
      steps := begun.(restored := restored, recovered := recovered);
      OldIsBack(env, before, old(disk), container, disk, result, checkpoint);
    }

    method StartNew(forceRecreate: bool, version: string) returns (up: bool, valid: bool)
      modifies `container
      ensures valid ==> up && container.Some? && Reports(container.value, version)
                        && container.value.configHash == Some(env.configHash(disk.compose))
    {
      up := ComposeUp(forceRecreate);
      valid := false;
      if up {
        valid := RuntimeIsValid(version);
      }
    }

    method KeepNew(version: string)
      returns (result: Outcome, ghost recorded: bool, ghost saved: bool, ghost heartbeat: bool)
      requires container.Some? && Reports(container.value, version)
      requires container.value.configHash == Some(env.configHash(disk.compose))
      modifies `disk, `trail
      ensures result == if recorded && saved && heartbeat then Success else MetadataFailed
      ensures disk.compose == old(disk.compose)
      ensures result == Success ==>
        && disk.manifest.Some?
        && disk.manifest.value.configHash == env.configHash(disk.compose)
        && disk.manifest.value.version == version
        && Complete(env, disk.manifest.value, disk.dirs)
        && CopiesOf(env, disk.dirs[disk.manifest.value.id], disk.compose)
      ensures old(trail) <= trail
      ensures Intact(env, old(disk)) ==> Intact(env, disk)
      ensures Intact(env, old(disk)) ==> IntactSince(env, trail, |old(trail)|)
    {
      var noted := Chance();
      var stored, m := SaveCheckpoint(version);
      forall i | |old(trail)| <= i < |trail| ensures Intact(env, old(disk)) ==> Intact(env, trail[i]) {
        StaysIntact(env, old(disk), trail[i], m);
      }
      StaysIntact(env, old(disk), disk, m);
      var beat := Chance();
      recorded, saved, heartbeat := noted, stored, beat;
      result := if noted && stored && beat then Success else MetadataFailed;
    }

    /** `_recover`: restores the compose files and recreates the container,
        unless it is still the original one and already matches them. */
    method Recover(checkpoint: Manifest, originalId: Option<nat>)
      returns (result: Outcome, ghost restored: bool, ghost recovered: bool)
      requires Load(env, disk) == Found(checkpoint)
      modifies `disk, `trail, `container
      ensures result == if restored && recovered then RolledBack else RollbackFailed
      ensures disk == old(disk).(compose := disk.compose)
      ensures result == RolledBack ==>
        && container.Some? && Reports(container.value, checkpoint.version)
        && container.value.configHash == Some(env.configHash(disk.compose))
        && env.configHash(disk.compose) == checkpoint.configHash
        && TextsOf(env, disk.dirs[checkpoint.id], disk.compose)
      ensures PartlyRestored(env.paths, disk.dirs[checkpoint.id], old(disk.compose), disk.compose)
      ensures old(trail) <= trail
      ensures forall i :: |old(trail)| <= i < |trail| ==> SameCheckpoint(old(disk), trail[i])
      ensures Intact(env, disk)
      ensures IntactSince(env, trail, |old(trail)|)
    {
      result, restored, recovered := RestoreAndRecover(checkpoint, originalId);
      LoadedIs(env, old(disk), checkpoint);
      TrailIntact(env, old(disk), disk, trail, |old(trail)|);
    }

    method RestoreAndRecover(checkpoint: Manifest, originalId: Option<nat>)
      returns (result: Outcome, ghost restored: bool, ghost recovered: bool)
      requires Held(env, checkpoint, disk.dirs)
      modifies `disk, `trail, `container
      ensures result == if restored && recovered then RolledBack else RollbackFailed
      ensures disk == old(disk).(compose := disk.compose)
      ensures result == RolledBack ==>
        && container.Some? && Reports(container.value, checkpoint.version)
        && container.value.configHash == Some(env.configHash(disk.compose))
        && env.configHash(disk.compose) == checkpoint.configHash
        && TextsOf(env, disk.dirs[checkpoint.id], disk.compose)
      ensures PartlyRestored(env.paths, disk.dirs[checkpoint.id], old(disk.compose), disk.compose)
      ensures old(trail) <= trail
      ensures forall i :: |old(trail)| <= i < |trail| ==> SameCheckpoint(old(disk), trail[i])
    {
      var written := RestoreCheckpoint(checkpoint);
      restored, recovered, result := written, false, RollbackFailed;
      if written {
        var running := RecoverContainer(checkpoint.version, originalId);
        recovered := running;
        result := if running then RolledBack else RollbackFailed;
      }
    }

    /** `_runtime_is_valid` */
    method RuntimeIsValid(version: string) returns (ok: bool)
      ensures ok ==> container.Some? && Reports(container.value, version)
                     && container.value.configHash == Some(env.configHash(disk.compose))
    {
      var valid, rounds := ValidateRuntime(container, version);
      ok := valid;
      if ok {
        ghost var asked;
        ok, asked := RuntimeMatchesCompose();
      }
    }

    method RecoverContainer(version: string, originalId: Option<nat>) returns (ok: bool)
      modifies `container
      ensures ok ==> container.Some? && Reports(container.value, version)
                     && container.value.configHash == Some(env.configHash(disk.compose))
    {
      var currentId := SafeContainerId();
      if currentId == originalId {
        ok := RuntimeIsValid(version);
        if ok {
          return;
        }
      }
      ok := ComposeUp(true);
      if ok {
        ok := RuntimeIsValid(version);
      }
    }
  }

  /** Every configured file has been copied, content and mode. */
  ghost predicate CopiesOf(env: Env, dir: map<Path, File>, compose: map<Path, File>) {
    forall i :: 0 <= i < |env.paths| ==>
      && env.paths[i] in compose && env.paths[i] in dir && dir[env.paths[i]] == compose[env.paths[i]]
  }

  /** Every configured file holds the text of its copy and has its mode. */
  ghost predicate TextsOf(env: Env, dir: map<Path, File>, compose: map<Path, File>) {
    TextsOfFirst(env.paths, dir, compose)
  }

  ghost predicate TextsOfFirst(paths: seq<Path>, dir: map<Path, File>, compose: map<Path, File>) {
    forall p :: p in paths ==> p in compose && p in dir && compose[p] == TextOf(dir[p])
  }

  /** What a restore that may have stopped half-way leaves. */
  ghost predicate PartlyRestored(paths: seq<Path>, dir: map<Path, File>, before: map<Path, File>, compose: map<Path, File>) {
    && (forall p :: p in before ==> p in compose)
    && (forall p :: p in compose ==>
          || (p in before && compose[p] == before[p])
          || (p in paths && p in dir && compose[p] == TextOf(dir[p])))
  }

  ghost predicate RestoredUpTo(paths: seq<Path>, i: nat, dir: map<Path, File>, before: map<Path, File>, compose: map<Path, File>)
    requires i <= |paths|
  {
    TextsOfFirst(paths[..i], dir, compose) && PartlyRestored(paths, dir, before, compose)
  }

  lemma RestoredFurther(paths: seq<Path>, i: nat, dir: map<Path, File>, before: map<Path, File>, compose: map<Path, File>)
    requires i < |paths| && paths[i] in dir && RestoredUpTo(paths, i, dir, before, compose)
    ensures RestoredUpTo(paths, i + 1, dir, before, compose[paths[i] := TextOf(dir[paths[i]])])
  {
    assert paths[..i + 1] == paths[..i] + [paths[i]];
  }

  /** What a recreate promises, by outcome: `before` and `compose` are what ran
      and what was configured at its start. */
  ghost predicate RecreateKept(env: Env, before: Option<Container>, compose: map<Path, File>,
                               now: Option<Container>, d: Disk, result: Outcome) {
    match result
    case Raised => now == before && d.compose == compose
    case Success =>
      && Runs(env, before, now, d.compose) && d.compose == compose
      && d.manifest.Some? && Complete(env, d.manifest.value, d.dirs)
      && d.manifest.value.configHash == env.configHash(compose)
      && CopiesOf(env, d.dirs[d.manifest.value.id], compose)
      && Reports(before.value, d.manifest.value.version) && Reports(now.value, d.manifest.value.version)
    case MetadataFailed => Runs(env, before, now, d.compose) && d.compose == compose
    case RolledBack =>
      && Runs(env, before, now, d.compose) && now.value.configHash == before.value.configHash
      && d.manifest.Some? && Load(env, d) == Found(d.manifest.value)
      && d.manifest.value.configHash == env.configHash(d.compose)
      && TextsOf(env, d.dirs[d.manifest.value.id], d.compose)
      && Reports(before.value, d.manifest.value.version) && Reports(now.value, d.manifest.value.version)
    case RollbackFailed =>
      && before.Some? && d.manifest.Some? && Load(env, d) == Found(d.manifest.value)
      && before.value.configHash == Some(d.manifest.value.configHash)
      && PartlyRestored(env.paths, d.dirs[d.manifest.value.id], compose, d.compose)
  }

  /** The container runs the compose files, at a version that ran before. */
  ghost predicate Runs(env: Env, before: Option<Container>, now: Option<Container>, compose: map<Path, File>) {
    && before.Some? && now.Some? && now.value.configHash == Some(env.configHash(compose))
    && exists version :: Reports(before.value, version) && Reports(now.value, version)
  }

  lemma NewIsKept(env: Env, before: Option<Container>, compose: map<Path, File>,
                  now: Option<Container>, d: Disk, result: Outcome, version: string)
    requires before.Some? && now.Some? && Reports(before.value, version) && Reports(now.value, version)
    requires now.value.configHash == Some(env.configHash(compose)) && d.compose == compose
    requires result == Success || result == MetadataFailed
    requires result == Success ==>
      && d.manifest.Some?
      && d.manifest.value.configHash == env.configHash(d.compose)
      && d.manifest.value.version == version
      && Complete(env, d.manifest.value, d.dirs)
      && CopiesOf(env, d.dirs[d.manifest.value.id], d.compose)
    ensures RecreateKept(env, before, compose, now, d, result)
  {
  }

  lemma OldIsBack(env: Env, before: Option<Container>, was: Disk,
                  now: Option<Container>, d: Disk, result: Outcome, checkpoint: Manifest)
    requires Load(env, was) == Found(checkpoint) && d == was.(compose := d.compose)
    requires before.Some? && Reports(before.value, checkpoint.version)
    requires before.value.configHash == Some(checkpoint.configHash)
    requires result == RolledBack || result == RollbackFailed
    requires result == RolledBack ==>
      && now.Some? && Reports(now.value, checkpoint.version)
      && now.value.configHash == Some(env.configHash(d.compose))
      && env.configHash(d.compose) == checkpoint.configHash
      && TextsOf(env, d.dirs[checkpoint.id], d.compose)
    requires PartlyRestored(env.paths, d.dirs[checkpoint.id], was.compose, d.compose)
    ensures RecreateKept(env, before, was.compose, now, d, result)
  {
  }

  lemma TrailHeld(env: Env, m: Manifest, published: Disk, trail: seq<Disk>, from: nat)
    requires published.manifest == Some(m) && Complete(env, m, published.dirs)
    requires forall i :: from <= i < |trail| ==> SameCheckpoint(published, trail[i])
    ensures forall i :: from <= i < |trail| ==> trail[i].manifest == Some(m) && Complete(env, m, trail[i].dirs)
  {
    forall i | from <= i < |trail| ensures trail[i].manifest == Some(m) && Complete(env, m, trail[i].dirs) {
      SameDirectoryHeld(env, m, published, trail[i]);
    }
  }

  /** Every disk state recorded from `from` on is intact. */
  ghost predicate IntactSince(env: Env, trail: seq<Disk>, from: nat) {
    forall i :: from <= i < |trail| ==> Intact(env, trail[i])
  }

  lemma TrailIntact(env: Env, before: Disk, d: Disk, trail: seq<Disk>, from: nat)
    requires Intact(env, before) && d == before.(compose := d.compose)
    requires forall i :: from <= i < |trail| ==> SameCheckpoint(before, trail[i])
    ensures Intact(env, d) && IntactSince(env, trail, from)
  {
    forall i | from <= i < |trail| ensures Intact(env, trail[i]) {
      SameCheckpointLoadsSame(env, before, trail[i]);
    }
  }

  lemma LoadedIs(env: Env, d: Disk, checkpoint: Manifest)
    requires Load(env, d) == Found(checkpoint)
    ensures d.manifest == Some(checkpoint) && Held(env, checkpoint, d.dirs) && Intact(env, d)
  {
  }

  lemma StaysIntact(env: Env, before: Disk, d: Disk, m: Manifest)
    requires OldOrNew(env, before, d, m)
    ensures Intact(env, before) ==> Intact(env, d)
  {
    if SameCheckpoint(before, d) {
      SameCheckpointLoadsSame(env, before, d);
    }
  }

  lemma CopiesAreComplete(env: Env, m: Manifest, dirs: map<CheckpointId, map<Path, File>>, compose: map<Path, File>)
    requires m.id in dirs && CopiesOf(env, dirs[m.id], compose)
    requires forall p :: p in env.paths ==> Readable(dirs[m.id][p])
    requires m == ManifestFor(env, m.id, m.configHash, m.image, m.version, compose)
    requires VersionFromImage(m.image) == Some(m.version)
    ensures Complete(env, m, dirs)
  {
    CopiesAreHeld(env, m, dirs, compose);
  }

  lemma CopiesAreHeld(env: Env, m: Manifest, dirs: map<CheckpointId, map<Path, File>>, compose: map<Path, File>)
    requires m.id in dirs && CopiesOf(env, dirs[m.id], compose)
    requires forall p :: p in env.paths ==> Readable(dirs[m.id][p])
    requires m == ManifestFor(env, m.id, m.configHash, m.image, m.version, compose)
    ensures Held(env, m, dirs)
  {
    assert EntryPaths(m.files) == env.paths;
    forall i | 0 <= i < |m.files| ensures EntryMatches(env, dirs[m.id], m.files[i]) {
      assert env.paths[i] in env.paths;
    }
  }
}
