/** The host-side patch update: preflight, backup, image swap in the compose
    file, `compose up`, validation and roll-back. External commands fail or
    succeed at will and `compose up` may leave any container behind. */
module PatchUpdate {
  import opened Counters
  import opened HostFiles
  import opened HostRuntime

  datatype World = World(files: map<Path, File>, container: Option<Container>)

  datatype Outcome = Rejected | Success | RolledBack | RollbackFailed | Raised

  // --------------------------------------------------------------- text replacement

  predicate OccursAt(text: string, needle: string, i: int) {
    0 <= i && i + |needle| <= |text| && text[i..i + |needle|] == needle
  }

  /** `text.count(needle)`: non-overlapping occurrences, left to right. */
  function Count(text: string, needle: string): nat
    requires needle != []
  {
    if |text| < |needle| then 0
    else if text[..|needle|] == needle then 1 + Count(text[|needle|..], needle)
    else Count(text[1..], needle)
  }

  /** `text.replace(needle, swap, 1)` */
  function ReplaceFirst(text: string, needle: string, swap: string): string
    requires needle != []
  {
    if |text| < |needle| then text
    else if text[..|needle|] == needle then swap + text[|needle|..]
    else [text[0]] + ReplaceFirst(text[1..], needle, swap)
  }

  /** `after` is `before` with its one occurrence of `needle` exchanged. */
  ghost predicate OneSwap(before: string, after: string, needle: string, swap: string) {
    exists i :: SwappedAt(before, after, needle, swap, i)
  }

  ghost predicate SwappedAt(before: string, after: string, needle: string, swap: string, i: int) {
    && OccursAt(before, needle, i)
    && after == before[..i] + swap + before[i + |needle|..]
    && (forall j {:trigger OccursAt(before, needle, j)} :: j < i ==> !OccursAt(before, needle, j))
    && (forall j {:trigger OccursAt(before, needle, j)} :: i + |needle| <= j ==> !OccursAt(before, needle, j))
  }

  lemma {:induction false} OccurrenceIsCounted(text: string, needle: string, j: nat)
    requires needle != [] && OccursAt(text, needle, j)
    ensures Count(text, needle) >= 1
  {
    if text[..|needle|] != needle {
      assert j > 0;
      SliceOfTail(text, j, |needle|);
      OccurrenceIsCounted(text[1..], needle, j - 1);
    }
  }

  /** The number of places, from `from` on, at which `needle` stands. */
  ghost function Places(text: string, needle: string, from: nat): nat
    decreases |text| - from
  {
    if from >= |text| then 0
    else Places(text, needle, from + 1) + if OccursAt(text, needle, from) then 1 else 0
  }

  /** Where no two occurrences overlap, all of them are counted. */
  lemma {:induction false} CountsAllPlaces(text: string, needle: string, from: nat)
    requires needle != [] && from <= |text|
    requires forall i, j :: OccursAt(text, needle, i) && OccursAt(text, needle, j) && i < j ==> i + |needle| <= j
    ensures Count(text[from..], needle) == Places(text, needle, from)
    decreases |text| - from
  {
    var rest, n := text[from..], |needle|;
    if |rest| < n {
      NoPlaces(text, needle, from, |text|);
    } else {
      assert text[from..from + n] == rest[..n];
      var next := if OccursAt(text, needle, from) then from + n else from + 1;
      assert rest[next - from..] == text[next..];
      NoPlaces(text, needle, from + 1, next);
      CountsAllPlaces(text, needle, next);
    }
  }

  lemma {:induction false} NoPlaces(text: string, needle: string, from: nat, to: nat)
    requires from <= to <= |text| && forall i :: from <= i < to ==> !OccursAt(text, needle, i)
    ensures Places(text, needle, from) == Places(text, needle, to)
    decreases |text| - from
  {
    if from < to { NoPlaces(text, needle, from + 1, to); }
  }

  lemma LaterOccurrenceIsCounted(text: string, needle: string, j: nat)
    requires needle != [] && |needle| <= j && |needle| <= |text|
    ensures OccursAt(text, needle, j) ==> Count(text[|needle|..], needle) >= 1
  {
    if OccursAt(text, needle, j) {
      assert text[|needle|..][j - |needle|..j] == text[j..j + |needle|];
      OccurrenceIsCounted(text[|needle|..], needle, j - |needle|);
    }
  }

  lemma {:induction false} ReplacesTheOccurrence(text: string, needle: string, swap: string) returns (i: nat)
    requires needle != [] && Count(text, needle) == 1
    ensures SwappedAt(text, ReplaceFirst(text, needle, swap), needle, swap, i)
  {
    if text[..|needle|] == needle {
      i := 0;
      assert text[0..|needle|] == text[..|needle|];
      forall j {:trigger OccursAt(text, needle, j)} | |needle| <= j
        ensures OccursAt(text, needle, j) ==> Count(text[|needle|..], needle) >= 1
      {
        LaterOccurrenceIsCounted(text, needle, j);
      }
      assert text[..0] + swap == swap;
    } else {
      var k := ReplacesTheOccurrence(text[1..], needle, swap);
      i := k + 1;
      SwappedLater(text, ReplaceFirst(text[1..], needle, swap), needle, swap, k);
    }
  }

  lemma SliceOfTail(text: string, j: nat, n: nat)
    requires 0 < j && j + n <= |text|
    ensures text[1..][j - 1..j - 1 + n] == text[j..j + n]
  {
  }

  lemma SwappedLater(text: string, rest: string, needle: string, swap: string, k: nat)
    requires needle != [] && text != [] && !(|needle| <= |text| && text[..|needle|] == needle)
    requires SwappedAt(text[1..], rest, needle, swap, k)
    ensures SwappedAt(text, [text[0]] + rest, needle, swap, k + 1)
  {
    forall j: int ensures j > 0 ==> OccursAt(text, needle, j) == OccursAt(text[1..], needle, j - 1) {
      if j > 0 && j + |needle| <= |text| {
        SliceOfTail(text, j, |needle|);
      }
    }
    assert |needle| <= |text| ==> text[0..|needle|] == text[..|needle|];
    var cut := k + |needle|;
    assert text[1..][cut..] == text[cut + 1..];
    assert text[..k + 1] == [text[0]] + text[1..][..k];
  }

  // ------------------------------------------------------------------ what is promised

  function Needle(image: string): string { "image: " + image }

  /** Exactly one file differs, in its one occurrence of the running image
      (and, if it had any, in carriage returns). */
  ghost predicate SwappedImage(before: World, after: World, path: Path, current: string, target: string) {
    && path in before.files && path in after.files
    && after.files == before.files[path := after.files[path]]
    && after.files[path].mode == before.files[path].mode
    && OneSwap(ReadText(before.files[path].content), after.files[path].content, Needle(current), Needle(target))
  }

  /** `path` has the one occurrence of the image among all compose files. */
  ghost predicate OnlyIn(paths: seq<Path>, files: map<Path, File>, path: Path, image: string)
    requires forall p :: p in paths ==> p in files
  {
    && path in paths && Count(ReadText(files[path].content), Needle(image)) == 1
    && forall p :: p in paths && p != path ==> Count(ReadText(files[p].content), Needle(image)) == 0
  }

  ghost predicate ImageSwappedIn(paths: seq<Path>, before: World, after: World, current: string, target: string) {
    && (forall p :: p in paths ==> p in before.files)
    && exists path :: OnlyIn(paths, before.files, path, current) && SwappedImage(before, after, path, current, target)
  }

  function TargetImage(image: string, target: string): string
    requires LastColon(image) >= 0
  {
    Repository(image) + ":" + target
  }

  /** What a compose file can look like when an update stops anywhere. */
  ghost predicate FileIs(before: File, after: File, current: string, target: string) {
    || after == before || after == TextOf(before)
    || (after.mode == before.mode && OneSwap(ReadText(before.content), after.content, Needle(current), Needle(target)))
  }

  ghost predicate FilesAccounted(paths: seq<Path>, before: World, after: World, target: string) {
    && before.container.Some? && LastColon(before.container.value.image) >= 0
    && var image := before.container.value.image;
       forall p :: p in before.files && p in after.files ==>
         FileIs(before.files[p], after.files[p], image, TargetImage(image, target))
  }

  datatype Preflight = Preflight(image: string, version: string, targetImage: string, file: Path)

  const OFFICIAL: set<string> := {
    "traefik", "docker.io/library/traefik", "registry-1.docker.io/library/traefik"
  }

  /** An image the update can start from: an official one with a pinned version,
      which is the target itself or an earlier patch of the same major.minor. */
  ghost predicate Updatable(image: string, target: string) {
    exists repository, tag :: ImageParts(image, repository, tag) && Reaches(tag, target)
  }

  ghost predicate ImageParts(image: string, repository: string, tag: string) {
    && image == repository + ":" + tag
    && repository in {"traefik", "docker.io/library/traefik", "registry-1.docker.io/library/traefik"}
  }

  predicate Reaches(tag: string, target: string) {
    var x, y := ParseVersion(tag), ParseVersion(target);
    && x.Some? && y.Some? && x.value.major == y.value.major && x.value.minor == y.value.minor
    && (tag == target || x.value.patch < y.value.patch)
  }

  lemma ReachesIs(tag: string, target: string)
    ensures Reaches(tag, target) <==> ParseVersion(tag).Some? && (tag == target || IsForwardPatch(tag, target))
  {
  }

  lemma UpdatableIs(image: string, target: string)
    ensures Updatable(image, target)
       <==> LastColon(image) >= 0 && Repository(image) in OFFICIAL && VersionFromImage(image).Some?
            && (VersionFromImage(image).value == target || IsForwardPatch(VersionFromImage(image).value, target))
  {
    if repository, tag :| ImageParts(image, repository, tag) && Reaches(tag, target) {
      PartsOf(image, repository, tag, target);
    }
    if LastColon(image) >= 0 && VersionFromImage(image).Some? && Repository(image) in OFFICIAL {
      TagParts(image, LastColon(image));
      ReachesIs(VersionFromImage(image).value, target);
    }
  }

  lemma PartsOf(image: string, repository: string, tag: string, target: string)
    requires ImageParts(image, repository, tag) && Reaches(tag, target)
    ensures LastColon(image) >= 0 && Repository(image) == repository && repository in OFFICIAL
    ensures VersionFromImage(image) == Some(tag) && (tag == target || IsForwardPatch(tag, target))
  {
    ReachesIs(tag, target);
    TagOfComposedImage(repository, tag);
    ColonOfComposedImage(repository, tag);
  }

  lemma TagParts(image: string, colon: nat)
    requires colon < |image| && image[colon] == ':' && image[..colon] in OFFICIAL
    ensures ImageParts(image, image[..colon], image[colon + 1..])
  {
    assert image == image[..colon] + ":" + image[colon + 1..];
  }

  /** What the preflight has established. */
  ghost predicate PlanFits(paths: ComposePaths, w: World, plan: Preflight, target: string) {
    && w.container.Some? && plan.image == w.container.value.image
    && VersionFromImage(plan.image) == Some(plan.version)
    && (plan.version == target || IsForwardPatch(plan.version, target))
    && LastColon(plan.image) >= 0 && Repository(plan.image) in OFFICIAL
    && plan.targetImage == TargetImage(plan.image, target)
    && (forall p :: p in paths ==> p in w.files)
    && Occurrences(paths, w.files, plan.image) == 1 && OnlyIn(paths, w.files, plan.file, plan.image)
  }

  /** The request was admitted: for the running version itself, or for a later
      patch of it. */
  ghost predicate Admitted(paths: ComposePaths, w: World, target: string, again: bool) {
    exists plan :: PlanFits(paths, w, plan, target) && (plan.version == target <==> again)
  }

  /** The promise of one processed request. Everything but a rejection, and an
      error raised before anything was changed, follows on an admission. */
  ghost predicate UpdateKept(paths: ComposePaths, before: World, after: World, target: string, result: Outcome) {
    && after.files.Keys == before.files.Keys
    && (forall p :: p in before.files && p !in paths ==> after.files[p] == before.files[p])
    && match result
       case Rejected => after == before
       case Success =>
         && after.container.Some? && Reports(after.container.value, target)
         && ((Admitted(paths, before, target, true) && after == before)
             || (Admitted(paths, before, target, false)
                 && ImageSwappedIn(paths, before, after, before.container.value.image,
                                   TargetImage(before.container.value.image, target))))
       case RolledBack =>
         && Admitted(paths, before, target, false)
         && after.container.Some?
         && Reports(after.container.value, VersionFromImage(before.container.value.image).value)
         && (forall p :: p in before.files && p in paths ==> after.files[p] == TextOf(before.files[p]))
       case RollbackFailed => Admitted(paths, before, target, false) && FilesAccounted(paths, before, after, target)
       case Raised =>
         after == before || (Admitted(paths, before, target, false) && FilesAccounted(paths, before, after, target))
  }

  function Occurrences(paths: seq<Path>, files: map<Path, File>, image: string): nat
    requires forall p :: p in paths ==> p in files
  {
    if paths == [] then 0 else
      var last := paths[|paths| - 1];
      assert last in paths;
      Occurrences(paths[..|paths| - 1], files, image) + Count(ReadText(files[last].content), Needle(image))
  }

  /** The version label each image carries. */
  type Labels = string -> Option<string>

  ghost predicate Labelled(labels: Labels, c: Option<Container>) {
    c.Some? ==> c.value.imageLabel == labels(c.value.image)
  }

  lemma SwapIsThePlan(paths: ComposePaths, before: World, after: World, plan: Preflight, target: string)
    requires PlanFits(paths, before, plan, target) && plan.version != target
    requires SwappedImage(before, after, plan.file, plan.image, plan.targetImage)
    requires after.container.Some? && Reports(after.container.value, target)
    ensures UpdateKept(paths, before, after, target, Success)
  {
    PlanSwaps(paths, before, after, plan, target);
    assert Admitted(paths, before, target, false);
  }

  lemma PlanSwaps(paths: ComposePaths, before: World, after: World, plan: Preflight, target: string)
    requires PlanFits(paths, before, plan, target)
    requires SwappedImage(before, after, plan.file, plan.image, plan.targetImage)
    ensures ImageSwappedIn(paths, before, after, plan.image, plan.targetImage)
    ensures after.files.Keys == before.files.Keys
    ensures forall p :: p in before.files && p !in paths ==> after.files[p] == before.files[p]
  {
  }

  lemma StoppedAnywhere(paths: seq<Path>, before: World, broken: World, after: World, backup: map<Path, File>,
                        plan: Preflight, target: string)
    requires before.container.Some? && before.container.value.image == plan.image && LastColon(plan.image) >= 0
    requires plan.targetImage == TargetImage(plan.image, target) && plan.file in before.files
    requires before.files.Keys == broken.files.Keys == after.files.Keys
    requires forall p :: p in paths ==> p in before.files && p in backup && backup[p] == before.files[p]
    requires forall p :: p in before.files && p != plan.file ==> broken.files[p] == before.files[p]
    requires FileIs(before.files[plan.file], broken.files[plan.file], plan.image, plan.targetImage)
    requires forall p :: p in after.files && p !in paths ==> after.files[p] == broken.files[p]
    requires forall p :: p in paths ==> after.files[p] == broken.files[p] || after.files[p] == TextOf(backup[p])
    ensures FilesAccounted(paths, before, after, target)
  {
  }

  /** How the steps of one request went; false for a step that was not reached. */
  datatype Steps = Steps(
    inPlace: bool, connected: bool, noted: bool, backedUp: bool,
    replaced: bool, pulled: bool, up: bool, valid: bool, recorded: bool,
    restored: bool, upAgain: bool, validAgain: bool, recordedAgain: bool)

  /** The request is admitted. */
  ghost predicate CanStart(paths: ComposePaths, w: World, target: string, s: Steps) {
    && s.inPlace && s.connected && w.container.Some? && (forall p :: p in paths ==> p in w.files)
    && Updatable(w.container.value.image, target) && Occurrences(paths, w.files, w.container.value.image) == 1
  }

  /** The container runs the target already. */
  predicate Runs(w: World, target: string) {
    w.container.Some? && VersionFromImage(w.container.value.image) == Some(target)
  }

  predicate Applied(s: Steps) {
    s.noted && s.backedUp && s.replaced && s.pulled && s.up && s.valid && s.recorded
  }

  /** Each outcome, exactly when it comes about. */
  predicate Decided(result: Outcome, s: Steps, admitted: bool, again: bool) {
    && (result == Success <==> admitted && if again then s.valid && s.recorded else Applied(s))
    && (result == RolledBack <==>
          && admitted && !again && s.noted && s.backedUp && !Applied(s)
          && s.restored && s.upAgain && s.validAgain && s.recordedAgain)
    && (result == RollbackFailed <==>
          && admitted && !again && s.noted && s.backedUp && !Applied(s)
          && !(s.restored && s.upAgain && s.validAgain) && s.recordedAgain)
    && (result == Rejected <==>
          && s.recorded
          && (!admitted || (again && !s.valid) || (!again && s.noted && !s.backedUp)))
  }

  class UpdateHost {
    const paths: ComposePaths
    const labels: Labels
    var files: map<Path, File>
    var container: Option<Container>

    ghost function View(): World
      reads this
    {
      World(files, container)
    }

    constructor (paths: ComposePaths, labels: Labels, files: map<Path, File>, container: Option<Container>)
      ensures this.paths == paths && this.labels == labels && View() == World(files, container)
    {
      this.paths, this.labels, this.files, this.container := paths, labels, files, container;
    }

    /** Any container may be left behind; its label is that of its image. */
    method ComposeUp() returns (ok: bool)
      modifies `container
      ensures Labelled(labels, container)
    {
      var left: Option<Container> := *;
      container := if left.Some? then Some(left.value.(imageLabel := labels(left.value.image))) else None;
      ok := Chance();
    }

    /** The compose file that names the image, if it is named exactly once. */
    method FindImageFile(image: string) returns (file: Option<Path>)
      requires forall p :: p in paths ==> p in files
      ensures file.Some? <==> Occurrences(paths, files, image) == 1
      ensures file.Some? ==> OnlyIn(paths, files, file.value, image)
    {
      var occurrences := 0;
      file := None;
      for i := 0 to |paths|
        invariant occurrences == Occurrences(paths[..i], files, image)
        invariant occurrences == 0 <==> file.None?
        invariant occurrences == 1 ==> OnlyIn(paths[..i], files, file.value, image)
        invariant occurrences == 0 ==>
                    forall j :: 0 <= j < i ==> Count(ReadText(files[paths[j]].content), Needle(image)) == 0
      {
        var count := Count(ReadText(files[paths[i]].content), Needle(image));
        assert paths[..i + 1][..i] == paths[..i];
        assert paths[..i + 1] == paths[..i] + [paths[i]];
        occurrences := occurrences + count;
        if count > 0 && file.None? {
          file := Some(paths[i]);
        }
      }
      assert paths[..|paths|] == paths;
      if occurrences != 1 {
        file := None;
      }
    }

    /** Admits the request exactly when the files are in place, the network is
        connected, the image can be updated to the target and is named once. */
    method RunPreflight(target: string) returns (r: Option<Preflight>, ghost inPlace: bool, ghost connected: bool)
      ensures r.Some? <==>
                && inPlace && connected && container.Some? && (forall p :: p in paths ==> p in files)
                && Updatable(container.value.image, target) && Occurrences(paths, files, container.value.image) == 1
      ensures r.Some? ==> PlanFits(paths, View(), r.value, target)
    {
      var placed := Chance();
      var joined := Chance();
      inPlace, connected, r := placed, joined, None;
      if !placed || container.None? || exists p :: p in paths && p !in files {
        return;
      }
      var image := container.value.image;
      var version := VersionFromImage(image);
      UpdatableIs(image, target);
      if version.None? || (version.value != target && !IsForwardPatch(version.value, target)) {
        return;
      }
      if Repository(image) !in OFFICIAL || !joined {
        return;
      }
      var file := FindImageFile(image);
      if file.Some? {
        r := Some(Preflight(image, version.value, TargetImage(image, target), file.value));
      }
    }

    /** Copies every compose file aside; a failed copy is thrown away. */
    method CreateBackup() returns (backup: Option<map<Path, File>>)
      requires forall p :: p in paths ==> p in files
      ensures backup.Some? ==> forall p :: p in paths ==> p in backup.value && backup.value[p] == files[p]
    {
      var copy: map<Path, File> := map[];
      for i := 0 to |paths|
        invariant forall j :: 0 <= j < i ==> paths[j] in copy && copy[paths[j]] == files[paths[j]]
      {
        var copied := Chance();
        if !copied {
          return None;
        }
        copy := copy[paths[i] := files[paths[i]]];
      }
      var acmeCopied := Chance();
      backup := if acmeCopied then Some(copy) else None;
    }

    method ReplaceComposeImage(path: Path, current: string, target: string) returns (ok: bool)
      requires path in files
      modifies `files
      ensures !ok ==> files == old(files)
      ensures ok ==> SwappedImage(old(View()), View(), path, current, target)
    {
      var text := ReadText(files[path].content);
      if Count(text, Needle(current)) != 1 {
        return false;
      }
      var written := Chance();
      if !written {
        return false;
      }
      ghost var i := ReplacesTheOccurrence(text, Needle(current), Needle(target));
      files := files[path := File(ReplaceFirst(text, Needle(current), Needle(target)), files[path].mode)];
      ok := true;
    }

    /** Every backup is read before the first compose file is written. */
    method RestoreComposeFiles(backup: map<Path, File>) returns (ok: bool)
      requires forall p :: p in paths ==> p in files && p in backup
      modifies `files
      ensures files.Keys == old(files.Keys)
      ensures forall p :: p in files && p !in paths ==> files[p] == old(files)[p]
      ensures forall p :: p in paths ==> files[p] == old(files)[p] || files[p] == TextOf(backup[p])
      ensures ok ==> forall p :: p in paths ==> files[p] == TextOf(backup[p])
    {
      var entries: seq<File> := [];
      for i := 0 to |paths|
        invariant |entries| == i && files == old(files)
        invariant forall j :: 0 <= j < i ==> entries[j] == TextOf(backup[paths[j]])
      {
        var read := Chance();
        if !read {
          return false;
        }
        entries := entries + [TextOf(backup[paths[i]])];
      }
      for i := 0 to |paths|
        invariant files.Keys == old(files.Keys)
        invariant forall p :: p in files && p !in paths ==> files[p] == old(files)[p]
        invariant forall p :: p in paths ==> files[p] == old(files)[p] || files[p] == TextOf(backup[p])
        invariant forall j :: 0 <= j < i ==> files[paths[j]] == TextOf(backup[paths[j]])
      {
        var written := Chance();
        if !written {
          return false;
        }
        files := files[paths[i] := entries[i]];
      }
      ok := true;
    }

    /** `process_request`, and which of its steps went well. */
    method ProcessRequest(target: string) returns (result: Outcome, ghost steps: Steps)
      modifies this
      ensures UpdateKept(paths, old(View()), View(), target, result)
      ensures Labelled(labels, old(container)) ==> Labelled(labels, container)
      ensures Decided(result, steps, CanStart(paths, old(View()), target, steps), Runs(old(View()), target))
    {
      ghost var before := View();
      var preflight, inPlace, connected := RunPreflight(target);
      steps := Steps(inPlace, connected, false, false, false, false, false, false, false, false, false, false, false);
      if preflight.None? {
        ghost var recorded;
        result, recorded := AppendOr(Rejected);
        steps := steps.(recorded := recorded);
        return;
      }
      var plan := preflight.value;
      if plan.version == target {
        assert Admitted(paths, View(), target, true);
        var valid, rounds := ValidateRuntime(container, target);
        ghost var recorded;
        result, recorded := AppendOr(if valid then Success else Rejected);
        steps := steps.(valid := valid, recorded := recorded);
        return;
      }
      var noted := Chance();
      if !noted {
        return Raised, steps;
      }
      var backup := CreateBackup();
      steps := steps.(noted := true, backedUp := backup.Some?);
      if backup.None? {
        ghost var recorded;
        result, recorded := AppendOr(Rejected);
        steps := steps.(recorded := recorded);
        return;
      }
      result, steps := Update(plan, backup.value, target, steps);
    }

    /** The update proper, with the backup made. */
    method Update(plan: Preflight, backup: map<Path, File>, target: string, ghost begun: Steps)
      returns (result: Outcome, ghost steps: Steps)
      requires PlanFits(paths, View(), plan, target) && plan.version != target
      requires forall p :: p in paths ==> p in backup && backup[p] == files[p]
      requires begun.noted && begun.backedUp
      modifies this
      ensures UpdateKept(paths, old(View()), View(), target, result)
      ensures Labelled(labels, old(container)) ==> Labelled(labels, container)
      ensures Decided(result, steps, true, false)
      ensures steps.inPlace == begun.inPlace && steps.connected == begun.connected
    {
      ghost var before := View();
      var applied, replaced, pulled, up, valid, recorded := Apply(plan, target);
      steps := begun.(replaced := replaced, pulled := pulled, up := up, valid := valid, recorded := recorded);
      if applied {
        SwapIsThePlan(paths, before, View(), plan, target);
        return Success, steps;
      }
      ghost var broken := View();
      var back, restored, upAgain, validAgain, recordedAgain := Rollback(plan, backup);
      result := back;
      steps := steps.(restored := restored, upAgain := upAgain, validAgain := validAgain, recordedAgain := recordedAgain);
      StoppedAnywhere(paths, before, broken, View(), backup, plan, target);
      assert Admitted(paths, before, target, false);
    }

    /** A history append that fails is raised to the caller. */
    method AppendOr(r: Outcome) returns (result: Outcome, ghost recorded: bool)
      ensures result == if recorded then r else Raised
    {
      var appended := Chance();
      result, recorded := if appended then r else Raised, appended;
    }

    method Apply(plan: Preflight, target: string)
      returns (ok: bool, ghost replaced: bool, ghost pulled: bool, ghost up: bool, ghost valid: bool, ghost recorded: bool)
      requires plan.file in files
      modifies this
      ensures files.Keys == old(files.Keys)
      ensures forall p :: p in files && p != plan.file ==> files[p] == old(files)[p]
      ensures FileIs(old(files)[plan.file], files[plan.file], plan.image, plan.targetImage)
      ensures Labelled(labels, old(container)) ==> Labelled(labels, container)
      ensures ok <==> replaced && pulled && up && valid && recorded
      ensures ok ==>
        && SwappedImage(old(View()), View(), plan.file, plan.image, plan.targetImage)
        && container.Some? && Reports(container.value, target)
    {
      pulled, up, valid, recorded := false, false, false, false;
      ok := ReplaceComposeImage(plan.file, plan.image, plan.targetImage);
      replaced := ok;
      if !ok {
        return;
      }
      ok := Chance();
      pulled := ok;
      if !ok {
        return;
      }
      ok := ComposeUp();
      up := ok;
      if !ok {
        return;
      }
      var passed, rounds := ValidateRuntime(container, target);
      var appended := Chance();
      valid, recorded, ok := passed, appended, passed && appended;
    }

    method Rollback(plan: Preflight, backup: map<Path, File>)
      returns (result: Outcome, ghost restored: bool, ghost up: bool, ghost valid: bool, ghost recorded: bool)
      requires forall p :: p in paths ==> p in files && p in backup
      modifies this
      ensures result == if !recorded then Raised else if restored && up && valid then RolledBack else RollbackFailed
      ensures files.Keys == old(files.Keys)
      ensures forall p :: p in files && p !in paths ==> files[p] == old(files)[p]
      ensures forall p :: p in paths ==> files[p] == old(files)[p] || files[p] == TextOf(backup[p])
      ensures Labelled(labels, old(container)) ==> Labelled(labels, container)
      ensures result == RolledBack ==>
        && (forall p :: p in paths ==> files[p] == TextOf(backup[p]))
        && container.Some? && Reports(container.value, plan.version)
    {
      result, up, valid := RollbackFailed, false, false;
      var copied := RestoreComposeFiles(backup);
      restored := copied;
      if copied {
        var started := ComposeUp();
        up := started;
        if started {
          var passed, rounds := ValidateRuntime(container, plan.version);
          valid := passed;
          if passed {
            result := RolledBack;
          }
        }
      }
      result, recorded := AppendOr(result);
    }
  }

  // ------------------------------------------------------------------- whole runs

  function Tag(w: World): Option<string> {
    if w.container.None? then None else VersionFromImage(w.container.value.image)
  }

  /** Two versions of one major.minor, the second with no lower a patch. */
  predicate NotBelow(a: string, b: string) {
    var x, y := ParseVersion(a), ParseVersion(b);
    x.Some? && y.Some? && x.value.major == y.value.major && x.value.minor == y.value.minor && x.value.patch <= y.value.patch
  }

  lemma NotBelowTransitive(a: string, b: string, c: string)
    requires NotBelow(a, b) && NotBelow(b, c)
    ensures NotBelow(a, c)
  {
  }

  /** One processed request that ended cleanly. */
  ghost predicate CleanStep(paths: ComposePaths, labels: Labels, before: World, after: World, target: string, result: Outcome) {
    && UpdateKept(paths, before, after, target, result)
    && result in {Rejected, Success, RolledBack}
    && Labelled(labels, before.container) && Labelled(labels, after.container)
  }

  /** No image carries a pinned version label that is ahead of its tag. */
  ghost predicate LabelsNotAhead(labels: Labels) {
    forall image :: labels(image).Some? && ParseVersion(labels(image).value).Some? ==>
      && VersionFromImage(image).Some?
      && NotBelow(labels(image).value, VersionFromImage(image).value)
  }

  ghost predicate KeptUp(before: World, after: World) {
    Tag(before).Some? ==> Tag(after).Some? && NotBelow(Tag(before).value, Tag(after).value)
  }

  lemma ReportedIsNotAhead(labels: Labels, w: World, version: string)
    requires LabelsNotAhead(labels) && Labelled(labels, w.container)
    requires w.container.Some? && Reports(w.container.value, version)
    ensures Tag(w).Some? && NotBelow(version, Tag(w).value)
  {
  }

  lemma StepNeverDowngrades(paths: ComposePaths, labels: Labels, before: World, after: World, target: string, result: Outcome)
    requires LabelsNotAhead(labels) && CleanStep(paths, labels, before, after, target, result)
    ensures KeptUp(before, after)
    ensures Tag(before).Some? ==>
              && Tag(after).Some?
              && var a, b := ParseVersion(Tag(before).value), ParseVersion(Tag(after).value);
                 a.Some? && b.Some? && a.value.major == b.value.major && a.value.minor == b.value.minor
                 && a.value.patch <= b.value.patch
  {
    match result
    case Rejected =>
    case Success =>
      ReportedIsNotAhead(labels, after, target);
      AdmittedIsNotBelow(paths, before, after, target);
      NotBelowTransitive(Tag(before).value, target, Tag(after).value);
    case RolledBack =>
      ReportedIsNotAhead(labels, after, Tag(before).value);
  }

  lemma AdmittedIsNotBelow(paths: ComposePaths, before: World, after: World, target: string)
    requires UpdateKept(paths, before, after, target, Success)
    ensures Tag(before).Some? && NotBelow(Tag(before).value, target)
  {
  }

  /** The files of an ordinary host: the first compose file names the image. */
  function OneImageFiles(paths: ComposePaths, image: string): map<Path, File> {
    map p | p in paths :: File(if p == paths[0] then "image: " + image else "", 0)
  }

  lemma {:induction false} OccursInFirst(paths: seq<Path>, files: map<Path, File>, image: string)
    requires paths != [] && (forall p :: p in paths ==> p in files)
    requires Count(ReadText(files[paths[0]].content), Needle(image)) == 1
    requires forall i :: 0 < i < |paths| ==> Count(ReadText(files[paths[i]].content), Needle(image)) == 0
    ensures Occurrences(paths, files, image) == 1
  {
    if |paths| == 1 {
      assert Occurrences(paths[..0], files, image) == 0;
    } else {
      OccursInFirst(paths[..|paths| - 1], files, image);
    }
  }

  lemma NeedleCountsOnce(image: string)
    requires '\r' !in image
    ensures ReadText(Needle(image)) == Needle(image) && Count(Needle(image), Needle(image)) == 1
    ensures ReadText("") == "" && Count("", Needle(image)) == 0
  {
    assert '\r' !in Needle(image);
    ReadTextIdentity(Needle(image));
    CountsItself(Needle(image));
  }

  lemma CountsItself(needle: string)
    requires needle != []
    ensures Count(needle, needle) == 1 && Count("", needle) == 0
  {
    assert needle[..|needle|] == needle && needle[|needle|..] == [];
  }

  lemma OneImageCounted(paths: ComposePaths, image: string)
    requires '\r' !in image
    ensures var files := OneImageFiles(paths, image);
            && Occurrences(paths, files, image) == 1 && OnlyIn(paths, files, paths[0], image)
            && (forall p :: p in paths ==> TextOf(files[p]) == files[p])
  {
    var files := OneImageFiles(paths, image);
    NeedleCountsOnce(image);
    assert paths[0] in paths;
    forall i | 0 < i < |paths| ensures Count(ReadText(files[paths[i]].content), Needle(image)) == 0 {
      assert paths[i] in paths && paths[i] != paths[0];
    }
    OccursInFirst(paths, files, image);
  }

  /** Such a host admits an update to any later patch. */
  lemma OrdinaryHostAdmits(paths: ComposePaths, image: string, c: Container, target: string)
    requires c.image == image && '\r' !in image && LastColon(image) >= 0 && Repository(image) in OFFICIAL
    requires VersionFromImage(image).Some? && IsForwardPatch(VersionFromImage(image).value, target)
    ensures Admitted(paths, World(OneImageFiles(paths, image), Some(c)), target, false)
  {
    OneImageCounted(paths, image);
    PlanAdmits(paths, World(OneImageFiles(paths, image), Some(c)), image, target, paths[0]);
  }

  lemma PlanAdmits(paths: ComposePaths, w: World, image: string, target: string, file: Path)
    requires w.container.Some? && w.container.value.image == image
    requires LastColon(image) >= 0 && Repository(image) in OFFICIAL && (forall p :: p in paths ==> p in w.files)
    requires VersionFromImage(image).Some? && IsForwardPatch(VersionFromImage(image).value, target)
    requires Occurrences(paths, w.files, image) == 1 && OnlyIn(paths, w.files, file, image)
    ensures Admitted(paths, w, target, false)
  {
    var plan := Preflight(image, VersionFromImage(image).value, TargetImage(image, target), file);
    assert PlanFits(paths, w, plan, target);
  }

  lemma ImageOf(repository: string, version: string)
    requires ParseVersion(version).Some? && '\r' !in repository && repository in OFFICIAL
    ensures var image := repository + ":" + version;
            && VersionFromImage(image) == Some(version) && '\r' !in image
            && LastColon(image) >= 0 && Repository(image) in OFFICIAL
  {
    TagOfComposedImage(repository, version);
    ColonOfComposedImage(repository, version);
    PlainImage(repository, version, '\r');
  }

  /** A label ahead of its tag: an update of an ordinary host to any later patch
      fails, its roll-back is validated by the label, and the container that
      runs then has a lower, or no, pinned tag. */
  lemma LabelAheadDowngrades(paths: ComposePaths, labels: Labels, image: string, target: string)
    returns (before: World, after: World)
    requires labels(image).Some? && IsForwardPatch(labels(image).value, target)
    requires VersionFromImage(image).None? || !NotBelow(labels(image).value, VersionFromImage(image).value)
    ensures CleanStep(paths, labels, before, after, target, RolledBack) && !KeptUp(before, after)
  {
    var running := "traefik" + ":" + labels(image).value;
    ImageOf("traefik", labels(image).value);
    before, after := RolledBackTo(paths, labels, running, image, target);
  }

  lemma RolledBackTo(paths: ComposePaths, labels: Labels, running: string, image: string, target: string)
    returns (before: World, after: World)
    requires labels(image).Some? && ParseVersion(labels(image).value).Some?
    requires VersionFromImage(running) == labels(image) && IsForwardPatch(labels(image).value, target)
    requires '\r' !in running && LastColon(running) >= 0 && Repository(running) in OFFICIAL
    ensures CleanStep(paths, labels, before, after, target, RolledBack)
    ensures Tag(before) == labels(image) && Tag(after) == VersionFromImage(image)
  {
    var files := OneImageFiles(paths, running);
    var c := Container(0, None, running, labels(running));
    before := World(files, Some(c));
    after := World(files, Some(Container(1, None, image, labels(image))));
    OrdinaryHostAdmits(paths, running, c, target);
    OneImageCounted(paths, running);
  }

  /** An update can lower the running version exactly when some image has a
      version label ahead of its tag. */
  lemma NeverDowngradedExactlyWhen(paths: ComposePaths, labels: Labels)
    ensures (forall before, after, target, result ::
               CleanStep(paths, labels, before, after, target, result) ==> KeptUp(before, after))
       <==> LabelsNotAhead(labels)
  {
    if LabelsNotAhead(labels) {
      forall before, after, target, result | CleanStep(paths, labels, before, after, target, result)
        ensures KeptUp(before, after)
      {
        StepNeverDowngrades(paths, labels, before, after, target, result);
      }
    } else {
      var image :| labels(image).Some? && ParseVersion(labels(image).value).Some?
                   && (VersionFromImage(image).None? || !NotBelow(labels(image).value, VersionFromImage(image).value));
      var target := LaterPatch(labels(image).value);
      var before, after := LabelAheadDowngrades(paths, labels, image, target);
    }
  }

  ghost predicate CleanRun(paths: ComposePaths, labels: Labels, worlds: seq<World>, targets: seq<string>, results: seq<Outcome>) {
    && |worlds| == |targets| + 1 && |results| == |targets|
    && forall i, j :: 0 <= i < |targets| && j == i + 1 ==>
         CleanStep(paths, labels, worlds[i], worlds[j], targets[i], results[i])
  }

  ghost predicate Climbs(tags: seq<Option<string>>) {
    forall k, l :: 0 <= k && l == k + 1 && l < |tags| && tags[k].Some? ==>
      tags[l].Some? && NotBelow(tags[k].value, tags[l].value)
  }

  lemma {:induction false} ClimbsFarther(tags: seq<Option<string>>, i: nat, j: nat)
    requires Climbs(tags) && i <= j < |tags| && tags[i].Some? && ParseVersion(tags[i].value).Some?
    ensures tags[j].Some? && NotBelow(tags[i].value, tags[j].value)
    decreases j
  {
    if i < j {
      ClimbsFarther(tags, i, j - 1);
      NotBelowTransitive(tags[i].value, tags[j - 1].value, tags[j].value);
    }
  }

  /** Over any run of accepted, refused and rolled-back updates the version
      stays in one major.minor and never goes down, whatever containers
      `compose up` leaves, as long as no image has a label ahead of its tag. */
  lemma NeverDowngraded(paths: ComposePaths, labels: Labels, worlds: seq<World>, targets: seq<string>,
                        results: seq<Outcome>, i: nat, j: nat)
    requires LabelsNotAhead(labels) && CleanRun(paths, labels, worlds, targets, results) && i <= j < |worlds|
    requires Tag(worlds[i]).Some?
    ensures Tag(worlds[j]).Some?
    ensures var a, b := ParseVersion(Tag(worlds[i]).value), ParseVersion(Tag(worlds[j]).value);
            && a.Some? && b.Some? && a.value.major == b.value.major && a.value.minor == b.value.minor
            && a.value.patch <= b.value.patch
  {
    var tags := seq(|worlds|, k requires 0 <= k < |worlds| => Tag(worlds[k]));
    forall k, l | 0 <= k && l == k + 1 && l < |tags| && tags[k].Some?
      ensures tags[l].Some? && NotBelow(tags[k].value, tags[l].value)
    {
      RunStepKeptUp(paths, labels, worlds, targets, results, k);
    }
    ClimbsFarther(tags, i, j);
  }

  lemma RunStepKeptUp(paths: ComposePaths, labels: Labels, worlds: seq<World>, targets: seq<string>,
                      results: seq<Outcome>, k: nat)
    requires LabelsNotAhead(labels) && CleanRun(paths, labels, worlds, targets, results) && k + 1 < |worlds|
    ensures KeptUp(worlds[k], worlds[k + 1])
  {
    StepNeverDowngrades(paths, labels, worlds[k], worlds[k + 1], targets[k], results[k]);
  }

  /** The line ends aside, a roll-back restores every compose file; it restores
      a file byte for byte exactly when the file had no carriage return. */
  lemma RollbackRestoresExactly(paths: ComposePaths, before: World, after: World, target: string, p: Path)
    requires UpdateKept(paths, before, after, target, RolledBack) && p in paths && p in before.files
    ensures after.files[p] == before.files[p] <==> '\r' !in before.files[p].content
  {
    ReadTextIdentity(before.files[p].content);
  }

  /** The text swapped in carries the target version. */
  lemma SwappedImageCarriesTarget(before: World, target: string)
    requires before.container.Some? && LastColon(before.container.value.image) >= 0 && ParseVersion(target).Some?
    ensures VersionFromImage(Repository(before.container.value.image) + ":" + target) == Some(target)
  {
    TagOfComposedImage(Repository(before.container.value.image), target);
  }
}
