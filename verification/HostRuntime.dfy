/** The Traefik container as the host-side scripts see it, and the validation
    both of them end with. Every command may fail. */
module HostRuntime {
  import opened Counters
  import opened HostFiles

  type Hash = nat

  datatype Container = Container(id: nat, configHash: Option<Hash>, image: string, imageLabel: Option<string>)

  const VALIDATION_ROUNDS: nat := 20

  /** The versions the container can be read as: its label if that is a pinned
      version, or its image tag. */
  ghost predicate Reports(c: Container, version: string) {
    || (c.imageLabel == Some(version) && ParseVersion(version).Some?)
    || VersionFromImage(c.image) == Some(version)
  }

  method Chance() returns (happens: bool) { happens := *; }

  /** What one round of checks is told; `route` is absent if no address is
      configured, and an inspection that fails reads nothing. */
  datatype Answers = Answers(
    running: bool, healthy: bool, labelRead: bool, imageRead: bool, onNetwork: bool, route: Option<bool>)

  /** The label wins if it can be read and is a pinned version. */
  function VersionRead(c: Option<Container>, labelRead: bool, imageRead: bool): (v: Option<string>)
    ensures v.Some? ==> c.Some? && Reports(c.value, v.value)
  {
    if c.None? then None
    else if labelRead && c.value.imageLabel.Some? && ParseVersion(c.value.imageLabel.value).Some?
    then c.value.imageLabel
    else if imageRead then VersionFromImage(c.value.image) else None
  }

  predicate AllChecksPass(c: Option<Container>, version: string, a: Answers) {
    && a.running && a.healthy && VersionRead(c, a.labelRead, a.imageRead) == Some(version)
    && a.onNetwork && a.route != Some(false)
  }

  /** The label says the version, or says none that is pinned (or cannot be read)
      and the image's tag does. */
  predicate SeenAs(c: Container, version: string, a: Answers) {
    if a.labelRead && c.imageLabel.Some? && ParseVersion(c.imageLabel.value).Some? then c.imageLabel.value == version
    else a.imageRead && VersionFromImage(c.image) == Some(version)
  }

  /** `_safe_current_version` */
  method SafeCurrentVersion(c: Option<Container>) returns (v: Option<string>)
    ensures v.Some? ==> c.Some? && Reports(c.value, v.value)
  {
    var labelRead := Chance();
    if labelRead && c.Some? && c.value.imageLabel.Some? && ParseVersion(c.value.imageLabel.value).Some? {
      return c.value.imageLabel;
    }
    var imageRead := Chance();
    v := if imageRead && c.Some? then VersionFromImage(c.value.image) else None;
  }

  method AskHost() returns (a: Answers) {
    var running, healthy, labelRead, imageRead, onNetwork, configured, reached :| true;
    a := Answers(running, healthy, labelRead, imageRead, onNetwork, if configured then Some(reached) else None);
  }

  /** `_validate_runtime`: passes at the first of at most twenty rounds in which
      every check passes, and fails only if none does. */
  method ValidateRuntime(c: Option<Container>, version: string) returns (ok: bool, ghost rounds: seq<Answers>)
    ensures 1 <= |rounds| <= VALIDATION_ROUNDS && (ok || |rounds| == VALIDATION_ROUNDS)
    ensures ok == AllChecksPass(c, version, rounds[|rounds| - 1])
    ensures forall i :: 0 <= i < |rounds| - 1 ==> !AllChecksPass(c, version, rounds[i])
    ensures var a := rounds[|rounds| - 1];
            ok <==> c.Some? && a.running && a.healthy && a.onNetwork && a.route != Some(false) && SeenAs(c.value, version, a)
    ensures ok ==> c.Some? && Reports(c.value, version)
  {
    rounds := [];
    for attempt := 0 to VALIDATION_ROUNDS
      invariant |rounds| == attempt
      invariant forall i :: 0 <= i < |rounds| ==> !AllChecksPass(c, version, rounds[i])
    {
      var a := AskHost();
      rounds := rounds + [a];
      var seen := VersionRead(c, a.labelRead, a.imageRead);
      if a.running && a.healthy && seen == Some(version) && a.onNetwork && (a.route.None? || a.route.value) {
        return true, rounds;
      }
    }
    ok := false;
  }
}
