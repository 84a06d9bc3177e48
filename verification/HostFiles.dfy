/** What the host-side scripts share: text files as Python reads and writes
    them, and image tags that carry a pinned version. */
module HostFiles {
  import opened Counters

  type Path = string

  ghost predicate DistinctPaths(paths: seq<Path>) {
    forall i, j :: 0 <= i < j < |paths| ==> paths[i] != paths[j]
  }

  /** The configured compose files; an empty list and one that names a file
      twice are refused at start-up. */
  type ComposePaths = paths: seq<Path> | paths != [] && DistinctPaths(paths) ghost witness ["docker-compose.yml"]

  const MAX_MODE: nat := 511  // 0o777

  type Mode = m: nat | m <= MAX_MODE

  /** A file's decoded content and its permission bits. */
  datatype File = File(content: string, mode: Mode)

  // ---------------------------------------------------------------------- text

  /** `read_text` translates `\r\n` and lone `\r` to `\n`; writing the result
      back therefore normalises the line ends. */
  function ReadText(s: string): string {
    if s == [] then []
    else if s[0] == '\r' then
      ['\n'] + ReadText(if |s| > 1 && s[1] == '\n' then s[2..] else s[1..])
    else [s[0]] + ReadText(s[1..])
  }

  /** The file as it is after its text has been read and written back. */
  function TextOf(f: File): File { File(ReadText(f.content), f.mode) }

  lemma {:induction false} ReadTextHasNoCarriageReturn(s: string)
    ensures '\r' !in ReadText(s)
    decreases |s|
  {
    if s != [] {
      if s[0] == '\r' {
        ReadTextHasNoCarriageReturn(if |s| > 1 && s[1] == '\n' then s[2..] else s[1..]);
      } else {
        ReadTextHasNoCarriageReturn(s[1..]);
      }
    }
  }

  /** Reading and writing a file back leaves it alone exactly when it has no
      carriage return. */
  lemma {:induction false} ReadTextIdentity(s: string)
    ensures ReadText(s) == s <==> '\r' !in s
  {
    if s == [] {
    } else if s[0] == '\r' {
      ReadTextHasNoCarriageReturn(s);
    } else {
      ReadTextIdentity(s[1..]);
      assert s == [s[0]] + s[1..];
    }
  }

  /** Line by line: whatever ended a line, a line feed ends it now. */
  lemma {:induction false} ReadTextByLine(line: string, end: string, rest: string)
    requires '\r' !in line && (end == "\r\n" || (end == "\r" && (rest == [] || rest[0] != '\n')))
    ensures ReadText(line + end + rest) == line + "\n" + ReadText(rest)
  {
    var s := line + end + rest;
    if line == [] {
      assert s[|end|..] == rest;
    } else {
      assert s[1..] == line[1..] + end + rest;
      ReadTextByLine(line[1..], end, rest);
      assert line == [line[0]] + line[1..];
    }
  }

  // ------------------------------------------------------------------- versions

  datatype Version = Version(major: nat, minor: nat, patch: nat)

  predicate IsDigit(c: char) { '0' <= c <= '9' }

  function Number(digits: string): nat
    requires forall i :: 0 <= i < |digits| ==> IsDigit(digits[i])
  {
    if digits == [] then 0 else
      assert IsDigit(digits[|digits| - 1]);
      10 * Number(digits[..|digits| - 1]) + (digits[|digits| - 1] as int - '0' as int)
  }

  /** A number as it is usually written. */
  function Decimal(n: nat): (d: string)
    ensures d != [] && forall i :: 0 <= i < |d| ==> IsDigit(d[i])
  {
    var digit := ['0' + (n % 10) as char];
    if n < 10 then digit else Decimal(n / 10) + digit
  }

  lemma {:induction false} NumberOfDecimal(n: nat)
    ensures Number(Decimal(n)) == n
  {
    var d := Decimal(n);
    if n < 10 {
      assert Number(d[..0]) == 0;
    } else {
      NumberOfDecimal(n / 10);
      assert d[..|d| - 1] == Decimal(n / 10);
    }
  }

  /** The longest run of digits at the head of `s`. */
  function Digits(s: string): (d: string)
    ensures forall i :: 0 <= i < |d| ==> IsDigit(d[i])
    ensures |d| <= |s| && s[..|d|] == d
  {
    if s == [] || !IsDigit(s[0]) then [] else [s[0]] + Digits(s[1..])
  }

  ghost predicate AllDigits(d: string) { forall i :: 0 <= i < |d| ==> IsDigit(d[i]) }

  datatype Split = NoNumber | Split(number: string, rest: string)

  /** A number at the head of `s`, and what follows it. */
  function SplitNumber(s: string): (r: Split)
    ensures r.Split? ==> AllDigits(r.number)
  {
    var d := Digits(s);
    if d == [] then NoNumber else Split(d, s[|d|..])
  }

  predicate Dot(s: Split) { s.Split? && s.rest != [] && s.rest[0] == '.' }

  /** `^v(\d+)\.(\d+)\.(\d+)$` */
  function ParseVersion(s: string): Option<Version> {
    if s == [] || s[0] != 'v' then None else
      var major := SplitNumber(s[1..]);
      if !Dot(major) then None else
        var minor := SplitNumber(major.rest[1..]);
        if !Dot(minor) then None else
          var patch := SplitNumber(minor.rest[1..]);
          if patch.NoNumber? || patch.rest != [] then None
          else Some(Version(Number(major.number), Number(minor.number), Number(patch.number)))
  }

  /** Position of the last colon, or -1. */
  function LastColon(s: string): (i: int)
    ensures -1 <= i < |s| && (i >= 0 ==> s[i] == ':')
  {
    if s == [] then -1
    else if s[|s| - 1] == ':' then |s| - 1
    else LastColon(s[..|s| - 1])
  }

  function Repository(image: string): string
    requires LastColon(image) >= 0
  {
    image[..LastColon(image)]
  }

  /** `version_from_image`: the tag, if it is a pinned version. */
  function VersionFromImage(image: string): Option<string> {
    var colon := LastColon(image);
    if colon < 0 then None
    else if ParseVersion(image[colon + 1..]).Some? then Some(image[colon + 1..]) else None
  }

  /** Same major and minor, higher patch. */
  predicate IsForwardPatch(current: string, target: string) {
    var c, t := ParseVersion(current), ParseVersion(target);
    && c.Some? && t.Some?
    && c.value.major == t.value.major && c.value.minor == t.value.minor
    && c.value.patch < t.value.patch
  }

  /** The tag of a composed image name is what was put there. */
  lemma TagOfComposedImage(repository: string, version: string)
    requires ParseVersion(version).Some?
    ensures VersionFromImage(repository + ":" + version) == Some(version)
  {
    ColonOfComposedImage(repository, version);
    assert (repository + ":" + version)[|repository| + 1..] == version;
  }

  lemma ColonOfComposedImage(repository: string, version: string)
    requires ParseVersion(version).Some?
    ensures LastColon(repository + ":" + version) == |repository|
    ensures Repository(repository + ":" + version) == repository
  {
    VersionHasNoColon(version);
    LastColonAt(repository + ":" + version, |repository|);
  }

  lemma PlainImage(repository: string, version: string, c: char)
    requires ParseVersion(version).Some? && c !in repository
    requires !IsDigit(c) && c != '.' && c != 'v' && c != ':'
    ensures c !in repository + ":" + version
  {
    VersionLacks(version, c);
  }

  lemma {:induction false} LastColonAt(s: string, i: nat)
    requires i < |s| && s[i] == ':'
    requires forall j :: i < j < |s| ==> s[j] != ':'
    ensures LastColon(s) == i
  {
    if i < |s| - 1 {
      LastColonAt(s[..|s| - 1], i);
    }
  }

  // --- versions, taken apart and put together

  lemma {:induction false} DigitsThen(d: string, rest: string)
    requires AllDigits(d) && (rest != [] ==> !IsDigit(rest[0]))
    ensures Digits(d + rest) == d
  {
    if d == [] {
      assert d + rest == rest;
    } else {
      assert (d + rest)[1..] == d[1..] + rest;
      DigitsThen(d[1..], rest);
      assert d == [d[0]] + d[1..];
    }
  }

  lemma SplitJoins(s: string)
    requires SplitNumber(s).Split?
    ensures SplitNumber(s).number != [] && s == SplitNumber(s).number + SplitNumber(s).rest
  {
  }

  lemma SplitThen(d: string, rest: string)
    requires AllDigits(d) && d != [] && (rest != [] ==> !IsDigit(rest[0]))
    ensures SplitNumber(d + rest) == Split(d, rest)
  {
    DigitsThen(d, rest);
    assert (d + rest)[|d|..] == rest;
  }

  function Dotted(major: string, minor: string, patch: string): string {
    "v" + (major + ("." + (minor + ("." + patch))))
  }

  lemma ParseDotted(major: string, minor: string, patch: string)
    requires AllDigits(major) && AllDigits(minor) && AllDigits(patch)
    requires major != [] && minor != [] && patch != []
    ensures ParseVersion(Dotted(major, minor, patch)) == Some(Version(Number(major), Number(minor), Number(patch)))
  {
    var afterMinor := "." + patch;
    var afterMajor := "." + (minor + afterMinor);
    assert Dotted(major, minor, patch)[1..] == major + afterMajor;
    SplitThen(major, afterMajor);
    assert afterMajor[1..] == minor + afterMinor;
    SplitThen(minor, afterMinor);
    assert afterMinor[1..] == patch + [];
    SplitThen(patch, []);
  }

  /** A release written out reads as its three numbers. */
  lemma ParseRelease(major: nat, minor: nat, patch: nat)
    ensures ParseVersion("v" + (Decimal(major) + ("." + (Decimal(minor) + ("." + Decimal(patch))))))
         == Some(Version(major, minor, patch))
  {
    ParseDotted(Decimal(major), Decimal(minor), Decimal(patch));
    NumberOfDecimal(major);
    NumberOfDecimal(minor);
    NumberOfDecimal(patch);
  }

  lemma VersionIsDotted(version: string) returns (major: string, minor: string, patch: string)
    requires ParseVersion(version).Some?
    ensures AllDigits(major) && AllDigits(minor) && AllDigits(patch)
    ensures major != [] && minor != [] && patch != [] && version == Dotted(major, minor, patch)
    ensures ParseVersion(version) == Some(Version(Number(major), Number(minor), Number(patch)))
  {
    var a := SplitNumber(version[1..]);
    var b := SplitNumber(a.rest[1..]);
    var c := SplitNumber(b.rest[1..]);
    SplitJoins(version[1..]);
    SplitJoins(a.rest[1..]);
    SplitJoins(b.rest[1..]);
    major, minor, patch := a.number, b.number, c.number;
    assert b.rest[1..] == patch by { assert c.number + [] == c.number; }
    HeadAndTail(b.rest);
    HeadAndTail(a.rest);
    HeadAndTail(version);
  }

  lemma HeadAndTail(s: string)
    requires s != []
    ensures s == [s[0]] + s[1..]
  {
  }

  lemma VersionHasNoColon(version: string)
    requires ParseVersion(version).Some?
    ensures ':' !in version
  {
    VersionLacks(version, ':');
  }

  /** A version consists of digits, dots and the leading letter. */
  lemma VersionLacks(version: string, c: char)
    requires ParseVersion(version).Some? && !IsDigit(c) && c != '.' && c != 'v'
    ensures c !in version
  {
    var major, minor, patch := VersionIsDotted(version);
    assert c !in "v" && c !in ".";
    assert c !in "." + patch;
    assert c !in "." + (minor + ("." + patch));
  }

  /** Writing one more digit behind a version gives a later patch of it. */
  lemma LaterPatch(version: string) returns (later: string)
    requires ParseVersion(version).Some?
    ensures IsForwardPatch(version, later)
  {
    var major, minor, patch := VersionIsDotted(version);
    later := Dotted(major, minor, patch + "1");
    ParseDotted(major, minor, patch + "1");
    assert (patch + "1")[..|patch|] == patch;
  }
}
