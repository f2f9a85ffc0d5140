/** The `version` package's output record: `VersionDetailInput` is what the derive
    command assembles, `VersionDetail` is what it prints, and `NewVersionDetail`
    turns one into the other. */
module Details {

  import opened Wrappers
  import opened Strings
  import opened Decimal
  import opened SemVer

  /** `VersionDetailInput`; `semver` is `None` where the Go pointer is nil. */
  datatype DetailInput = DetailInput(semver: Option<Version>, isDefault: bool, sha: string, branchName: string)

  /** `VersionDetail`, field for field. */
  datatype VersionDetail = VersionDetail(
    major: nat,
    minor: nat,
    patch: nat,
    core: string,
    isDefault: bool,
    preRelease: string,
    metadata: string,
    semver: string,
    sha: string,
    shortSha: string,
    branchName: string)

  /** `ErrorMissingVersionInput` and `ErrorMissingSemverInput`. */
  datatype DetailError = MissingVersionInput | MissingSemverInput

  const ShortShaLength: nat := 7

  /** The abbreviated commit hash: the first seven characters, or nothing when the hash is shorter. */
  function ShortSha(sha: string): (short: string)
    ensures short <= sha
    ensures |short| == if |sha| >= ShortShaLength then ShortShaLength else 0
  {
    if |sha| >= ShortShaLength then sha[..ShortShaLength] else ""
  }

  /** The core text is a release version of its own and holds exactly two dots. */
  lemma CoreFacts(major: nat, minor: nat, patch: nat)
    ensures Parse(CoreString(major, minor, patch)) == Some(Version(major, minor, patch, [], []))
    ensures |Split(CoreString(major, minor, patch), '.')| == 3
  {
    var release := Version(major, minor, patch, [], []);
    assert Render(release) == CoreString(major, minor, patch);
    ParseRender(release);
    CoreParses(major, minor, patch);
  }

  lemma RenderParsesWhenValid(v: Version)
    ensures Valid(v) ==> Parse(Render(v)) == Some(v)
  {
    if Valid(v) {
      ParseRender(v);
    }
  }

  /** `NewVersionDetail`: the nil input and the nil version are the two errors, in that
      order; otherwise every field comes from the input and its version. */
  function NewVersionDetail(input: Option<DetailInput>): (r: Result<VersionDetail, DetailError>)
    ensures input.None? <==> r == Failure(MissingVersionInput)
    ensures (input.Some? && input.value.semver.None?) <==> r == Failure(MissingSemverInput)
    ensures r.Success? <==> input.Some? && input.value.semver.Some?
    ensures r.Success? ==>
      var v := input.value.semver.value;
      var d := r.value;
      && d.major == v.major && d.minor == v.minor && d.patch == v.patch
      && d.preRelease == PreReleaseString(v)
      && d.metadata == MetadataString(v)
      && d.sha == input.value.sha
      && d.branchName == input.value.branchName
      && d.isDefault == input.value.isDefault
      && d.shortSha <= d.sha
      && |d.shortSha| == (if |d.sha| >= 7 then 7 else 0)
      && |Split(d.core, '.')| == 3
      && Parse(d.core) == Some(Version(v.major, v.minor, v.patch, [], []))
      && (Valid(v) ==> Parse(d.semver) == Some(v))
  {
    if input.None? then Failure(MissingVersionInput)
    else if input.value.semver.None? then Failure(MissingSemverInput)
    else
      var v := input.value.semver.value;
      var core := CoreString(v.major, v.minor, v.patch);
      CoreFacts(v.major, v.minor, v.patch);
      RenderParsesWhenValid(v);
      Success(VersionDetail(
        v.major, v.minor, v.patch, core, input.value.isDefault,
        PreReleaseString(v), MetadataString(v), Render(v),
        input.value.sha, ShortSha(input.value.sha), input.value.branchName))
  }
}
