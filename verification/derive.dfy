/** The decision logic of the `derive` command: once git has reported the tags of the
    `%D` ref list, the branch name and the commit hash, the version follows from three rules
    tried in order — the first tag that is a semantic version, else the version in a
    `release/` or `release-` branch name, else the default `0.1.0`. */
module DeriveCommand {

  import opened Wrappers
  import opened Strings
  import opened Decimal
  import opened SemVer
  import opened Details
  import opened Helper
  import opened Seqs

  const ReleaseSlash := "release/"
  const ReleaseDash := "release-"

  /** The version used when neither a tag nor the branch name gives one. */
  const DefaultVersion := Version(0, 1, 0, [], [])

  /** The pre-release label attached to the default off the main branches. */
  const DevLabel := "dev"

  /** The version of the first tag, in the given order, that parses. */
  function FirstTagVersion(tags: seq<string>): (r: Option<Version>)
    ensures r.Some? ==> Valid(r.value)
  {
    FirstParsedValid(tags);
    FirstSome(Parse, tags)
  }

  /** Whatever the first parseable tag yields is a valid version. */
  lemma FirstParsedValid(tags: seq<string>)
    ensures FirstSome(Parse, tags).Some? ==> Valid(FirstSome(Parse, tags).value)
  {
    if FirstSome(Parse, tags).Some? {
      var k := FirstSomeIndex(Parse, tags);
    }
  }

  /** The tag rule finds a version exactly when some tag parses. */
  lemma FirstTagVersionFound(tags: seq<string>)
    ensures FirstTagVersion(tags).Some? <==> exists j :: 0 <= j < |tags| && Parse(tags[j]).Some?
  {
    FirstSomeNone(Parse, tags);
  }

  /** The tag rule yields the version of the first tag that parses. */
  lemma FirstTagVersionFirst(tags: seq<string>, k: nat)
    requires k < |tags| && Parse(tags[k]).Some?
    requires forall j :: 0 <= j < k ==> Parse(tags[j]).None?
    ensures FirstTagVersion(tags) == Parse(tags[k])
  {
    FirstSomeAt(Parse, tags, k);
  }

  /** Only the first part of a tag list matters once it holds a version tag; otherwise the rest decides. */
  lemma FirstTagVersionAppend(a: seq<string>, b: seq<string>)
    ensures FirstTagVersion(a + b) == if FirstTagVersion(a).Some? then FirstTagVersion(a) else FirstTagVersion(b)
  {
    FirstSomeAppend(Parse, a, b);
  }

  /** The text after a release prefix, when the branch name has one. */
  function ReleaseBranchVersion(branch: string): (r: Option<Version>)
    ensures HasPrefix(branch, ReleaseSlash) ==> r == Parse(branch[|ReleaseSlash|..])
    ensures !HasPrefix(branch, ReleaseSlash) && HasPrefix(branch, ReleaseDash) ==> r == Parse(branch[|ReleaseDash|..])
    ensures !HasPrefix(branch, ReleaseSlash) && !HasPrefix(branch, ReleaseDash) ==> r.None?
    ensures r.Some? ==> Valid(r.value)
  {
    if HasPrefix(branch, ReleaseSlash) || HasPrefix(branch, ReleaseDash) then
      var branchVersionString :=
        if HasPrefix(branch, ReleaseSlash) then TrimPrefix(branch, ReleaseSlash)
        else TrimPrefix(branch, ReleaseDash);
      Parse(branchVersionString)
    else
      None
  }

  /** The default version for a branch: `0.1.0`, labelled `dev` except on `master` and `main`. */
  function DefaultFor(branch: string): (v: Version)
    ensures v.major == 0 && v.minor == 1 && v.patch == 0 && v.build == []
    ensures v.pre == [DevLabel] <==> branch != "master" && branch != "main"
    ensures v.pre == [] <==> branch == "master" || branch == "main"
    ensures Valid(v)
  {
    assert IsPreReleaseIdent(DevLabel) by {
      assert !IsDigit(DevLabel[0]);
    }
    if branch != "master" && branch != "main" then DefaultVersion.(pre := [DevLabel]) else DefaultVersion
  }

  /** The derivation rule of `Run`: the first version tag, else the release-branch
      version, else the default, flagged as such. Hash and branch are passed through. */
  function Derive(tags: seq<string>, branch: string, sha: string): (r: DetailInput)
    ensures r.sha == sha && r.branchName == branch
    ensures r.semver.Some? && Valid(r.semver.value)
    ensures FirstTagVersion(tags).Some? ==> r.semver == FirstTagVersion(tags) && !r.isDefault
    ensures FirstTagVersion(tags).None? && ReleaseBranchVersion(branch).Some? ==>
      r.semver == ReleaseBranchVersion(branch) && !r.isDefault
    ensures r.isDefault <==> FirstTagVersion(tags).None? && ReleaseBranchVersion(branch).None?
    ensures r.isDefault ==> r.semver == Some(DefaultFor(branch))
  {
    var versionDetailInput := DetailInput(None, false, sha, branch);
    var tagVersion := FirstTagVersion(tags);
    if tagVersion.Some? then
      versionDetailInput.(semver := tagVersion)
    else
      var branchVersion := ReleaseBranchVersion(branch);
      if branchVersion.Some? then
        versionDetailInput.(semver := branchVersion)
      else
        versionDetailInput.(semver := Some(DefaultFor(branch)), isDefault := true)
  }

  /** Tags after the first version tag are never looked at. */
  lemma DeriveIgnoresLaterTags(a: seq<string>, b: seq<string>, branch: string, sha: string)
    requires FirstTagVersion(a).Some?
    ensures Derive(a + b, branch, sha) == Derive(a, branch, sha)
  {
    FirstTagVersionAppend(a, b);
  }

  /** A tag that is not a semantic version is skipped: dropping it changes nothing. */
  lemma DeriveSkipsUnparseable(before: seq<string>, t: string, after: seq<string>, branch: string, sha: string)
    requires Parse(t).None?
    ensures Derive(before + [t] + after, branch, sha) == Derive(before + after, branch, sha)
  {
    FirstTagVersionAppend(before + [t], after);
    FirstTagVersionAppend(before, [t]);
    FirstTagVersionFound([t]);
    FirstTagVersionAppend(before, after);
  }

  /** A branch name yields a version exactly when it is `release/` or `release-`
      followed by that version's text. */
  lemma ReleaseBranchIff(branch: string, v: Version)
    ensures ReleaseBranchVersion(branch) == Some(v) <==>
      Valid(v) && (branch == ReleaseSlash + Render(v) || branch == ReleaseDash + Render(v))
  {
    var text := Render(v);
    if HasPrefix(branch, ReleaseSlash) {
      ParseIffRender(branch[|ReleaseSlash|..], v);
      assert branch == ReleaseSlash + branch[|ReleaseSlash|..];
    } else if HasPrefix(branch, ReleaseDash) {
      ParseIffRender(branch[|ReleaseDash|..], v);
      assert branch == ReleaseDash + branch[|ReleaseDash|..];
    } else {
    }
  }

  /** The text `0.1.0` the default is parsed from. */
  lemma DefaultParses()
    ensures Render(DefaultVersion) == "0.1.0"
    ensures Parse("0.1.0") == Some(DefaultVersion)
  {
    assert NatToString(0) == "0" && NatToString(1) == "1";
    assert Render(DefaultVersion) == "0" + "." + "1" + "." + "0";
    ParseRender(DefaultVersion);
  }

  /** `Run` from the point where git has answered: the trimmed branch name and hash,
      the tags read from the `%D` ref list, the derivation, and the detail record. */
  function DeriveFromGit(branchOutput: string, shaOutput: string, refList: string): (r: Result<VersionDetail, DetailError>)
    ensures r.Success?
    ensures r.value.branchName == TrimSpace(branchOutput) && r.value.sha == TrimSpace(shaOutput)
    ensures
      var input := Derive(TagsOfRefs(Split(refList, ',')), TrimSpace(branchOutput), TrimSpace(shaOutput));
      && r.value.isDefault == input.isDefault
      && Parse(r.value.semver) == input.semver
  {
    var currentBranchName := TrimmedOutput(branchOutput);
    var currentSha := TrimmedOutput(shaOutput);
    var currentTags := TagsOfRefs(Split(refList, ','));
    NewVersionDetail(Some(Derive(currentTags, currentBranchName, currentSha)))
  }

  /** Scenario: `latest` is skipped and `1.2.3` is taken. */
  lemma ScenarioFirstValidTag(sha: string)
    ensures Derive(["latest", "1.2.3"], "develop", sha).semver == Some(Version(1, 2, 3, [], []))
    ensures !Derive(["latest", "1.2.3"], "develop", sha).isDefault
  {
    var tags := ["latest", "1.2.3"];
    ParsesAs123();
    ParseNeedsDot("latest");
    FirstTagVersionFirst(tags, 1);
  }

  lemma ParsesAs123()
    ensures Parse("1.2.3") == Some(Version(1, 2, 3, [], []))
  {
    RendersAs123();
    ParseRender(Version(1, 2, 3, [], []));
  }

  lemma RendersAs123()
    ensures Render(Version(1, 2, 3, [], [])) == "1.2.3"
  {
    assert NatToString(1) == "1" && NatToString(2) == "2" && NatToString(3) == "3";
    assert Render(Version(1, 2, 3, [], [])) == "1" + "." + "2" + "." + "3";
  }

  /** Scenario: with no tags, branch `release/2.0.0-rc.1` gives `2.0.0-rc.1`. The
      branch name is written as the prefix followed by the text of that version. */
  lemma ScenarioReleaseSlash(sha: string)
    ensures Render(Version(2, 0, 0, ["rc", "1"], [])) == "2.0.0-rc.1"
    ensures Derive([], ReleaseSlash + Render(Version(2, 0, 0, ["rc", "1"], [])), sha).semver == Some(Version(2, 0, 0, ["rc", "1"], []))
    ensures !Derive([], ReleaseSlash + Render(Version(2, 0, 0, ["rc", "1"], [])), sha).isDefault
  {
    var v := Version(2, 0, 0, ["rc", "1"], []);
    RendersAsRc1();
    ReleaseBranchIff(ReleaseSlash + Render(v), v);
  }

  lemma RendersAsRc1()
    ensures Valid(Version(2, 0, 0, ["rc", "1"], []))
    ensures Render(Version(2, 0, 0, ["rc", "1"], [])) == "2.0.0-rc.1"
  {
    var v := Version(2, 0, 0, ["rc", "1"], []);
    assert AllDigits("1");
    assert !IsDigit("rc"[0]);
    assert CoreString(2, 0, 0) == "2.0.0" by {
      assert NatToString(2) == "2" && NatToString(0) == "0";
    }
    assert PreReleaseString(v) == "rc.1" by {
      assert v.pre[1..] == ["1"];
    }
    assert Render(v) == "2.0.0" + "-" + "rc.1";
  }

  /** Scenario: a feature branch with no tags gets `0.1.0-dev`, flagged as the default. */
  lemma ScenarioFeatureBranch(sha: string)
    ensures Derive([], "feature/x", sha).semver == Some(Version(0, 1, 0, [DevLabel], []))
    ensures Derive([], "feature/x", sha).isDefault
  {
    assert !HasPrefix("feature/x", ReleaseSlash) by {
      assert "feature/x"[0] != ReleaseSlash[0];
    }
    assert !HasPrefix("feature/x", ReleaseDash) by {
      assert "feature/x"[0] != ReleaseDash[0];
    }
  }

  /** Scenario: `main` with no tags gets plain `0.1.0`, flagged as the default. */
  lemma ScenarioMainBranch(sha: string)
    ensures Derive([], "main", sha).semver == Some(Version(0, 1, 0, [], []))
    ensures Derive([], "main", sha).isDefault
  {
    assert !HasPrefix("main", ReleaseSlash);
    assert !HasPrefix("main", ReleaseDash);
  }

  /** Scenario: tag `not-a-version` is skipped and branch `release-3.0.0` gives `3.0.0`. */
  lemma ScenarioReleaseDash(sha: string)
    ensures Render(Version(3, 0, 0, [], [])) == "3.0.0"
    ensures Derive(["not-a-version"], ReleaseDash + Render(Version(3, 0, 0, [], [])), sha).semver == Some(Version(3, 0, 0, [], []))
    ensures !Derive(["not-a-version"], ReleaseDash + Render(Version(3, 0, 0, [], [])), sha).isDefault
  {
    var v := Version(3, 0, 0, [], []);
    RendersAs300();
    ParseNeedsDot("not-a-version");
    ReleaseBranchIff(ReleaseDash + Render(v), v);
  }

  lemma RendersAs300()
    ensures Render(Version(3, 0, 0, [], [])) == "3.0.0"
  {
    assert NatToString(3) == "3" && NatToString(0) == "0";
    assert Render(Version(3, 0, 0, [], [])) == "3" + "." + "0" + "." + "0";
  }
}
