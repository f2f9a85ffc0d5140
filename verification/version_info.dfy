/** The tool's own version string. The three build-time variables of the `version`
    package are parameters here. */
module VersionInfo {

  import opened Wrappers
  import opened Strings
  import opened Decimal
  import opened SemVer

  /** `GetVersionInfo`: the core, then `-` and the pre-release when there is one,
      then `+` and the metadata when there is one. */
  function GetVersionInfo(core: string, preRelease: string, metadata: string): (r: string)
    ensures core <= r
    ensures preRelease == "" && metadata == "" ==> r == core
    ensures preRelease != "" ==> core + "-" + preRelease <= r
    ensures metadata != "" ==> |r| > |metadata| && r[|r| - |metadata| - 1..] == "+" + metadata
    ensures metadata == "" ==> (preRelease == "" ==> r == core) && (preRelease != "" ==> r == core + "-" + preRelease)
    ensures |r| == |core| + (if preRelease != "" then |preRelease| + 1 else 0) + (if metadata != "" then |metadata| + 1 else 0)
  {
    var withPre := if preRelease != "" then core + "-" + preRelease else core;
    if metadata != "" then withPre + "+" + metadata else withPre
  }

  /** Given the core and identifier lists of a valid version, the tool's version string is
      exactly that version's text, and so is itself a valid semantic version. */
  lemma VersionInfoIsSemVer(v: Version)
    requires Valid(v)
    ensures GetVersionInfo(CoreString(v.major, v.minor, v.patch), PreReleaseString(v), MetadataString(v)) == Render(v)
    ensures Parse(GetVersionInfo(CoreString(v.major, v.minor, v.patch), PreReleaseString(v), MetadataString(v))) == Some(v)
  {
    VersionInfoIsRender(v);
    ParseRender(v);
  }

  lemma VersionInfoIsRender(v: Version)
    requires Valid(v)
    ensures GetVersionInfo(CoreString(v.major, v.minor, v.patch), PreReleaseString(v), MetadataString(v)) == Render(v)
  {
    var core := CoreString(v.major, v.minor, v.patch);
    var pre := PreReleaseString(v);
    var meta := MetadataString(v);
    if |v.pre| > 0 {
      JoinNonEmpty(v.pre, '.');
    }
    if |v.build| > 0 {
      JoinNonEmpty(v.build, '.');
    }
    assert MainString(v) == if pre != "" then core + "-" + pre else core;
    assert BuildSuffix(v.build) == if meta != "" then "+" + meta else "";
  }

  /** The version `0.1.0-dev.1+build.1234` and its text. */
  function ExampleVersion(): Version {
    Version(0, 1, 0, ["dev", "1"], ["build", "1234"])
  }

  lemma ExampleValid()
    ensures Valid(ExampleVersion())
  {
    assert IsPreReleaseIdent("1") by {
      assert AllDigits("1");
    }
    assert IsPreReleaseIdent("dev") by {
      assert !IsDigit("dev"[0]);
    }
  }

  lemma ExampleRender()
    ensures Render(ExampleVersion()) == "0.1.0-dev.1+build.1234"
  {
    var v := ExampleVersion();
    assert CoreString(0, 1, 0) == "0.1.0" by {
      assert NatToString(0) == "0" && NatToString(1) == "1";
    }
    assert PreReleaseString(v) == "dev.1" by {
      assert v.pre[1..] == ["1"];
    }
    assert MetadataString(v) == "build.1234" by {
      assert v.build[1..] == ["1234"];
    }
    assert MainString(v) == "0.1.0" + "-" + "dev.1";
    assert BuildSuffix(v.build) == "+" + "build.1234";
    assert ("0.1.0" + "-" + "dev.1") + ("+" + "build.1234") == "0.1.0-dev.1+build.1234";
  }

  /** Core `0.1.0`, pre-release `dev.1` and metadata `build.1234` give
      `0.1.0-dev.1+build.1234`, which parses as that version. */
  lemma VersionInfoExample()
    ensures GetVersionInfo("0.1.0", "dev.1", "build.1234") == "0.1.0-dev.1+build.1234"
    ensures Parse("0.1.0-dev.1+build.1234") == Some(ExampleVersion())
  {
    var withPre := "0.1.0" + "-" + "dev.1";
    assert withPre == "0.1.0-dev.1";
    assert withPre + "+" + "build.1234" == "0.1.0-dev.1+build.1234";
    ExampleParses();
  }

  lemma ExampleParses()
    ensures Parse("0.1.0-dev.1+build.1234") == Some(ExampleVersion())
  {
    ExampleValid();
    ExampleRender();
    ParseRender(ExampleVersion());
  }
}
