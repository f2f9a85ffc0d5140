/** Semantic versions as Semantic Versioning 2.0.0 section 2 defines their text:
    `MAJOR.MINOR.PATCH`, optionally `-` and dot-separated pre-release identifiers,
    optionally `+` and dot-separated build identifiers. This is the strict grammar:
    no `v` prefix, no partial versions. */
module SemVer {

  import opened Wrappers
  import opened Strings
  import opened Decimal

  /** Pre-release and build metadata are kept as their identifiers; an empty
      sequence means the part is absent. */
  datatype Version = Version(major: nat, minor: nat, patch: nat, pre: seq<string>, build: seq<string>)

  /** The identifier alphabet `[0-9A-Za-z-]`. */
  predicate IsIdentChar(c: char) {
    IsDigit(c) || 'A' <= c <= 'Z' || 'a' <= c <= 'z' || c == '-'
  }

  predicate IsBuildIdent(s: string) {
    |s| > 0 && forall i :: 0 <= i < |s| ==> IsIdentChar(s[i])
  }

  /** A pre-release identifier is a build identifier that, when all digits, has no leading zero. */
  predicate IsPreReleaseIdent(s: string) {
    IsBuildIdent(s) && (AllDigits(s) ==> IsNumeral(s))
  }

  predicate Valid(v: Version) {
    && (forall i :: 0 <= i < |v.pre| ==> IsPreReleaseIdent(v.pre[i]))
    && (forall i :: 0 <= i < |v.build| ==> IsBuildIdent(v.build[i]))
  }

  /** `MAJOR.MINOR.PATCH` in decimal. */
  function CoreString(major: nat, minor: nat, patch: nat): string {
    NatToString(major) + "." + NatToString(minor) + "." + NatToString(patch)
  }

  /** The pre-release label as one string, empty when absent. */
  function PreReleaseString(v: Version): string {
    Join(v.pre, '.')
  }

  /** The build metadata as one string, empty when absent. */
  function MetadataString(v: Version): string {
    Join(v.build, '.')
  }

  /** The canonical text of a version. */
  function Render(v: Version): string {
    MainString(v) + BuildSuffix(v.build)
  }

  /** The text before `+` in a rendering: core and pre-release. */
  function MainString(v: Version): string {
    CoreString(v.major, v.minor, v.patch) + (if |v.pre| == 0 then "" else "-" + PreReleaseString(v))
  }

  /** `+` and the build identifiers, or nothing when there are none. */
  function BuildSuffix(build: seq<string>): string {
    if |build| == 0 then "" else "+" + Join(build, '.')
  }

  function ParseCore(s: string): Option<(nat, nat, nat)> {
    var parts := Split(s, '.');
    if |parts| == 3 && IsNumeral(parts[0]) && IsNumeral(parts[1]) && IsNumeral(parts[2]) then
      Some((StringToNat(parts[0]), StringToNat(parts[1]), StringToNat(parts[2])))
    else
      None
  }

  function ParsePreRelease(s: string): Option<seq<string>> {
    var ids := Split(s, '.');
    if forall i :: 0 <= i < |ids| ==> IsPreReleaseIdent(ids[i]) then Some(ids) else None
  }

  function ParseBuild(s: string): Option<seq<string>> {
    var ids := Split(s, '.');
    if forall i :: 0 <= i < |ids| ==> IsBuildIdent(ids[i]) then Some(ids) else None
  }

  /** Reads `MAJOR.MINOR.PATCH[-PRERELEASE]`, the text before any `+`. */
  function ParseMain(s: string): Option<(nat, nat, nat, seq<string>)> {
    var cut := CutAt(s, '-');
    var core := ParseCore(cut.0);
    var pre := if cut.1.None? then Some([]) else ParsePreRelease(cut.1.value);
    if core.Some? && pre.Some? then
      Some((core.value.0, core.value.1, core.value.2, pre.value))
    else
      None
  }

  /** Reads a version; `None` for any text outside the grammar. */
  function Parse(s: string): (r: Option<Version>)
    ensures r.Some? ==> Valid(r.value)
  {
    var cut := CutAt(s, '+');
    var main := ParseMain(cut.0);
    var build := if cut.1.None? then Some([]) else ParseBuild(cut.1.value);
    if main.Some? && build.Some? then
      Some(Version(main.value.0, main.value.1, main.value.2, main.value.3, build.value))
    else
      None
  }

  /** Text without a dot is never a version: the core needs two. */
  lemma ParseNeedsDot(s: string)
    requires '.' !in s
    ensures Parse(s).None?
  {
    var cut := CutAt(s, '+');
    if cut.1.Some? {
      assert forall c :: c in cut.0 ==> c in s;
    }
    var mainCut := CutAt(cut.0, '-');
    if mainCut.1.Some? {
      assert forall c :: c in mainCut.0 ==> c in cut.0;
    }
    assert Split(mainCut.0, '.') == [mainCut.0];
  }

  lemma NumeralExcludes(n: nat, c: char)
    requires !IsDigit(c)
    ensures c !in NatToString(n)
  {
  }

  lemma IdentsExclude(ids: seq<string>, c: char)
    requires forall i :: 0 <= i < |ids| ==> IsBuildIdent(ids[i])
    requires !IsIdentChar(c)
    ensures forall i :: 0 <= i < |ids| ==> c !in ids[i]
  {
  }

  lemma Join3(a: string, b: string, c: string, sep: char)
    ensures Join([a, b, c], sep) == a + [sep] + b + [sep] + c
  {
    assert [a, b, c][1..] == [b, c];
    assert [b, c][1..] == [c];
    assert Join([b, c], sep) == b + [sep] + c;
  }

  lemma CoreParses(major: nat, minor: nat, patch: nat)
    ensures ParseCore(CoreString(major, minor, patch)) == Some((major, minor, patch))
    ensures '-' !in CoreString(major, minor, patch) && '+' !in CoreString(major, minor, patch)
  {
    var a, b, c := NatToString(major), NatToString(minor), NatToString(patch);
    NumeralExcludes(major, '.'); NumeralExcludes(minor, '.'); NumeralExcludes(patch, '.');
    NumeralExcludes(major, '-'); NumeralExcludes(minor, '-'); NumeralExcludes(patch, '-');
    NumeralExcludes(major, '+'); NumeralExcludes(minor, '+'); NumeralExcludes(patch, '+');
    var parts := [a, b, c];
    Join3(a, b, c, '.');
    assert Join(parts, '.') == CoreString(major, minor, patch);
    SplitJoin(parts, '.');
    JoinExcludes(parts, '.', '-');
    JoinExcludes(parts, '.', '+');
  }

  lemma PreReleaseParses(ids: seq<string>)
    requires |ids| > 0
    requires forall i :: 0 <= i < |ids| ==> IsPreReleaseIdent(ids[i])
    ensures ParsePreRelease(Join(ids, '.')) == Some(ids)
    ensures '+' !in Join(ids, '.')
  {
    IdentsExclude(ids, '.');
    IdentsExclude(ids, '+');
    JoinExcludes(ids, '.', '+');
    SplitJoin(ids, '.');
  }

  lemma BuildParses(ids: seq<string>)
    requires |ids| > 0
    requires forall i :: 0 <= i < |ids| ==> IsBuildIdent(ids[i])
    ensures ParseBuild(Join(ids, '.')) == Some(ids)
  {
    IdentsExclude(ids, '.');
    SplitJoin(ids, '.');
  }

  lemma MainParses(v: Version)
    requires Valid(v)
    ensures ParseMain(MainString(v)) == Some((v.major, v.minor, v.patch, v.pre))
    ensures '+' !in MainString(v)
  {
    var core := CoreString(v.major, v.minor, v.patch);
    CoreParses(v.major, v.minor, v.patch);
    if |v.pre| > 0 {
      var preText := PreReleaseString(v);
      PreReleaseParses(v.pre);
      assert MainString(v) == core + ['-'] + preText;
      CutAtJoined(core, '-', preText);
    } else {
      assert MainString(v) == core;
    }
  }

  /** Every valid version reads back from its rendering. */
  lemma ParseRender(v: Version)
    requires Valid(v)
    ensures Parse(Render(v)) == Some(v)
  {
    var main := MainString(v);
    MainParses(v);
    if |v.build| == 0 {
      assert Render(v) == main;
    } else {
      var buildText := MetadataString(v);
      assert Render(v) == main + ['+'] + buildText;
      CutAtJoined(main, '+', buildText);
      BuildParses(v.build);
    }
  }

  lemma CoreRenders(s: string)
    requires ParseCore(s).Some?
    ensures var c := ParseCore(s).value; CoreString(c.0, c.1, c.2) == s
  {
    var parts := Split(s, '.');
    NumeralRoundTrip(parts[0]);
    NumeralRoundTrip(parts[1]);
    NumeralRoundTrip(parts[2]);
    Join3(parts[0], parts[1], parts[2], '.');
    assert parts == [parts[0], parts[1], parts[2]];
    JoinSplit(s, '.');
  }

  /** What an accepted main part is made of: the core before any `-`, and the
      pre-release identifiers after it. */
  lemma MainShape(s: string)
    requires ParseMain(s).Some?
    ensures var m := ParseMain(s).value; var cut := CutAt(s, '-');
      && ParseCore(cut.0) == Some((m.0, m.1, m.2))
      && (cut.1.None? ==> m.3 == [])
      && (cut.1.Some? ==> m.3 == Split(cut.1.value, '.'))
      && s == cut.0 + (if cut.1.None? then "" else "-" + cut.1.value)
  {
  }

  lemma MainRenders(s: string)
    requires ParseMain(s).Some?
    ensures var m := ParseMain(s).value; MainString(Version(m.0, m.1, m.2, m.3, [])) == s
  {
    var m := ParseMain(s).value;
    var cut := CutAt(s, '-');
    MainShape(s);
    CoreRenders(cut.0);
    MainFromParts(cut.0, cut.1, Version(m.0, m.1, m.2, m.3, []));
  }

  /** The main text of a version whose core renders as `core` and whose pre-release
      identifiers are read from `pre`, when there is a pre-release. */
  lemma MainFromParts(core: string, pre: Option<string>, v: Version)
    requires CoreString(v.major, v.minor, v.patch) == core
    requires pre.None? ==> v.pre == []
    requires pre.Some? ==> v.pre == Split(pre.value, '.')
    ensures MainString(v) == core + (if pre.None? then "" else "-" + pre.value)
  {
    if pre.Some? {
      JoinSplit(pre.value, '.');
    }
  }

  /** What an accepted text is made of: the main part before any `+`, and the build
      identifiers after it. */
  lemma ParseShape(s: string)
    requires Parse(s).Some?
    ensures var v := Parse(s).value; var cut := CutAt(s, '+');
      && ParseMain(cut.0) == Some((v.major, v.minor, v.patch, v.pre))
      && (cut.1.None? ==> v.build == [])
      && (cut.1.Some? ==> v.build == Split(cut.1.value, '.'))
      && s == cut.0 + (if cut.1.None? then "" else "+" + cut.1.value)
  {
  }

  lemma MainOfParse(s: string)
    requires Parse(s).Some?
    ensures MainString(Parse(s).value) == CutAt(s, '+').0
  {
    var v := Parse(s).value;
    ParseShape(s);
    MainRenders(CutAt(s, '+').0);
    assert MainString(v) == MainString(Version(v.major, v.minor, v.patch, v.pre, []));
  }

  /** Parsing accepts only canonical text: a parsed version renders as the text it was read from. */
  lemma RenderParse(s: string)
    requires Parse(s).Some?
    ensures Render(Parse(s).value) == s
  {
    var cut := CutAt(s, '+');
    ParseShape(s);
    MainOfParse(s);
    RenderFromParts(cut.0, cut.1, Parse(s).value);
  }

  /** The text of a version whose main part renders as `main` and whose build
      identifiers are read from `build`, when there is a build. */
  lemma RenderFromParts(main: string, build: Option<string>, v: Version)
    requires MainString(v) == main
    requires build.None? ==> v.build == []
    requires build.Some? ==> v.build == Split(build.value, '.')
    ensures Render(v) == main + (if build.None? then "" else "+" + build.value)
  {
    if build.Some? {
      BuildSuffixSplit(build.value);
    }
  }

  /** The build suffix of the identifiers read from `t` is `+` then `t`. */
  lemma BuildSuffixSplit(t: string)
    ensures BuildSuffix(Split(t, '.')) == "+" + t
  {
    JoinSplit(t, '.');
  }

  /** `Parse` and `Render` are inverse: text parses to a version exactly when it is that version's rendering. */
  lemma ParseIffRender(s: string, v: Version)
    ensures Parse(s) == Some(v) <==> Valid(v) && Render(v) == s
  {
    if Parse(s) == Some(v) {
      RenderParse(s);
    }
    if Valid(v) && Render(v) == s {
      ParseRender(v);
    }
  }
}
