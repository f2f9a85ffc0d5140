/** The pure part of the `helper` package: what each function does with the text a
    git command printed. The command output is a parameter; the command itself is not
    part of this model. */
module Helper {

  import opened Wrappers
  import opened Strings
  import opened SemVer
  import opened Precedence
  import opened Seqs

  /** What `CurrentCommitSHA` (`git log -n 1 --format=%H`) and `CurrentBranchName`
      (`git branch --show-current`) both return: the command's output, trimmed. */
  function TrimmedOutput(output: string): (text: string)
    ensures TrimmedFrom(text, output)
  {
    TrimSpaceTrims(output);
    TrimSpace(output)
  }

  const TagRefPrefix := "tag: "

  /** The tag a `%D` ref-list segment names, if it names one. */
  function TagOfRef(segment: string): Option<string> {
    var ref := TrimSpace(segment);
    if HasPrefix(ref, TagRefPrefix) then Some(TrimPrefix(ref, TagRefPrefix)) else None
  }

  /** The tags named by a list of ref segments, in the order of their segments. */
  function TagsOfRefs(segments: seq<string>): seq<string> {
    FilterMap(TagOfRef, segments)
  }

  /** A tag is listed exactly when some ref of the list names it. */
  lemma CommitTagsMembership(refList: string, t: string)
    ensures t in TagsOfRefs(Split(refList, ',')) <==>
      exists i :: 0 <= i < |Split(refList, ',')| && TagOfRef(Split(refList, ',')[i]) == Some(t)
  {
    FilterMapMembership(TagOfRef, Split(refList, ','), t);
  }

  /** Tags keep the order of their refs: the tags of a joined list are the tags of each part. */
  lemma CommitTagsOrder(a: seq<string>, b: seq<string>)
    ensures TagsOfRefs(a + b) == TagsOfRefs(a) + TagsOfRefs(b)
  {
    FilterMapAppend(TagOfRef, a, b);
  }

  lemma TagsOfRefsStep(refs: seq<string>, i: nat)
    requires i < |refs|
    ensures TagOfRef(refs[i]).Some? ==> TagsOfRefs(refs[..i + 1]) == TagsOfRefs(refs[..i]) + [TagOfRef(refs[i]).value]
    ensures TagOfRef(refs[i]).None? ==> TagsOfRefs(refs[..i + 1]) == TagsOfRefs(refs[..i])
  {
    FilterMapAppend(TagOfRef, refs[..i], [refs[i]]);
    FilterMapSingle(TagOfRef, refs[i]);
    assert refs[..i + 1] == refs[..i] + [refs[i]];
  }

  /** `CurrentCommitTags` on the output of `git log -n 1 --tags --format=%D`: split at
      commas, trim each ref, keep those starting `tag: ` without that prefix. */
  method CurrentCommitTags(refList: string) returns (tags: seq<string>)
    ensures tags == TagsOfRefs(Split(refList, ','))
    ensures |tags| <= |Split(refList, ',')|
  {
    var refs := Split(refList, ',');
    tags := [];
    var i := 0;
    while i < |refs|
      invariant i <= |refs|
      invariant tags == TagsOfRefs(refs[..i])
    {
      var trimmedName := TrimSpace(refs[i]);
      TagsOfRefsStep(refs, i);
      if HasPrefix(trimmedName, TagRefPrefix) {
        tags := tags + [TrimPrefix(trimmedName, TagRefPrefix)];
      }
      i := i + 1;
    }
    assert refs[..i] == refs;
  }

  /** The `%D` refs that name the given tags, one ` tag: NAME` segment each. */
  function TagRefs(tags: seq<string>): (segments: seq<string>)
    ensures |segments| == |tags|
    ensures forall i :: 0 <= i < |tags| ==> segments[i] == " " + TagRefPrefix + tags[i]
  {
    if |tags| == 0 then [] else [" " + TagRefPrefix + tags[0]] + TagRefs(tags[1..])
  }

  /** Tag names as git prints them: non-empty, no comma, no whitespace at the end. */
  predicate IsPlainTagName(t: string) {
    |t| > 0 && ',' !in t && !IsSpace(t[|t| - 1])
  }

  /** Reading back a ref list made of tag refs yields exactly those tags, in order. */
  lemma {:induction false} CommitTagsRoundTrip(tags: seq<string>)
    requires |tags| > 0
    requires forall i :: 0 <= i < |tags| ==> IsPlainTagName(tags[i])
    ensures TagsOfRefs(Split(Join(TagRefs(tags), ','), ',')) == tags
  {
    var segments := TagRefs(tags);
    forall i | 0 <= i < |segments|
      ensures ',' !in segments[i]
    {
      assert segments[i] == " " + TagRefPrefix + tags[i];
    }
    SplitJoin(segments, ',');
    TagRefsRead(tags);
  }

  /** A ` tag: NAME` segment names `NAME`. */
  lemma TagRefNamesTag(t: string)
    requires IsPlainTagName(t)
    ensures TagOfRef(" " + TagRefPrefix + t) == Some(t)
  {
    var ref := TagRefPrefix + t;
    assert IsTrimmed(ref);
    TrimSpacePadding(" ", ref, "");
    assert " " + TagRefPrefix + t == " " + ref + "";
    assert ref[..|TagRefPrefix|] == TagRefPrefix;
    assert ref[|TagRefPrefix|..] == t;
  }

  lemma {:induction false} TagRefsRead(tags: seq<string>)
    requires forall i :: 0 <= i < |tags| ==> IsPlainTagName(tags[i])
    ensures TagsOfRefs(TagRefs(tags)) == tags
    decreases |tags|
  {
    if |tags| > 0 {
      var t := tags[0];
      TagRefNamesTag(t);
      assert TagRefs(tags)[1..] == TagRefs(tags[1..]);
      TagRefsRead(tags[1..]);
      assert tags == [t] + tags[1..];
    }
  }

  /** `TagExists` on the output of `git tag`: true iff some line equals the tag exactly. */
  method TagExists(listing: string, tag: string) returns (found: bool)
    ensures found <==> tag in Split(listing, '\n')
  {
    var lines := Split(listing, '\n');
    var i := 0;
    while i < |lines|
      invariant i <= |lines|
      invariant tag !in lines[..i]
    {
      if lines[i] == tag {
        return true;
      }
      assert lines[..i + 1] == lines[..i] + [lines[i]];
      i := i + 1;
    }
    assert lines[..i] == lines;
    return false;
  }

  /** Over a listing built from newline-free tag names, line membership is name membership. */
  lemma ListedTags(tags: seq<string>, t: string)
    requires |tags| > 0
    requires forall i :: 0 <= i < |tags| ==> '\n' !in tags[i]
    ensures t in Split(Join(tags, '\n'), '\n') <==> t in tags
  {
    SplitJoin(tags, '\n');
  }

  /** The listing `git tag` prints ends each name with a newline, so splitting it leaves an
      empty last line: the listed names are matched, and so is the empty tag. */
  lemma ListedTagsTerminated(tags: seq<string>, t: string)
    requires |tags| > 0
    requires forall i :: 0 <= i < |tags| ==> '\n' !in tags[i]
    ensures Split(Join(tags, '\n') + "\n", '\n') == tags + [""]
    ensures t in Split(Join(tags, '\n') + "\n", '\n') <==> t in tags || t == ""
  {
    var lines := tags + [""];
    JoinEmptyLast(tags, '\n');
    assert forall i :: 0 <= i < |lines| ==> '\n' !in lines[i] by {
      forall i | 0 <= i < |lines|
        ensures '\n' !in lines[i]
      {
        if i < |tags| {
          assert lines[i] == tags[i];
        }
      }
    }
    SplitJoin(lines, '\n');
  }

  /** The zero value `semver.Version{}` the running maximum starts from. */
  const ZeroVersion := Version(0, 0, 0, [], [])

  /** The version a line parses to, if any. */
  function LineVersion(lines: seq<string>, i: nat): Option<Version>
    requires i < |lines|
  {
    Parse(lines[i])
  }

  /** Replacing the running maximum by a strictly greater version keeps it above every
      version the old maximum was not below, now strictly. */
  lemma Promote(current: Version, v: Version, p: Version)
    requires Valid(current) && Valid(p)
    requires Less(current, v) && !Less(current, p)
    ensures !Less(v, p) && Less(p, v)
  {
    if Less(v, p) {
      LessTransitive(current, v, p);
    }
    LessTotal(current, p);
    if Less(p, current) {
      LessTransitive(p, current, v);
    } else {
      SamePrecedenceSubstitutes(p, current, v);
    }
  }

  /** No parseable line among the first `n` ranks above `v`. */
  ghost predicate AtLeastLines(lines: seq<string>, n: nat, v: Version)
    requires n <= |lines|
  {
    forall j :: 0 <= j < n && LineVersion(lines, j).Some? ==> !Less(v, LineVersion(lines, j).value)
  }

  /** Every parseable line before `k` ranks strictly below `v`. */
  ghost predicate AboveLines(lines: seq<string>, k: nat, v: Version)
    requires k <= |lines|
  {
    forall j :: 0 <= j < k && LineVersion(lines, j).Some? ==> Less(LineVersion(lines, j).value, v)
  }

  /** Line `k` is the first line to reach `v`'s rank, and parses to `v`. */
  ghost predicate FirstOfRank(lines: seq<string>, k: nat, v: Version) {
    k < |lines| && LineVersion(lines, k) == Some(v) && AboveLines(lines, k, v)
  }

  /** A line that does not rank above the running maximum leaves it the maximum. */
  lemma KeepMaximum(lines: seq<string>, i: nat, highest: Version)
    requires i < |lines| && AtLeastLines(lines, i, highest)
    requires LineVersion(lines, i).Some? ==> !Less(highest, LineVersion(lines, i).value)
    ensures AtLeastLines(lines, i + 1, highest)
  {
  }

  /** A line that ranks above the running maximum becomes the maximum, strictly above every earlier line. */
  lemma ReplaceMaximum(lines: seq<string>, i: nat, highest: Version, v: Version)
    requires i < |lines| && AtLeastLines(lines, i, highest) && Valid(highest)
    requires LineVersion(lines, i) == Some(v) && Less(highest, v)
    ensures AtLeastLines(lines, i + 1, v) && FirstOfRank(lines, i, v)
  {
    forall j | 0 <= j < i && LineVersion(lines, j).Some?
      ensures !Less(v, LineVersion(lines, j).value) && Less(LineVersion(lines, j).value, v)
    {
      Promote(highest, v, LineVersion(lines, j).value);
    }
    LessIrreflexive(v);
  }

  /** `HighestSemverTag` on the output of `git tags`: the running maximum, under
      precedence, of the lines that parse, starting from the zero version and replaced
      only by a strictly greater version, so the earliest of equally ranked tags stays. */
  method HighestSemverTag(listing: string) returns (highest: Version)
    ensures Valid(highest)
    ensures forall i :: 0 <= i < |Split(listing, '\n')| && LineVersion(Split(listing, '\n'), i).Some? ==>
      !Less(highest, LineVersion(Split(listing, '\n'), i).value)
    ensures highest == ZeroVersion || Less(ZeroVersion, highest)
    ensures highest == ZeroVersion || exists k :: 0 <= k < |Split(listing, '\n')| && FirstOfRank(Split(listing, '\n'), k, highest)
  {
    var lines := Split(listing, '\n');
    highest := ZeroVersion;
    ghost var at: int := -1;
    var i := 0;
    while i < |lines|
      invariant i <= |lines|
      invariant Valid(highest)
      invariant -1 <= at < i
      invariant at == -1 ==> highest == ZeroVersion
      invariant at >= 0 ==> FirstOfRank(lines, at, highest) && Less(ZeroVersion, highest)
      invariant AtLeastLines(lines, i, highest)
    {
      var tagVersion := Parse(lines[i]);
      if tagVersion.Some? && Less(highest, tagVersion.value) {
        ReplaceMaximum(lines, i, highest, tagVersion.value);
        if at >= 0 {
          LessTransitive(ZeroVersion, highest, tagVersion.value);
        }
        highest := tagVersion.value;
        at := i;
      } else {
        KeepMaximum(lines, i, highest);
      }
      i := i + 1;
    }
    assert AtLeastLines(lines, |lines|, highest);
    if at >= 0 {
      assert 0 <= at < |Split(listing, '\n')| && FirstOfRank(Split(listing, '\n'), at, highest);
    }
  }
}
