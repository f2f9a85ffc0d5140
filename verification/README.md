# GitVersion derivation core, in Dafny

GitVersion's `derive` command works out a semantic version for the current checkout. It
asks git for three things: the branch name, the commit hash, and the `%D` ref list that
`git log -n 1 --tags --format=%D` prints (helper/funcs.go:85). Then it applies three rules,
in order:

1. the first tag of that ref list that is a semantic version;
2. otherwise, the version written after `release/` or `release-` in the branch name;
3. otherwise, the default `0.1.0`, labelled `dev` unless the branch is `master` or
   `main`, and flagged as the default.

The result is turned into a `VersionDetail` record: the version's parts, its core
`MAJOR.MINOR.PATCH`, the commit hash and its seven-character short form, and the branch.

This project models that decision and the pure data shaping around it:

- the derivation rule, as the function `DeriveCommand.Derive`;
- the record construction `NewVersionDetail`;
- the tool's own version string `GetVersionInfo`;
- the text processing the `helper` package applies to git's output: the `%D` ref-list
  reader, tag-line membership, the running maximum over a tag listing, and the trimming
  of the hash and branch name.

Modules, one per file:

- `Wrappers`: `Option` and `Result`.
- `Seqs`: a filter-map and a first-match search over sequences.
- `Strings`: Go's `strings.TrimSpace`, `Split`, `Join`, `HasPrefix` and `TrimPrefix`.
  Strings are sequences of characters.
- `Decimal`: `%d` rendering of natural numbers and its inverse.
- `SemVer`: the version datatype, the Semantic Versioning 2.0.0 grammar of section 2 as
  a strict parser, and the canonical rendering.
- `Precedence`: the order of section 11 of Semantic Versioning 2.0.0.
- `Details`: `VersionDetailInput`, `VersionDetail` and `NewVersionDetail`.
- `VersionInfo`: `GetVersionInfo`. The build-time variables are parameters.
- `Helper`: the pure parts of `helper/funcs.go`.
- `DeriveCommand`: the derivation rule, and `Run` from the point where git has answered.

The version parser behind `semver.NewVersion` belongs to an external library. It is
modelled as the strict section 2 grammar with no extensions. Its rendering is modelled
as the canonical text of a version. So `Parse` and `Render` are inverse both ways, and
the model relies on that wherever the Go code parses a string it built, or prints a
version it parsed.

## Model

| member | source | states |
|---|---|---|
| Strings.TrimSpaceTrims | helper/funcs.go:96 | The trimmed text is a substring of the input that neither starts nor ends with whitespace. Only whitespace lies outside it, on either side. |
| Strings.TrimSpaceFixedPoint | helper/funcs.go:24 | Trimming leaves a string unchanged exactly when it has no leading or trailing whitespace. |
| Strings.TrimSpaceIdempotent | helper/funcs.go:146 | Trimming twice gives the same text as trimming once. |
| Strings.TrimSpacePadding | helper/funcs.go:96 | Whitespace added around a trimmed string is exactly what trimming removes. |
| Strings.TrimPrefix | command/derive.go:165-168 | When the prefix is present, the prefix followed by the result is the input. Otherwise the input is returned unchanged. |
| Strings.JoinSplit | helper/funcs.go:93 | Joining the pieces of a split with the separator gives back the split text. |
| Strings.SplitJoin | helper/funcs.go:116 | Splitting a join of separator-free parts gives back exactly those parts. |
| Decimal.NatToString | version/version_detail.go:56 | `%d` of a natural number is a numeral with no leading zero, and reading it back gives the number. |
| Decimal.NumeralRoundTrip | version/version_detail.go:56 | A numeral with no leading zero is the `%d` text of the number it denotes. |
| SemVer.Parse | command/derive.go:147 | Whatever the parser accepts is a valid version: numeric core, well-formed pre-release and build identifiers. |
| SemVer.ParseRender | version/version_detail.go:59 | A valid version's text parses back to that same version. |
| SemVer.RenderParse | command/derive.go:147-151 | Any accepted text is exactly the rendering of the version it parses to. |
| SemVer.ParseIffRender | command/derive.go:147 | A text parses to a version exactly when the version is valid and the text is its rendering. |
| SemVer.ParseNeedsDot | command/derive.go:147-151 | A text without a dot is never accepted as a version, so tags like `latest` are skipped. |
| Precedence.LessIrreflexive | helper/funcs.go:128 | No version is greater than itself, so an equal tag never replaces the running maximum. |
| Precedence.LessTransitive | helper/funcs.go:128 | The `GreaterThan` order is transitive. |
| Precedence.LessTotal | helper/funcs.go:128 | Of two valid versions, one ranks above the other, or they have the same precedence and neither ranks above. |
| Precedence.LessAsymmetric | helper/funcs.go:128 | Two versions are never each greater than the other. |
| Precedence.ExampleChain | helper/funcs.go:128 | The example chain of section 11 of Semantic Versioning 2.0.0 is ordered: 1.0.0-alpha < 1.0.0-alpha.1 < 1.0.0-alpha.beta < 1.0.0-beta < 1.0.0-beta.2 < 1.0.0-beta.11 < 1.0.0-rc.1 < 1.0.0. |
| Details.ShortSha | version/version_detail.go:46-50 | The short hash is a prefix of the hash. It has seven characters when the hash has at least seven, and none otherwise. |
| Details.CoreFacts | version/version_detail.go:56 | The core text `MAJOR.MINOR.PATCH` splits into three dot-separated parts and parses as the release version with those numbers. |
| Details.NewVersionDetail | version/version_detail.go:36-65 | A nil input gives the missing-input error, checked first. A nil version gives the missing-version error. Otherwise it succeeds: numbers, pre-release, metadata, hash, branch and default flag come from the input; the short hash follows the seven-character rule; the core is a release version with two dots; the version text parses back to the input version. |
| VersionInfo.GetVersionInfo | version/version_info.go:14-28 | The result starts with the core. It is the core alone when pre-release and metadata are empty. A pre-release follows the core directly after `-`. Metadata comes last after `+`. Its length is the core's, plus the pre-release's and one when there is a pre-release, plus the metadata's and one when there is metadata, so nothing lies between the parts. |
| VersionInfo.VersionInfoIsSemVer | version/version_info.go:14-28 | Built from a valid version's parts, the string is that version's text and parses back to it. |
| VersionInfo.VersionInfoExample | version/version_info_test.go:11-21 | Core `0.1.0`, pre-release `dev.1` and metadata `build.1234` give `0.1.0-dev.1+build.1234`, which parses as that version. |
| Helper.TrimmedOutput | helper/funcs.go:24 | The commit hash is the command output with leading and trailing whitespace removed: a substring of the output, with only whitespace around it and none at its ends. `CurrentBranchName` at helper/funcs.go:146 returns its output the same way. |
| Helper.CurrentCommitTags | helper/funcs.go:93-101 | The loop yields, in order, the comma-separated refs that start with `tag: ` after trimming, with that prefix removed. There are never more tags than refs. |
| Helper.CommitTagsMembership | helper/funcs.go:95-100 | A name is among the tags exactly when some ref of the list, trimmed, is `tag: ` followed by it. |
| Helper.CommitTagsOrder | helper/funcs.go:95-100 | The tags of two consecutive runs of refs are the tags of the first run followed by those of the second, so ref order is kept. |
| Helper.CommitTagsRoundTrip | helper/funcs.go:93-101 | A ref list of ` tag: NAME` segments joined by commas reads back as exactly those names, in order. |
| Helper.TagExists | helper/funcs.go:38-46 | The answer is true exactly when some newline-separated line of the listing equals the tag. |
| Helper.ListedTags | helper/funcs.go:38-46 | For a listing of newline-free names, a line matches exactly when the name is one of those listed. |
| Helper.ListedTagsTerminated | helper/funcs.go:38-46 | For the newline-terminated listing `git tag` prints, the lines are the names followed by one empty line, so a tag matches exactly when it is listed or is the empty string. |
| Helper.HighestSemverTag | helper/funcs.go:116-133 | The result is valid and no parseable line ranks above it. It is the zero version or above it. If it is not the zero version, it is the parse of the first line that reaches its rank, so the earliest of equal tags is kept. |
| DeriveCommand.FirstTagVersion | command/derive.go:145-156 | Whatever the tag rule yields is a valid version. |
| DeriveCommand.FirstTagVersionFound | command/derive.go:145-156 | The tag rule yields a version exactly when some tag parses. |
| DeriveCommand.FirstTagVersionFirst | command/derive.go:145-156 | When every tag before position k fails to parse and the tag at k parses, the rule yields that tag's version. |
| DeriveCommand.FirstTagVersionAppend | command/derive.go:145-156 | Once a run of tags holds a version tag, tags after it are never consulted. Otherwise the tags after it decide. |
| DeriveCommand.ReleaseBranchVersion | command/derive.go:160-177 | Only `release/` is stripped when present, otherwise only `release-`, and the rest is parsed. A branch with neither prefix yields nothing. |
| DeriveCommand.ReleaseBranchIff | command/derive.go:160-177 | A branch yields a version exactly when the version is valid and the branch is `release/` or `release-` followed by the version's text. |
| DeriveCommand.DefaultFor | command/derive.go:179-192 | The default is 0.1.0 with no build metadata. Its pre-release is `dev` exactly when the branch is neither `master` nor `main`, and empty exactly when it is one of them. |
| DeriveCommand.DefaultParses | command/derive.go:180-185 | The text `0.1.0` parses to the default version, so the error exit after parsing it is never taken. |
| DeriveCommand.Derive | command/derive.go:140-194 | Hash and branch are copied unchanged. There is always a valid version. The first parseable tag wins, not flagged as default. With no parseable tag, a release-branch version wins, not flagged. The result is flagged default exactly when both rules find nothing, and then it is the default for the branch. |
| DeriveCommand.DeriveIgnoresLaterTags | command/derive.go:145-156 | Appending tags after a version tag does not change the result. |
| DeriveCommand.DeriveSkipsUnparseable | command/derive.go:147-151 | Removing a tag that does not parse, from any position, does not change the result. |
| DeriveCommand.DeriveFromGit | command/derive.go:114-194 | From any git output the run yields a version detail, never an error. Its branch and hash are the trimmed outputs, its default flag is the derivation's, and its version text parses back to the derived version. |
| DeriveCommand.ScenarioFirstValidTag | command/derive.go:145-156 | Tags `latest`, `1.2.3` on branch `develop` give 1.2.3, not flagged as default. |
| DeriveCommand.ScenarioReleaseSlash | command/derive.go:160-175 | No tags on branch `release/2.0.0-rc.1` give 2.0.0-rc.1, not flagged as default. |
| DeriveCommand.ScenarioFeatureBranch | command/derive.go:179-192 | No tags on branch `feature/x` give 0.1.0-dev, flagged as default. |
| DeriveCommand.ScenarioMainBranch | command/derive.go:179-192 | No tags on branch `main` give plain 0.1.0, flagged as default. |
| DeriveCommand.ScenarioReleaseDash | command/derive.go:145-175 | Tag `not-a-version` on branch `release-3.0.0` gives 3.0.0, not flagged as default. |

## Left out

- Running git: every `exec.Command` call and its error return. Each command's output is a string parameter.
- Which commit's refs the tag rule sees: `git log -n 1 --tags --format=%D` starts from the tag refs, not from HEAD, so it prints the decorations of the newest commit reachable from any tag. That is HEAD's ref list only when HEAD is that commit. The model takes the printed ref list as given and does not model which commit git picks.
- The two scenarios on release branches write the branch as the prefix followed by the version's rendering, and state that rendering separately, rather than spelling the branch as one literal.
- `parseFlags`, `Help`, `Synopsis` and `OutputVersionDetail` in command/derive.go: flag parsing, JSON encoding, writing to standard output and logging. The CLI wiring in main.go and command/commands.go is not part of this model.
- `NumCommitsSinceTag` and `CurrentCommitSubject` in helper/funcs.go: process invocation and `strconv.Atoi`, with no decision logic of their own.
- SemVer.Parse: the external library also accepts a leading `v`, partial versions such as `1.2`, and other lenient forms. The model accepts only the section 2 grammar of Semantic Versioning 2.0.0 and rejects those texts. So on such input the model's derivation differs from the program's: a tag such as `v1.2.3`, which the program would take as 1.2.3, is skipped by `DeriveCommand.Derive`, `DeriveSkipsUnparseable` and `FirstTagVersionFound`, and a branch such as `release/v2.0.0` falls through to the default. In the other direction, `Parse` accepts core numbers above 2^63-1, which the library's `int64` fields cannot hold.
- SemVer.Render: the model uses the canonical text of a version in place of the library's `String()`, whose exact output is not part of this model.
- Precedence.Less: the library's own comparison code is not part of this model. `GreaterThan` is taken to be the order of section 11 of Semantic Versioning 2.0.0.
- Details.NewVersionDetail: Go keeps major, minor and patch as `int64`; the model uses unbounded naturals, so it does not model overflow.
- Details.ShortSha: Go's `len` and slicing count bytes; the model counts characters, so the two agree only on ASCII hashes, which is what git prints.
- DeriveCommand.DefaultFor: models `defaultVersion.SetPrerelease("dev")` at command/derive.go:188 as attaching the label to the default. The library's method is not part of this model; if it returns a modified copy rather than changing the receiver, the Go call discards that copy.
- Helper.HighestSemverTag: models the fold over the listing. The command it reads, `git tags` at helper/funcs.go:109, is not modelled, and neither is its failure.
- VersionInfo.GetVersionInfo: the build-time package variables become parameters, so assigning them is not modelled.
- The Go program is deterministic; repeated derivation from the same inputs giving the same record is immediate for Dafny functions and has no separate lemma.
