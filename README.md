# semver-tags: finding the previous version tag

This project models the core of the `semver-tags` GitHub action
(`src/index.js`). The action lists the repository's tags with
`git tag -l --sort=-v:refname`, newest version first. It then runs the
multi-line regular expression

    /^(\d+)\.(\d+)\.(\d+)(-\w[\w\.]*)?(\+\w[\w\.]*)?$/m

once (`exec`, without the `g` flag) over the whole listing to find the
previous version tag. When no line matches, the next version is the
`default-version` input, unchanged.

The model has four modules:

- `Wrappers`: an `Option` type. `None` stands for JavaScript's
  `null`/`undefined`.
- `VersionPattern`: the language of the regular expression on one line.
  - `Tag` holds the five capture groups. The prerelease and metadata groups
    keep their leading `-` and `+`, as `exec` returns them.
  - `Render` concatenates the groups back into the matched text.
  - `ParseTag` is the matcher on a single line.
  - JavaScript's `\d` is `[0-9]` and `\w` is `[A-Za-z0-9_]`, because the
    pattern has no `u` flag.
- `Lines`: the `git tag` output as text and as a list of lines. `SplitLines`
  cuts the text at every `\n`, and `JoinLines` puts the lines back together.
- `TagListing`: `exec` on the whole `git tag` output, with JavaScript's
  multi-line meaning of `^` and `$`.
  - `^` holds at the start or after a `\n`; `$` holds at the end or before
    a `\n`.
  - Start positions are tried left to right.
  - It is proved that this equals "the first line of the listing that is a
    version tag" (`SelectPrevious` over `SplitLines`).
  - The scan and the selection take the line recogniser as a parameter.
    They are used with `ParseTag`. The proofs need only one fact about the
    recogniser: it never accepts text that holds a `\n`.
- `PreviousVersion`: the branch on the result of `exec` and the fallback to
  `default-version`.

The pattern accepts `1.2.3`, `10.0.1-rc.1` and `1.2.3-rc.1+build.5`. It
rejects `1.2.3+meta-rc`: `-` is neither `\w` nor `.`, so the metadata group
cannot contain it, and the line cannot end there. The model follows the
regular expression as written; `RejectsHyphenAfterPlus` proves the general
fact.

`calculateNextVersion` (lines 4-6) has an empty body, so when a tag is found
`current` becomes `undefined`. `Decision.current` is `None` in that case. No
version increment is modelled, because the source has none.

## Model

| member | source | states |
|---|---|---|
| VersionPattern.ParseTag | src/index.js:17 | an accepted line has five well-formed groups (digit runs; `-`/`+` followed by a word character and word characters or dots) that concatenate back to exactly the line |
| VersionPattern.ParseRender | src/index.js:17 | every well-formed group assignment, rendered, is accepted and its groups are recovered exactly |
| VersionPattern.ParseTagExactly | src/index.js:17 | a line is accepted if and only if it is the concatenation of some well-formed groups |
| VersionPattern.RenderInjective | src/index.js:17 | a matched line splits among the capture groups in only one way |
| VersionPattern.AcceptedCharacters | src/index.js:17 | an accepted line uses only digits, word characters, `.`, `-` and `+`; a `-` appears only where the prerelease group begins and a `+` only where the metadata group begins |
| VersionPattern.RejectsLineFeed | src/index.js:17 | no accepted line contains a line feed, so a match never spans two lines |
| VersionPattern.RejectsTrailing | src/index.js:17 | a line that ends in a character other than a word character or `.` is rejected, because of the `$` anchor |
| VersionPattern.RejectsLeading | src/index.js:17 | a line that does not begin with a digit (for example `v1.2.3`) is rejected, because of the `^` anchor |
| VersionPattern.RejectsHyphenAfterPlus | src/index.js:17 | a line with a `-` anywhere after a `+` is rejected (so `1.2.3+meta-rc` is not a version tag) |
| VersionPattern.ExampleRelease | src/index.js:17 | `1.2.3` is accepted, with no prerelease and no metadata |
| VersionPattern.ExamplePrereleaseAndMetadata | src/index.js:17 | `10.0.1-rc.1+build.5` is accepted with groups `10`, `0`, `1`, `-rc.1`, `+build.5` |
| VersionPattern.ExampleMetadataWithHyphen | src/index.js:17 | `1.2.3+meta-rc` is rejected |
| VersionPattern.ExamplesRejected | src/index.js:17 | `v1.2.3`, `1.2.3-` and `1.2.3+` are rejected |
| Lines.JoinSplit | src/index.js:16-18 | splitting the output of `git tag` at line feeds and joining the lines again gives back the output |
| Lines.SplitJoin | src/index.js:16-18 | tag names without line feeds, printed one per line, split back into exactly those names |
| Lines.SplitLinesHaveNoLineFeed | src/index.js:16-18 | no line of the split output holds a line feed |
| TagListing.PatternRejectsLineFeeds | src/index.js:17 | the pattern never accepts a text that holds a line feed |
| TagListing.SelectPreviousNone | src/index.js:18-20 | no previous tag is selected if and only if no line is a version tag |
| TagListing.SelectPreviousIsFirstTag | src/index.js:18-20 | when line `n` is a version tag and no earlier line is, that line's groups are selected |
| TagListing.SelectedLine | src/index.js:18-20 | a selected tag comes from some line, and every earlier line is not a version tag |
| TagListing.SelectPreviousAppend | src/index.js:16-18 | lines listed after a version tag do not change the selection |
| TagListing.MatchIsWholeLine | src/index.js:17-18 | with the `m` flag, a match that starts at a line start ends exactly at that line's end, so it is the whole line |
| TagListing.ExecFromLine | src/index.js:17-18 | from any line start, the leftmost match is the first accepted line of the rest of the output |
| TagListing.ExecFindsFirstLine | src/index.js:17-18 | `exec` over the whole output equals the first line of the output that is a version tag |
| TagListing.ExecSelectsWholeLine | src/index.js:17-18 | what `exec` returns renders to a whole line of the output, and every line before it is rejected |
| PreviousVersion.Decide | src/index.js:16-26 | `previous` is the first version tag line; `current` keeps the default version exactly when no line is a version tag, and is never any other string |
| PreviousVersion.DefaultWhenNoTag | src/index.js:19-25 | when no listed tag name is a version, the default version is used unchanged |
| PreviousVersion.PreviousIsFirstTag | src/index.js:18-22 | when some listed tag name is a version, the first such name in git's order becomes `previous`, and `current` becomes `undefined` |
| PreviousVersion.EmptyListing | src/index.js:16-25 | an empty listing (no tags, or a failed `git tag`) falls back to the default version |

## Left out

- `calculateNextVersion` (src/index.js:4-6): it has an empty body and returns `undefined`. No increment is modelled.
- `git fetch --tags`, `git tag` and their exit codes (src/index.js:8-16): process execution is not modelled. The listing is a parameter of `Decide`.
- A failed `git fetch` (src/index.js:11-15): it prints a message and exits with status 1 before any tag is read.
- The error of `git tag`: the callback ignores it, so the model treats a failure as empty output.
- `core.getInput`, `console.log` and `process.exit` (src/index.js:9, 21, 25, 28): I/O. The default version is a parameter, and the printed messages are not modelled.
- The sort order `-v:refname` is done by git. The model takes the lines in whatever order git prints them.
- Line terminators other than `\n`: the model's `^`/`$` recognise `\n` only. JavaScript's multi-line anchors also recognise `\r`, U+2028 and U+2029, which git does not emit between tag names.
- `src/main.js` is not part of this model.
