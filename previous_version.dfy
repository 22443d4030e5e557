/** What the action decides once the tag listing is in (src/index.js, lines
    16-25). `current` starts as the `default-version` input. When `exec`
    found a version tag, `current` is reassigned to
    `calculateNextVersion(previous)`; that function (lines 4-6) has an empty
    body, so the value it returns is JavaScript's `undefined`, written `None`
    here. When no tag was found, `current` keeps the input exactly as given. */
module PreviousVersion {
  import opened Wrappers
  import opened VersionPattern
  import opened Lines
  import opened TagListing

  /** The previous version tag found (`previous`, with `None` for `null`) and
      the value of `current` after the branch at lines 20-26 */
  datatype Decision = Decision(previous: Option<Tag>, current: Option<string>)

  /** The branch on `pattern.exec(stdout)`. The callback never looks at the
      error of `git tag`, so a failed listing reaches here as empty output. */
  function Decide(stdout: string, defaultVersion: string): (d: Decision)
    ensures d.previous == SelectPrevious(SplitLines(stdout))
    ensures d.current == Some(defaultVersion)
            <==> forall n :: 0 <= n < |SplitLines(stdout)| ==> ParseTag(SplitLines(stdout)[n]).None?
    ensures d.current.Some? ==> d.current.value == defaultVersion
  {
    ExecFindsFirstLine(stdout);
    SelectPreviousNone(SplitLines(stdout));
    var previous := Exec(stdout);
    if previous.Some? then Decision(previous, None) else Decision(None, Some(defaultVersion))
  }

  /** git's listing, as a list of tag names: when no name is a plain
      `MAJOR.MINOR.PATCH[-PRERELEASE][+METADATA]` version, the default
      version is used unchanged. */
  lemma {:induction false} DefaultWhenNoTag(tags: seq<string>, defaultVersion: string)
    requires |tags| > 0
    requires AllSingleLines(tags)
    requires forall n :: 0 <= n < |tags| ==> ParseTag(tags[n]).None?
    ensures Decide(JoinLines(tags), defaultVersion) == Decision(None, Some(defaultVersion))
  {
    SplitJoin(tags);
  }

  /** ... and otherwise the previous version is the first such name in the
      order git printed them, whatever follows it. */
  lemma {:induction false} PreviousIsFirstTag(tags: seq<string>, n: nat, defaultVersion: string)
    requires |tags| > 0
    requires AllSingleLines(tags)
    requires n < |tags| && ParseTag(tags[n]).Some?
    requires forall m :: 0 <= m < n ==> ParseTag(tags[m]).None?
    ensures Decide(JoinLines(tags), defaultVersion) == Decision(ParseTag(tags[n]), None)
  {
    SplitJoin(tags);
    SelectPreviousIsFirstTag(tags, n);
  }

  /** An empty listing (no tags, or a failed `git tag`) yields the default */
  lemma EmptyListing(defaultVersion: string)
    ensures Decide("", defaultVersion) == Decision(None, Some(defaultVersion))
  {
    assert SplitLines("") == [""];
    assert ParseTag("") == None;
  }
}
