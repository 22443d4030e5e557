/** How the action picks the previous version tag (src/index.js, lines
    16-18). `git tag -l --sort=-v:refname` prints one tag name per line,
    highest version first; the action then runs `pattern.exec(stdout)` on the
    whole output. The pattern has the `m` flag and no `g` flag, so `exec`
    scans the text from position 0 and returns the leftmost match, with `^`
    holding at the start of the text or after a line feed and `$` at the end
    of the text or before a line feed.

    `Exec` states that scan over positions of the raw text. `SelectPrevious`
    states the intended reading over the list of lines: the first line that
    is a version tag. `ExecFindsFirstLine` proves the two equal, which is the
    reason a match can never run over two lines of the listing.

    The scan and the selection are written for any line recogniser; the only
    thing the proofs need from the version pattern is that it never accepts
    a line feed (`PatternRejectsLineFeeds`). */
module TagListing {
  import opened Wrappers
  import opened VersionPattern
  import opened Lines

  /** A recogniser for one line, such as `ParseTag`: the capture groups of an
      accepted line, or `None` */
  type LineParser = string -> Option<Tag>

  /** No text holding a line feed is accepted */
  ghost predicate RejectsLineFeeds(parse: LineParser) {
    forall s: string, k: int :: 0 <= k < |s| && s[k] == '\n' ==> parse(s).None?
  }

  /** The version pattern is such a recogniser: none of its character classes
      holds `\n` */
  lemma PatternRejectsLineFeeds()
    ensures RejectsLineFeeds(ParseTag)
  {
    forall s: string, k: int | 0 <= k < |s| && s[k] == '\n'
      ensures ParseTag(s).None?
    {
      RejectsLineFeed(s, k);
    }
  }

  // Selection over the list of lines

  /** The parse of the first line that `parse` accepts; `None` when it
      accepts none */
  function FirstParsed(lines: seq<string>, parse: LineParser): Option<Tag>
    decreases |lines|
  {
    if lines == [] then None
    else if parse(lines[0]).Some? then parse(lines[0])
    else FirstParsed(lines[1..], parse)
  }

  /** The first line of the listing that is a version tag, parsed; `None`
      when no line is */
  function SelectPrevious(lines: seq<string>): Option<Tag> {
    FirstParsed(lines, ParseTag)
  }

  lemma {:induction false} FirstParsedNone(lines: seq<string>, parse: LineParser)
    ensures FirstParsed(lines, parse).None? <==> forall n :: 0 <= n < |lines| ==> parse(lines[n]).None?
    decreases |lines|
  {
    if lines != [] && parse(lines[0]).None? {
      var rest := lines[1..];
      FirstParsedNone(rest, parse);
      assert forall n :: 0 < n < |lines| ==> lines[n] == rest[n - 1];
    }
  }

  lemma {:induction false} FirstParsedIsFirst(lines: seq<string>, n: nat, parse: LineParser)
    requires n < |lines| && parse(lines[n]).Some?
    requires forall m :: 0 <= m < n ==> parse(lines[m]).None?
    ensures FirstParsed(lines, parse) == parse(lines[n])
    decreases n
  {
    if n > 0 {
      var rest := lines[1..];
      assert rest[n - 1] == lines[n];
      assert parse(lines[0]).None?;
      forall m | 0 <= m < n - 1
        ensures parse(rest[m]).None?
      {
        assert rest[m] == lines[m + 1];
      }
      FirstParsedIsFirst(rest, n - 1, parse);
    }
  }

  lemma {:induction false} FirstParsedLine(lines: seq<string>, parse: LineParser)
    requires FirstParsed(lines, parse).Some?
    ensures exists n :: && 0 <= n < |lines|
                        && parse(lines[n]) == FirstParsed(lines, parse)
                        && forall m :: 0 <= m < n ==> parse(lines[m]).None?
    decreases |lines|
  {
    if parse(lines[0]).Some? {
      assert parse(lines[0]) == FirstParsed(lines, parse);
    } else {
      var rest := lines[1..];
      FirstParsedLine(rest, parse);
      var n :| && 0 <= n < |rest|
               && parse(rest[n]) == FirstParsed(rest, parse)
               && forall m :: 0 <= m < n ==> parse(rest[m]).None?;
      assert lines[n + 1] == rest[n];
      forall m | 0 <= m < n + 1
        ensures parse(lines[m]).None?
      {
        if m > 0 {
          assert lines[m] == rest[m - 1];
        }
      }
    }
  }

  lemma {:induction false} FirstParsedAppend(lines: seq<string>, later: seq<string>, parse: LineParser)
    ensures FirstParsed(lines + later, parse)
         == if FirstParsed(lines, parse).Some? then FirstParsed(lines, parse) else FirstParsed(later, parse)
    decreases |lines|
  {
    if lines == [] {
      assert lines + later == later;
    } else {
      assert (lines + later)[0] == lines[0];
      assert (lines + later)[1..] == lines[1..] + later;
      FirstParsedAppend(lines[1..], later, parse);
    }
  }

  /** Nothing is selected exactly when no line is a version tag */
  lemma {:induction false} SelectPreviousNone(lines: seq<string>)
    ensures SelectPrevious(lines).None? <==> forall n :: 0 <= n < |lines| ==> ParseTag(lines[n]).None?
  {
    FirstParsedNone(lines, ParseTag);
  }

  /** The selection is the parse of the earliest line that is a version
      tag: no other line, before or after it, has a say. */
  lemma {:induction false} SelectPreviousIsFirstTag(lines: seq<string>, n: nat)
    requires n < |lines| && ParseTag(lines[n]).Some?
    requires forall m :: 0 <= m < n ==> ParseTag(lines[m]).None?
    ensures SelectPrevious(lines) == ParseTag(lines[n])
  {
    FirstParsedIsFirst(lines, n, ParseTag);
  }

  /** A selected tag comes from a line of the listing, and every line before
      that one is rejected */
  lemma {:induction false} SelectedLine(lines: seq<string>)
    requires SelectPrevious(lines).Some?
    ensures exists n :: && 0 <= n < |lines|
                        && ParseTag(lines[n]) == SelectPrevious(lines)
                        && forall m :: 0 <= m < n ==> ParseTag(lines[m]).None?
  {
    FirstParsedLine(lines, ParseTag);
  }

  /** Once a tag has been found, nothing after it in the listing matters;
      while none has been found, only what follows does. */
  lemma {:induction false} SelectPreviousAppend(lines: seq<string>, later: seq<string>)
    ensures SelectPrevious(lines + later)
         == if SelectPrevious(lines).Some? then SelectPrevious(lines) else SelectPrevious(later)
  {
    FirstParsedAppend(lines, later, ParseTag);
  }

  // The scan `exec` performs on the raw text

  /** The matcher started at `i`, trying the end positions `j`, `j + 1`, ...
      in turn: the text from `i` up to the end position must be accepted,
      and `$` must hold there. Only one end position can work
      (`MatchIsWholeLine`), so the order in which they are tried does not
      matter. */
  function MatchEndingFrom(text: string, i: nat, j: nat, parse: LineParser): Option<Tag>
    requires i <= j <= |text|
    decreases |text| - j
  {
    if IsLineEnd(text, j) && parse(text[i..j]).Some? then parse(text[i..j])
    else if j == |text| then None
    else MatchEndingFrom(text, i, j + 1, parse)
  }

  /** The match starting at position `i`, if `^` holds there and some end works */
  function MatchAt(text: string, i: nat, parse: LineParser): Option<Tag>
    requires i <= |text|
  {
    if IsLineStart(text, i) then MatchEndingFrom(text, i, i, parse) else None
  }

  /** The leftmost match at position `i` or later */
  function ExecFrom(text: string, i: nat, parse: LineParser): Option<Tag>
    requires i <= |text|
    decreases |text| - i
  {
    var m := MatchAt(text, i, parse);
    if m.Some? || i == |text| then m else ExecFrom(text, i + 1, parse)
  }

  /** `pattern.exec(stdout)`: the capture groups of the leftmost match in the
      whole listing, or `None` (JavaScript's `null`) when there is none */
  function Exec(stdout: string): Option<Tag> {
    ExecFrom(stdout, 0, ParseTag)
  }

  /** A match cannot end past a line feed */
  lemma {:induction false} NoMatchAcrossLineFeed(text: string, i: nat, j: nat, f: nat, parse: LineParser)
    requires RejectsLineFeeds(parse)
    requires i <= f < j <= |text| && text[f] == '\n'
    ensures MatchEndingFrom(text, i, j, parse) == None
    decreases |text| - j
  {
    assert text[i..j][f - i] == '\n';
    if j < |text| {
      NoMatchAcrossLineFeed(text, i, j + 1, f, parse);
    }
  }

  /** A match begun at `i` is the whole rest of that line or nothing */
  lemma {:induction false} MatchIsWholeLine(text: string, i: nat, j: nat, parse: LineParser)
    requires RejectsLineFeeds(parse)
    requires i <= |text| && i <= j <= LineEndFrom(text, i)
    ensures MatchEndingFrom(text, i, j, parse) == parse(text[i..LineEndFrom(text, i)])
    decreases LineEndFrom(text, i) - j
  {
    var e := LineEndFrom(text, i);
    if j < e {
      LineEndFromIsFirst(text, i);
      assert text[j] != '\n';
      MatchIsWholeLine(text, i, j + 1, parse);
    } else if e < |text| && parse(text[i..e]).None? {
      NoMatchAcrossLineFeed(text, i, e + 1, e, parse);
    }
  }

  /** Inside a line `^` does not hold, so the scan moves on to the next line */
  lemma {:induction false} ExecSkipsRestOfLine(text: string, i: nat, p: nat, parse: LineParser)
    requires i <= |text| && i < p <= LineEndFrom(text, i)
    ensures ExecFrom(text, p, parse)
         == if LineEndFrom(text, i) == |text| then None else ExecFrom(text, LineEndFrom(text, i) + 1, parse)
    decreases LineEndFrom(text, i) - p
  {
    LineEndFromIsFirst(text, i);
    assert text[p - 1] != '\n';
    assert MatchAt(text, p, parse) == None;
    if p < LineEndFrom(text, i) {
      ExecSkipsRestOfLine(text, i, p + 1, parse);
    }
  }

  /** One line of the scan: from a line start, `exec` reports that line if
      it is accepted, and otherwise goes on from the next line */
  lemma ExecFromLineStep(text: string, i: nat, parse: LineParser)
    requires RejectsLineFeeds(parse)
    requires i <= |text| && IsLineStart(text, i)
    ensures (var e := LineEndFrom(text, i);
             ExecFrom(text, i, parse)
             == if parse(text[i..e]).Some? then parse(text[i..e])
                else if e == |text| then None
                else ExecFrom(text, e + 1, parse))
  {
    var e := LineEndFrom(text, i);
    MatchIsWholeLine(text, i, i, parse);
    if parse(text[i..e]).None? && i < e {
      ExecSkipsRestOfLine(text, i, i + 1, parse);
    }
  }

  /** The same step on the list of lines */
  lemma FirstParsedStep(text: string, i: nat, parse: LineParser)
    requires i <= |text|
    ensures (var e := LineEndFrom(text, i);
             FirstParsed(SplitLines(text[i..]), parse)
             == if parse(text[i..e]).Some? then parse(text[i..e])
                else if e == |text| then None
                else FirstParsed(SplitLines(text[e + 1..]), parse))
  {
    var e := LineEndFrom(text, i);
    var rest := if e == |text| then [] else SplitLines(text[e + 1..]);
    SplitAtLineEnd(text, i);
    assert ([text[i..e]] + rest)[1..] == rest;
  }

  /** From a line start, the scan finds the first accepted line of the rest */
  lemma {:induction false} ExecFromLine(text: string, i: nat, parse: LineParser)
    requires RejectsLineFeeds(parse)
    requires i <= |text| && IsLineStart(text, i)
    ensures ExecFrom(text, i, parse) == FirstParsed(SplitLines(text[i..]), parse)
    decreases |text| - i
  {
    var e := LineEndFrom(text, i);
    ExecFromLineStep(text, i, parse);
    FirstParsedStep(text, i, parse);
    if e < |text| {
      ExecFromLine(text, e + 1, parse);
    }
  }

  /** `exec` on the whole listing finds exactly the first line that is a
      version tag: a match always covers one whole line, never two. */
  lemma {:induction false} ExecFindsFirstLine(stdout: string)
    ensures Exec(stdout) == SelectPrevious(SplitLines(stdout))
  {
    PatternRejectsLineFeeds();
    ExecFromLine(stdout, 0, ParseTag);
    assert stdout[0..] == stdout;
  }

  /** The previous version is one whole line of the listing, and every line
      before it is rejected by the pattern. */
  lemma {:induction false} ExecSelectsWholeLine(stdout: string, t: Tag)
    requires Exec(stdout) == Some(t)
    ensures exists n :: && 0 <= n < |SplitLines(stdout)|
                        && SplitLines(stdout)[n] == Render(t)
                        && forall m :: 0 <= m < n ==> ParseTag(SplitLines(stdout)[m]).None?
  {
    ExecFindsFirstLine(stdout);
    var lines := SplitLines(stdout);
    SelectedLine(lines);
    var n :| && 0 <= n < |lines|
             && ParseTag(lines[n]) == Some(t)
             && forall m :: 0 <= m < n ==> ParseTag(lines[m]).None?;
    assert lines[n] == Render(t);
  }
}
