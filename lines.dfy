/** The output of `git tag -l` as text and as a list of lines. git writes one
    tag name per line, each followed by a line feed (`\n`); under the `m`
    flag of the pattern `^` holds at the start of the text or after a line
    feed, and `$` at the end of the text or before one. */
module Lines {
  /** A single line: no line feed inside */
  predicate NoLineFeed(s: string) {
    forall k :: 0 <= k < |s| ==> s[k] != '\n'
  }

  /** Every element of `lines` is a single line */
  predicate AllSingleLines(lines: seq<string>) {
    forall n :: 0 <= n < |lines| ==> NoLineFeed(lines[n])
  }

  /** `^` under the `m` flag */
  predicate IsLineStart(text: string, i: nat)
    requires i <= |text|
  {
    i == 0 || text[i - 1] == '\n'
  }

  /** `$` under the `m` flag */
  predicate IsLineEnd(text: string, j: nat)
    requires j <= |text|
  {
    j == |text| || text[j] == '\n'
  }

  /** The first position at or after `i` where `$` holds: the end of the
      line that contains `i` */
  function LineEndFrom(text: string, i: nat): (e: nat)
    requires i <= |text|
    ensures i <= e <= |text| && IsLineEnd(text, e)
    decreases |text| - i
  {
    if IsLineEnd(text, i) then i else LineEndFrom(text, i + 1)
  }

  /** ... and no line feed comes before it */
  lemma {:induction false} LineEndFromIsFirst(text: string, i: nat)
    requires i <= |text|
    ensures forall k :: i <= k < LineEndFrom(text, i) ==> text[k] != '\n'
    decreases |text| - i
  {
    if !IsLineEnd(text, i) {
      LineEndFromIsFirst(text, i + 1);
    }
  }

  /** The text cut at every line feed. git ends its output with a line feed,
      which leaves an empty last line; an empty output is one empty line. */
  function SplitLines(text: string): (lines: seq<string>)
    ensures |lines| > 0
    decreases |text|
  {
    if text == [] then [""]
    else
      var rest := SplitLines(text[1..]);
      if text[0] == '\n' then [""] + rest
      else [[text[0]] + rest[0]] + rest[1..]
  }

  /** Lines put back together with a line feed between each two */
  function JoinLines(lines: seq<string>): string
    requires |lines| > 0
    decreases |lines|
  {
    if |lines| == 1 then lines[0] else lines[0] + "\n" + JoinLines(lines[1..])
  }

  lemma JoinLinesCons(first: string, rest: seq<string>)
    requires |rest| > 0
    ensures JoinLines([first] + rest) == first + "\n" + JoinLines(rest)
  {
    assert ([first] + rest)[1..] == rest;
  }

  /** A character added to the front of the first line is added to the front
      of the joined text */
  lemma JoinLinesPrepend(c: char, lines: seq<string>)
    requires |lines| > 0
    ensures JoinLines([[c] + lines[0]] + lines[1..]) == [c] + JoinLines(lines)
  {
    if |lines| > 1 {
      JoinLinesCons([c] + lines[0], lines[1..]);
    }
  }

  /** Splitting loses nothing: joining the lines gives the text back */
  lemma {:induction false} JoinSplit(text: string)
    ensures JoinLines(SplitLines(text)) == text
    decreases |text|
  {
    if text != [] {
      var rest := SplitLines(text[1..]);
      JoinSplit(text[1..]);
      if text[0] == '\n' {
        JoinLinesCons("", rest);
      } else {
        JoinLinesPrepend(text[0], rest);
      }
    }
  }

  /** No line of the split text holds a line feed */
  lemma {:induction false} SplitLinesHaveNoLineFeed(text: string)
    ensures AllSingleLines(SplitLines(text))
    decreases |text|
  {
    if text != [] {
      var rest := SplitLines(text[1..]);
      SplitLinesHaveNoLineFeed(text[1..]);
      if text[0] == '\n' {
        AllSingleLinesCons("", rest);
      } else {
        var first := [text[0]] + rest[0];
        assert NoLineFeed(first) by {
          forall k | 0 < k < |first| ensures first[k] != '\n' {
            assert first[k] == rest[0][k - 1];
          }
        }
        assert AllSingleLines(rest[1..]) by {
          forall n | 0 <= n < |rest| - 1 ensures NoLineFeed(rest[1..][n]) {
            assert rest[1..][n] == rest[n + 1];
          }
        }
        AllSingleLinesCons(first, rest[1..]);
      }
    }
  }

  lemma AllSingleLinesCons(first: string, rest: seq<string>)
    requires NoLineFeed(first) && AllSingleLines(rest)
    ensures AllSingleLines([first] + rest)
  {
    forall n | 0 < n < |rest| + 1 ensures NoLineFeed(([first] + rest)[n]) {
      assert ([first] + rest)[n] == rest[n - 1];
    }
  }

  /** A single line splits into itself */
  lemma {:induction false} SplitSingleLine(a: string)
    requires NoLineFeed(a)
    ensures SplitLines(a) == [a]
    decreases |a|
  {
    if a != [] {
      assert NoLineFeed(a[1..]) by {
        forall k | 0 <= k < |a| - 1 ensures a[1..][k] != '\n' {
          assert a[1..][k] == a[k + 1];
        }
      }
      SplitSingleLine(a[1..]);
      assert [a[0]] + a[1..] == a;
    }
  }

  /** A single line followed by a line feed is cut off as the first line */
  lemma {:induction false} SplitFirstLine(a: string, rest: string)
    requires NoLineFeed(a)
    ensures SplitLines(a + "\n" + rest) == [a] + SplitLines(rest)
    decreases |a|
  {
    var text := a + "\n" + rest;
    if a == [] {
      assert text[1..] == rest;
    } else {
      assert text[1..] == a[1..] + "\n" + rest;
      assert NoLineFeed(a[1..]) by {
        forall k | 0 <= k < |a| - 1 ensures a[1..][k] != '\n' {
          assert a[1..][k] == a[k + 1];
        }
      }
      SplitFirstLine(a[1..], rest);
      assert [text[0]] + a[1..] == a;
    }
  }

  /** Joining loses nothing either, as long as no line holds a line feed */
  lemma {:induction false} SplitJoin(lines: seq<string>)
    requires |lines| > 0 && AllSingleLines(lines)
    ensures SplitLines(JoinLines(lines)) == lines
    decreases |lines|
  {
    assert NoLineFeed(lines[0]);
    if |lines| == 1 {
      SplitSingleLine(lines[0]);
    } else {
      var rest := lines[1..];
      assert AllSingleLines(rest) by {
        forall n | 0 <= n < |rest| ensures NoLineFeed(rest[n]) {
          assert rest[n] == lines[n + 1];
        }
      }
      SplitJoin(rest);
      SplitFirstLine(lines[0], JoinLines(rest));
      assert [lines[0]] + rest == lines;
    }
  }

  /** Cut at a line feed at `e`, the text from `i` is the part before it,
      the line feed and the part after it */
  lemma SliceAtLineFeed(text: string, i: nat, e: nat)
    requires i <= e < |text| && text[e] == '\n'
    ensures text[i..] == text[i..e] + "\n" + text[e + 1..]
  {
    assert text[i..] == text[i..e] + text[e..];
    assert text[e..] == "\n" + text[e + 1..];
  }

  /** From a line start, the first line of the rest of the text runs up to
      the line end, and the other lines are those after the line feed there */
  lemma SplitAtLineEnd(text: string, i: nat)
    requires i <= |text|
    ensures (var e := LineEndFrom(text, i);
             SplitLines(text[i..])
             == [text[i..e]] + (if e == |text| then [] else SplitLines(text[e + 1..])))
  {
    var e := LineEndFrom(text, i);
    var line := text[i..e];
    LineEndFromIsFirst(text, i);
    assert NoLineFeed(line) by {
      forall k | 0 <= k < |line| ensures line[k] != '\n' {
        assert line[k] == text[i + k];
      }
    }
    if e == |text| {
      assert text[i..] == line;
      SplitSingleLine(line);
    } else {
      SliceAtLineFeed(text, i, e);
      SplitFirstLine(line, text[e + 1..]);
    }
  }
}
