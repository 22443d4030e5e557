/** The version-tag pattern of the action (src/index.js, line 17):

      ^(\d+)\.(\d+)\.(\d+)(-\w[\w\.]*)?(\+\w[\w\.]*)?$

    The pattern carries no `u` flag, so `\d` is the ASCII class `0-9` and
    `\w` the ASCII class `A-Za-z0-9_`. `ParseTag` recognises one line against
    the part of the pattern between the anchors and returns its five capture
    groups; `Render` rebuilds the matched text from the groups. The two are
    proved inverse on well-formed groups, so `ParseTag` accepts exactly the
    language of the pattern and its groups are the only possible ones. */
module VersionPattern {
  import opened Wrappers

  /** `\d` */
  predicate IsDigit(c: char) {
    '0' <= c <= '9'
  }

  /** `\w` */
  predicate IsWordChar(c: char) {
    'A' <= c <= 'Z' || 'a' <= c <= 'z' || IsDigit(c) || c == '_'
  }

  /** `[\w\.]` */
  predicate IsSuffixChar(c: char) {
    IsWordChar(c) || c == '.'
  }

  /** A character that can occur in a matched tag at all */
  predicate IsTagChar(c: char) {
    IsSuffixChar(c) || c == '-' || c == '+'
  }

  /** The two repeated classes of the pattern: `\d` and `[\w\.]` */
  datatype CharClass = Digits | SuffixChars

  predicate InClass(c: char, cls: CharClass) {
    match cls
    case Digits => IsDigit(c)
    case SuffixChars => IsSuffixChar(c)
  }

  /** Text matched by `\d+` */
  predicate IsDigitRun(s: string) {
    |s| > 0 && forall k :: 0 <= k < |s| ==> IsDigit(s[k])
  }

  /** Text matched by `-\w[\w\.]*` (delim '-') or `\+\w[\w\.]*` (delim '+') */
  predicate IsSuffix(s: string, delim: char) {
    && |s| >= 2
    && s[0] == delim
    && IsWordChar(s[1])
    && forall k :: 2 <= k < |s| ==> IsSuffixChar(s[k])
  }

  /** An optional group: absent, or present with the text its sub-pattern matches */
  predicate IsOptionalSuffix(g: Option<string>, delim: char) {
    g.None? || IsSuffix(g.value, delim)
  }

  /** The five capture groups of a match. Groups 4 and 5 keep their leading
      `-` and `+`; a group that took no part in the match is `None` (in
      JavaScript, `undefined`). */
  datatype Tag = Tag(
    major: string,
    minor: string,
    patch: string,
    prerelease: Option<string>,
    metadata: Option<string>)

  /** Groups that the pattern can produce */
  predicate WellFormed(t: Tag) {
    && IsDigitRun(t.major)
    && IsDigitRun(t.minor)
    && IsDigitRun(t.patch)
    && IsOptionalSuffix(t.prerelease, '-')
    && IsOptionalSuffix(t.metadata, '+')
  }

  /** `MAJOR.MINOR.PATCH` */
  function Core(t: Tag): string {
    t.major + "." + t.minor + "." + t.patch
  }

  /** The whole match (group 0): the core followed by the optional groups 4 and 5 */
  function Render(t: Tag): string {
    Core(t) + t.prerelease.GetOr("") + t.metadata.GetOr("")
  }

  /** Length of the longest prefix of `s` in class `cls`: what a greedy
      repetition of that class consumes */
  function Span(s: string, cls: CharClass): (n: nat)
    ensures n <= |s|
    ensures forall k :: 0 <= k < n ==> InClass(s[k], cls)
    ensures n < |s| ==> !InClass(s[n], cls)
  {
    if s == [] || !InClass(s[0], cls) then 0 else 1 + Span(s[1..], cls)
  }

  /** The optional group `(<delim>\w[\w\.]*)?` tried at the front of `s`:
      the group, if it matches, and the text left after it */
  function TakeSuffix(s: string, delim: char): (r: (Option<string>, string))
    ensures IsOptionalSuffix(r.0, delim)
    ensures r.0.GetOr("") + r.1 == s
    ensures r.0.Some? ==> r.1 == [] || !IsSuffixChar(r.1[0])
    ensures r.0.None? <==> !(|s| >= 2 && s[0] == delim && IsWordChar(s[1]))
  {
    if |s| >= 2 && s[0] == delim && IsWordChar(s[1]) then
      var n := 2 + Span(s[2..], SuffixChars);
      assert s[..n] + s[n..] == s;
      (Some(s[..n]), s[n..])
    else
      (None, s)
  }

  /** `(\d+)\.` at the front of `s`: the digit run and the text after the dot */
  function TakeField(s: string): (r: Option<(string, string)>)
    ensures r.Some? ==> IsDigitRun(r.value.0) && r.value.0 + "." + r.value.1 == s
  {
    var n := Span(s, Digits);
    if n == 0 || n == |s| || s[n] != '.' then None
    else
      assert s == s[..n] + "." + s[n + 1..];
      Some((s[..n], s[n + 1..]))
  }

  /** `(\d+)(-\w[\w\.]*)?(\+\w[\w\.]*)?$` on what follows `MAJOR.MINOR.` */
  function ParseRest(major: string, minor: string, s: string): (r: Option<Tag>)
    ensures r.Some? ==> && r.value.major == major && r.value.minor == minor
                        && IsDigitRun(r.value.patch)
                        && IsOptionalSuffix(r.value.prerelease, '-')
                        && IsOptionalSuffix(r.value.metadata, '+')
                        && r.value.patch + r.value.prerelease.GetOr("") + r.value.metadata.GetOr("") == s
  {
    var n := Span(s, Digits);
    if n == 0 then None
    else
      var patch := s[..n];
      var (pre, rest) := TakeSuffix(s[n..], '-');
      var (meta, left) := TakeSuffix(rest, '+');
      if left != [] then None
      else
        assert meta.GetOr("") == rest;
        ConcatAssoc(patch, pre.GetOr(""), meta.GetOr(""));
        TakeDrop(s, n);
        Some(Tag(major, minor, patch, pre, meta))
  }

  /** Matches one line of the tag listing against the anchored pattern and
      returns its capture groups, or `None` when the line does not match. */
  function ParseTag(line: string): (r: Option<Tag>)
    ensures r.Some? ==> WellFormed(r.value) && Render(r.value) == line
  {
    match TakeField(line)
    case None => None
    case Some((major, rest1)) =>
      match TakeField(rest1)
      case None => None
      case Some((minor, rest2)) =>
        var r := ParseRest(major, minor, rest2);
        if r.Some? then
          var t := r.value;
          RenderRegrouped(t);
          r
        else
          None
  }

  /** `Render` regrouped the way the pattern consumes the line, field by field */
  lemma RenderRegrouped(t: Tag)
    ensures Render(t) == t.major + "." + (t.minor + "." + (t.patch + t.prerelease.GetOr("") + t.metadata.GetOr("")))
  {
  }

  lemma ConcatAssoc(a: string, b: string, c: string)
    ensures a + b + c == a + (b + c)
  {
  }

  lemma TakeDrop(s: string, n: nat)
    requires n <= |s|
    ensures s[..n] + s[n..] == s
  {
  }

  /** A greedy span stops exactly where the first character outside the class is */
  lemma {:induction false} SpanOfPrefix(a: string, b: string, cls: CharClass)
    requires forall k :: 0 <= k < |a| ==> InClass(a[k], cls)
    requires b == [] || !InClass(b[0], cls)
    ensures Span(a + b, cls) == |a|
  {
    if a != [] {
      assert (a + b)[1..] == a[1..] + b;
      SpanOfPrefix(a[1..], b, cls);
    }
  }

  /** A present optional group is taken whole when what follows it cannot
      extend it; an absent one leaves text that does not start the group. */
  lemma {:induction false} TakeSuffixOf(g: Option<string>, rest: string, delim: char)
    requires IsOptionalSuffix(g, delim)
    requires g.Some? ==> rest == [] || !IsSuffixChar(rest[0])
    requires g.None? ==> rest == [] || rest[0] != delim
    ensures TakeSuffix(g.GetOr("") + rest, delim) == (g, rest)
  {
    if g.Some? {
      var v := g.value;
      var s := v + rest;
      assert s[2..] == v[2..] + rest;
      SpanOfPrefix(v[2..], rest, SuffixChars);
      assert s[..|v|] == v;
      assert s[|v|..] == rest;
    } else {
      assert g.GetOr("") + rest == rest;
    }
  }

  /** `(\d+)\.` takes exactly a digit run and its dot */
  lemma TakeFieldOf(a: string, rest: string)
    requires IsDigitRun(a)
    ensures TakeField(a + "." + rest) == Some((a, rest))
  {
    var s := a + "." + rest;
    assert s == a + ("." + rest);
    SpanOfPrefix(a, "." + rest, Digits);
    assert s[..|a|] == a;
    assert s[|a| + 1..] == rest;
  }

  /** The tail of the pattern takes back exactly the patch and the optional groups */
  lemma ParseRestOf(t: Tag)
    requires WellFormed(t)
    ensures ParseRest(t.major, t.minor, t.patch + t.prerelease.GetOr("") + t.metadata.GetOr("")) == Some(t)
  {
    var pre := t.prerelease.GetOr("");
    var meta := t.metadata.GetOr("");
    var s := t.patch + pre + meta;
    assert s == t.patch + (pre + meta);
    assert meta == [] || meta[0] == '+';
    assert pre + meta == [] || (pre + meta)[0] == '-' || (pre + meta)[0] == '+';
    SpanOfPrefix(t.patch, pre + meta, Digits);
    assert s[..|t.patch|] == t.patch;
    assert s[|t.patch|..] == pre + meta;
    TakeSuffixOf(t.prerelease, meta, '-');
    TakeSuffixOf(t.metadata, [], '+');
    assert meta + [] == meta;
  }

  /** Completeness: every string the pattern can match is accepted, and the
      groups returned are the ones it was built from. */
  lemma {:induction false} ParseRender(t: Tag)
    requires WellFormed(t)
    ensures ParseTag(Render(t)) == Some(t)
  {
    var rest2 := t.patch + t.prerelease.GetOr("") + t.metadata.GetOr("");
    var rest1 := t.minor + "." + rest2;
    RenderRegrouped(t);
    TakeFieldOf(t.major, rest1);
    TakeFieldOf(t.minor, rest2);
    ParseRestOf(t);
  }

  /** The recogniser accepts exactly the rendered well-formed groups. */
  lemma ParseTagExactly(line: string)
    ensures ParseTag(line).Some? <==> exists t :: WellFormed(t) && Render(t) == line
  {
    if t :| WellFormed(t) && Render(t) == line {
      ParseRender(t);
    }
  }

  /** Every character of `s` is in `[\w\.]` */
  predicate AllSuffixChars(s: string) {
    forall k :: 0 <= k < |s| ==> IsSuffixChar(s[k])
  }

  lemma AllSuffixCharsConcat(a: string, b: string)
    requires AllSuffixChars(a) && AllSuffixChars(b)
    ensures AllSuffixChars(a + b)
  {
    forall k | 0 <= k < |a + b|
      ensures IsSuffixChar((a + b)[k])
    {
      if k < |a| {
        assert (a + b)[k] == a[k];
      } else {
        assert (a + b)[k] == b[k - |a|];
      }
    }
  }

  /** `MAJOR.MINOR.PATCH` holds only digits and dots */
  lemma CoreCharacters(t: Tag)
    requires WellFormed(t)
    ensures AllSuffixChars(Core(t))
  {
    assert AllSuffixChars(".");
    AllSuffixCharsConcat(t.major, ".");
    AllSuffixCharsConcat(t.major + ".", t.minor);
    AllSuffixCharsConcat(t.major + "." + t.minor, ".");
    AllSuffixCharsConcat(t.major + "." + t.minor + ".", t.patch);
  }

  /** The characters of a match, group by group */
  lemma {:induction false} RenderCharacters(t: Tag)
    requires WellFormed(t)
    ensures forall k :: 0 <= k < |Render(t)| ==> IsTagChar(Render(t)[k])
    ensures forall k :: 0 <= k < |Render(t)| && Render(t)[k] == '-' ==>
              t.prerelease.Some? && k == |Core(t)|
    ensures forall k :: 0 <= k < |Render(t)| && Render(t)[k] == '+' ==>
              t.metadata.Some? && k == |Core(t)| + |t.prerelease.GetOr("")|
  {
    var core := Core(t);
    var pre := t.prerelease.GetOr("");
    var meta := t.metadata.GetOr("");
    var line := Render(t);
    CoreCharacters(t);
    forall k | 0 <= k < |line|
      ensures IsTagChar(line[k])
      ensures line[k] == '-' ==> t.prerelease.Some? && k == |core|
      ensures line[k] == '+' ==> t.metadata.Some? && k == |core| + |pre|
    {
      if k < |core| {
        assert line[k] == core[k];
      } else if k < |core| + |pre| {
        assert line[k] == pre[k - |core|];
      } else {
        assert line[k] == meta[k - |core| - |pre|];
      }
    }
  }

  /** The groups of a match are determined by the matched text: there is
      only one way to split a line among the five groups. */
  lemma RenderInjective(t1: Tag, t2: Tag)
    requires WellFormed(t1) && WellFormed(t2) && Render(t1) == Render(t2)
    ensures t1 == t2
  {
    ParseRender(t1);
    ParseRender(t2);
  }

  /** What an accepted line is made of: only digits, word characters and
      dots, except for at most one `-` that opens the prerelease group right
      after the core and at most one `+` that opens the metadata group after
      it. So a prerelease always comes before the metadata, neither may
      contain the other's delimiter, and no line break is ever part of a tag. */
  lemma AcceptedCharacters(line: string, t: Tag)
    requires ParseTag(line) == Some(t)
    ensures forall k :: 0 <= k < |line| ==> IsTagChar(line[k])
    ensures forall k :: 0 <= k < |line| && line[k] == '-' ==>
              t.prerelease.Some? && k == |Core(t)|
    ensures forall k :: 0 <= k < |line| && line[k] == '+' ==>
              t.metadata.Some? && k == |Core(t)| + |t.prerelease.GetOr("")|
  {
    RenderCharacters(t);
  }

  lemma RenderHasNoLineFeed(t: Tag, k: nat)
    requires WellFormed(t) && k < |Render(t)|
    ensures Render(t)[k] != '\n'
  {
    RenderCharacters(t);
  }

  /** A line feed is never part of a tag */
  lemma RejectsLineFeed(s: string, k: nat)
    requires k < |s| && s[k] == '\n'
    ensures ParseTag(s) == None
  {
    var r := ParseTag(s);
    if r.Some? {
      RenderHasNoLineFeed(r.value, k);
    }
  }

  /** The last character of a match is always in `[\w\.]` */
  lemma LastCharOfRender(t: Tag)
    requires WellFormed(t)
    ensures |Render(t)| > 0 && IsSuffixChar(Render(t)[|Render(t)| - 1])
  {
    var s := Render(t);
    var pre := t.prerelease.GetOr("");
    var meta := t.metadata.GetOr("");
    if meta != [] {
      assert s[|s| - 1] == meta[|meta| - 1];
    } else if pre != [] {
      assert s[|s| - 1] == pre[|pre| - 1];
    } else {
      assert s == Core(t);
      assert s[|s| - 1] == t.patch[|t.patch| - 1];
    }
  }

  /** The match is anchored at the end of the line: a line ending in a
      character outside `[\w\.]` (a bare `-` or `+`, a space, a carriage
      return) is rejected, so `1.2.3-` and `1.2.3+` are not tags. */
  lemma RejectsTrailing(s: string, c: char)
    requires !IsSuffixChar(c)
    ensures ParseTag(s + [c]) == None
  {
    if ParseTag(s + [c]).Some? {
      LastCharOfRender(ParseTag(s + [c]).value);
    }
  }

  /** The match is anchored at the start of the line: a line that starts
      with anything but a digit (a `v` prefix, a space) is rejected. */
  lemma RejectsLeading(c: char, s: string)
    requires !IsDigit(c)
    ensures ParseTag([c] + s) == None
  {
  }

  /** A plain release tag: the optional groups are absent */
  lemma ExampleRelease()
    ensures ParseTag("1.2.3") == Some(Tag("1", "2", "3", None, None))
  {
    var t := Tag("1", "2", "3", None, None);
    assert Render(t) == "1.2.3";
    ParseRender(t);
  }

  /** Both optional groups, each keeping its delimiter */
  lemma ExamplePrereleaseAndMetadata()
    ensures ParseTag("10.0.1-rc.1+build.5")
         == Some(Tag("10", "0", "1", Some("-rc.1"), Some("+build.5")))
  {
    var t := Tag("10", "0", "1", Some("-rc.1"), Some("+build.5"));
    assert Render(t) == "10.0.1-rc.1+build.5";
    ParseRender(t);
  }

  /** `-` is outside `[\w\.]`, so a metadata group cannot contain it and a
      `-` after a `+` cannot open a prerelease: such a line is rejected
      (`1.2.3+meta-rc`, for one). */
  lemma RejectsHyphenAfterPlus(line: string, i: nat, j: nat)
    requires i < j < |line| && line[i] == '+' && line[j] == '-'
    ensures ParseTag(line) == None
  {
    if ParseTag(line).Some? {
      AcceptedCharacters(line, ParseTag(line).value);
    }
  }

  lemma ExampleMetadataWithHyphen()
    ensures ParseTag("1.2.3+meta-rc") == None
  {
    RejectsHyphenAfterPlus("1.2.3+meta-rc", 5, 10);
  }

  /** A `v` prefix and a bare delimiter are rejected */
  lemma ExamplesRejected()
    ensures ParseTag("v1.2.3") == None
    ensures ParseTag("1.2.3-") == None
    ensures ParseTag("1.2.3+") == None
  {
    assert "v1.2.3" == ['v'] + "1.2.3";
    RejectsLeading('v', "1.2.3");
    assert "1.2.3-" == "1.2.3" + ['-'];
    RejectsTrailing("1.2.3", '-');
    assert "1.2.3+" == "1.2.3" + ['+'];
    RejectsTrailing("1.2.3", '+');
  }
}
