/** The tag resolver: a short commit hash becomes the earliest release tag
    whose history contains it. `git tag --contains` is a parameter of the
    model; its text is split into lines and examined here. */
module GitSearch {
  import opened Outcomes
  import opened Pep440
  import Text

  /** The placeholder tag that swagger-ui's repository carries. */
  const GitTag := "$GIT_TAG"

  /** What `git tag --contains <hash>` gives back: its output, or a failure
      of the git command. */
  datatype TagOutput = Output(text: string) | CommandFailed

  /** `xs.index(x)`: the position of the first occurrence. */
  function FirstIndex(xs: seq<string>, x: string): (i: nat)
    requires x in xs
    ensures i < |xs| && xs[i] == x && x !in xs[..i]
  {
    if xs[0] == x then 0 else 1 + FirstIndex(xs[1..], x)
  }

  /** `xs.remove(x)` after a membership test: the first occurrence goes and
      the other lines keep their order. */
  function RemoveFirst(xs: seq<string>, x: string): (r: seq<string>)
    ensures x !in xs ==> r == xs
    ensures x in xs ==> |r| == |xs| - 1
    ensures x in xs ==> r == xs[..FirstIndex(xs, x)] + xs[FirstIndex(xs, x) + 1..]
  {
    if xs == [] then []
    else if xs[0] == x then xs[1..]
    else
      var rest := RemoveFirst(xs[1..], x);
      if x in xs[1..] then
        ConsSlices(xs, FirstIndex(xs[1..], x));
        [xs[0]] + rest
      else
        [xs[0]] + rest
  }

  lemma ConsSlices(xs: seq<string>, j: nat)
    requires j + 1 < |xs|
    ensures xs[..j + 1] + xs[j + 2..] == [xs[0]] + (xs[1..][..j] + xs[1..][j + 1..])
  {
    assert xs[..j + 1] == [xs[0]] + xs[1..][..j];
    assert xs[j + 2..] == xs[1..][j + 1..];
  }

  /** Exactly one copy of `x` goes, and nothing else. */
  lemma {:induction false} RemoveFirstMultiset(xs: seq<string>, x: string)
    ensures multiset(RemoveFirst(xs, x)) == multiset(xs) - multiset{x}
  {
    if xs != [] {
      assert xs == [xs[0]] + xs[1..];
      if xs[0] != x {
        RemoveFirstMultiset(xs[1..], x);
      }
    }
  }

  predicate AllVersions(versions: seq<string>)
  {
    forall j :: 0 <= j < |versions| ==> IsVersion(versions[j])
  }

  /** `le` orders the elements of `xs` totally (which makes it reflexive). */
  predicate Total<T>(xs: seq<T>, le: (T, T) -> bool)
  {
    forall i, j {:trigger le(xs[i], xs[j])} :: 0 <= i < |xs| && 0 <= j < |xs| ==> le(xs[i], xs[j]) || le(xs[j], xs[i])
  }

  predicate Transitive<T>(xs: seq<T>, le: (T, T) -> bool)
  {
    forall i, j, k {:trigger le(xs[i], xs[j]), le(xs[j], xs[k])} ::
      0 <= i < |xs| && 0 <= j < |xs| && 0 <= k < |xs| && le(xs[i], xs[j]) && le(xs[j], xs[k]) ==> le(xs[i], xs[k])
  }

  /** Among the first `n` elements, position `k` holds a least one and every
      element before it is strictly greater: where a stable sort of those
      elements takes its first element from. */
  predicate IsFirstLeast<T>(xs: seq<T>, le: (T, T) -> bool, n: nat, k: nat)
  {
    k < n <= |xs| &&
    (forall j :: 0 <= j < n ==> le(xs[k], xs[j])) &&
    (forall j :: 0 <= j < k ==> !le(xs[j], xs[k]))
  }

  /** Scans the first `n` elements left to right, moving only to a strictly
      smaller one. */
  function FirstLeastIndex<T>(xs: seq<T>, le: (T, T) -> bool, n: nat): (k: nat)
    requires 0 < n <= |xs| && Total(xs, le) && Transitive(xs, le)
    ensures IsFirstLeast(xs, le, n, k)
  {
    if n == 1 then
      assert le(xs[0], xs[0]);
      0
    else
      var k := FirstLeastIndex(xs, le, n - 1);
      if le(xs[k], xs[n - 1]) then k
      else
        assert forall j :: 0 <= j < n ==> le(xs[n - 1], xs[j]) by {
          forall j | 0 <= j < n ensures le(xs[n - 1], xs[j]) {
            if j < n - 1 {
              assert le(xs[k], xs[j]);
            }
          }
        }
        n - 1
  }

  /** `version.parse(x) <= version.parse(y)`, false where either raises. */
  const VersionOrder: (string, string) -> bool := (x: string, y: string) => IsVersion(x) && IsVersion(y) && VersionLe(x, y)

  lemma VersionOrderIsTotal(versions: seq<string>)
    requires AllVersions(versions)
    ensures Total(versions, VersionOrder) && Transitive(versions, VersionOrder)
  {
    forall i, j | 0 <= i < |versions| && 0 <= j < |versions|
      ensures VersionOrder(versions[i], versions[j]) || VersionOrder(versions[j], versions[i])
    {
      VersionLeTotal(versions[i], versions[j]);
    }
    forall i, j, k | 0 <= i < |versions| && 0 <= j < |versions| && 0 <= k < |versions| &&
      VersionOrder(versions[i], versions[j]) && VersionOrder(versions[j], versions[k])
      ensures VersionOrder(versions[i], versions[k])
    {
      VersionLeTransitive(versions[i], versions[j], versions[k]);
    }
  }

  /** `versions.sort(key=version.parse); versions[0]`: the sort parses every
      element first, so any string that is not a version raises. */
  function Earliest(versions: seq<string>): (r: Outcome<string>)
    requires |versions| > 0
    ensures r.Raised? <==> !AllVersions(versions)
    ensures r.Raised? ==> r.error == InvalidVersion
    ensures r.Ok? ==> r.value in versions
  {
    if AllVersions(versions) then
      VersionOrderIsTotal(versions);
      Ok(versions[FirstLeastIndex(versions, VersionOrder, |versions|)])
    else Raised(InvalidVersion)
  }

  /** The tag the sort puts first is a version no later than any other, and
      every tag before it in git's order is strictly later. */
  lemma EarliestIsFirstLeast(versions: seq<string>)
    requires |versions| > 0 && AllVersions(versions)
    ensures Earliest(versions).Ok?
    ensures exists k: nat :: IsFirstLeast(versions, VersionOrder, |versions|, k) && Earliest(versions).value == versions[k]
    ensures forall j :: 0 <= j < |versions| ==> VersionLe(Earliest(versions).value, versions[j])
  {
    VersionOrderIsTotal(versions);
    var k := FirstLeastIndex(versions, VersionOrder, |versions|);
    assert IsFirstLeast(versions, VersionOrder, |versions|, k);
    assert forall j :: 0 <= j < |versions| ==> VersionOrder(versions[k], versions[j]);
  }

  /** Of two elements the first is kept unless the second is strictly smaller. */
  lemma FirstLeastOfTwo<T>(x: T, y: T, le: (T, T) -> bool)
    requires Total([x, y], le) && Transitive([x, y], le)
    ensures FirstLeastIndex([x, y], le, 2) == if le(x, y) then 0 else 1
  {
  }

  /** The key pass of the sort: true when every element parses. */
  method ParsesAll(versions: seq<string>) returns (ok: bool)
    ensures ok == AllVersions(versions)
  {
    var i := 0;
    while i < |versions|
      invariant 0 <= i <= |versions|
      invariant forall j :: 0 <= j < i ==> IsVersion(versions[j])
    {
      if !IsVersion(versions[i]) {
        return false;
      }
      i := i + 1;
    }
    return true;
  }

  /** The element a stable sort puts first, found in one pass. */
  method FirstLeast<T>(xs: seq<T>, le: (T, T) -> bool) returns (k: nat)
    requires |xs| > 0 && Total(xs, le) && Transitive(xs, le)
    ensures k == FirstLeastIndex(xs, le, |xs|)
  {
    k := 0;
    var i := 1;
    while i < |xs|
      invariant 1 <= i <= |xs|
      invariant k == FirstLeastIndex(xs, le, i)
    {
      if !le(xs[k], xs[i]) {
        k := i;
      }
      i := i + 1;
    }
  }

  /** Computes `Earliest` the way the sort does: keys for all elements, then
      the first least one. */
  method EarliestTag(versions: seq<string>) returns (r: Outcome<string>)
    requires |versions| > 0
    ensures r == Earliest(versions)
  {
    var ok := ParsesAll(versions);
    if !ok {
      return Raised(InvalidVersion);
    }
    VersionOrderIsTotal(versions);
    var k := FirstLeast(versions, VersionOrder);
    r := Ok(versions[k]);
  }

  /** The lines left once the first placeholder line is removed. */
  function Candidates(text: string): (lines: seq<string>)
    ensures GitTag !in Text.Split(text, '\n') ==> lines == Text.Split(text, '\n')
    ensures GitTag in Text.Split(text, '\n') ==> |lines| == |Text.Split(text, '\n')| - 1
  {
    RemoveFirst(Text.Split(text, '\n'), GitTag)
  }

  /** `GitSearcher.get_version_from_shorthash`: a special case wins; a failing
      git command logs and yields None; otherwise the placeholder is dropped
      and, unless nothing (or one empty line) is left, the earliest tag is
      returned. A line that is not a version raises out of the sort. */
  function Resolve(specialCases: map<string, string>, output: TagOutput, shorthash: string): (r: Outcome<Option<string>>)
    ensures shorthash in specialCases ==> r == Ok(Some(specialCases[shorthash]))
    ensures r.Raised? ==> r.error == InvalidVersion
    ensures shorthash !in specialCases && r.Ok? && r.value.Some? ==>
      output.Output? && r.value.value in Candidates(output.text) && IsVersion(r.value.value)
  {
    if shorthash in specialCases then Ok(Some(specialCases[shorthash]))
    else if output.CommandFailed? then Ok(None)
    else
      var versions := Candidates(output.text);
      if |versions| > 0 && versions != [""] then
        match Earliest(versions)
        case Ok(tag) => Ok(Some(tag))
        case Raised(e) => Raised(e)
      else Ok(None)
  }

  class GitSearcher {
    /** `self.g.tag(contains=...)` on the configured repository. */
    const tagsContaining: string -> TagOutput
    const specialCases: map<string, string>

    constructor (tagsContaining: string -> TagOutput, specialCases: map<string, string>)
      ensures this.tagsContaining == tagsContaining && this.specialCases == specialCases
    {
      this.tagsContaining := tagsContaining;
      this.specialCases := specialCases;
    }

    method GetVersionFromShorthash(shorthash: string) returns (r: Outcome<Option<string>>)
      ensures r == Resolve(specialCases, tagsContaining(shorthash), shorthash)
    {
      if shorthash in specialCases {
        return Ok(Some(specialCases[shorthash]));
      }
      var output := tagsContaining(shorthash);
      if output.CommandFailed? {
        return Ok(None);
      }
      var versions := Text.Split(output.text, '\n');
      if GitTag in versions {
        versions := RemoveFirst(versions, GitTag);
      }
      if |versions| > 0 && versions != [""] {
        var tag := EarliestTag(versions);
        match tag {
          case Ok(t) => r := Ok(Some(t));
          case Raised(e) => r := Raised(e);
        }
      } else {
        r := Ok(None);
      }
    }
  }

  /** A found tag is a line of git's output, a version, and no later than any
      other remaining line; it is never the placeholder. */
  lemma ResolvedTagIsEarliestLine(specialCases: map<string, string>, text: string, shorthash: string, tag: string)
    requires shorthash !in specialCases
    requires Resolve(specialCases, Output(text), shorthash) == Ok(Some(tag))
    ensures tag in Text.Split(text, '\n') && tag != GitTag && IsVersion(tag)
    ensures forall j :: 0 <= j < |Candidates(text)| ==> IsVersion(Candidates(text)[j]) && VersionLe(tag, Candidates(text)[j])
  {
    var lines := Text.Split(text, '\n');
    var versions := Candidates(text);
    EarliestIsFirstLeast(versions);
    RemoveFirstMultiset(lines, GitTag);
    assert tag in versions;
    assert tag in multiset(versions);
    assert tag in multiset(lines);
    ParseRejects();
  }

  /** None comes only from a failing command or from output with no line
      left beyond the placeholder. */
  lemma ResolvesToNone(specialCases: map<string, string>, output: TagOutput, shorthash: string)
    ensures Resolve(specialCases, output, shorthash) == Ok(None) <==>
      shorthash !in specialCases &&
      (output.CommandFailed? || Candidates(output.text) == [] || Candidates(output.text) == [""])
  {
  }

  /** The sort raises exactly when a remaining line is not a version. */
  lemma ResolveRaises(specialCases: map<string, string>, text: string, shorthash: string)
    ensures Resolve(specialCases, Output(text), shorthash).Raised? <==>
      shorthash !in specialCases && Candidates(text) != [""] && !AllVersions(Candidates(text))
  {
    if Candidates(text) == [] {
      assert AllVersions([]);
    }
  }

  /** Output ending in a newline leaves an empty last line, which raises. */
  lemma TrailingNewlineRaises(specialCases: map<string, string>, text: string, shorthash: string)
    requires shorthash !in specialCases && '\n' !in text && text != GitTag
    ensures Resolve(specialCases, Output(text + "\n"), shorthash) == Raised(InvalidVersion)
  {
    Text.SplitAround(text, "", '\n');
    Text.NoSeparator(text, '\n');
    assert text + "\n" == text + ['\n'] + "";
    var versions := Candidates(text + "\n");
    assert versions == [text, ""];
    ParseRejects();
    assert !IsVersion(versions[1]);
    ResolveRaises(specialCases, text + "\n", shorthash);
  }

  /** Output of lines without the placeholder is examined line for line. */
  lemma LinesWithoutPlaceholder(lines: seq<string>)
    requires |lines| > 0 && GitTag !in lines
    requires forall i :: 0 <= i < |lines| ==> '\n' !in lines[i]
    ensures Candidates(Text.Join(lines, '\n')) == lines
  {
    Text.SplitJoin(lines, '\n');
  }

  /** A placeholder line between two lines is dropped. */
  lemma PlaceholderDropped(a: string, b: string)
    requires '\n' !in a && a != GitTag && '\n' !in b && b != GitTag
    ensures Candidates(a + "\n" + GitTag + "\n" + b) == Candidates(a + "\n" + b)
  {
    var rest := Text.Split(b, '\n');
    var tail := GitTag + ['\n'] + b;
    Text.NoSeparator(a, '\n');
    Text.NoSeparator(GitTag, '\n');
    Text.SplitAround(GitTag, b, '\n');
    assert Text.Split(tail, '\n') == [GitTag] + rest;
    Text.SplitAround(a, tail, '\n');
    assert a + "\n" + GitTag + "\n" + b == a + ['\n'] + tail;
    var lines := [a] + ([GitTag] + rest);
    assert Text.Split(a + "\n" + GitTag + "\n" + b, '\n') == lines;
    Text.SplitAround(a, b, '\n');
    assert a + "\n" + b == a + ['\n'] + b;
    assert Text.Split(a + "\n" + b, '\n') == [a] + rest;
    RemoveAfterHead(a, [GitTag] + rest);
    RemoveAfterHead(a, rest);
    assert ([GitTag] + rest)[1..] == rest;
    assert RemoveFirst([GitTag] + rest, GitTag) == rest;
    assert Candidates(a + "\n" + GitTag + "\n" + b) == RemoveFirst(lines, GitTag);
    Text.NoSeparator(b, '\n');
    assert RemoveFirst([b], GitTag) == [b];
  }

  lemma RemoveAfterHead(a: string, xs: seq<string>)
    requires a != GitTag
    ensures RemoveFirst([a] + xs, GitTag) == [a] + RemoveFirst(xs, GitTag)
  {
    assert ([a] + xs)[1..] == xs;
  }

  /** A version is a single line and never the placeholder. */
  lemma VersionLine(a: string)
    requires IsVersion(a)
    ensures '\n' !in a && a != GitTag
  {
    VersionAlphabet(a);
    ParseRejects();
  }

  /** A single version line is the answer. */
  lemma ResolveOneLine(specialCases: map<string, string>, tag: string, shorthash: string)
    requires shorthash !in specialCases && '\n' !in tag && tag != GitTag && IsVersion(tag)
    ensures Resolve(specialCases, Output(tag), shorthash) == Ok(Some(tag))
  {
    LinesWithoutPlaceholder([tag]);
    assert Text.Join([tag], '\n') == tag;
    assert AllVersions([tag]);
  }

  /** Of two version lines, the first is returned unless the second is
      strictly older. */
  lemma ResolveTwoLines(specialCases: map<string, string>, a: string, b: string, shorthash: string)
    requires shorthash !in specialCases && '\n' !in a && '\n' !in b && a != GitTag && b != GitTag
    requires IsVersion(a) && IsVersion(b)
    ensures Resolve(specialCases, Output(a + "\n" + b), shorthash) == Ok(Some(if VersionLe(a, b) then a else b))
  {
    var lines := [a, b];
    assert Text.Join(lines, '\n') == a + "\n" + b;
    LinesWithoutPlaceholder(lines);
    assert AllVersions(lines);
    VersionOrderIsTotal(lines);
    FirstLeastOfTwo(a, b, VersionOrder);
  }

  /** `v<d1>.<d2>` is a two-component release. */
  lemma ParseVPair(d1: char, d2: char)
    requires IsDigit(d1) && IsDigit(d2)
    ensures Parse(['v', d1, '.', d2]) == Some([(d1 - '0') as nat, (d2 - '0') as nat])
  {
    var g := [[d1], [d2]];
    assert [d1, '.', d2] == Text.Join(g, '.');
    ParseDotted(g);
    assert WithoutV(['v', d1, '.', d2]) == [d1, '.', d2];
    var r := ParseGroups(g).value;
    assert r[0] == DigitsValue([d1]) == (d1 - '0') as nat;
    assert r[1] == DigitsValue([d2]) == (d2 - '0') as nat;
    assert r == [(d1 - '0') as nat, (d2 - '0') as nat];
  }

  /** The unit tests' scenarios, one lemma each. */
  lemma SpecialCaseScenario(text: string)
    ensures Resolve(map["aaaaaa" := "v1.2"], Output(text), "aaaaaa") == Ok(Some("v1.2"))
  {
  }

  lemma SimpleScenario()
    ensures Resolve(map[], Output("v1.2"), "aaaaaa") == Ok(Some("v1.2"))
  {
    ParseVPair('1', '2');
    ResolveOneLine(map[], "v1.2", "aaaaaa");
  }

  /** The two-tag scenarios, for any tags that parse as 1.2 and 1.3 do
      (`ParseVPair` shows that "v1.2" and "v1.3" do). */
  lemma TwoTagsScenario(a: string, b: string)
    requires Parse(a) == Some([1, 2]) && Parse(b) == Some([1, 3])
    ensures Resolve(map[], Output(a + "\n" + b), "aaaaaa") == Ok(Some(a))
  {
    VersionLine(a);
    VersionLine(b);
    ResolveTwoLines(map[], a, b, "aaaaaa");
  }

  lemma PlaceholderScenario(a: string, b: string)
    requires Parse(a) == Some([1, 2]) && Parse(b) == Some([1, 3])
    ensures Resolve(map[], Output(a + "\n" + GitTag + "\n" + b), "aaaaaa") == Ok(Some(a))
  {
    VersionLine(a);
    VersionLine(b);
    PlaceholderDropped(a, b);
    TwoTagsScenario(a, b);
  }

  lemma MissingTagScenario()
    ensures Resolve(map["bbbbbb" := "v1.0"], Output(""), "aaaaaa") == Ok(None)
  {
    assert Candidates("") == [""];
  }

  lemma CommandErrorScenario()
    ensures Resolve(map["bbbbbb" := "v1.0"], CommandFailed, "aaaaaa") == Ok(None)
  {
  }
}
