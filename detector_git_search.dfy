/** The unsorted tag resolver of swagger_detector.py (`SwaggerGitSearcher`):
    the first line of git's output, or the second one when the first is the
    placeholder. Nothing is sorted and nothing is caught. */
module DetectorGitSearch {
  import opened Outcomes
  import Text
  import Pep440
  import GitSearch
  import UiDetectorGitSearch

  /** `get_version_from_shorthash` of this copy; `versions[1]` raises
      IndexError when the placeholder is the only line. */
  function GetVersionFromShorthash(output: GitSearch.TagOutput, shorthash: string): (r: Outcome<Option<string>>)
    ensures r != Ok(None)
    ensures r.Raised? <==>
      shorthash !in UiDetectorGitSearch.HardCoded &&
      (output.CommandFailed? || Text.Split(output.text, '\n') == [GitSearch.GitTag])
    ensures shorthash !in UiDetectorGitSearch.HardCoded && output.Output? && r.Ok? ==>
      r.value.value in Text.Split(output.text, '\n')
  {
    if shorthash == "a6656ced" then Ok(Some("v3.17.1"))
    else if shorthash == "7f92cd3c" then Ok(Some("v3.7.0"))
    else if output.CommandFailed? then Raised(GitCommandError)
    else
      var versions := Text.Split(output.text, '\n');
      if |versions| > 0 then
        if versions[0] == GitSearch.GitTag then
          if |versions| > 1 then Ok(Some(versions[1])) else Raised(IndexError)
        else Ok(Some(versions[0]))
      else Ok(None)
  }

  /** The line chosen: the first, or the second behind a leading placeholder.
      A placeholder further down is never looked at. */
  lemma FirstOrSecondLine(text: string, shorthash: string)
    requires shorthash !in UiDetectorGitSearch.HardCoded
    ensures var lines := Text.Split(text, '\n');
      GetVersionFromShorthash(GitSearch.Output(text), shorthash) ==
        if lines[0] != GitSearch.GitTag then Ok(Some(lines[0]))
        else if |lines| > 1 then Ok(Some(lines[1]))
        else Raised(IndexError)
  {
  }

  /** Empty output is one empty line, which is returned as the version. */
  lemma EmptyOutputGivesEmptyString(shorthash: string)
    requires shorthash !in UiDetectorGitSearch.HardCoded
    ensures GetVersionFromShorthash(GitSearch.Output(""), shorthash) == Ok(Some(""))
  {
    assert Text.Split("", '\n') == [""];
  }

  /** Output of only the placeholder reaches `versions[1]` and raises. */
  lemma PlaceholderOnlyRaises(shorthash: string)
    requires shorthash !in UiDetectorGitSearch.HardCoded
    ensures GetVersionFromShorthash(GitSearch.Output(GitSearch.GitTag), shorthash) == Raised(IndexError)
  {
    Text.NoSeparator(GitSearch.GitTag, '\n');
  }

  /** Where the sorted copy picks the older of two tags, this one keeps git's
      order: for tags parsing as 1.3 and 1.2 (such as "v1.3" and "v1.2"),
      this copy gives the first and the sorted copy the second. */
  lemma UnsortedDrift(a: string, b: string)
    requires Pep440.Parse(a) == Some([1, 3]) && Pep440.Parse(b) == Some([1, 2])
    ensures GetVersionFromShorthash(GitSearch.Output(a + "\n" + b), "aaaaaa") == Ok(Some(a))
    ensures UiDetectorGitSearch.Resolve(GitSearch.Output(a + "\n" + b), "aaaaaa") == Ok(Some(b))
  {
    GitSearch.VersionLine(a);
    GitSearch.VersionLine(b);
    TwoLines(a, b);
    SortedPicksOlder(a, b);
  }

  /** Two version lines split into the two of them. */
  lemma TwoLines(a: string, b: string)
    requires '\n' !in a && '\n' !in b
    ensures Text.Split(a + "\n" + b, '\n') == [a, b]
  {
    Text.SplitJoin([a, b], '\n');
    assert Text.Join([a, b], '\n') == a + "\n" + b;
  }

  lemma SortedPicksOlder(a: string, b: string)
    requires Pep440.Parse(a) == Some([1, 3]) && Pep440.Parse(b) == Some([1, 2])
    ensures UiDetectorGitSearch.Resolve(GitSearch.Output(a + "\n" + b), "aaaaaa") == Ok(Some(b))
  {
    GitSearch.VersionLine(a);
    GitSearch.VersionLine(b);
    assert !Pep440.VersionLe(a, b);
    GitSearch.ResolveTwoLines(UiDetectorGitSearch.HardCoded, a, b, "aaaaaa");
    UiDetectorGitSearch.AgreesWithGitSearcher(a + "\n" + b, "aaaaaa");
  }
}
