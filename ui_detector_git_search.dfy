/** The sorted tag resolver of swagger_ui_detector.py (`SwaggerGitSearcher`).
    It differs from `GitSearch` in three ways: its special cases are two
    hard-coded hashes, a failing git command is not caught, and it sorts even
    a lone empty line. */
module UiDetectorGitSearch {
  import opened Outcomes
  import opened Pep440
  import Text
  import GitSearch

  /** The two commits that are missing from swagger-ui's repository. */
  const HardCoded: map<string, string> := map["a6656ced" := "v3.17.1", "7f92cd3c" := "v3.7.0"]

  /** `get_version_from_shorthash` of this copy. */
  function Resolve(output: GitSearch.TagOutput, shorthash: string): (r: Outcome<Option<string>>)
    ensures shorthash in HardCoded ==> r == Ok(Some(HardCoded[shorthash]))
    ensures r.Raised? ==> r.error == if output.CommandFailed? then GitCommandError else InvalidVersion
    ensures shorthash !in HardCoded && r.Ok? && r.value.Some? ==>
      output.Output? && r.value.value in GitSearch.Candidates(output.text) && IsVersion(r.value.value)
  {
    if shorthash == "a6656ced" then Ok(Some("v3.17.1"))
    else if shorthash == "7f92cd3c" then Ok(Some("v3.7.0"))
    else if output.CommandFailed? then Raised(GitCommandError)
    else
      var versions := GitSearch.Candidates(output.text);
      if |versions| > 0 then
        match GitSearch.Earliest(versions)
        case Ok(tag) => Ok(Some(tag))
        case Raised(e) => Raised(e)
      else Ok(None)
  }

  class SwaggerGitSearcher {
    /** `self.g.tag(contains=...)` on the configured repository. */
    const tagsContaining: string -> GitSearch.TagOutput

    constructor (tagsContaining: string -> GitSearch.TagOutput)
      ensures this.tagsContaining == tagsContaining
    {
      this.tagsContaining := tagsContaining;
    }

    method GetVersionFromShorthash(shorthash: string) returns (r: Outcome<Option<string>>)
      ensures r == Resolve(tagsContaining(shorthash), shorthash)
    {
      if shorthash == "a6656ced" {
        return Ok(Some("v3.17.1"));
      } else if shorthash == "7f92cd3c" {
        return Ok(Some("v3.7.0"));
      }
      var output := tagsContaining(shorthash);
      if output.CommandFailed? {
        return Raised(GitCommandError);
      }
      var versions := Text.Split(output.text, '\n');
      if GitSearch.GitTag in versions {
        versions := GitSearch.RemoveFirst(versions, GitSearch.GitTag);
      }
      if |versions| > 0 {
        var tag := GitSearch.EarliestTag(versions);
        match tag {
          case Ok(t) => r := Ok(Some(t));
          case Raised(e) => r := Raised(e);
        }
      } else {
        r := Ok(None);
      }
    }
  }

  /** The hard-coded hashes are answered without looking at git. */
  lemma HardCodedAnswered(output: GitSearch.TagOutput, shorthash: string)
    requires shorthash in HardCoded
    ensures Resolve(output, shorthash) == Ok(Some(HardCoded[shorthash]))
  {
  }

  /** None comes back only when git printed exactly the placeholder. */
  lemma NoneOnlyForPlaceholder(text: string, shorthash: string)
    ensures Resolve(GitSearch.Output(text), shorthash) == Ok(None) <==>
      shorthash !in HardCoded && text == GitSearch.GitTag
  {
    NothingLeft(text);
    if shorthash !in HardCoded && GitSearch.Candidates(text) != [] {
      assert Resolve(GitSearch.Output(text), shorthash) != Ok(None);
    }
  }

  /** Removing the placeholder empties the lines only when it was all of them. */
  lemma NothingLeft(text: string)
    ensures GitSearch.Candidates(text) == [] <==> text == GitSearch.GitTag
  {
    var lines := Text.Split(text, '\n');
    if text == GitSearch.GitTag {
      Text.NoSeparator(text, '\n');
    }
    if GitSearch.Candidates(text) == [] {
      assert lines == [GitSearch.GitTag];
      Text.JoinSplit(text, '\n');
    }
  }

  /** Empty output is one empty line, and the sort raises on it. */
  lemma EmptyOutputRaises(shorthash: string)
    requires shorthash !in HardCoded
    ensures Resolve(GitSearch.Output(""), shorthash) == Raised(InvalidVersion)
  {
    assert GitSearch.Candidates("") == [""];
    ParseRejects();
    assert !GitSearch.AllVersions([""]);
  }

  /** A failing git command propagates. */
  lemma CommandErrorPropagates(shorthash: string)
    requires shorthash !in HardCoded
    ensures Resolve(GitSearch.CommandFailed, shorthash) == Raised(GitCommandError)
  {
  }

  /** On every other output this copy answers as `GitSearch` does with the
      same two special cases. */
  lemma AgreesWithGitSearcher(text: string, shorthash: string)
    requires GitSearch.Candidates(text) != [""]
    ensures Resolve(GitSearch.Output(text), shorthash) == GitSearch.Resolve(HardCoded, GitSearch.Output(text), shorthash)
  {
  }
}
