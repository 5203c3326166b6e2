/** The older vulnerability catalog, repeated in snyk_parser.py,
    swagger_ui_detector.py and swagger_detector.py with the same logic (the
    copies differ in the table's CSS selector, logging and a default URL).
    It has no success flag, does not check the status code, does not catch
    its own failures, and its rule check has no test for the empty rule. */
module LegacySnykCatalog {
  import opened Outcomes
  import Text
  import opened Pep440
  import opened Catalog
  import SnykCatalog

  /** `is_version_vulnerable` of the older copies: the `len(vsplit) == 0`
      guard stands where the newer copy tests for the empty rule. */
  function IsVersionVulnerable(v: string, rule: string): (r: Verdict)
    ensures r == Ok(None) <==> |RuleTokens(rule)| >= 3
    ensures r.Raised? ==> r.error == InvalidVersion
  {
    var parts := Text.Split(rule, ' ');
    if |parts| == 0 then Ok(None)
    else
      var tokens := RuleTokens(rule);
      if |tokens| == 1 then AtMost(v, tokens[0])
      else if |tokens| == 2 then Within(tokens[0], v, tokens[1])
      else Ok(None)
  }

  class SnykParser {
    const vulnUrl: string
    var vulnerabilities: seq<Record>

    constructor (vulnUrl: string)
      ensures this.vulnUrl == vulnUrl && vulnerabilities == []
    {
      this.vulnUrl := vulnUrl;
      vulnerabilities := [];
    }

    /** `load_vulnerabilities`: the list is reset, then one record is appended
        per row in row order. Nothing is caught: a failed request leaves `resp`
        unbound, a missing table or a malformed row raises, and the rows
        appended before the failure stay. The status code is never read. */
    method LoadVulnerabilities(resp: Response) returns (outcome: Outcome<()>)
      modifies this
      ensures vulnerabilities ==
        if resp.Response? && resp.table.Rows? then RecordsBeforeFailure(resp.table.rows) else []
      ensures outcome.Ok? <==> resp.Response? && resp.table.Rows? && AllParsed(resp.table.rows)
      ensures resp.RequestFailed? ==> outcome == Raised(UnboundLocalError)
      ensures outcome.Raised? && resp.Response? ==> outcome.error == MarkupError
    {
      vulnerabilities := [];
      if resp.RequestFailed? {
        return Raised(UnboundLocalError);
      }
      if resp.table.NoTable? {
        return Raised(MarkupError);
      }
      var rows := resp.table.rows;
      var i := 0;
      while i < |rows|
        invariant 0 <= i <= |rows|
        invariant forall j :: 0 <= j < i ==> rows[j].Some?
        invariant |vulnerabilities| == i
        invariant forall j :: 0 <= j < i ==> vulnerabilities[j] == rows[j].value
      {
        if rows[i].None? {
          SnykCatalog.FirstFailure(rows, i, vulnerabilities);
          return Raised(MarkupError);
        }
        vulnerabilities := vulnerabilities + [rows[i].value];
        i := i + 1;
      }
      SnykCatalog.FirstFailure(rows, i, vulnerabilities);
      outcome := Ok(());
    }

    /** `get_vulnerabilities_of_version`: the stored records whose check is
        True, in stored order; an exception from a check propagates. */
    method GetVulnerabilitiesOfVersion(v: string) returns (r: Outcome<seq<Record>>)
      ensures r == Matching(vulnerabilities, v, IsVersionVulnerable)
      ensures r.Ok? ==> forall x :: x in r.value <==> x in vulnerabilities && IsVersionVulnerable(v, x.rule) == Ok(Some(true))
    {
      var result := [];
      var i := 0;
      while i < |vulnerabilities|
        invariant 0 <= i <= |vulnerabilities|
        invariant Matching(vulnerabilities[..i], v, IsVersionVulnerable) == Ok(result)
      {
        var verdict := IsVersionVulnerable(v, vulnerabilities[i].rule);
        assert vulnerabilities[..i + 1][..i] == vulnerabilities[..i];
        if verdict.Raised? {
          MatchingStopsAtRaise(vulnerabilities, i + 1, v, IsVersionVulnerable);
          return Raised(verdict.error);
        }
        if verdict.value == Some(true) {
          result := result + [vulnerabilities[i]];
        }
        i := i + 1;
      }
      assert vulnerabilities[..i] == vulnerabilities;
      r := Ok(result);
    }
  }

  /** On every non-empty rule the older check answers as the newer one does. */
  lemma AgreesOnNonEmptyRules(v: string, rule: string)
    requires rule != ""
    ensures IsVersionVulnerable(v, rule) == SnykCatalog.IsVersionVulnerable(v, rule)
  {
  }

  /** The `len(vsplit) == 0` guard never fires: the empty rule is one empty
      token, and parsing it raises InvalidVersion whatever the version. */
  lemma EmptyRuleRaises(v: string)
    ensures IsVersionVulnerable(v, "") == Raised(InvalidVersion)
  {
    assert Text.Split("", ' ') == [""];
    assert Text.DeleteChars("", Comparators) == "";
    assert RuleTokens("") == [""];
    assert !IsVersion("");
  }

  /** One version behind any comparison characters is an inclusive upper bound. */
  lemma SingleBound(v: string, op: string, bound: string)
    requires forall c :: c in op ==> c in Comparators
    requires IsVersion(v) && IsVersion(bound)
    ensures IsVersionVulnerable(v, op + bound) == Ok(Some(VersionLe(v, bound)))
  {
    SnykCatalog.SingleBound(v, op, bound);
    AgreesOnNonEmptyRules(v, op + bound);
  }

  /** Two versions make an interval inclusive at both ends. */
  lemma Interval(v: string, op1: string, lo: string, op2: string, hi: string)
    requires forall c :: c in op1 ==> c in Comparators
    requires forall c :: c in op2 ==> c in Comparators
    requires IsVersion(v) && IsVersion(lo) && IsVersion(hi)
    ensures IsVersionVulnerable(v, op1 + lo + " " + op2 + hi) == Ok(Some(VersionLe(lo, v) && VersionLe(v, hi)))
  {
    SnykCatalog.Interval(v, op1, lo, op2, hi);
    AgreesOnNonEmptyRules(v, op1 + lo + " " + op2 + hi);
  }

  /** Rules of three or more tokens cannot be decided. */
  lemma ThreeOrMoreUndecided(v: string, a: string, b: string, c: string)
    ensures IsVersionVulnerable(v, a + " " + b + " " + c) == Ok(None)
  {
    SnykCatalog.ThreeOrMoreUndecided(v, a, b, c);
    AgreesOnNonEmptyRules(v, a + " " + b + " " + c);
  }
}
