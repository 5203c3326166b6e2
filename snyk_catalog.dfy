/** The vulnerability catalog of src/snyk_parser.py: a scraper object whose
    load step fills `vulnerabilities` and sets `got_vulns`, and a rule check
    that answers True, False or None ("cannot decide"). */
module SnykCatalog {
  import opened Outcomes
  import opened Pep440
  import opened Catalog
  import Text

  /** `is_version_vulnerable(in_version, vuln_version)`: the empty rule cannot
      be decided; otherwise one token is an inclusive upper bound, two tokens
      an inclusive interval, three or more cannot be decided. */
  function IsVersionVulnerable(v: string, rule: string): (r: Verdict)
    ensures r == Ok(None) <==> rule == "" || |RuleTokens(rule)| >= 3
    ensures r.Raised? ==> r.error == InvalidVersion
  {
    if rule == "" then Ok(None)
    else
      var tokens := RuleTokens(rule);
      if |tokens| == 1 then AtMost(v, tokens[0])
      else if |tokens| == 2 then Within(tokens[0], v, tokens[1])
      else Ok(None)
  }

  class SnykParser {
    const vulnUrl: string
    var vulnerabilities: seq<Record>
    var gotVulns: bool

    constructor (vulnUrl: string)
      ensures this.vulnUrl == vulnUrl
      ensures vulnerabilities == [] && !gotVulns
    {
      this.vulnUrl := vulnUrl;
      vulnerabilities := [];
      gotVulns := false;
    }

    function ParsedVulnerabilitiesSuccessfully(): (ok: bool)
      reads this
      ensures ok == gotVulns
    {
      gotVulns
    }

    /** `load_vulnerabilities`: the list is reset; a failed request or a non-200
        status leaves it empty; rows are appended in order until one fails to
        parse, which ends the load with the rows kept so far; the flag is set
        only when every row parsed and at least one record was produced, and
        it is never cleared. */
    method LoadVulnerabilities(resp: Response)
      modifies this
      ensures vulnerabilities ==
        if resp.Response? && resp.status == 200 && resp.table.Rows?
        then RecordsBeforeFailure(resp.table.rows) else []
      ensures gotVulns == (old(gotVulns) || (LoadCompletes(resp) && |vulnerabilities| > 0))
    {
      vulnerabilities := [];
      if resp.RequestFailed? || resp.status != 200 {
        return;
      }
      if resp.table.NoTable? {
        return;
      }
      var rows := resp.table.rows;
      var i := 0;
      while i < |rows|
        invariant 0 <= i <= |rows|
        invariant forall j :: 0 <= j < i ==> rows[j].Some?
        invariant |vulnerabilities| == i
        invariant forall j :: 0 <= j < i ==> vulnerabilities[j] == rows[j].value
        invariant gotVulns == old(gotVulns)
      {
        if rows[i].None? {
          FirstFailure(rows, i, vulnerabilities);
          return;
        }
        vulnerabilities := vulnerabilities + [rows[i].value];
        i := i + 1;
      }
      FirstFailure(rows, i, vulnerabilities);
      if |vulnerabilities| > 0 {
        gotVulns := true;
      }
    }

    /** `get_vulnerabilities_of_version`: the stored records whose check is
        True, in stored order; False and None are left out; an exception from
        a check propagates. The stored list is not modified. */
    method GetVulnerabilitiesOfVersion(v: string) returns (r: Outcome<seq<Record>>)
      ensures r == Matching(vulnerabilities, v, IsVersionVulnerable)
      ensures r.Ok? ==> forall x :: x in r.value <==> x in vulnerabilities && IsVersionVulnerable(v, x.rule) == Ok(Some(true))
    {
      var result := [];
      var i := 0;
      while i < |vulnerabilities|
        invariant 0 <= i <= |vulnerabilities|
        invariant Matching(vulnerabilities[..i], v, IsVersionVulnerable) == Ok(result)
      {
        var verdict := IsVersionVulnerable(v, vulnerabilities[i].rule);
        assert vulnerabilities[..i + 1][..i] == vulnerabilities[..i];
        if verdict.Raised? {
          MatchingStopsAtRaise(vulnerabilities, i + 1, v, IsVersionVulnerable);
          return Raised(verdict.error);
        }
        if verdict.value == Some(true) {
          result := result + [vulnerabilities[i]];
        }
        i := i + 1;
      }
      assert vulnerabilities[..i] == vulnerabilities;
      r := Ok(result);
    }
  }

  /** The load ran to its end: request answered with 200, a table, every row parsed. */
  predicate LoadCompletes(resp: Response)
  {
    resp.Response? && resp.status == 200 && resp.table.Rows? && AllParsed(resp.table.rows)
  }

  /** The prefix read by the load loop is the records before the first failing row. */
  lemma FirstFailure(rows: seq<Option<Record>>, i: nat, kept: seq<Record>)
    requires i <= |rows| && |kept| == i
    requires forall j :: 0 <= j < i ==> rows[j].Some? && kept[j] == rows[j].value
    requires i < |rows| ==> rows[i].None?
    ensures kept == RecordsBeforeFailure(rows)
  {
    var r := RecordsBeforeFailure(rows);
    assert |r| == i;
  }

  /** Any comparison prefix ("<", "<=", ">=", none) gives the same inclusive
      upper bound: the version is vulnerable exactly when it is at most the bound. */
  lemma SingleBound(v: string, op: string, bound: string)
    requires forall c :: c in op ==> c in Comparators
    requires IsVersion(v) && IsVersion(bound)
    ensures IsVersionVulnerable(v, op + bound) == Ok(Some(VersionLe(v, bound)))
  {
    OneToken(op, bound);
  }

  /** Two versions make an interval inclusive at both ends, whatever
      comparison characters stand in front of them. */
  lemma Interval(v: string, op1: string, lo: string, op2: string, hi: string)
    requires forall c :: c in op1 ==> c in Comparators
    requires forall c :: c in op2 ==> c in Comparators
    requires IsVersion(v) && IsVersion(lo) && IsVersion(hi)
    ensures IsVersionVulnerable(v, op1 + lo + " " + op2 + hi) == Ok(Some(VersionLe(lo, v) && VersionLe(v, hi)))
  {
    VersionAlphabet(hi);
    TwoTokens(op1, lo, op2, hi);
  }

  /** The same without comparison characters. */
  lemma PlainInterval(v: string, lo: string, hi: string)
    requires IsVersion(v) && IsVersion(lo) && IsVersion(hi)
    ensures IsVersionVulnerable(v, lo + " " + hi) == Ok(Some(VersionLe(lo, v) && VersionLe(v, hi)))
  {
    VersionAlphabet(hi);
    PlainTwoTokens(lo, hi);
  }

  /** Below the lower end the answer is False before the upper end is read,
      so an upper end that is not a version does not raise. */
  lemma BelowIntervalShortCircuits(v: string, lo: string, hi: string)
    requires IsVersion(v) && IsVersion(lo) && !VersionLe(lo, v)
    requires ' ' !in hi && forall c :: c in hi ==> c !in Comparators
    ensures IsVersionVulnerable(v, lo + " " + hi) == Ok(Some(false))
  {
    PlainTwoTokens(lo, hi);
    TwoTokenRule(v, lo + " " + hi);
    BelowLowerEnd(lo, v, hi);
  }

  /** A rule of two tokens is the interval test on them. */
  lemma TwoTokenRule(v: string, rule: string)
    requires |RuleTokens(rule)| == 2
    ensures IsVersionVulnerable(v, rule) == Within(RuleTokens(rule)[0], v, RuleTokens(rule)[1])
  {
  }

  /** Rules of three or more tokens cannot be decided, for any version string. */
  lemma ThreeOrMoreUndecided(v: string, a: string, b: string, c: string)
    ensures IsVersionVulnerable(v, a + " " + b + " " + c) == Ok(None)
  {
    ManyTokens(a, b, c);
  }

  lemma EmptyRuleUndecided(v: string)
    ensures IsVersionVulnerable(v, "") == Ok(None)
  {
  }

  /** Comparison characters in front of the first token never change the answer. */
  lemma OperatorsIgnored(v: string, op: string, rule: string)
    requires forall c :: c in op ==> c in Comparators
    requires rule != ""
    ensures IsVersionVulnerable(v, op + rule) == IsVersionVulnerable(v, rule)
  {
    assert ' ' !in op;
    Text.SplitPrefix(op, rule, ' ');
    var parts := Text.Split(rule, ' ');
    Text.DeleteCharsAppend(op, parts[0], Comparators);
    Text.DeleteCharsDropsAll(op, Comparators);
    assert RuleTokens(op + rule)[0] == RuleTokens(rule)[0];
    assert RuleTokens(op + rule) == RuleTokens(rule);
  }

  /** The rule-check scenarios of the catalog's unit tests, for any
      versions that parse as the tests' `v1` to `v5` do (`ParseVDigit`). */
  lemma SimpleScenarios(v1: string, v2: string)
    requires Parse(v1) == Some([1]) && Parse(v2) == Some([2])
    ensures IsVersionVulnerable(v1, v2) == Ok(Some(true))
    ensures IsVersionVulnerable(v2, v1) == Ok(Some(false))
  {
    SingleBound(v1, "", v2);
    assert "" + v2 == v2;
    SingleBound(v2, "", v1);
    assert "" + v1 == v1;
  }

  lemma IntervalInsideScenario(v1: string, v2: string, v3: string)
    requires Parse(v1) == Some([1]) && Parse(v2) == Some([2]) && Parse(v3) == Some([3])
    ensures IsVersionVulnerable(v2, v1 + " " + v3) == Ok(Some(true))
  {
    PlainInterval(v2, v1, v3);
  }

  lemma IntervalBelowScenario(v1: string, v2: string, v3: string)
    requires Parse(v1) == Some([1]) && Parse(v2) == Some([2]) && Parse(v3) == Some([3])
    ensures IsVersionVulnerable(v1, ">=" + v2 + " " + "<" + v3) == Ok(Some(false))
  {
    Interval(v1, ">=", v2, "<", v3);
  }

  lemma IntervalAboveScenario(v2: string, v3: string, v4: string)
    requires Parse(v2) == Some([2]) && Parse(v3) == Some([3]) && Parse(v4) == Some([4])
    ensures IsVersionVulnerable(v4, ">=" + v2 + " " + "<" + v3) == Ok(Some(false))
  {
    Interval(v4, ">=", v2, "<", v3);
  }

  lemma UndecidedScenarios()
    ensures IsVersionVulnerable("v4", ">=v2 <v3 <v5") == Ok(None)
    ensures IsVersionVulnerable("v4", "") == Ok(None)
  {
    ThreeOrMoreUndecided("v4", ">=v2", "<v3", "<v5");
    assert ">=v2" + " " + "<v3" + " " + "<v5" == ">=v2 <v3 <v5";
  }

  /** The two rule shapes of the catalog's unit tests: `<hi` and `>=lo <hi`. */
  function BoundRule(lo: Option<string>, hi: string): string
  {
    match lo
    case None => "<" + hi
    case Some(l) => ">=" + l + " " + "<" + hi
  }

  /** A version strictly above a rule's upper bound is not matched by it,
      whether or not the rule has a lower bound. */
  lemma AboveUpperBound(v: string, lo: Option<string>, hi: string, k: nat)
    requires IsVersion(v) && IsVersion(hi) && (lo.Some? ==> IsVersion(lo.value))
    requires LessAt(Parse(hi).value, Parse(v).value, k)
    ensures IsVersionVulnerable(v, BoundRule(lo, hi)) == Ok(Some(false))
  {
    LessExclusive(Parse(hi).value, Parse(v).value);
    match lo
    case None => SingleBound(v, "<", hi);
    case Some(l) => Interval(v, ">=", l, "<", hi);
  }

  /** The end-to-end scenarios of the catalog's unit tests. Their catalog
      holds `<4.1.3` and rules of those two shapes whose upper bounds are
      2.x and 3.x releases. A version parsing as 4.11.1 matches nothing;
      one parsing as 4.0 matches the `<4.1.3` record alone (the tests'
      strings are "4.11.1", "4.1.3" and "v4.0", see `ParseExample4111`,
      `ParseExample413` and `ParseExample40`). */
  lemma NewerVersionNotMatched(records: seq<Record>, los: seq<Option<string>>, his: seq<string>, v: string)
    requires Parse(v) == Some([4, 11, 1])
    requires |los| == |records| && |his| == |records|
    requires forall i :: 0 <= i < |records| ==>
      records[i].rule == BoundRule(los[i], his[i]) && IsVersion(his[i]) && (los[i].Some? ==> IsVersion(los[i].value))
    requires forall i :: 0 <= i < |records| ==> IsVersion(his[i]) && (Parse(his[i]).value[0] < 4 || Parse(his[i]) == Some([4, 1, 3]))
    ensures Matching(records, v, IsVersionVulnerable) == Ok([])
  {
    forall i | 0 <= i < |records| ensures IsVersionVulnerable(v, records[i].rule) == Ok(Some(false)) {
      if Parse(his[i]).value[0] < 4 {
        AboveUpperBound(v, los[i], his[i], 0);
      } else {
        AboveUpperBound(v, los[i], his[i], 1);
      }
    }
    NothingMatches(records, v, IsVersionVulnerable);
  }

  lemma OlderVersionMatched(records: seq<Record>, los: seq<Option<string>>, his: seq<string>, v: string)
    requires Parse(v) == Some([4, 0])
    requires |records| > 0 && |los| == |records| && |his| == |records|
    requires forall i :: 0 <= i < |records| ==>
      records[i].rule == BoundRule(los[i], his[i]) && IsVersion(his[i]) && (los[i].Some? ==> IsVersion(los[i].value))
    requires los[0] == None && Parse(his[0]) == Some([4, 1, 3])
    requires forall i :: 1 <= i < |records| ==> IsVersion(his[i]) && Parse(his[i]).value[0] < 4
    ensures Matching(records, v, IsVersionVulnerable) == Ok([records[0]])
  {
    SingleBound(v, "<", his[0]);
    assert LessAt(Parse(v).value, Parse(his[0]).value, 1);
    forall i | 1 <= i < |records| ensures IsVersionVulnerable(v, records[i].rule) == Ok(Some(false)) {
      AboveUpperBound(v, los[i], his[i], 0);
    }
    OnlyMatch(records, 0, v, IsVersionVulnerable);
  }
}
