/** What the three copies of the vulnerability catalog share: the scraped
    record, the fetched page as the code sees it, the rule tokens and the
    comparisons a rule reduces to, and the order-preserving filter. */
module Catalog {
  import opened Outcomes
  import Text
  import opened Pep440

  /** One scraped row: advisory link, vulnerability name, version rule. */
  datatype Record = Record(link: string, name: string, rule: string)

  /** The first table's body rows, each already extracted or failed
      (a row without the expected cells or span). */
  datatype Table = NoTable | Rows(rows: seq<Option<Record>>)

  /** The answer to `requests.get(vuln_url)`. */
  datatype Response = RequestFailed | Response(status: int, table: Table)

  /** What `is_version_vulnerable` gives: True, False, None, or it raises. */
  type Verdict = Outcome<Option<bool>>

  const Comparators: set<char> := {'=', '<', '>'}

  /** `[x.translate(str.maketrans("", "", "=<>")) for x in rule.split(" ")]` */
  function RuleTokens(rule: string): (tokens: seq<string>)
    ensures |tokens| >= 1
    ensures forall i :: 0 <= i < |tokens| ==> ' ' !in tokens[i] && forall c :: c in tokens[i] ==> c !in Comparators
  {
    var parts := Text.Split(rule, ' ');
    Text.SplitPiecesLackSeparator(rule, ' ');
    seq(|parts|, i requires 0 <= i < |parts| => Text.DeleteChars(parts[i], Comparators))
  }

  /** `version.parse(v) <= version.parse(bound)`: both are parsed, left first. */
  function AtMost(v: string, bound: string): (r: Verdict)
    ensures r.Ok? <==> IsVersion(v) && IsVersion(bound)
    ensures r.Ok? ==> r.value == Some(VersionLe(v, bound))
  {
    if !IsVersion(v) || !IsVersion(bound) then Raised(InvalidVersion)
    else Ok(Some(VersionLe(v, bound)))
  }

  /** `(parse(lo) <= parse(v)) and (parse(v) <= parse(hi))`: `and` stops at a
      False left side, so `hi` is parsed only when `lo <= v`. */
  function Within(lo: string, v: string, hi: string): (r: Verdict)
    ensures r.Ok? <==> IsVersion(lo) && IsVersion(v) && (VersionLe(lo, v) ==> IsVersion(hi))
    ensures r.Ok? ==> r.value.Some?
    ensures r.Ok? && IsVersion(hi) ==> r.value.value == (VersionLe(lo, v) && VersionLe(v, hi))
  {
    if !IsVersion(lo) || !IsVersion(v) then Raised(InvalidVersion)
    else if !VersionLe(lo, v) then Ok(Some(false))
    else if !IsVersion(hi) then Raised(InvalidVersion)
    else Ok(Some(VersionLe(v, hi)))
  }

  /** Below the lower end the interval test is False, whatever the upper end. */
  lemma BelowLowerEnd(lo: string, v: string, hi: string)
    requires IsVersion(lo) && IsVersion(v) && !VersionLe(lo, v)
    ensures Within(lo, v, hi) == Ok(Some(false))
  {
  }

  /** `a` is `b` with some elements left out, order kept. */
  predicate IsSubsequence<T(==)>(a: seq<T>, b: seq<T>)
    decreases |b|
  {
    if a == [] then true
    else if b == [] then false
    else if a[|a| - 1] == b[|b| - 1] then IsSubsequence(a[..|a| - 1], b[..|b| - 1])
    else IsSubsequence(a, b[..|b| - 1])
  }

  /** The result of `get_vulnerabilities_of_version`: the loop appends each
      record whose check is True, and an exception from a check ends it. */
  function Matching(records: seq<Record>, v: string, check: (string, string) -> Verdict): (r: Outcome<seq<Record>>)
    ensures r.Ok? <==> forall i :: 0 <= i < |records| ==> check(v, records[i].rule).Ok?
    ensures r.Ok? ==> forall x :: x in r.value <==> x in records && check(v, x.rule) == Ok(Some(true))
    ensures r.Ok? ==> IsSubsequence(r.value, records)
    ensures r.Ok? ==> forall y ::
      multiset(r.value)[y] == if check(v, y.rule) == Ok(Some(true)) then multiset(records)[y] else 0
  {
    if records == [] then Ok([])
    else
      var last := records[|records| - 1];
      var front := records[..|records| - 1];
      assert records == front + [last];
      assert multiset(records) == multiset(front) + multiset{last};
      match Matching(front, v, check)
      case Raised(e) => Raised(e)
      case Ok(kept) =>
        match check(v, last.rule)
        case Raised(e) => Raised(e)
        case Ok(verdict) =>
          if verdict == Some(true) then
            assert multiset(kept + [last]) == multiset(kept) + multiset{last};
            Ok(kept + [last])
          else Ok(kept)
  }

  /** Once a prefix raises, the whole scan raises the same exception. */
  lemma {:induction false} MatchingStopsAtRaise(records: seq<Record>, k: nat, v: string, check: (string, string) -> Verdict)
    requires k <= |records|
    requires Matching(records[..k], v, check).Raised?
    ensures Matching(records, v, check) == Matching(records[..k], v, check)
    decreases |records| - k
  {
    if k < |records| {
      var next := records[..k + 1];
      assert next[..|next| - 1] == records[..k];
      assert Matching(next, v, check) == Matching(records[..k], v, check);
      MatchingStopsAtRaise(records, k + 1, v, check);
    } else {
      assert records[..k] == records;
    }
  }

  /** A one-record catalog yields the record exactly when its check is True. */
  lemma MatchingOne(x: Record, v: string, check: (string, string) -> Verdict)
    requires check(v, x.rule).Ok?
    ensures Matching([x], v, check) == if check(v, x.rule).value == Some(true) then Ok([x]) else Ok([])
  {
    assert [x][..0] == [];
    assert [] + [x] == [x];
  }

  /** A catalog whose every check answers False or None yields nothing. */
  lemma NothingMatches(records: seq<Record>, v: string, check: (string, string) -> Verdict)
    requires forall i :: 0 <= i < |records| ==> check(v, records[i].rule).Ok? && check(v, records[i].rule).value != Some(true)
    ensures Matching(records, v, check) == Ok([])
  {
    var r := Matching(records, v, check).value;
    assert forall y :: y in r ==> y in records && check(v, y.rule) == Ok(Some(true));
    assert forall y :: y !in r;
  }

  /** A catalog where only the record at `k` answers True yields that record alone. */
  lemma {:induction false} OnlyMatch(records: seq<Record>, k: nat, v: string, check: (string, string) -> Verdict)
    requires k < |records| && check(v, records[k].rule) == Ok(Some(true))
    requires forall i :: 0 <= i < |records| && i != k ==> check(v, records[i].rule).Ok? && check(v, records[i].rule).value != Some(true)
    ensures Matching(records, v, check) == Ok([records[k]])
    decreases |records|
  {
    var front := records[..|records| - 1];
    if k == |records| - 1 {
      NothingMatches(front, v, check);
    } else {
      OnlyMatch(front, k, v, check);
    }
  }

  /** The records of the rows before the first row that fails to parse. */
  function RecordsBeforeFailure(rows: seq<Option<Record>>): (r: seq<Record>)
    ensures |r| <= |rows|
    ensures forall i :: 0 <= i < |r| ==> rows[i] == Some(r[i])
    ensures |r| < |rows| ==> rows[|r|].None?
  {
    if rows == [] || rows[0].None? then []
    else [rows[0].value] + RecordsBeforeFailure(rows[1..])
  }

  predicate AllParsed(rows: seq<Option<Record>>)
  {
    forall i :: 0 <= i < |rows| ==> rows[i].Some?
  }

  /** A table whose every row parses gives one record per row, in row order,
      with the scraped fields unchanged. */
  lemma AllRowsKept(rows: seq<Option<Record>>)
    requires AllParsed(rows)
    ensures |RecordsBeforeFailure(rows)| == |rows|
    ensures forall i :: 0 <= i < |rows| ==> RecordsBeforeFailure(rows)[i] == rows[i].value
  {
  }

  /** A string made only of comparison characters in front of a token is
      deleted with them. */
  lemma StripOperator(op: string, token: string)
    requires forall c :: c in op ==> c in Comparators
    requires forall c :: c in token ==> c !in Comparators
    ensures Text.DeleteChars(op + token, Comparators) == token
  {
    Text.DeleteCharsAppend(op, token, Comparators);
    Text.DeleteCharsDropsAll(op, Comparators);
    Text.DeleteCharsKeepsOthers(token, Comparators);
  }

  /** A rule holding one version, behind any comparison characters, has that
      version as its only token. */
  lemma OneToken(op: string, bound: string)
    requires forall c :: c in op ==> c in Comparators
    requires IsVersion(bound)
    ensures RuleTokens(op + bound) == [bound]
  {
    VersionAlphabet(bound);
    Text.NoSeparator(op + bound, ' ');
    StripOperator(op, bound);
  }

  /** A rule of two versions separated by one space has them as its tokens. */
  lemma TwoTokens(op1: string, lo: string, op2: string, hi: string)
    requires forall c :: c in op1 ==> c in Comparators
    requires forall c :: c in op2 ==> c in Comparators
    requires IsVersion(lo) && ' ' !in hi
    requires forall c :: c in hi ==> c !in Comparators
    ensures RuleTokens(op1 + lo + " " + op2 + hi) == [lo, hi]
  {
    VersionAlphabet(lo);
    assert op1 + lo + " " + op2 + hi == (op1 + lo) + [' '] + (op2 + hi);
    Text.SplitAround(op1 + lo, op2 + hi, ' ');
    Text.NoSeparator(op1 + lo, ' ');
    Text.NoSeparator(op2 + hi, ' ');
    StripOperator(op1, lo);
    StripOperator(op2, hi);
  }

  /** The same for a rule without comparison characters. */
  lemma PlainTwoTokens(lo: string, hi: string)
    requires IsVersion(lo) && ' ' !in hi
    requires forall c :: c in hi ==> c !in Comparators
    ensures RuleTokens(lo + " " + hi) == [lo, hi]
  {
    TwoTokens("", lo, "", hi);
    assert "" + lo + " " + "" + hi == lo + " " + hi;
  }

  /** Two spaces or more make three tokens or more. */
  lemma ManyTokens(a: string, b: string, c: string)
    ensures |RuleTokens(a + " " + b + " " + c)| >= 3
  {
    assert a + " " + b + " " + c == a + [' '] + (b + [' '] + c);
    Text.SplitAround(a, b + [' '] + c, ' ');
    Text.SplitAround(b, c, ' ');
  }
}
