/** Version ordering of `packaging.version` (PEP 440), restricted to what the
    detector feeds it: a release segment `N(.N)*`, optionally preceded by `v`
    or `V` ("Preceding v character", PEP 440 normalization). Release segments
    compare component by component, the shorter one padded with zeros
    ("Final releases", PEP 440). Anything outside this grammar is treated as a
    string on which `version.parse` raises InvalidVersion. */
module Pep440 {
  import opened Outcomes
  import Text

  type Release = seq<nat>

  predicate IsDigit(c: char) { '0' <= c <= '9' }

  predicate AllDigits(s: string) { forall i :: 0 <= i < |s| ==> IsDigit(s[i]) }

  /** The decimal value of a digit string (leading zeros allowed, as in "01"). */
  function DigitsValue(s: string): nat
    requires AllDigits(s)
  {
    if s == [] then 0 else DigitsValue(s[..|s| - 1]) * 10 + (s[|s| - 1] - '0') as nat
  }

  /** The numeric components of the dot-separated groups, or None when a
      group is empty or holds a non-digit. */
  function ParseGroups(groups: seq<string>): (r: Option<Release>)
    ensures r.Some? <==> forall i :: 0 <= i < |groups| ==> groups[i] != "" && AllDigits(groups[i])
    ensures r.Some? ==> |r.value| == |groups|
    ensures r.Some? ==> forall i :: 0 <= i < |groups| ==> r.value[i] == DigitsValue(groups[i])
  {
    if groups == [] then Some([])
    else if groups[0] == "" || !AllDigits(groups[0]) then None
    else
      match ParseGroups(groups[1..])
      case None => None
      case Some(rest) => Some([DigitsValue(groups[0])] + rest)
  }

  function WithoutV(s: string): string
  {
    if |s| > 0 && (s[0] == 'v' || s[0] == 'V') then s[1..] else s
  }

  /** `version.parse(s)` on the release-only subset. A version is never
      empty and holds only digits and dots, after at most a leading `v`. */
  function Parse(s: string): (r: Option<Release>)
    ensures r.Some? ==> |r.value| >= 1
    ensures r.Some? ==> s != []
    ensures r.Some? ==> forall i :: 0 <= i < |s| ==> IsDigit(s[i]) || s[i] == '.' || (i == 0 && (s[i] == 'v' || s[i] == 'V'))
  {
    var r := ParseGroups(Text.Split(WithoutV(s), '.'));
    if r.Some? then ReleaseText(s); r else r
  }

  predicate IsVersion(s: string) { Parse(s).Some? }

  /** The text of a parsed release: digit groups joined by dots. */
  lemma ReleaseText(s: string)
    requires ParseGroups(Text.Split(WithoutV(s), '.')).Some?
    ensures s != []
    ensures forall i :: 0 <= i < |s| ==> IsDigit(s[i]) || s[i] == '.' || (i == 0 && (s[i] == 'v' || s[i] == 'V'))
  {
    var body := WithoutV(s);
    var groups := Text.Split(body, '.');
    var alphabet := {'0', '1', '2', '3', '4', '5', '6', '7', '8', '9', '.'};
    assert forall i :: 0 <= i < |groups| ==> forall c :: c in groups[i] ==> c in alphabet;
    Text.JoinAlphabet(groups, '.', alphabet);
    Text.JoinSplit(body, '.');
    assert groups[0] != "";
    if |groups| == 1 {
      assert body == groups[0];
    } else {
      assert body == groups[0] + (['.'] + Text.Join(groups[1..], '.'));
    }
    assert body != [];
    if body == s {
      assert forall i :: 0 <= i < |s| ==> s[i] in alphabet;
    } else {
      assert s == [s[0]] + body;
      assert forall i :: 1 <= i < |s| ==> s[i] == body[i - 1] && body[i - 1] in alphabet;
    }
  }

  function Head(r: Release): nat { if r == [] then 0 else r[0] }

  function Tail(r: Release): Release { if r == [] then [] else r[1..] }

  /** Component `i` of a release padded with zeros on the right. */
  function At(r: Release, i: nat): nat { if i < |r| then r[i] else 0 }

  /** The padded releases agree in every component. */
  ghost predicate Same(a: Release, b: Release) { forall i: nat :: At(a, i) == At(b, i) }

  /** `a` and `b` agree before component `k` and `a` is smaller there. */
  predicate LessAt(a: Release, b: Release, k: nat)
  {
    (forall i :: 0 <= i < k ==> At(a, i) == At(b, i)) && At(a, k) < At(b, k)
  }

  /** Lexicographic order on the padded releases: `a` is smaller at the first
      component where they differ. */
  ghost predicate Less(a: Release, b: Release) { exists k: nat :: LessAt(a, b, k) }

  /** Three-way comparison of release segments, missing components read as 0:
      0 for the same padded release, -1 when `a` is lexicographically smaller
      and 1 when `b` is. */
  function Compare(a: Release, b: Release): (r: int)
    ensures -1 <= r <= 1
    ensures r == 0 <==> Same(a, b)
    ensures r == -1 <==> Less(a, b)
    ensures r == 1 <==> Less(b, a)
    decreases |a| + |b|
  {
    if a == [] && b == [] then
      assert forall i: nat :: At(a, i) == 0 == At(b, i);
      LessNeverSame(a, b);
      LessNeverSame(b, a);
      0
    else if Head(a) < Head(b) then
      assert LessAt(a, b, 0);
      LessExclusive(a, b);
      -1
    else if Head(a) > Head(b) then
      assert LessAt(b, a, 0);
      LessExclusive(b, a);
      1
    else
      StepTail(a, b);
      Compare(Tail(a), Tail(b))
  }

  lemma AtTail(a: Release, i: nat)
    ensures At(Tail(a), i) == At(a, i + 1)
  {
  }

  /** Releases that agree everywhere have no first difference. */
  lemma LessNeverSame(a: Release, b: Release)
    requires Same(a, b)
    ensures !Less(a, b)
  {
    forall k: nat ensures !LessAt(a, b, k) {
      assert At(a, k) == At(b, k);
    }
  }

  /** The first difference decides one way only. */
  lemma LessExclusive(a: Release, b: Release)
    requires Less(a, b)
    ensures !Less(b, a) && !Same(a, b) && !Same(b, a)
  {
    var k: nat :| LessAt(a, b, k);
    forall j: nat ensures !LessAt(b, a, j) {
      if k < j {
        assert LessAt(b, a, j) ==> At(b, k) == At(a, k);
      } else if j < k {
        assert At(a, j) == At(b, j);
      }
    }
    assert At(a, k) != At(b, k);
  }

  /** With equal first components, both orders are decided by the tails. */
  lemma StepTail(a: Release, b: Release)
    requires Head(a) == Head(b)
    ensures Same(a, b) <==> Same(Tail(a), Tail(b))
    ensures Less(a, b) <==> Less(Tail(a), Tail(b))
    ensures Less(b, a) <==> Less(Tail(b), Tail(a))
  {
    assert At(a, 0) == At(b, 0);
    forall i: nat ensures At(Tail(a), i) == At(a, i + 1) && At(Tail(b), i) == At(b, i + 1) {
      AtTail(a, i);
      AtTail(b, i);
    }
    if Same(Tail(a), Tail(b)) {
      forall i: nat ensures At(a, i) == At(b, i) {
        if i > 0 {
          assert At(Tail(a), i - 1) == At(Tail(b), i - 1);
        }
      }
    }
    StepLess(a, b);
    StepLess(b, a);
  }

  lemma StepLess(a: Release, b: Release)
    requires Head(a) == Head(b)
    requires forall i: nat :: At(Tail(a), i) == At(a, i + 1) && At(Tail(b), i) == At(b, i + 1)
    ensures Less(a, b) <==> Less(Tail(a), Tail(b))
  {
    assert At(a, 0) == At(b, 0);
    if Less(a, b) {
      var k: nat :| LessAt(a, b, k);
      assert k > 0;
      assert forall i :: 0 <= i < k - 1 ==> At(Tail(a), i) == At(a, i + 1) == At(b, i + 1) == At(Tail(b), i);
      assert LessAt(Tail(a), Tail(b), k - 1);
    }
    if Less(Tail(a), Tail(b)) {
      var k: nat :| LessAt(Tail(a), Tail(b), k);
      forall i | 0 <= i < k + 1 ensures At(a, i) == At(b, i) {
        if i > 0 {
          assert At(Tail(a), i - 1) == At(Tail(b), i - 1);
        }
      }
      assert LessAt(a, b, k + 1);
    }
  }

  /** `version.parse(x) <= version.parse(y)`: the same release, or an earlier
      one in the lexicographic order of padded components. */
  predicate VersionLe(x: string, y: string): (le: bool)
    requires IsVersion(x) && IsVersion(y)
    ensures le <==> Same(Parse(x).value, Parse(y).value) || Less(Parse(x).value, Parse(y).value)
  {
    Compare(Parse(x).value, Parse(y).value) <= 0
  }

  function Zeros(k: nat): Release { seq(k, _ => 0) }

  lemma {:induction false} CompareAntisymmetric(a: Release, b: Release)
    ensures Compare(a, b) == -Compare(b, a)
    decreases |a| + |b|
  {
    if !(a == [] && b == []) && Head(a) == Head(b) {
      CompareAntisymmetric(Tail(a), Tail(b));
    }
  }

  lemma {:induction false} CompareTransitive(a: Release, b: Release, c: Release)
    requires Compare(a, b) <= 0 && Compare(b, c) <= 0
    ensures Compare(a, c) <= 0
    decreases |a| + |b| + |c|
  {
    if a == [] && b == [] && c == [] {
    } else if Head(a) == Head(b) && Head(b) == Head(c) {
      CompareTransitive(Tail(a), Tail(b), Tail(c));
    }
  }

  lemma {:induction false} CompareReflexive(a: Release)
    ensures Compare(a, a) == 0
    decreases |a|
  {
    if a != [] {
      CompareReflexive(Tail(a));
    }
  }

  /** Trailing zeros do not change the order: "1.0" and "1" are the same version. */
  lemma {:induction false} TrailingZerosIgnored(a: Release, k: nat, b: Release)
    ensures Compare(a + Zeros(k), b) == Compare(a, b)
    decreases |a| + |b| + k
  {
    if a == [] {
      assert a + Zeros(k) == Zeros(k);
      ZerosCompare(k, b);
    } else {
      assert Head(a + Zeros(k)) == Head(a);
      assert Tail(a + Zeros(k)) == Tail(a) + Zeros(k);
      if Head(a) == Head(b) {
        TrailingZerosIgnored(Tail(a), k, Tail(b));
      }
    }
  }

  lemma {:induction false} ZerosCompare(k: nat, b: Release)
    ensures Compare(Zeros(k), b) == Compare([], b)
    decreases k + |b|
  {
    if k > 0 {
      assert Head(Zeros(k)) == 0;
      assert Tail(Zeros(k)) == Zeros(k - 1);
      if Head(b) == 0 {
        ZerosCompare(k - 1, Tail(b));
        if b != [] {
          ZerosCompare(0, Tail(b));
          assert Zeros(0) == [];
        }
      }
    } else {
      assert Zeros(0) == [];
    }
  }

  lemma VersionLeTotal(x: string, y: string)
    requires IsVersion(x) && IsVersion(y)
    ensures VersionLe(x, y) || VersionLe(y, x)
  {
    CompareAntisymmetric(Parse(x).value, Parse(y).value);
  }

  lemma VersionLeTransitive(x: string, y: string, z: string)
    requires IsVersion(x) && IsVersion(y) && IsVersion(z)
    requires VersionLe(x, y) && VersionLe(y, z)
    ensures VersionLe(x, z)
  {
    CompareTransitive(Parse(x).value, Parse(y).value, Parse(z).value);
  }

  lemma VersionLeReflexive(x: string)
    requires IsVersion(x)
    ensures VersionLe(x, x)
  {
    CompareReflexive(Parse(x).value);
  }

  /** Strict order is transitive through a non-strict step. */
  lemma VersionLtLe(x: string, y: string, z: string)
    requires IsVersion(x) && IsVersion(y) && IsVersion(z)
    requires !VersionLe(y, x) && VersionLe(y, z)
    ensures !VersionLe(z, x)
  {
    if VersionLe(z, x) {
      VersionLeTransitive(y, z, x);
    }
  }

  /** A dotted string of digit groups parses to the groups' values. */
  lemma ParseDotted(groups: seq<string>)
    requires |groups| > 0
    requires forall i :: 0 <= i < |groups| ==> groups[i] != "" && AllDigits(groups[i])
    ensures Parse(Text.Join(groups, '.')) == ParseGroups(groups)
    ensures ParseGroups(groups).Some?
  {
    assert forall i :: 0 <= i < |groups| ==> '.' !in groups[i];
    Text.SplitJoin(groups, '.');
    JoinStartsWithDigit(groups);
  }

  /** The same behind a leading `v` or `V`, the form of every tag. */
  lemma ParseVDotted(c: char, groups: seq<string>)
    requires c == 'v' || c == 'V'
    requires |groups| > 0
    requires forall i :: 0 <= i < |groups| ==> groups[i] != "" && AllDigits(groups[i])
    ensures Parse([c] + Text.Join(groups, '.')) == ParseGroups(groups)
    ensures ParseGroups(groups).Some?
  {
    var j := Text.Join(groups, '.');
    assert WithoutV([c] + j) == j;
    assert forall i :: 0 <= i < |groups| ==> '.' !in groups[i];
    Text.SplitJoin(groups, '.');
  }

  lemma JoinStartsWithDigit(groups: seq<string>)
    requires |groups| > 0 && groups[0] != "" && AllDigits(groups[0])
    ensures WithoutV(Text.Join(groups, '.')) == Text.Join(groups, '.')
  {
    var j := Text.Join(groups, '.');
    if |groups| > 1 {
      assert j == groups[0] + (['.'] + Text.Join(groups[1..], '.'));
    }
    assert j[0] == groups[0][0];
    assert IsDigit(groups[0][0]);
  }

  /** A version string consists of digits, dots and at most a leading `v`,
      so it holds neither a space nor a comparison character. */
  lemma VersionAlphabet(s: string)
    requires IsVersion(s)
    ensures forall c :: c in s ==> c == 'v' || c == 'V' || c == '.' || IsDigit(c)
  {
    var body := WithoutV(s);
    var groups := Text.Split(body, '.');
    var alphabet := {'0', '1', '2', '3', '4', '5', '6', '7', '8', '9', '.'};
    assert forall i :: 0 <= i < |groups| ==> forall c :: c in groups[i] ==> c in alphabet;
    Text.JoinAlphabet(groups, '.', alphabet);
    Text.JoinSplit(body, '.');
    assert s == body || s == [s[0]] + body;
  }

  /** `v` followed by one digit is a one-component release. */
  lemma ParseVDigit(d: char)
    requires IsDigit(d)
    ensures Parse(['v', d]) == Some([(d - '0') as nat])
  {
    assert WithoutV(['v', d]) == [d];
    Text.NoSeparator([d], '.');
    assert [d][..0] == [];
    var r := ParseGroups([[d]]).value;
    assert r[0] == DigitsValue([d]) == (d - '0') as nat;
    assert r == [(d - '0') as nat];
  }

  /** The release segments of the detector's test data. */
  lemma ParseExample4111()
    ensures Parse("4.11.1") == Some([4, 11, 1])
  {
    var g := ["4", "11", "1"];
    assert "4.11.1" == Text.Join(g, '.');
    ParseDotted(g);
    assert DigitsValue("11") == 11;
    var r := ParseGroups(g).value;
    assert r[0] == 4 && r[1] == 11 && r[2] == 1;
    assert r == [4, 11, 1];
  }

  lemma ParseExample413()
    ensures Parse("4.1.3") == Some([4, 1, 3])
  {
    var g := ["4", "1", "3"];
    assert "4.1.3" == Text.Join(g, '.');
    ParseDotted(g);
    var r := ParseGroups(g).value;
    assert r[0] == 4 && r[1] == 1 && r[2] == 3;
    assert r == [4, 1, 3];
  }

  lemma ParseExample40()
    ensures Parse("v4.0") == Some([4, 0])
  {
    var g := ["4", "0"];
    assert "4.0" == Text.Join(g, '.');
    ParseDotted(g);
    var r := ParseGroups(g).value;
    assert r[0] == 4 && r[1] == 0;
    assert r == [4, 0];
    assert WithoutV("v4.0") == "4.0";
  }

  /** A string without dots whose first character is neither `v`, `V` nor a
      digit is not a version; nor is the empty string. */
  lemma NotAVersion(s: string)
    requires '.' !in s
    requires s == [] || (s[0] != 'v' && s[0] != 'V' && !IsDigit(s[0]))
    ensures Parse(s) == None
  {
    Text.NoSeparator(s, '.');
  }

  /** The empty output and git's placeholder line are not versions. */
  lemma ParseRejects()
    ensures Parse("") == None && Parse("$GIT_TAG") == None
  {
    NotAVersion("");
    NotAVersion("$GIT_TAG");
  }
}
