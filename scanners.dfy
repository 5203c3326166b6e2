/** Exact models of the two `re.search` calls of the asset classifier, each
    written as a left-to-right scan and proved equal to a direct definition of
    what the regular expression matches. */
module Scanners {
  import opened Outcomes
  import Text

  predicate IsHexDigit(c: char) { '0' <= c <= '9' || 'a' <= c <= 'f' }

  /** Length of the run of `[a-f0-9]` characters starting at `i`. */
  function HexRun(s: string, i: nat): (n: nat)
    requires i <= |s|
    ensures i + n <= |s|
    ensures forall k :: i <= k < i + n ==> IsHexDigit(s[k])
    ensures i + n == |s| || !IsHexDigit(s[i + n])
    decreases |s| - i
  {
    if i < |s| && IsHexDigit(s[i]) then 1 + HexRun(s, i + 1) else 0
  }

  /** `"g[a-f0-9]{5,20}"` matches at `p` with exactly `k` hex digits. */
  predicate HashPatternAt(s: string, p: nat, k: nat)
  {
    5 <= k <= 20 && p + k + 3 <= |s| && s[p] == '"' && s[p + 1] == 'g' &&
    (forall j :: p + 2 <= j < p + 2 + k ==> IsHexDigit(s[j])) && s[p + 2 + k] == '"'
  }

  /** The scanner's test at `p`: the whole hex run must fit the bounds and be
      closed by a quote, since a quote is not a hex digit. */
  predicate HashTokenAt(s: string, p: nat)
  {
    p + 2 <= |s| && s[p] == '"' && s[p + 1] == 'g' &&
    var n := HexRun(s, p + 2); 5 <= n <= 20 && p + 2 + n < |s| && s[p + 2 + n] == '"'
  }

  /** The scanner's test agrees with the pattern, and the width is the run. */
  lemma HashTokenIsPattern(s: string, p: nat)
    ensures HashTokenAt(s, p) ==> HashPatternAt(s, p, HexRun(s, p + 2))
    ensures forall k :: HashPatternAt(s, p, k) ==> HashTokenAt(s, p) && k == HexRun(s, p + 2)
  {
    forall k | HashPatternAt(s, p, k)
      ensures HashTokenAt(s, p) && k == HexRun(s, p + 2)
    {
      var n := HexRun(s, p + 2);
      assert s[p + 2 + k] == '"';
    }
  }

  /** The leftmost position at or after `from` where the hash pattern matches. */
  function FindHash(s: string, from: nat): (r: Option<nat>)
    requires from <= |s|
    ensures r.Some? ==> from <= r.value < |s| && HashTokenAt(s, r.value)
    ensures r.Some? ==> forall q :: from <= q < r.value ==> !HashTokenAt(s, q)
    ensures r.None? ==> forall q :: from <= q < |s| ==> !HashTokenAt(s, q)
    decreases |s| - from
  {
    if from == |s| then None
    else if HashTokenAt(s, from) then Some(from)
    else FindHash(s, from + 1)
  }

  /** `re.search(r'"g[a-f0-9]{5,20}"', text)`: the matched text, or None. */
  function SearchHash(s: string): (r: Option<string>)
    ensures r.Some? ==> Text.Contains(s, r.value)
    ensures r.Some? ==> 8 <= |r.value| <= 23 && r.value[..2] == "\"g" && r.value[|r.value| - 1] == '"'
    ensures r.Some? ==> forall i :: 2 <= i < |r.value| - 1 ==> IsHexDigit(r.value[i])
  {
    match FindHash(s, 0)
    case None => None
    case Some(p) =>
      var m := s[p..p + HexRun(s, p + 2) + 3];
      assert Text.OccursAt(s, m, p);
      Some(m)
  }

  /** `SearchHash` finds the leftmost match of the pattern, and finds one
      whenever the pattern occurs. */
  lemma SearchHashIsLeftmostMatch(s: string)
    ensures SearchHash(s).None? <==> forall p: nat, k: nat :: !HashPatternAt(s, p, k)
    ensures SearchHash(s).Some? ==>
      exists p: nat, k: nat :: HashPatternAt(s, p, k) && SearchHash(s).value == s[p..p + k + 3] &&
        forall q: nat, j: nat :: q < p ==> !HashPatternAt(s, q, j)
  {
    match FindHash(s, 0)
    case None =>
      forall p: nat, k: nat | HashPatternAt(s, p, k)
        ensures false
      {
        HashTokenIsPattern(s, p);
      }
    case Some(p) =>
      HashTokenIsPattern(s, p);
      forall q: nat, j: nat | q < p && HashPatternAt(s, q, j)
        ensures false
      {
        HashTokenIsPattern(s, q);
      }
  }

  /** `matches[0][2:-1]`: the digits between `"g` and the closing quote. */
  function StripHash(m: string): (h: string)
    requires |m| >= 3
    ensures |h| == |m| - 3
    ensures m == m[..2] + h + [m[|m| - 1]]
  {
    m[2..|m| - 1]
  }

  /** What reaches the resolver is 5 to 20 hex digits. */
  lemma FoundHashShape(s: string)
    requires SearchHash(s).Some?
    ensures |SearchHash(s).value| >= 3
    ensures var h := StripHash(SearchHash(s).value);
      5 <= |h| <= 20 && forall i :: 0 <= i < |h| ==> IsHexDigit(h[i])
  {
    var p := FindHash(s, 0).value;
    var n := HexRun(s, p + 2);
    var h := s[p..p + n + 3][2..n + 2];
    assert |h| == n;
    assert forall i :: 0 <= i < n ==> h[i] == s[p + 2 + i];
  }

  /** Length of the run of spaces starting at `i`. */
  function SpaceRun(s: string, i: nat): (n: nat)
    requires i <= |s|
    ensures i + n <= |s|
    ensures forall k :: i <= k < i + n ==> s[k] == ' '
    ensures i + n == |s| || s[i + n] != ' '
    decreases |s| - i
  {
    if i < |s| && s[i] == ' ' then 1 + SpaceRun(s, i + 1) else 0
  }

  predicate IsWordChar(c: char) { '0' <= c <= '9' || 'a' <= c <= 'z' || c == '.' }

  /** Length of the run of `[0-9a-z.]` characters starting at `i`. */
  function WordRun(s: string, i: nat): (n: nat)
    requires i <= |s|
    ensures i + n <= |s|
    ensures forall k :: i <= k < i + n ==> IsWordChar(s[k])
    ensures i + n == |s| || !IsWordChar(s[i + n])
    decreases |s| - i
  {
    if i < |s| && IsWordChar(s[i]) then 1 + WordRun(s, i + 1) else 0
  }

  const Marker: string := " @version v"

  /** `" * @version v"` matches at `p` with `n` spaces taken by ` *`. */
  predicate VersionPatternAt(s: string, p: nat, n: nat)
  {
    p + n + |Marker| <= |s| && (forall j :: p <= j < p + n ==> s[j] == ' ') &&
    s[p + n..p + n + |Marker|] == Marker
  }

  /** The scanner's test at `p`: a run of spaces whose last one starts the
      marker. */
  predicate VersionTagAt(s: string, p: nat)
  {
    p <= |s| && var r := SpaceRun(s, p); r >= 1 && VersionPatternAt(s, p, r - 1)
  }

  /** At a match the run of spaces is the one ` *` and the marker's space
      take, so `n` is fixed. */
  lemma VersionTagIsPattern(s: string, p: nat)
    ensures forall n :: VersionPatternAt(s, p, n) ==> VersionTagAt(s, p) && n == SpaceRun(s, p) - 1
  {
    forall n | VersionPatternAt(s, p, n)
      ensures VersionTagAt(s, p) && n == SpaceRun(s, p) - 1
    {
      var r := SpaceRun(s, p);
      assert s[p + n] == Marker[0] == ' ';
      assert s[p + n + 1] == Marker[1] == '@';
    }
  }

  /** The leftmost position at or after `from` where the version pattern
      matches. */
  function FindVersion(s: string, from: nat): (r: Option<nat>)
    requires from <= |s|
    ensures r.Some? ==> from <= r.value < |s| && VersionTagAt(s, r.value)
    ensures r.Some? ==> forall q :: from <= q < r.value ==> !VersionTagAt(s, q)
    ensures r.None? ==> forall q :: from <= q < |s| ==> !VersionTagAt(s, q)
    decreases |s| - from
  {
    if from == |s| then None
    else if VersionTagAt(s, from) then Some(from)
    else FindVersion(s, from + 1)
  }

  /** The text matched at `p` with `n` leading spaces: the greedy class
      repetition takes the whole run after the marker. */
  function VersionMatch(s: string, p: nat, n: nat): string
    requires VersionPatternAt(s, p, n)
  {
    s[p..p + n + |Marker| + WordRun(s, p + n + |Marker|)]
  }

  /** `re.search(r" * @version v[0-9a-z.]*", text)`: the matched text. */
  function SearchVersion(s: string): (r: Option<string>)
    ensures r.Some? <==> Text.Contains(s, Marker)
    ensures r.Some? ==> Text.Contains(s, r.value) && Text.Contains(r.value, Marker)
  {
    MarkerFound(s);
    match FindVersion(s, 0)
    case None => None
    case Some(p) =>
      MatchOccurs(s, p, SpaceRun(s, p) - 1);
      Some(VersionMatch(s, p, SpaceRun(s, p) - 1))
  }

  /** A match is a piece of the text and holds the marker. */
  lemma MatchOccurs(s: string, p: nat, n: nat)
    requires VersionPatternAt(s, p, n)
    ensures Text.Contains(s, VersionMatch(s, p, n)) && Text.Contains(VersionMatch(s, p, n), Marker)
  {
    var m := VersionMatch(s, p, n);
    var e := p + n + |Marker|;
    assert Text.OccursAt(s, m, p);
    SliceSplit(s, p, p + n, e, e + WordRun(s, e));
    assert m == s[p..p + n] + Marker + s[e..e + WordRun(s, e)];
    assert m[n..n + |Marker|] == Marker;
    assert Text.OccursAt(m, Marker, n);
  }

  /** The pattern occurs exactly where the marker does: ` *` may take no
      space at all. */
  lemma MarkerFound(s: string)
    ensures FindVersion(s, 0).Some? <==> Text.Contains(s, Marker)
  {
    if Text.Contains(s, Marker) {
      var i :| 0 <= i <= |s| - |Marker| && Text.OccursAt(s, Marker, i);
      assert VersionPatternAt(s, i, 0);
      VersionTagIsPattern(s, i);
    }
    if FindVersion(s, 0).Some? {
      var p := FindVersion(s, 0).value;
      var n := SpaceRun(s, p) - 1;
      assert Text.OccursAt(s, Marker, p + n);
    }
  }

  lemma SearchVersionIsLeftmostMatch(s: string)
    ensures SearchVersion(s).None? <==> forall p: nat, n: nat :: !VersionPatternAt(s, p, n)
    ensures SearchVersion(s).Some? ==>
      exists p: nat, n: nat :: VersionPatternAt(s, p, n) && SearchVersion(s).value == VersionMatch(s, p, n) &&
        forall q: nat, j: nat :: q < p ==> !VersionPatternAt(s, q, j)
  {
    match FindVersion(s, 0)
    case None =>
      forall p: nat, n: nat | VersionPatternAt(s, p, n)
        ensures false
      {
        VersionTagIsPattern(s, p);
      }
    case Some(p) =>
      forall q: nat, j: nat | q < p && VersionPatternAt(s, q, j)
        ensures false
      {
        VersionTagIsPattern(s, q);
      }
  }

  lemma SliceSplit(s: string, a: nat, b: nat, c: nat, d: nat)
    requires a <= b <= c <= d <= |s|
    ensures s[a..d] == s[a..b] + s[b..c] + s[c..d]
  {
  }

  /** The version word holds no space. */
  lemma WordHasNoSpace(s: string, i: nat)
    requires i <= |s|
    ensures ' ' !in s[i..i + WordRun(s, i)]
  {
    var w := s[i..i + WordRun(s, i)];
    assert forall k :: 0 <= k < |w| ==> IsWordChar(w[k]);
  }

  lemma MarkerParts()
    ensures Marker == [' '] + ("@version" + [' '] + "v")
  {
  }

  lemma MarkerJoin(a: string, w: string)
    ensures a + Marker + w == a + [' '] + ("@version" + [' '] + ("v" + w))
  {
    MarkerParts();
  }

  /** A match is its leading spaces, the marker and the version word. */
  lemma VersionMatchParts(s: string, p: nat, n: nat)
    requires VersionPatternAt(s, p, n)
    ensures var i := p + n + |Marker|; var w := s[i..i + WordRun(s, i)];
      VersionMatch(s, p, n) == s[p..p + n] + [' '] + ("@version" + [' '] + ("v" + w)) &&
      ' ' !in w
  {
    var i := p + n + |Marker|;
    var j := i + WordRun(s, i);
    SliceSplit(s, p, p + n, i, j);
    MarkerJoin(s[p..p + n], s[i..j]);
    WordHasNoSpace(s, i);
  }

  /** How such a text splits on spaces. */
  lemma SplitMatch(a: string, w: string)
    requires ' ' !in w
    ensures Text.Split(a + [' '] + ("@version" + [' '] + ("v" + w)), ' ') ==
      Text.Split(a, ' ') + ["@version", "v" + w]
  {
    Text.NoSeparator("v" + w, ' ');
    Text.NoSeparator("@version", ' ');
    Text.SplitAround("@version", "v" + w, ' ');
    Text.SplitAround(a, "@version" + [' '] + ("v" + w), ' ');
  }

  /** Splitting a match on spaces gives at least three pieces, so `[2]`
      never raises. */
  lemma MatchHasThirdPiece(s: string, p: nat, n: nat)
    requires VersionPatternAt(s, p, n)
    ensures |Text.Split(VersionMatch(s, p, n), ' ')| >= 3
  {
    VersionMatchParts(s, p, n);
    var i := p + n + |Marker|;
    SplitMatch(s[p..p + n], s[i..i + WordRun(s, i)]);
  }

  /** With a single leading space, piece 2 is the version word. */
  lemma OneSpaceGivesVersion(s: string, p: nat)
    requires VersionPatternAt(s, p, 0)
    ensures var i := p + |Marker|; var pieces := Text.Split(VersionMatch(s, p, 0), ' ');
      |pieces| >= 3 && pieces[2] == "v" + s[i..i + WordRun(s, i)]
  {
    VersionMatchParts(s, p, 0);
    var i := p + |Marker|;
    assert s[p..p] == "";
    SplitMatch("", s[i..i + WordRun(s, i)]);
  }

  /** With two leading spaces, piece 2 is the marker word itself. */
  lemma TwoSpacesGiveMarker(s: string, p: nat)
    requires VersionPatternAt(s, p, 1)
    ensures var pieces := Text.Split(VersionMatch(s, p, 1), ' ');
      |pieces| >= 3 && pieces[2] == "@version"
  {
    VersionMatchParts(s, p, 1);
    var i := p + 1 + |Marker|;
    assert s[p..p + 1] == " " == "" + [' '] + "";
    Text.SplitAround("", "", ' ');
    SplitMatch(" ", s[i..i + WordRun(s, i)]);
  }

  /** A run of hex digits ended by a non-hex character or the end of `s`
      is the run `HexRun` measures. */
  lemma {:induction false} HexRunExact(s: string, i: nat, n: nat)
    requires i + n <= |s|
    requires forall k :: i <= k < i + n ==> IsHexDigit(s[k])
    requires i + n == |s| || !IsHexDigit(s[i + n])
    ensures HexRun(s, i) == n
    decreases n
  {
    if n > 0 {
      HexRunExact(s, i + 1, n - 1);
    }
  }

  /** The same for runs of `[0-9a-z.]`. */
  lemma {:induction false} WordRunExact(s: string, i: nat, n: nat)
    requires i + n <= |s|
    requires forall k :: i <= k < i + n ==> IsWordChar(s[k])
    requires i + n == |s| || !IsWordChar(s[i + n])
    ensures WordRun(s, i) == n
    decreases n
  {
    if n > 0 {
      WordRunExact(s, i + 1, n - 1);
    }
  }

  /** A text that is one hash token is matched whole, and stripping it gives
      back the digits. */
  lemma HashTokenAlone(h: string)
    requires 5 <= |h| <= 20 && forall k :: 0 <= k < |h| ==> IsHexDigit(h[k])
    ensures var t := "\"g" + h + "\""; SearchHash(t) == Some(t) && StripHash(t) == h
  {
    var t := "\"g" + h + "\"";
    assert forall k :: 2 <= k < 2 + |h| ==> t[k] == h[k - 2];
    HexRunExact(t, 2, |h|);
    assert HashTokenAt(t, 0);
    assert t[0..|h| + 3] == t;
  }

  /** A text that starts with the marker has a match at 0 taking no
      extra spaces. */
  lemma MarkerStartsTag(t: string)
    requires |Marker| <= |t| && t[..|Marker|] == Marker
    ensures SpaceRun(t, 0) == 1 && VersionTagAt(t, 0)
  {
    assert t[0] == Marker[0] && t[1] == Marker[1];
    assert t[0..|Marker|] == Marker;
  }

  /** A text with a match at its start is matched there. */
  lemma SearchAtStart(t: string)
    requires VersionTagAt(t, 0)
    ensures SearchVersion(t) == Some(VersionMatch(t, 0, SpaceRun(t, 0) - 1))
  {
  }

  /** A version word placed after any prefix is the whole run there. */
  lemma WordAfter(pre: string, w: string)
    requires forall k :: 0 <= k < |w| ==> IsWordChar(w[k])
    ensures WordRun(pre + w, |pre|) == |w| && (pre + w)[|pre|..|pre| + |w|] == w
  {
    var t := pre + w;
    assert forall k :: |pre| <= k < |t| ==> t[k] == w[k - |pre|];
    WordRunExact(t, |pre|, |w|);
  }

  /** A text that is the marker and a version word is matched whole with
      one space, and piece 2 is `v` and the word. */
  lemma VersionCommentAlone(w: string)
    requires forall k :: 0 <= k < |w| ==> IsWordChar(w[k])
    ensures SearchVersion(Marker + w).Some?
    ensures var pieces := Text.Split(SearchVersion(Marker + w).value, ' ');
      |pieces| >= 3 && pieces[2] == "v" + w
  {
    var t := Marker + w;
    assert t[..|Marker|] == Marker;
    MarkerStartsTag(t);
    SearchAtStart(t);
    WordAfter(Marker, w);
    OneSpaceGivesVersion(t, 0);
  }

  /** Neither pattern occurs in the text `error`. */
  lemma ErrorTextHasNoMatch()
    ensures SearchHash("error").None? && SearchVersion("error").None?
  {
  }
}
