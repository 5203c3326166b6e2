/** The few `str` operations the detector relies on: `split` on one
    character, `translate` with a deletion table, and the `in` substring test. */
module Text {

  /** `sep.join(parts)`, the inverse of Split. */
  function Join(parts: seq<string>, sep: char): string
    requires |parts| > 0
  {
    if |parts| == 1 then parts[0] else parts[0] + [sep] + Join(parts[1..], sep)
  }

  /** Python's `s.split(sep)` for a one-character separator: the pieces between
      separators, never an empty list (`"".split(" ") == [""]`). */
  function Split(s: string, sep: char): (parts: seq<string>)
    ensures |parts| > 0
  {
    if s == [] then [""]
    else
      var rest := Split(s[1..], sep);
      if s[0] == sep then [""] + rest else [[s[0]] + rest[0]] + rest[1..]
  }

  lemma {:induction false} SplitPiecesLackSeparator(s: string, sep: char)
    ensures forall i :: 0 <= i < |Split(s, sep)| ==> sep !in Split(s, sep)[i]
  {
    if s != [] {
      SplitPiecesLackSeparator(s[1..], sep);
    }
  }

  lemma {:induction false} JoinSplit(s: string, sep: char)
    ensures Join(Split(s, sep), sep) == s
  {
    if s != [] {
      JoinSplit(s[1..], sep);
      var rest := Split(s[1..], sep);
      if s[0] == sep {
        assert Split(s, sep)[1..] == rest;
      } else {
        var parts := Split(s, sep);
        if |rest| == 1 {
          assert parts == [[s[0]] + rest[0]];
        } else {
          assert parts[1..] == rest[1..];
          assert Join(rest, sep) == rest[0] + [sep] + Join(rest[1..], sep);
        }
      }
    }
  }

  lemma {:induction false} SplitJoin(parts: seq<string>, sep: char)
    requires |parts| > 0
    requires forall i :: 0 <= i < |parts| ==> sep !in parts[i]
    ensures Split(Join(parts, sep), sep) == parts
  {
    if |parts| == 1 {
      NoSeparator(parts[0], sep);
    } else {
      SplitJoin(parts[1..], sep);
      SplitAround(parts[0], Join(parts[1..], sep), sep);
      NoSeparator(parts[0], sep);
      assert parts == [parts[0]] + parts[1..];
    }
  }

  /** A string without the separator is a single piece. */
  lemma {:induction false} NoSeparator(s: string, sep: char)
    requires sep !in s
    ensures Split(s, sep) == [s]
  {
    if s != [] {
      NoSeparator(s[1..], sep);
      assert [s[0]] + s[1..] == s;
    }
  }

  /** Splitting at one separator splits each side independently. */
  lemma {:induction false} SplitAround(a: string, b: string, sep: char)
    ensures Split(a + [sep] + b, sep) == Split(a, sep) + Split(b, sep)
  {
    if a == [] {
      SplitCons(sep, b, sep);
      assert a + [sep] + b == [sep] + b;
    } else {
      var t := a[1..] + [sep] + b;
      assert a + [sep] + b == [a[0]] + t;
      assert a == [a[0]] + a[1..];
      SplitAround(a[1..], b, sep);
      ConsAppend(a[0], Split(a[1..], sep), Split(b, sep), sep);
      SplitCons(a[0], t, sep);
      SplitCons(a[0], a[1..], sep);
    }
  }

  /** Prepending to the first piece commutes with appending more pieces. */
  lemma ConsAppend(c: char, ra: seq<string>, rb: seq<string>, sep: char)
    requires |ra| > 0
    ensures c == sep ==> [""] + (ra + rb) == ([""] + ra) + rb
    ensures c != sep ==> [[c] + (ra + rb)[0]] + (ra + rb)[1..] == ([[c] + ra[0]] + ra[1..]) + rb
  {
    assert (ra + rb)[0] == ra[0];
    assert (ra + rb)[1..] == ra[1..] + rb;
  }

  /** One step of Split, read off the first character. */
  lemma SplitCons(c: char, t: string, sep: char)
    ensures Split([c] + t, sep) ==
      if c == sep then [""] + Split(t, sep) else [[c] + Split(t, sep)[0]] + Split(t, sep)[1..]
  {
    assert ([c] + t)[0] == c;
    assert ([c] + t)[1..] == t;
  }

  /** The string with every character of `drop` removed, order kept
      (`s.translate(str.maketrans("", "", drop))`). */
  function DeleteChars(s: string, drop: set<char>): (r: string)
    ensures forall c :: c in r ==> c in s && c !in drop
    ensures |r| <= |s|
  {
    if s == [] then []
    else if s[0] in drop then DeleteChars(s[1..], drop)
    else [s[0]] + DeleteChars(s[1..], drop)
  }

  lemma {:induction false} DeleteCharsKeepsOthers(s: string, drop: set<char>)
    requires forall c :: c in s ==> c !in drop
    ensures DeleteChars(s, drop) == s
  {
    if s != [] {
      DeleteCharsKeepsOthers(s[1..], drop);
      assert [s[0]] + s[1..] == s;
    }
  }

  lemma {:induction false} DeleteCharsAppend(a: string, b: string, drop: set<char>)
    ensures DeleteChars(a + b, drop) == DeleteChars(a, drop) + DeleteChars(b, drop)
  {
    if a == [] {
      assert a + b == b;
    } else {
      var ab := a + b;
      assert ab[0] == a[0];
      assert ab[1..] == a[1..] + b;
      DeleteCharsAppend(a[1..], b, drop);
    }
  }

  predicate OccursAt(s: string, pattern: string, i: int)
  {
    0 <= i && i + |pattern| <= |s| && s[i..i + |pattern|] == pattern
  }

  /** Python's `pattern in s`. */
  predicate Contains(s: string, pattern: string)
  {
    exists i | 0 <= i <= |s| - |pattern| :: OccursAt(s, pattern, i)
  }

  predicate StartsWith(s: string, prefix: string)
  {
    |prefix| <= |s| && s[..|prefix|] == prefix
  }

  /** A leading piece without the separator sticks to the first piece. */
  lemma {:induction false} SplitPrefix(prefix: string, s: string, sep: char)
    requires sep !in prefix
    ensures Split(prefix + s, sep) == [prefix + Split(s, sep)[0]] + Split(s, sep)[1..]
  {
    if prefix != [] {
      SplitPrefix(prefix[1..], s, sep);
      assert (prefix + s)[0] == prefix[0];
      assert (prefix + s)[1..] == prefix[1..] + s;
      assert [prefix[0]] + (prefix[1..] + Split(s, sep)[0]) == prefix + Split(s, sep)[0];
    } else {
      assert prefix + s == s;
      assert prefix + Split(s, sep)[0] == Split(s, sep)[0];
      assert Split(s, sep) == [Split(s, sep)[0]] + Split(s, sep)[1..];
    }
  }

  /** Every character of a join is a character of some piece or the separator. */
  lemma {:induction false} JoinAlphabet(parts: seq<string>, sep: char, alphabet: set<char>)
    requires |parts| > 0 && sep in alphabet
    requires forall i :: 0 <= i < |parts| ==> forall c :: c in parts[i] ==> c in alphabet
    ensures forall c :: c in Join(parts, sep) ==> c in alphabet
  {
    if |parts| > 1 {
      JoinAlphabet(parts[1..], sep, alphabet);
    }
  }

  lemma {:induction false} DeleteCharsDropsAll(s: string, drop: set<char>)
    requires forall c :: c in s ==> c in drop
    ensures DeleteChars(s, drop) == []
  {
    if s != [] {
      DeleteCharsDropsAll(s[1..], drop);
    }
  }
}
