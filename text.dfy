/**
 * The few string operations of Python's `str` that the outline parser relies
 * on: `find`, `split(sep)[0]`, `split(sep)`, `sep.join`, clamped slicing,
 * `replace` of one character and ASCII/Cyrillic `lower`.
 */
module Text {

  /** pat occurs in s at position i. */
  ghost predicate OccursAt(s: string, pat: string, i: int) {
    0 <= i && i + |pat| <= |s| && s[i..i + |pat|] == pat
  }

  /** str.find: the lowest position of pat in s, or -1 when it does not occur. */
  function Find(s: string, pat: string): (r: int)
    ensures -1 <= r <= |s|
    ensures r == -1 <==> forall i :: 0 <= i <= |s| ==> !OccursAt(s, pat, i)
    ensures r != -1 ==> OccursAt(s, pat, r) && forall i :: 0 <= i < r ==> !OccursAt(s, pat, i)
    decreases |s|
  {
    assert |pat| <= |s| ==> s[0..|pat|] == s[..|pat|];
    if |pat| <= |s| && s[..|pat|] == pat then
      assert OccursAt(s, pat, 0);
      0
    else if |s| == 0 then -1
    else
      assert !OccursAt(s, pat, 0);
      var k := Find(s[1..], pat);
      ShiftOccurs(s, pat);
      if k == -1 then -1
      else
        assert OccursAt(s, pat, k + 1);
        k + 1
  }

  /** Occurrences in s[1..] are the occurrences in s shifted by one. */
  lemma ShiftOccurs(s: string, pat: string)
    requires |s| > 0
    ensures forall i :: 1 <= i ==> (OccursAt(s, pat, i) <==> OccursAt(s[1..], pat, i - 1))
  {
    forall i | 1 <= i
      ensures OccursAt(s, pat, i) <==> OccursAt(s[1..], pat, i - 1)
    {
      if i + |pat| <= |s| {
        assert s[1..][i - 1..i - 1 + |pat|] == s[i..i + |pat|];
      }
    }
  }

  /** pat is a substring of s (Python's `pat in s`). */
  function Contains(s: string, pat: string): (r: bool)
    ensures r <==> exists i :: 0 <= i <= |s| && OccursAt(s, pat, i)
  {
    Find(s, pat) != -1
  }

  /** s.split(pat)[0]: the text before the first occurrence of pat, or all of s. */
  function BeforeFirst(s: string, pat: string): (r: string)
    ensures Contains(s, pat) ==> OccursAt(s, pat, |r|) && forall i :: 0 <= i < |r| ==> !OccursAt(s, pat, i)
    ensures !Contains(s, pat) ==> r == s
    ensures r == s[..|r|]
  {
    var k := Find(s, pat);
    if k == -1 then s else s[..k]
  }

  /** s[n:] with Python's clamping: empty when n runs past the end. */
  function Drop(s: string, n: nat): (r: string)
    ensures n <= |s| ==> r == s[n..]
    ensures n > |s| ==> r == []
  {
    if n <= |s| then s[n..] else []
  }

  /** The number of occurrences of c in s. */
  function Count(s: string, c: char): nat {
    if s == [] then 0 else (if s[0] == c then 1 else 0) + Count(s[1..], c)
  }

  /** sep.join(parts) */
  function Join(parts: seq<string>, sep: char): string {
    if |parts| == 0 then []
    else if |parts| == 1 then parts[0]
    else parts[0] + [sep] + Join(parts[1..], sep)
  }

  /**
   * s.split(sep) for a one-character separator: the maximal runs between
   * separators, empty runs included.
   */
  function SplitOn(s: string, sep: char): (r: seq<string>)
    ensures |r| == Count(s, sep) + 1
    ensures forall i :: 0 <= i < |r| ==> sep !in r[i]
    ensures Join(r, sep) == s
  {
    if s == [] then [[]]
    else
      var rest := SplitOn(s[1..], sep);
      if s[0] == sep then
        assert [[]] + rest == [[]] + rest[..];
        [[]] + rest
      else
        var r := [[s[0]] + rest[0]] + rest[1..];
        assert r[1..] == rest[1..];
        r
  }

  /** Splitting inverts joining: parts free of the separator come back unchanged. */
  lemma {:induction false} SplitJoin(parts: seq<string>, sep: char)
    requires |parts| > 0
    requires forall i :: 0 <= i < |parts| ==> sep !in parts[i]
    ensures SplitOn(Join(parts, sep), sep) == parts
    decreases |parts|
  {
    SplitFree(parts[0], sep);
    if |parts| > 1 {
      SplitJoin(parts[1..], sep);
      SplitAppend(parts[0], Join(parts[1..], sep), sep);
    }
  }

  /** A string without the separator splits into itself. */
  lemma {:induction false} SplitFree(s: string, sep: char)
    requires sep !in s
    ensures SplitOn(s, sep) == [s]
    decreases |s|
  {
    if s != [] {
      SplitFree(s[1..], sep);
    }
  }

  /** Splitting a + sep + b, where a holds no separator, puts a in front of b's pieces. */
  lemma {:induction false} SplitAppend(a: string, b: string, sep: char)
    requires sep !in a
    ensures SplitOn(a + [sep] + b, sep) == [a] + SplitOn(b, sep)
    decreases |a|
  {
    if a == [] {
      assert a + [sep] + b == [sep] + b;
      assert ([sep] + b)[1..] == b;
    } else {
      assert (a + [sep] + b)[1..] == a[1..] + [sep] + b;
      SplitAppend(a[1..], b, sep);
      assert [a[0]] + a[1..] == a;
    }
  }

  /**
   * The first n pieces of a split, joined again, are the text up to its n-th
   * separator: a prefix of s followed in s by a separator, holding n - 1 of them.
   */
  lemma {:induction false} JoinSplitPrefix(s: string, sep: char, n: nat)
    requires 1 <= n <= Count(s, sep)
    ensures n <= |SplitOn(s, sep)|
    ensures var p := Join(SplitOn(s, sep)[..n], sep);
      |p| < |s| && p == s[..|p|] && s[|p|] == sep && Count(p, sep) == n - 1
    decreases |s|
  {
    var rest := SplitOn(s[1..], sep);
    if s[0] == sep {
      if n == 1 {
        assert SplitOn(s, sep)[..1] == [[]];
      } else {
        JoinSplitPrefix(s[1..], sep, n - 1);
        JoinPiecesAfterSep(s, sep, n);
        ConsPrefix(s, sep, Join(rest[..n - 1], sep));
      }
    } else {
      JoinSplitPrefix(s[1..], sep, n);
      JoinPiecesAfterChar(s, sep, n);
      ConsPrefix(s, sep, Join(rest[..n], sep));
    }
  }

  /** When s opens with the separator, its first n pieces join to the separator and n - 1 pieces of the rest. */
  lemma JoinPiecesAfterSep(s: string, sep: char, n: nat)
    requires s != [] && s[0] == sep && 2 <= n <= Count(s, sep)
    ensures n - 1 <= |SplitOn(s[1..], sep)|
    ensures Join(SplitOn(s, sep)[..n], sep) == [sep] + Join(SplitOn(s[1..], sep)[..n - 1], sep)
  {
    var rest := SplitOn(s[1..], sep);
    var pieces := SplitOn(s, sep);
    assert pieces == [[]] + rest;
    assert pieces[..n][1..] == rest[..n - 1];
  }

  /** When s opens with another character, its first n pieces join to that character and n pieces of the rest. */
  lemma JoinPiecesAfterChar(s: string, sep: char, n: nat)
    requires s != [] && s[0] != sep && 1 <= n <= Count(s, sep)
    ensures n <= |SplitOn(s[1..], sep)|
    ensures Join(SplitOn(s, sep)[..n], sep) == [s[0]] + Join(SplitOn(s[1..], sep)[..n], sep)
  {
    var rest := SplitOn(s[1..], sep);
    var pieces := SplitOn(s, sep);
    assert pieces == [[s[0]] + rest[0]] + rest[1..];
    if n == 1 {
      assert pieces[..1] == [[s[0]] + rest[0]];
      assert rest[..1] == [rest[0]];
    } else {
      assert pieces[..n][1..] == rest[1..n];
      assert rest[..n][1..] == rest[1..n];
    }
  }

  /** One character in front of a prefix of s[1..] that a separator follows. */
  lemma ConsPrefix(s: string, sep: char, q: string)
    requires |s| > 0 && |q| < |s| - 1 && q == s[1..][..|q|] && s[1..][|q|] == sep
    ensures var p := [s[0]] + q;
      |p| < |s| && p == s[..|p|] && s[|p|] == sep && Count(p, sep) == (if s[0] == sep then 1 else 0) + Count(q, sep)
  {
    assert ([s[0]] + q)[1..] == q;
  }

  /** The string with every occurrence of c replaced by rep (str.replace of one character). */
  function ReplaceChar(s: string, c: char, rep: string): (r: string)
    ensures c !in rep ==> c !in r
    ensures |r| == |s| + Count(s, c) * (|rep| - 1)
    ensures |rep| > 0 ==> |r| >= |s|
  {
    if s == [] then []
    else (if s[0] == c then rep else [s[0]]) + ReplaceChar(s[1..], c, rep)
  }

  /** Replacing brings in no character that neither the text nor the replacement holds. */
  lemma {:induction false} ReplaceCharFree(s: string, c: char, rep: string, x: char)
    requires x !in s && x !in rep
    ensures x !in ReplaceChar(s, c, rep)
    decreases |s|
  {
    if s != [] {
      ReplaceCharFree(s[1..], c, rep, x);
    }
  }

  /** str.lower on one character, for the ASCII and Russian Cyrillic alphabets. */
  function LowerChar(c: char): (r: char)
    ensures r == c || ('A' <= c <= 'Z') || ('А' <= c <= 'Я') || c == 'Ё'
    ensures r != ' ' <== c != ' '
    ensures !('A' <= r <= 'Z') && !('А' <= r <= 'Я') && r != 'Ё'
  {
    if 'A' <= c <= 'Z' then (c as int + 32) as char
    else if 'А' <= c <= 'Я' then (c as int + 32) as char
    else if c == 'Ё' then 'ё'
    else c
  }

  /** str.lower, character by character. */
  function Lower(s: string): (r: string)
    ensures |r| == |s|
    ensures forall i :: 0 <= i < |s| ==> r[i] == LowerChar(s[i])
  {
    if s == [] then [] else [LowerChar(s[0])] + Lower(s[1..])
  }

  /** Text with no upper-case ASCII or Russian letter is its own lower case. */
  lemma LowerKeepsLower(s: string)
    requires forall i :: 0 <= i < |s| ==> !('A' <= s[i] <= 'Z') && !('А' <= s[i] <= 'Я') && s[i] != 'Ё'
    ensures Lower(s) == s
  {
  }
}
