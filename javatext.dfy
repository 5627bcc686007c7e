/**
 * Java strings as the client sees them: sequences of UTF-16 code units,
 * with the String methods the client calls (`equalsIgnoreCase`, `trim`,
 * `indexOf`, `split(" ")`).
 */
module JavaText {

  /** One UTF-16 code unit, the element of a Java `String` (a `char`). */
  type CodeUnit = c: int | 0 <= c < 0x1_0000

  /** A Java `String`. */
  type JString = seq<CodeUnit>

  const Space: CodeUnit := 0x20

  /** The code units of a Dafny string literal; every literal used here is ASCII. */
  function Lit(s: string): JString {
    seq(|s|, i requires 0 <= i < |s| => (s[i] as int) % 0x1_0000)
  }

  /**
   * The case folding behind `String.equalsIgnoreCase`: two code units are equal
   * ignoring case when they are equal, when their upper cases are equal, or when
   * the lower cases of their upper cases are equal. Against a lower-case ASCII
   * letter that holds for the letter itself, its upper case, and four non-ASCII
   * units of Java's case tables: U+0130 and U+0131 (for `i`), U+017F (for `s`)
   * and U+212A (for `k`). Fold maps each of those to the ASCII letter, so it is
   * exact whenever one side is a lower-case ASCII keyword.
   */
  function Fold(c: CodeUnit): CodeUnit {
    if 'A' as int <= c <= 'Z' as int then c + 0x20
    else if c == 0x130 || c == 0x131 then 'i' as int
    else if c == 0x17F then 's' as int
    else if c == 0x212A then 'k' as int
    else c
  }

  /** `s.equalsIgnoreCase(kw)` for a keyword `kw` of lower-case ASCII letters and digits. */
  predicate MatchesKeyword(s: JString, kw: JString) {
    |s| == |kw| && forall i :: 0 <= i < |s| ==> Fold(s[i]) == kw[i]
  }

  /** A keyword: lower-case ASCII letters and digits only. */
  predicate IsKeyword(kw: JString) {
    forall i :: 0 <= i < |kw| ==> ('a' as int <= kw[i] <= 'z' as int || '0' as int <= kw[i] <= '9' as int)
  }

  /** Matching a keyword ignoring case is, code unit by code unit, one of the listed spellings. */
  lemma MatchesKeywordSpellings(s: JString, kw: JString)
    requires IsKeyword(kw)
    ensures MatchesKeyword(s, kw) <==>
      |s| == |kw| &&
      forall i :: 0 <= i < |s| ==>
        s[i] == kw[i] ||
        ('a' as int <= kw[i] <= 'z' as int && s[i] == kw[i] - 0x20) ||
        (kw[i] == 'i' as int && (s[i] == 0x130 || s[i] == 0x131)) ||
        (kw[i] == 's' as int && s[i] == 0x17F) ||
        (kw[i] == 'k' as int && s[i] == 0x212A)
  {
  }

  /** At most one keyword matches a given text. */
  lemma KeywordMatchUnique(s: JString, k1: JString, k2: JString)
    requires MatchesKeyword(s, k1) && MatchesKeyword(s, k2)
    ensures k1 == k2
  {
  }

  /** `s.indexOf(c)`: the first position of `c` in `s`, or -1. */
  function IndexOf(s: JString, c: CodeUnit): (r: int)
    ensures -1 <= r < |s|
    ensures r == -1 <==> c !in s
    ensures r >= 0 ==> s[r] == c && c !in s[..r]
  {
    if s == [] then -1
    else if s[0] == c then 0
    else
      var k := IndexOf(s[1..], c);
      assert s[1..][..if k < 0 then 0 else k] == s[1..if k < 0 then 1 else k + 1];
      if k < 0 then -1 else k + 1
  }

  /** Number of leading code units that `trim` removes (those at or below U+0020). */
  function LeadingBlanks(s: JString): (n: nat)
    ensures n <= |s|
    ensures forall k :: 0 <= k < n ==> s[k] <= Space
    ensures n < |s| ==> s[n] > Space
  {
    if s != [] && s[0] <= Space then 1 + LeadingBlanks(s[1..]) else 0
  }

  /** Number of trailing code units that `trim` removes. */
  function TrailingBlanks(s: JString): (n: nat)
    ensures n <= |s|
    ensures forall k :: |s| - n <= k < |s| ==> s[k] <= Space
    ensures n < |s| ==> s[|s| - n - 1] > Space
  {
    if s != [] && s[|s| - 1] <= Space then 1 + TrailingBlanks(s[..|s| - 1]) else 0
  }

  /** `s.trim()`: leading, then trailing, code units at or below U+0020 removed. */
  function Trim(s: JString): (r: JString)
    ensures |r| <= |s|
    ensures r == s[LeadingBlanks(s)..|s| - TrailingBlanks(s[LeadingBlanks(s)..])]
    ensures r != [] ==> r[0] > Space && r[|r| - 1] > Space
  {
    var rest := s[LeadingBlanks(s)..];
    rest[..|rest| - TrailingBlanks(rest)]
  }

  /** Splits `s` at every space and keeps every field: n spaces give n + 1 fields. */
  function SplitAll(s: JString): (r: seq<JString>)
    ensures |r| >= 1
    ensures forall k :: 0 <= k < |r| ==> Space !in r[k]
    decreases |s|
  {
    var i := IndexOf(s, Space);
    if i < 0 then [s]
    else
      var head, rest := s[..i], SplitAll(s[i + 1..]);
      assert Space !in head;
      [head] + rest
  }

  /** Removes the empty fields at the end of a list of fields. */
  function DropTrailingEmpty(r: seq<JString>): (d: seq<JString>)
    ensures |d| <= |r| && d == r[..|d|]
    ensures d != [] ==> d[|d| - 1] != []
    ensures forall k :: |d| <= k < |r| ==> r[k] == []
  {
    if r != [] && r[|r| - 1] == [] then DropTrailingEmpty(r[..|r| - 1]) else r
  }

  /**
   * `s.split(" ")`: when `s` holds no space the result is `s` alone (so the
   * empty string gives one empty field); otherwise every field between spaces,
   * with the empty fields at the end dropped.
   */
  function JavaSplit(s: JString): (r: seq<JString>)
    ensures forall k :: 0 <= k < |r| ==> Space !in r[k]
    ensures (r == [[]]) <==> (s == [])
    ensures r != [] && s != [] ==> r[|r| - 1] != []
  {
    if Space !in s then [s] else DropTrailingEmpty(SplitAll(s))
  }

  /** Fields joined with single spaces: the inverse of splitting. */
  function Join(r: seq<JString>): JString {
    if r == [] then [] else if |r| == 1 then r[0] else r[0] + [Space] + Join(r[1..])
  }

  /** `s` with its trailing spaces removed. */
  function StripTrailingSpaces(s: JString): (t: JString)
    ensures |t| <= |s| && t == s[..|t|]
    ensures t != [] ==> t[|t| - 1] != Space
    ensures forall k :: |t| <= k < |s| ==> s[k] == Space
  {
    if s != [] && s[|s| - 1] == Space then StripTrailingSpaces(s[..|s| - 1]) else s
  }

  lemma {:induction false} JoinSnoc(r: seq<JString>, x: JString)
    requires r != []
    ensures Join(r + [x]) == Join(r) + [Space] + x
    decreases |r|
  {
    if |r| == 1 {
      assert r + [x] == [r[0], x];
    } else {
      assert (r + [x])[1..] == r[1..] + [x];
      JoinSnoc(r[1..], x);
    }
  }

  /** Join of a field in front of a non-empty list: the field, a space, then the rest joined. */
  lemma JoinCons(h: JString, rest: seq<JString>)
    requires rest != []
    ensures Join([h] + rest) == h + [Space] + Join(rest)
  {
    assert ([h] + rest)[1..] == rest;
  }

  /** SplitAll at a text holding a space: the field before the first space, then the fields after it. */
  lemma SplitAllAtSpace(s: JString)
    requires IndexOf(s, Space) >= 0
    ensures var i := IndexOf(s, Space);
      SplitAll(s) == [s[..i]] + SplitAll(s[i + 1..]) && s == s[..i] + [Space] + s[i + 1..]
  {
  }

  /** Joining the fields of SplitAll gives the text back. */
  lemma {:induction false} JoinSplitAll(s: JString)
    ensures Join(SplitAll(s)) == s
    decreases |s|
  {
    var i := IndexOf(s, Space);
    if i >= 0 {
      SplitAllAtSpace(s);
      JoinCons(s[..i], SplitAll(s[i + 1..]));
      JoinSplitAll(s[i + 1..]);
    }
  }

  /** Splitting fields joined by spaces gives the fields back, when none holds a space. */
  lemma {:induction false} SplitAllJoin(r: seq<JString>)
    requires r != []
    requires forall k :: 0 <= k < |r| ==> Space !in r[k]
    ensures SplitAll(Join(r)) == r
    decreases |r|
  {
    if |r| > 1 {
      var s := Join(r);
      assert s == r[0] + [Space] + Join(r[1..]);
      assert s[|r[0]|] == Space;
      assert s[..|r[0]|] == r[0];
      assert IndexOf(s, Space) == |r[0]|;
      assert s[|r[0]| + 1..] == Join(r[1..]);
      SplitAllJoin(r[1..]);
    }
  }

  lemma {:induction false} JoinDropTrailingEmpty(r: seq<JString>)
    requires r != []
    requires forall k :: 0 <= k < |r| ==> Space !in r[k]
    ensures Join(DropTrailingEmpty(r)) == StripTrailingSpaces(Join(r))
    decreases |r|
  {
    var n := |r|;
    if r[n - 1] != [] {
      if n > 1 {
        JoinSnoc(r[..n - 1], r[n - 1]);
        assert r[..n - 1] + [r[n - 1]] == r;
      }
      var j := Join(r);
      assert j[|j| - 1] == r[n - 1][|r[n - 1]| - 1];
      assert r[n - 1][|r[n - 1]| - 1] != Space;
    } else if n > 1 {
      JoinSnoc(r[..n - 1], r[n - 1]);
      assert r[..n - 1] + [r[n - 1]] == r;
      assert Join(r) == Join(r[..n - 1]) + [Space];
      assert Join(r)[..|Join(r)| - 1] == Join(r[..n - 1]);
      JoinDropTrailingEmpty(r[..n - 1]);
    }
  }

  /** Joining the result of `split(" ")` gives the text without its trailing spaces. */
  lemma JoinJavaSplit(s: JString)
    ensures Join(JavaSplit(s)) == StripTrailingSpaces(s)
  {
    if Space in s {
      JoinSplitAll(s);
      JoinDropTrailingEmpty(SplitAll(s));
    } else if s != [] {
      assert s[|s| - 1] in s;
    }
  }

  /** `split(" ")` gives back any non-empty list of non-empty, space-free fields joined by spaces. */
  lemma JavaSplitJoin(r: seq<JString>)
    requires r != []
    requires forall k :: 0 <= k < |r| ==> Space !in r[k] && r[k] != []
    ensures JavaSplit(Join(r)) == r
  {
    if |r| == 1 {
    } else {
      var s := Join(r);
      assert s == r[0] + [Space] + Join(r[1..]);
      assert s[|r[0]|] == Space;
      SplitAllJoin(r);
    }
  }
}
