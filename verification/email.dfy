/** The user schema's email validator `^\w+([\.-]?\w+)*@\w+([\.-]?\w+)*(\.\w{2,3})+$`.

    `MatchesEmailPattern` follows the regular expression piece by piece; `EmailShape`
    describes the same language by character-level facts, and `PatternIffShape` proves
    the two agree, so that the properties below can be read off the shape. */
module EmailPattern {
  import opened Text

  /** The optional separator class `[\.-]`. */
  predicate IsSep(c: char) {
    c == '.' || c == '-'
  }

  /** `\w+`. */
  predicate WordRun(s: string) {
    |s| >= 1 && AllWordChars(s)
  }

  /** One repetition of `([\.-]?\w+)`. */
  predicate Group(g: string) {
    WordRun(g) || (|g| >= 2 && IsSep(g[0]) && WordRun(g[1..]))
  }

  /** `([\.-]?\w+)*` matching the whole of `s`. */
  predicate Groups(s: string)
    decreases |s|
  {
    s == [] || exists i | 1 <= i <= |s| :: GroupsAt(s, i)
  }

  /** `s` splits at `i` into one group and the rest of the repetition. */
  predicate GroupsAt(s: string, i: nat)
    requires 1 <= i <= |s|
    decreases |s|, 0
  {
    Group(s[..i]) && Groups(s[i..])
  }

  /** `\w+([\.-]?\w+)*` matching the whole of `s`. */
  predicate DottedWords(s: string) {
    exists i | 1 <= i <= |s| :: DottedAt(s, i)
  }

  predicate DottedAt(s: string, i: nat)
    requires 1 <= i <= |s|
  {
    WordRun(s[..i]) && Groups(s[i..])
  }

  /** `(\.\w{2,3})+` matching the whole of `s`. */
  predicate TopLevel(s: string)
    decreases |s|
  {
    exists i | 3 <= i <= 4 && i <= |s| :: TopLevelAt(s, i)
  }

  /** `s` splits at `i` into one `\.\w{2,3}` and the rest of the repetition. */
  predicate TopLevelAt(s: string, i: nat)
    requires 3 <= i <= 4 && i <= |s|
    decreases |s|, 0
  {
    s[0] == '.' && WordRun(s[1..i]) && (i == |s| || TopLevel(s[i..]))
  }

  /** `\w+([\.-]?\w+)*(\.\w{2,3})+` matching the whole of `s`: the part after the `@`. */
  predicate DomainPattern(s: string) {
    exists j | 1 <= j < |s| :: DomainAt(s, j)
  }

  predicate DomainAt(s: string, j: nat)
    requires 1 <= j < |s|
  {
    DottedWords(s[..j]) && TopLevel(s[j..])
  }

  /** The anchored pattern: a dotted local part, one `@`, a domain. */
  predicate MatchesEmailPattern(s: string) {
    exists k | 0 <= k < |s| :: EmailAt(s, k)
  }

  /** `s` has its `@` at `k`, a local part before it and a domain after it. */
  predicate EmailAt(s: string, k: nat)
    requires k < |s|
  {
    s[k] == '@' && DottedWords(s[..k]) && DomainPattern(s[k + 1..])
  }

  // ---- the same language described by character-level facts ----

  /** No two separators stand next to each other. */
  predicate NoAdjacentSeps(s: string) {
    forall i | 0 <= i < |s| - 1 :: !(IsSep(s[i]) && IsSep(s[i + 1]))
  }

  predicate WordOrSepChars(s: string) {
    forall i | 0 <= i < |s| :: IsWordChar(s[i]) || IsSep(s[i])
  }

  /** What `([\.-]?\w+)*` accepts: empty, or ending in a word character with single separators. */
  predicate GroupsShape(s: string) {
    s == [] || (IsWordChar(s[|s| - 1]) && WordOrSepChars(s) && NoAdjacentSeps(s))
  }

  /** What `\w+([\.-]?\w+)*` accepts: word characters and single separators, word characters at both ends. */
  predicate WellDotted(s: string) {
    && |s| >= 1
    && IsWordChar(s[0]) && IsWordChar(s[|s| - 1])
    && WordOrSepChars(s)
    && NoAdjacentSeps(s)
  }

  /** `s` ends in `.` followed by exactly `n` word characters. */
  predicate EndsWithTopLevel(s: string, n: nat) {
    n + 1 <= |s| && s[|s| - n - 1] == '.' && AllWordChars(s[|s| - n..])
  }

  /** A well-dotted name, then `.` and `n` word characters. */
  predicate DomainShapeWith(d: string, n: nat) {
    n + 2 <= |d| && EndsWithTopLevel(d, n) && WellDotted(d[..|d| - n - 1])
  }

  /** A well-dotted name followed by a final `.` and two or three word characters. */
  predicate DomainShape(d: string) {
    DomainShapeWith(d, 2) || DomainShapeWith(d, 3)
  }

  predicate EmailShapeAt(s: string, k: nat)
    requires k < |s|
  {
    s[k] == '@' && WellDotted(s[..k]) && DomainShape(s[k + 1..])
  }

  predicate EmailShape(s: string) {
    exists k | 0 <= k < |s| :: EmailShapeAt(s, k)
  }

  /** A non-empty match of `([\.-]?\w+)*` splits after its first group. */
  lemma GroupsSplit(s: string)
    requires s != [] && Groups(s)
    ensures exists i | 1 <= i <= |s| :: GroupsAt(s, i)
  {
  }

  lemma {:induction false} GroupsToShape(s: string)
    requires Groups(s)
    ensures GroupsShape(s)
    decreases |s|
  {
    if s != [] {
      GroupsSplit(s);
      var i :| 1 <= i <= |s| && GroupsAt(s, i);
      var g, rest := s[..i], s[i..];
      GroupsToShape(rest);
      ConcatShape(g, rest);
      assert s == g + rest;
    }
  }

  lemma {:induction false} ShapeToGroups(s: string)
    requires GroupsShape(s)
    ensures Groups(s)
    decreases |s|
  {
    if s != [] {
      var m := if IsSep(s[0]) then 2 else 1;
      assert Group(s[..m]);
      var rest := s[m..];
      assert GroupsShape(rest) by {
        forall k | 0 <= k < |rest| - 1
          ensures !(IsSep(rest[k]) && IsSep(rest[k + 1]))
        {
          assert rest[k] == s[k + m] && rest[k + 1] == s[k + m + 1];
        }
      }
      ShapeToGroups(rest);
      assert GroupsAt(s, m);
    }
  }

  lemma GroupsIffShape(s: string)
    ensures Groups(s) <==> GroupsShape(s)
  {
    if Groups(s) { GroupsToShape(s); }
    if GroupsShape(s) { ShapeToGroups(s); }
  }

  /** A group, or any run that ends in a word character, followed by a match of `([\.-]?\w+)*`. */
  lemma ConcatShape(g: string, rest: string)
    requires |g| >= 1 && IsWordChar(g[|g| - 1])
    requires Group(g) || WellDotted(g)
    requires GroupsShape(rest)
    ensures GroupsShape(g + rest)
  {
    var s := g + rest;
    forall k | 0 <= k < |s| - 1
      ensures !(IsSep(s[k]) && IsSep(s[k + 1]))
    {
      if k + 1 < |g| {
        assert s[k] == g[k] && s[k + 1] == g[k + 1];
        if !WellDotted(g) && !WordRun(g) {
          assert g[1..][k] == g[k + 1];
        }
      } else if k + 1 == |g| {
        assert s[k] == g[|g| - 1];
      } else {
        assert s[k] == rest[k - |g|] && s[k + 1] == rest[k - |g| + 1];
      }
    }
    forall k | 0 <= k < |s|
      ensures IsWordChar(s[k]) || IsSep(s[k])
    {
      if k < |g| {
        assert s[k] == g[k];
        if k > 0 && !WellDotted(g) && !WordRun(g) {
          assert g[1..][k - 1] == g[k];
        }
      } else {
        assert s[k] == rest[k - |g|];
      }
    }
    if rest != [] { assert s[|s| - 1] == rest[|rest| - 1]; }
  }

  lemma DottedWordsIffWellDotted(s: string)
    ensures DottedWords(s) <==> WellDotted(s)
  {
    if DottedWords(s) {
      var i :| 1 <= i <= |s| && DottedAt(s, i);
      var w, rest := s[..i], s[i..];
      GroupsIffShape(rest);
      assert Group(w);
      ConcatShape(w, rest);
      assert s == w + rest;
      assert IsWordChar(s[0]) by { assert s[0] == w[0]; }
    }
    if WellDotted(s) {
      var rest := s[1..];
      assert GroupsShape(rest) by {
        forall k | 0 <= k < |rest| - 1
          ensures !(IsSep(rest[k]) && IsSep(rest[k + 1]))
        {
          assert rest[k] == s[k + 1] && rest[k + 1] == s[k + 2];
        }
      }
      GroupsIffShape(rest);
      assert DottedAt(s, 1);
    }
  }

  /** One `\.\w{2,3}` is a group of `([\.-]?\w+)*` that ends in `.` and its word characters. */
  lemma TopLevelGroup(t: string, i: nat)
    requires 3 <= i <= 4 && i <= |t| && t[0] == '.' && WordRun(t[1..i])
    ensures Group(t[..i]) && IsWordChar(t[i - 1])
    ensures EndsWithTopLevel(t[..i], i - 1)
  {
    var g := t[..i];
    assert g[1..] == t[1..i];
    assert g[|g| - (i - 1)..] == g[1..];
    assert t[i - 1] == t[1..i][i - 2];
  }

  /** A final `.` and `n` word characters survive putting text in front. */
  lemma EndsWithTopLevelPrepend(g: string, rest: string, n: nat)
    requires EndsWithTopLevel(rest, n)
    ensures EndsWithTopLevel(g + rest, n)
  {
    var t := g + rest;
    assert t[|t| - n..] == rest[|rest| - n..];
    assert t[|t| - n - 1] == rest[|rest| - n - 1];
  }

  /** What a match of `(\.\w{2,3})+` looks like: it starts with `.`, has single separators,
      and ends in `.` with two or three word characters. */
  lemma {:induction false} TopLevelFacts(t: string)
    requires TopLevel(t)
    ensures |t| >= 3 && t[0] == '.' && GroupsShape(t)
    ensures EndsWithTopLevel(t, 2) || EndsWithTopLevel(t, 3)
    decreases |t|
  {
    var i :| 3 <= i <= 4 && i <= |t| && TopLevelAt(t, i);
    var g := t[..i];
    TopLevelGroup(t, i);
    if i == |t| {
      assert g == t;
      ConcatShape(g, []);
      assert g + [] == g;
    } else {
      var rest := t[i..];
      TopLevelFacts(rest);
      assert t == g + rest;
      ConcatShape(g, rest);
      if EndsWithTopLevel(rest, 2) {
        EndsWithTopLevelPrepend(g, rest, 2);
      } else {
        EndsWithTopLevelPrepend(g, rest, 3);
      }
    }
  }

  /** Cutting a well-dotted name just after a word character leaves a well-dotted name. */
  lemma WellDottedPrefix(s: string, m: nat)
    requires WellDotted(s) && 1 <= m <= |s| && IsWordChar(s[m - 1])
    ensures WellDotted(s[..m])
  {
    var p := s[..m];
    forall k | 0 <= k < |p| - 1
      ensures !(IsSep(p[k]) && IsSep(p[k + 1]))
    {
      assert p[k] == s[k] && p[k + 1] == s[k + 1];
    }
  }

  /** A domain ending in `.` and `n` word characters whose whole text is well dotted has the domain shape. */
  lemma DomainShapeFromEnding(d: string, n: nat)
    requires 2 <= n <= 3 && WellDotted(d) && EndsWithTopLevel(d, n)
    ensures DomainShapeWith(d, n)
  {
    var m := |d| - n - 1;
    assert IsSep(d[m]) && !IsWordChar(d[m]);
    assert m != 0;
    assert !IsSep(d[m - 1]);
    WellDottedPrefix(d, m);
  }

  lemma DomainShapeToPattern(d: string, n: nat)
    requires 2 <= n <= 3 && DomainShapeWith(d, n)
    ensures DomainPattern(d)
  {
    var j := |d| - n - 1;
    DottedWordsIffWellDotted(d[..j]);
    var t := d[j..];
    assert t[1..|t|] == d[|d| - n..];
    assert TopLevelAt(t, |t|);
    assert DomainAt(d, j);
  }

  lemma DomainPatternIffShape(d: string)
    ensures DomainPattern(d) <==> DomainShape(d)
  {
    if DomainPattern(d) {
      var j :| 1 <= j < |d| && DomainAt(d, j);
      DomainAtShape(d, j);
    }
    if DomainShapeWith(d, 2) {
      DomainShapeToPattern(d, 2);
    } else if DomainShapeWith(d, 3) {
      DomainShapeToPattern(d, 3);
    }
  }

  /** A domain the pattern splits at `j` has the domain shape. */
  lemma DomainAtShape(d: string, j: int)
    requires 1 <= j < |d| && DomainAt(d, j)
    ensures DomainShape(d)
  {
    var a, t := d[..j], d[j..];
    assert d == a + t;
    DottedWordsIffWellDotted(a);
    TopLevelFacts(t);
    assert WellDotted(d) by {
      ConcatShape(a, t);
      assert d[0] == a[0];
    }
    if EndsWithTopLevel(t, 2) {
      assert d[|d| - 2..] == t[|t| - 2..];
      assert d[|d| - 3] == t[|t| - 3];
      DomainShapeFromEnding(d, 2);
    } else {
      assert d[|d| - 3..] == t[|t| - 3..];
      assert d[|d| - 4] == t[|t| - 4];
      DomainShapeFromEnding(d, 3);
    }
  }

  /** The regular expression accepts exactly the strings of `EmailShape`. */
  lemma PatternIffShape(s: string)
    ensures MatchesEmailPattern(s) <==> EmailShape(s)
  {
    if MatchesEmailPattern(s) {
      var k :| 0 <= k < |s| && EmailAt(s, k);
      DottedWordsIffWellDotted(s[..k]);
      DomainPatternIffShape(s[k + 1..]);
      assert EmailShapeAt(s, k);
    }
    if EmailShape(s) {
      var k :| 0 <= k < |s| && EmailShapeAt(s, k);
      DottedWordsIffWellDotted(s[..k]);
      DomainPatternIffShape(s[k + 1..]);
      assert EmailAt(s, k);
    }
  }

  /** Word characters and separators are never `@`. */
  lemma NoAtIn(s: string, i: int)
    requires WordOrSepChars(s) && 0 <= i < |s|
    ensures s[i] != '@'
  {
  }

  /** In a domain of the domain shape there is no `@`. */
  lemma NoAtInDomain(d: string, e: int)
    requires DomainShape(d) && 0 <= e < |d|
    ensures d[e] != '@'
  {
    var n := if DomainShapeWith(d, 2) then 2 else 3;
    var m := |d| - n - 1;
    if e < m {
      assert d[..m][e] == d[e];
      NoAtIn(d[..m], e);
    } else if e > m {
      assert d[|d| - n..][e - (|d| - n)] == d[e];
    }
  }

  /** Every accepted address has exactly one `@`, and the local part before it is well dotted:
      a word character at each end and never two separators in a row. */
  lemma AcceptedLocalPart(s: string)
    requires MatchesEmailPattern(s)
    ensures exists k | 0 <= k < |s| :: s[k] == '@' && WellDotted(s[..k])
              && forall i | 0 <= i < |s| && s[i] == '@' :: i == k
  {
    PatternIffShape(s);
    var k :| 0 <= k < |s| && EmailShapeAt(s, k);
    var d := s[k + 1..];
    forall i | 0 <= i < |s| && s[i] == '@'
      ensures i == k
    {
      if i < k {
        assert s[..k][i] == s[i];
        NoAtIn(s[..k], i);
      } else if i > k {
        assert d[i - k - 1] == s[i];
        NoAtInDomain(d, i - k - 1);
      }
    }
  }

  /** Every accepted address ends in `.` followed by two or three characters of `\w`. */
  lemma AcceptedEnding(s: string)
    requires MatchesEmailPattern(s)
    ensures EndsWithTopLevel(s, 2) || EndsWithTopLevel(s, 3)
  {
    PatternIffShape(s);
    var k :| 0 <= k < |s| && EmailShapeAt(s, k);
    var d := s[k + 1..];
    var n := if DomainShapeWith(d, 2) then 2 else 3;
    assert DomainShapeWith(d, n);
    assert s[|s| - n..] == d[|d| - n..];
    assert s[|s| - n - 1] == d[|d| - n - 1];
  }
}
