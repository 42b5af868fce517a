/**
 * String primitives with the semantics of the JavaScript built-ins the core
 * relies on: `trim`, `indexOf`, `includes`, `split` and `join` with a
 * one-character separator, `toLowerCase` on ASCII letters, the `<` order on
 * strings, and the decimal rendering of integers.
 */
module Text {

  // ---------------------------------------------------------------------------
  // Whitespace and trim
  // ---------------------------------------------------------------------------

  /** The characters `String.prototype.trim` removes: ECMAScript WhiteSpace and LineTerminator. */
  predicate IsWhitespace(c: char) {
    c == ' ' || ('\t' <= c <= '\r') || c == '\U{A0}' || c == '\U{1680}'
    || ('\U{2000}' <= c <= '\U{200A}') || c == '\U{2028}' || c == '\U{2029}'
    || c == '\U{202F}' || c == '\U{205F}' || c == '\U{3000}' || c == '\U{FEFF}'
  }

  predicate AllWhitespace(s: string) {
    forall i :: 0 <= i < |s| ==> IsWhitespace(s[i])
  }

  /** No leading and no trailing whitespace. */
  predicate IsTrimmed(s: string) {
    |s| == 0 || (!IsWhitespace(s[0]) && !IsWhitespace(s[|s| - 1]))
  }

  function TrimStart(s: string): string {
    if |s| > 0 && IsWhitespace(s[0]) then TrimStart(s[1..]) else s
  }

  function TrimEnd(s: string): string {
    if |s| > 0 && IsWhitespace(s[|s| - 1]) then TrimEnd(s[..|s| - 1]) else s
  }

  lemma {:induction false} TrimStartShape(s: string) returns (i: nat)
    ensures i <= |s| && TrimStart(s) == s[i..]
    ensures AllWhitespace(s[..i]) && (i == |s| || !IsWhitespace(s[i]))
  {
    if |s| > 0 && IsWhitespace(s[0]) {
      var i' := TrimStartShape(s[1..]);
      i := i' + 1;
      assert s[1..][i'..] == s[i..];
      forall k | 0 <= k < i
        ensures IsWhitespace(s[..i][k])
      {
        if k > 0 {
          assert s[..i][k] == s[1..][..i'][k - 1];
        }
      }
    } else {
      i := 0;
    }
  }

  lemma {:induction false} TrimEndShape(s: string) returns (j: nat)
    ensures j <= |s| && TrimEnd(s) == s[..j]
    ensures AllWhitespace(s[j..]) && (j == 0 || !IsWhitespace(s[j - 1]))
  {
    if |s| > 0 && IsWhitespace(s[|s| - 1]) {
      var v := s[..|s| - 1];
      j := TrimEndShape(v);
      assert v[..j] == s[..j];
      forall k | 0 <= k < |s| - j
        ensures IsWhitespace(s[j..][k])
      {
        if j + k < |s| - 1 {
          assert s[j..][k] == v[j..][k];
        }
      }
    } else {
      j := |s|;
    }
  }

  /** `String.prototype.trim`: the input with its leading and trailing whitespace removed. */
  function Trim(s: string): (r: string)
    ensures IsTrimmed(r)
  {
    TrimBothEnds(s);
    TrimEnd(TrimStart(s))
  }

  lemma TrimBothEnds(s: string)
    ensures IsTrimmed(TrimEnd(TrimStart(s)))
  {
    var i := TrimStartShape(s);
    var u := s[i..];
    var j := TrimEndShape(u);
    var r := u[..j];
    if j > 0 {
      assert r[0] == u[0] == s[i];
      assert r[j - 1] == u[j - 1];
    }
  }

  /** The trimmed string is a slice of the input with only whitespace around it. */
  lemma TrimParts(s: string) returns (i: nat, j: nat)
    ensures i <= j <= |s| && Trim(s) == s[i..j]
    ensures AllWhitespace(s[..i]) && AllWhitespace(s[j..])
  {
    i := TrimStartShape(s);
    var v := s[i..];
    var n := TrimEndShape(v);
    j := i + n;
    assert v[..n] == s[i..j];
    forall k | 0 <= k < |s| - j
      ensures IsWhitespace(s[j..][k])
    {
      assert s[j..][k] == v[n..][k];
    }
  }

  /** Trimming only removes characters. */
  lemma TrimKeepsChars(s: string)
    ensures forall c :: c in Trim(s) ==> c in s
  {
    var i, j := TrimParts(s);
  }

  lemma {:induction false} TrimStartFrom(u: string, i: nat)
    requires i <= |u| && AllWhitespace(u[..i])
    requires i == |u| || !IsWhitespace(u[i])
    ensures TrimStart(u) == u[i..]
  {
    if i > 0 {
      assert AllWhitespace(u[1..][..i - 1]) by {
        var w := u[1..][..i - 1];
        forall k | 0 <= k < |w|
          ensures IsWhitespace(w[k])
        {
          assert w[k] == u[..i][k + 1];
        }
      }
      TrimStartFrom(u[1..], i - 1);
      assert u[1..][i - 1..] == u[i..];
    }
  }

  lemma {:induction false} TrimEndTo(u: string, j: nat)
    requires j <= |u| && AllWhitespace(u[j..])
    requires j == 0 || !IsWhitespace(u[j - 1])
    ensures TrimEnd(u) == u[..j]
    decreases |u| - j
  {
    if j < |u| {
      var v := u[..|u| - 1];
      assert forall k :: 0 <= k < |u| - 1 - j ==> v[j..][k] == u[j..][k];
      TrimEndTo(v, j);
      assert v[..j] == u[..j];
    }
  }

  /** Trim is determined by a slice that is trimmed and has only whitespace around it. */
  lemma TrimSlice(u: string, i: nat, j: nat)
    requires i <= j <= |u|
    requires AllWhitespace(u[..i]) && AllWhitespace(u[j..]) && IsTrimmed(u[i..j])
    ensures Trim(u) == u[i..j]
  {
    if i == j {
      assert forall k :: 0 <= k < |u| ==> IsWhitespace(u[..|u|][k]) by {
        forall k | 0 <= k < |u|
          ensures IsWhitespace(u[..|u|][k])
        {
          if k < i {
            assert u[k] == u[..i][k];
          } else {
            assert u[k] == u[j..][k - j];
          }
        }
      }
      TrimStartFrom(u, |u|);
      assert u[|u|..] == "";
    } else {
      TrimStartFrom(u, i);
      var v := u[i..];
      assert forall k :: 0 <= k < |u| - j ==> v[j - i..][k] == u[j..][k];
      assert v[j - i - 1] == u[i..j][j - i - 1];
      TrimEndTo(v, j - i);
      assert v[..j - i] == u[i..j];
    }
  }

  lemma TrimOfTrimmed(s: string)
    requires IsTrimmed(s)
    ensures Trim(s) == s
  {
    assert s[..0] == "" && s[|s|..] == "" && s[0..|s|] == s;
    TrimSlice(s, 0, |s|);
  }

  lemma TrimIdempotent(s: string)
    ensures Trim(Trim(s)) == Trim(s)
  {
    TrimOfTrimmed(Trim(s));
  }

  /** Padding a string with whitespace on both sides does not change its trim. */
  lemma TrimPadded(w1: string, s: string, w2: string)
    requires AllWhitespace(w1) && AllWhitespace(w2)
    ensures Trim(w1 + s + w2) == Trim(s)
  {
    var t := Trim(s);
    var i, j := TrimParts(s);
    var u := w1 + s + w2;
    var i', j' := |w1| + i, |w1| + i + |t|;
    forall k | 0 <= k < i'
      ensures IsWhitespace(u[..i'][k])
    {
      if k >= |w1| {
        assert u[k] == s[k - |w1|] == s[..i][k - |w1|];
      }
    }
    forall k | 0 <= k < |u| - j'
      ensures IsWhitespace(u[j'..][k])
    {
      if j' + k < |w1| + |s| {
        assert u[j' + k] == s[i + |t| + k] == s[i + |t|..][k];
      } else {
        assert u[j' + k] == w2[j' + k - |w1| - |s|];
      }
    }
    assert u[i'..j'] == t by {
      forall k | 0 <= k < |t|
        ensures u[i'..j'][k] == t[k]
      {
        assert u[i' + k] == s[i + k] == s[i..i + |t|][k];
      }
    }
    TrimSlice(u, i', j');
  }

  // ---------------------------------------------------------------------------
  // Prefixes, suffixes, occurrences
  // ---------------------------------------------------------------------------

  predicate StartsWith(s: string, prefix: string) {
    |prefix| <= |s| && s[..|prefix|] == prefix
  }

  predicate EndsWith(s: string, suffix: string) {
    |suffix| <= |s| && s[|s| - |suffix|..] == suffix
  }

  /** `pat` occurs in `s` starting at index `i`. */
  predicate OccursAt(s: string, pat: string, i: int) {
    0 <= i && i + |pat| <= |s| && s[i..i + |pat|] == pat
  }

  /** `String.prototype.indexOf(pat, from)`, for a start index within the string. */
  function IndexOfFrom(s: string, pat: string, from: nat): (r: int)
    ensures r == -1 || (from <= r && OccursAt(s, pat, r))
    ensures forall k :: from <= k && (r == -1 || k < r) ==> !OccursAt(s, pat, k)
    decreases |s| - from
  {
    if from + |pat| > |s| then -1
    else if s[from..from + |pat|] == pat then from
    else IndexOfFrom(s, pat, from + 1)
  }

  /** `String.prototype.indexOf(pat)`: the first index at which `pat` occurs, or -1. */
  function IndexOf(s: string, pat: string): (r: int)
    ensures r == -1 <==> forall k :: !OccursAt(s, pat, k)
    ensures r != -1 ==> OccursAt(s, pat, r) && forall k :: 0 <= k < r ==> !OccursAt(s, pat, k)
  {
    IndexOfFrom(s, pat, 0)
  }

  /** `String.prototype.includes(pat)`. */
  predicate Contains(s: string, pat: string) {
    IndexOf(s, pat) >= 0
  }

  lemma ContainsWitness(s: string, pat: string, k: int)
    requires OccursAt(s, pat, k)
    ensures Contains(s, pat)
  {
  }

  /** An occurrence inside a slice is an occurrence in the whole string. */
  lemma OccursInSlice(s: string, i: nat, j: nat, pat: string, k: int)
    requires i <= j <= |s|
    requires OccursAt(s[i..j], pat, k)
    ensures OccursAt(s, pat, i + k)
  {
    var t := s[i..j];
    assert t[k..k + |pat|] == pat;
    forall m | 0 <= m < |pat|
      ensures s[i + k..i + k + |pat|][m] == pat[m]
    {
      assert s[i + k..i + k + |pat|][m] == s[i + k + m] == t[k + m] == t[k..k + |pat|][m];
    }
  }

  /** A slice of a string free of `pat` is free of `pat`. */
  lemma AbsentFromSlice(s: string, i: nat, j: nat, pat: string)
    requires i <= j <= |s|
    requires !Contains(s, pat)
    ensures !Contains(s[i..j], pat)
  {
    forall k | OccursAt(s[i..j], pat, k)
      ensures OccursAt(s, pat, i + k)
    {
      OccursInSlice(s, i, j, pat, k);
    }
  }

  /** A string that lacks the first character of `pat` cannot contain `pat`. */
  lemma AbsentByFirstChar(s: string, pat: string)
    requires |pat| > 0 && pat[0] !in s
    ensures !Contains(s, pat)
  {
    forall k | 0 <= k <= |s| - |pat|
      ensures !OccursAt(s, pat, k)
    {
      assert s[k..k + |pat|][0] == s[k];
    }
  }

  /** A string that lacks any one character of `pat` cannot contain `pat`. */
  lemma AbsentByCharAt(s: string, pat: string, j: nat)
    requires j < |pat| && pat[j] !in s
    ensures !Contains(s, pat)
  {
    forall k | 0 <= k <= |s| - |pat|
      ensures !OccursAt(s, pat, k)
    {
      assert s[k..k + |pat|][j] == s[k + j];
    }
  }

  /**
   * An occurrence in `a + [c] + b` lies inside `a`, inside `b`, or covers the
   * separator `c`.
   */
  lemma OccursAcross(a: string, c: char, b: string, pat: string, k: int)
    requires OccursAt(a + [c] + b, pat, k)
    requires c !in pat
    ensures OccursAt(a, pat, k) || OccursAt(b, pat, k - |a| - 1)
  {
    var s := a + [c] + b;
    forall m | 0 <= m <= |a| < m + |pat| && m + |pat| <= |s|
      ensures !OccursAt(s, pat, m)
    {
      assert s[m..m + |pat|][|a| - m] == c;
    }
    if k + |pat| <= |a| {
      assert s[k..k + |pat|] == a[k..k + |pat|];
    } else if k >= |a| + 1 {
      assert s[k..k + |pat|] == b[k - |a| - 1..k - |a| - 1 + |pat|];
    }
  }

  /**
   * An occurrence of a pattern without `c` in `x + y + z`, where `y` starts and
   * ends with `c`, lies inside `x`, inside `y`, or wholly after `y`.
   */
  lemma OccursAroundFramed(x: string, y: string, z: string, c: char, pat: string, k: int)
    requires OccursAt(x + y + z, pat, k)
    requires |y| >= 1 && y[0] == c && y[|y| - 1] == c && c !in pat
    ensures OccursAt(x, pat, k) || OccursAt(y, pat, k - |x|) || |x| + |y| <= k
  {
    var s := x + y + z;
    var e := |pat|;
    if k + e <= |x| {
      assert s[k..k + e] == x[k..k + e];
    } else if k < |x| {
      CharOfOccurrence(s, pat, k, |x| - k);
      assert false;
    } else if k + e <= |x| + |y| {
      assert s[k..k + e] == y[k - |x|..k - |x| + e];
    } else if k < |x| + |y| {
      CharOfOccurrence(s, pat, k, |x| + |y| - 1 - k);
      assert false;
    }
  }

  /** Each character of an occurrence is the pattern's character. */
  lemma CharOfOccurrence(s: string, pat: string, k: int, j: int)
    requires OccursAt(s, pat, k) && 0 <= j < |pat|
    ensures s[k + j] == pat[j]
  {
    assert s[k..k + |pat|][j] == s[k + j];
  }

  /** An occurrence in a prefix is an occurrence in the whole. */
  lemma OccursInPrefix(x: string, w: string, pat: string, k: int)
    requires OccursAt(x, pat, k)
    ensures OccursAt(x + w, pat, k)
  {
    assert (x + w)[k..k + |pat|] == x[k..k + |pat|];
  }

  /** An occurrence that ends within the first part lies in the first part. */
  lemma OccursBeforeEnd(x: string, w: string, pat: string, k: int)
    requires OccursAt(x + w, pat, k) && k + |pat| <= |x|
    ensures OccursAt(x, pat, k)
  {
    assert (x + w)[k..k + |pat|] == x[k..k + |pat|];
  }

  // ---------------------------------------------------------------------------
  // Counting, split and join
  // ---------------------------------------------------------------------------

  function CountChar(s: string, c: char): nat {
    multiset(s)[c]
  }

  /** `String.prototype.split(sep)` for a one-character separator. */
  function Split(s: string, sep: char): (r: seq<string>)
    ensures |r| == CountChar(s, sep) + 1
    ensures forall i :: 0 <= i < |r| ==> sep !in r[i]
    ensures |r[0]| <= |s| && r[0] == s[..|r[0]|]
  {
    if |s| == 0 then [""]
    else
      var rest := Split(s[1..], sep);
      assert s == [s[0]] + s[1..];
      if s[0] == sep then [""] + rest
      else [[s[0]] + rest[0]] + rest[1..]
  }

  /** `Array.prototype.join(sep)` for a one-character separator. */
  function Join(parts: seq<string>, sep: char): string {
    if |parts| == 0 then ""
    else if |parts| == 1 then parts[0]
    else parts[0] + [sep] + Join(parts[1..], sep)
  }

  /** A join of at least two parts ends with the separator followed by the last part. */
  lemma {:induction false} JoinLast(parts: seq<string>, sep: char)
    requires |parts| >= 2
    ensures Join(parts, sep) == Join(parts[..|parts| - 1], sep) + [sep] + parts[|parts| - 1]
  {
    if |parts| > 2 {
      JoinLast(parts[1..], sep);
      assert parts[1..][..|parts| - 2] == parts[..|parts| - 1][1..];
      assert parts[1..][|parts| - 2] == parts[|parts| - 1];
    }
  }

  /** A character absent from every part and distinct from the separator is absent from the join. */
  lemma {:induction false} JoinKeepsAbsentChar(parts: seq<string>, sep: char, c: char)
    requires c != sep
    requires forall i :: 0 <= i < |parts| ==> c !in parts[i]
    ensures c !in Join(parts, sep)
  {
    if |parts| > 1 {
      JoinKeepsAbsentChar(parts[1..], sep, c);
      assert c !in parts[0];
    }
  }

  lemma {:induction false} SplitAfterSegment(a: string, sep: char, rest: string)
    requires sep !in a
    ensures Split(a + [sep] + rest, sep) == [a] + Split(rest, sep)
  {
    if |a| == 0 {
      assert (a + [sep] + rest)[1..] == rest;
    } else {
      assert (a + [sep] + rest)[1..] == a[1..] + [sep] + rest;
      SplitAfterSegment(a[1..], sep, rest);
      assert [a[0]] + a[1..] == a;
    }
  }

  lemma {:induction false} SplitWithoutSeparator(a: string, sep: char)
    requires sep !in a
    ensures Split(a, sep) == [a]
  {
    if |a| > 0 {
      SplitWithoutSeparator(a[1..], sep);
      assert [a[0]] + a[1..] == a;
    }
  }

  /** Splitting a join recovers the parts when no part contains the separator. */
  lemma {:induction false} SplitJoin(parts: seq<string>, sep: char)
    requires |parts| >= 1
    requires forall i :: 0 <= i < |parts| ==> sep !in parts[i]
    ensures Split(Join(parts, sep), sep) == parts
  {
    if |parts| == 1 {
      SplitWithoutSeparator(parts[0], sep);
    } else {
      SplitJoin(parts[1..], sep);
      SplitAfterSegment(parts[0], sep, Join(parts[1..], sep));
      assert [parts[0]] + parts[1..] == parts;
    }
  }

  lemma JoinCons(a: string, rest: seq<string>, sep: char)
    requires |rest| >= 1
    ensures Join([a] + rest, sep) == a + [sep] + Join(rest, sep)
  {
    assert ([a] + rest)[1..] == rest;
  }

  lemma JoinExtendFirst(c: char, rest: seq<string>, sep: char)
    requires |rest| >= 1
    ensures Join([[c] + rest[0]] + rest[1..], sep) == [c] + Join(rest, sep)
  {
    var r := [[c] + rest[0]] + rest[1..];
    if |rest| > 1 {
      assert r[1..] == rest[1..];
    }
  }

  /** Joining a split recovers the string. */
  lemma {:induction false} JoinSplit(s: string, sep: char)
    ensures Join(Split(s, sep), sep) == s
  {
    if |s| > 0 {
      var rest := Split(s[1..], sep);
      JoinSplit(s[1..], sep);
      SplitCons(s, sep);
      if s[0] == sep {
        JoinCons("", rest, sep);
      } else {
        JoinExtendFirst(s[0], rest, sep);
      }
      assert s == [s[0]] + s[1..];
    }
  }

  /** One step of the split: the first character either ends the first part or joins it. */
  lemma SplitCons(s: string, sep: char)
    requires |s| > 0
    ensures s[0] == sep ==> Split(s, sep) == [""] + Split(s[1..], sep)
    ensures s[0] != sep ==> Split(s, sep) == [[s[0]] + Split(s[1..], sep)[0]] + Split(s[1..], sep)[1..]
  {
  }

  /** Every part of a split of a `pat`-free string is `pat`-free. */
  lemma {:induction false} SplitKeepsAbsent(s: string, sep: char, pat: string)
    requires !Contains(s, pat)
    ensures forall i :: 0 <= i < |Split(s, sep)| ==> !Contains(Split(s, sep)[i], pat)
  {
    if |s| > 0 {
      AbsentFromSlice(s, 1, |s|, pat);
      assert s[1..|s|] == s[1..];
      SplitKeepsAbsent(s[1..], sep, pat);
      var rest := Split(s[1..], sep);
      SplitCons(s, sep);
      if s[0] != sep {
        assert [s[0]] + rest[0] == s[..1 + |rest[0]|];
        AbsentFromSlice(s, 0, 1 + |rest[0]|, pat);
      } else {
        assert "" == s[..0];
        AbsentFromSlice(s, 0, 0, pat);
      }
    }
  }

  /** A join of `pat`-free parts is `pat`-free when the separator is not in `pat`. */
  lemma {:induction false} JoinKeepsAbsent(parts: seq<string>, sep: char, pat: string)
    requires |pat| > 0 && sep !in pat
    requires forall i :: 0 <= i < |parts| ==> !Contains(parts[i], pat)
    ensures !Contains(Join(parts, sep), pat)
  {
    if |parts| == 0 {
      assert !OccursAt("", pat, IndexOf("", pat));
    } else if |parts| > 1 {
      JoinKeepsAbsent(parts[1..], sep, pat);
      var j := Join(parts[1..], sep);
      assert Join(parts, sep) == parts[0] + [sep] + j;
      forall k | OccursAt(Join(parts, sep), pat, k)
        ensures OccursAt(parts[0], pat, k) || OccursAt(j, pat, k - |parts[0]| - 1)
      {
        OccursAcross(parts[0], sep, j, pat, k);
      }
    }
  }

  // ---------------------------------------------------------------------------
  // ASCII case folding and the string order
  // ---------------------------------------------------------------------------

  function LowerChar(c: char): char {
    if 'A' <= c <= 'Z' then (c as int + 32) as char else c
  }

  /** Lower-casing of the ASCII letters A-Z; every other character is kept. */
  function AsciiLower(s: string): (r: string)
    ensures |r| == |s|
    ensures forall i :: 0 <= i < |s| ==> r[i] == LowerChar(s[i])
  {
    seq(|s|, i requires 0 <= i < |s| => LowerChar(s[i]))
  }

  /** The JavaScript `<` on strings: lexicographic on characters, a proper prefix first. */
  predicate LexLess(a: string, b: string) {
    if |a| == 0 then |b| > 0
    else if |b| == 0 then false
    else if a[0] == b[0] then LexLess(a[1..], b[1..])
    else a[0] < b[0]
  }

  lemma {:induction false} LexLessIrreflexive(a: string)
    ensures !LexLess(a, a)
  {
    if |a| > 0 {
      LexLessIrreflexive(a[1..]);
    }
  }

  lemma {:induction false} LexLessTransitive(a: string, b: string, c: string)
    requires LexLess(a, b) && LexLess(b, c)
    ensures LexLess(a, c)
  {
    if |a| > 0 && |b| > 0 && |c| > 0 && a[0] == b[0] && b[0] == c[0] {
      LexLessTransitive(a[1..], b[1..], c[1..]);
    }
  }

  lemma {:induction false} LexLessTrichotomy(a: string, b: string)
    ensures LexLess(a, b) || a == b || LexLess(b, a)
  {
    if |a| > 0 && |b| > 0 && a[0] == b[0] {
      LexLessTrichotomy(a[1..], b[1..]);
      if a[1..] == b[1..] {
        assert a == [a[0]] + a[1..] && b == [b[0]] + b[1..];
      }
    }
  }

  // ---------------------------------------------------------------------------
  // Decimal rendering of integers
  // ---------------------------------------------------------------------------

  predicate IsDigit(c: char) {
    '0' <= c <= '9'
  }

  function DigitChar(d: nat): (c: char)
    requires d < 10
    ensures IsDigit(c)
  {
    ('0' as int + d) as char
  }

  /** The decimal numeral of a natural number, as template literals render it. */
  function NatToString(n: nat): (r: string)
    ensures |r| > 0
    ensures forall i :: 0 <= i < |r| ==> IsDigit(r[i])
  {
    if n < 10 then [DigitChar(n)] else NatToString(n / 10) + [DigitChar(n % 10)]
  }

  /** The decimal numeral of an integer, with a leading `-` when negative. */
  function IntToString(n: int): (r: string)
    ensures |r| > 0 && IsDigit(r[|r| - 1])
    ensures n >= 0 ==> r == NatToString(n)
    ensures n < 0 <==> r[0] == '-'
  {
    if n < 0 then "-" + NatToString(-n) else NatToString(n)
  }
}
