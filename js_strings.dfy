/**
 * The JavaScript string built-ins that the capture code relies on, stated
 * over `seq<char>`: `startsWith`, a global `replace` with a literal pattern,
 * `split` on one character, `trim`, `Array.prototype.join`, `toLowerCase`,
 * the decimal rendering of a number in a template string, and the `<`
 * ordering of strings that lodash's `sortBy` uses.
 */
module JsStrings {

  /** The characters matched by `\s` in a JavaScript regular expression
      and removed by `String.prototype.trim`. */
  predicate IsWhitespace(c: char) {
    var n := c as int;
    (9 <= n <= 13) || n == 0x20 || n == 0xA0 || n == 0x1680 ||
    (0x2000 <= n <= 0x200A) || n == 0x2028 || n == 0x2029 ||
    n == 0x202F || n == 0x205F || n == 0x3000 || n == 0xFEFF
  }

  predicate StartsWith(s: string, prefix: string) {
    |prefix| <= |s| && s[..|prefix|] == prefix
  }

  /** `s.substring(start, end)`: both ends are clamped to the string and
      swapped when the first exceeds the second. */
  function Substring(s: string, start: int, end: int): (r: string)
    ensures 0 <= start <= end <= |s| ==> r == s[start..end]
    ensures 0 <= end <= start <= |s| ==> r == s[end..start]
  {
    var a := if start < 0 then 0 else if start > |s| then |s| else start;
    var b := if end < 0 then 0 else if end > |s| then |s| else end;
    if a <= b then s[a..b] else s[b..a]
  }

  /** A text does not start with a pattern it differs from at position k. */
  lemma NotStartsWithAt(t: string, pat: string, k: nat)
    requires k < |pat| && (k >= |t| || t[k] != pat[k])
    ensures !StartsWith(t, pat)
  {
    if |pat| <= |t| {
      assert t[..|pat|][k] == t[k];
    }
  }

  // ---------------------------------------------------------------------
  // s.replace(/pat/g, rep) for a literal pattern: scan left to right and
  // replace every non-overlapping occurrence.

  function ReplaceAll(s: string, pat: string, rep: string): (r: string)
    requires pat != []
    decreases |s|
  {
    if |s| == 0 then []
    else if StartsWith(s, pat) then rep + ReplaceAll(s[|pat|..], pat, rep)
    else [s[0]] + ReplaceAll(s[1..], pat, rep)
  }

  /** Where the pattern occurs nowhere, the text comes back unchanged. */
  lemma {:induction false} ReplaceAllNoMatch(s: string, pat: string, rep: string)
    requires pat != []
    requires forall i :: 0 <= i <= |s| ==> !StartsWith(s[i..], pat)
    ensures ReplaceAll(s, pat, rep) == s
    decreases |s|
  {
    if |s| > 0 {
      assert !StartsWith(s[0..], pat);
      assert s[0..] == s;
      forall i | 0 <= i <= |s[1..]|
        ensures !StartsWith(s[1..][i..], pat)
      {
        assert s[1..][i..] == s[i + 1..];
        assert !StartsWith(s[i + 1..], pat);
      }
      ReplaceAllNoMatch(s[1..], pat, rep);
    }
  }

  /** A pattern holding a character that the text lacks cannot match. */
  lemma ReplaceAllMissingChar(s: string, pat: string, rep: string, c: char)
    requires pat != [] && c in pat && c !in s
    ensures ReplaceAll(s, pat, rep) == s
  {
    var k :| 0 <= k < |pat| && pat[k] == c;
    forall i | 0 <= i <= |s|
      ensures !StartsWith(s[i..], pat)
    {
      if |pat| <= |s[i..]| {
        assert s[i..][..|pat|][k] == s[i + k] != c;
      }
    }
    ReplaceAllNoMatch(s, pat, rep);
  }

  /** Replacing a one-character pattern by text without that character
      removes every occurrence of it. */
  lemma {:induction false} ReplaceAllRemoves(s: string, c: char, rep: string)
    requires c !in rep
    ensures c !in ReplaceAll(s, [c], rep)
    decreases |s|
  {
    if |s| > 0 {
      ReplaceAllRemoves(s[1..], c, rep);
      if !StartsWith(s, [c]) {
        assert s[..1] == [s[0]];
      }
    }
  }

  /** Replacing never introduces a character absent from both the text and
      the replacement. */
  lemma {:induction false} ReplaceAllKeepsOut(s: string, pat: string, rep: string, c: char)
    requires pat != [] && c !in s && c !in rep
    ensures c !in ReplaceAll(s, pat, rep)
    decreases |s|
  {
    if |s| > 0 {
      if StartsWith(s, pat) {
        ReplaceAllKeepsOut(s[|pat|..], pat, rep, c);
      } else {
        ReplaceAllKeepsOut(s[1..], pat, rep, c);
      }
    }
  }

  /** When no occurrence of the pattern starts inside `a` (not even one that
      runs on into `b`), `a` is copied and the replacement goes on in `b`. */
  lemma {:induction false} ReplaceAllPrefixFree(a: string, b: string, pat: string, rep: string)
    requires pat != []
    requires forall i :: 0 <= i < |a| ==> !StartsWith(a[i..] + b, pat)
    ensures ReplaceAll(a + b, pat, rep) == a + ReplaceAll(b, pat, rep)
    decreases |a|
  {
    if |a| > 0 {
      assert a[0..] == a;
      assert !StartsWith(a + b, pat);
      assert (a + b)[1..] == a[1..] + b;
      forall i | 0 <= i < |a[1..]|
        ensures !StartsWith(a[1..][i..] + b, pat)
      {
        assert a[1..][i..] == a[i + 1..];
      }
      ReplaceAllPrefixFree(a[1..], b, pat, rep);
      assert ReplaceAll(a + b, pat, rep) == [a[0]] + ReplaceAll(a[1..] + b, pat, rep);
      assert a + ReplaceAll(b, pat, rep) == [a[0]] + (a[1..] + ReplaceAll(b, pat, rep));
    } else {
      assert a + b == b;
    }
  }

  /** An occurrence at the front is replaced and the scan resumes after it. */
  lemma ReplaceAllAtFront(pat: string, b: string, rep: string)
    requires pat != []
    ensures ReplaceAll(pat + b, pat, rep) == rep + ReplaceAll(b, pat, rep)
  {
    assert (pat + b)[..|pat|] == pat;
    assert (pat + b)[|pat|..] == b;
  }

  // ---------------------------------------------------------------------
  // s.split(sep) for a one-character separator, and its inverse join.

  function Split(s: string, sep: char): (r: seq<string>)
    ensures |r| >= 1
    ensures forall i :: 0 <= i < |r| ==> sep !in r[i]
  {
    if |s| == 0 then [""]
    else
      var rest := Split(s[1..], sep);
      if s[0] == sep then [""] + rest
      else [[s[0]] + rest[0]] + rest[1..]
  }

  /** `parts.join(sep)`. */
  function Join(parts: seq<string>, sep: string): (r: string)
    ensures |parts| == 1 ==> r == parts[0]
  {
    if |parts| == 0 then ""
    else if |parts| == 1 then parts[0]
    else parts[0] + sep + Join(parts[1..], sep)
  }

  /** Splitting on a character and joining with it gives back the text. */
  lemma {:induction false} JoinSplit(s: string, sep: char)
    ensures Join(Split(s, sep), [sep]) == s
  {
    if |s| > 0 {
      var rest := Split(s[1..], sep);
      JoinSplit(s[1..], sep);
      if s[0] == sep {
        assert Split(s, sep) == [""] + rest;
        assert ([""] + rest)[1..] == rest;
      } else {
        var r := Split(s, sep);
        assert r == [[s[0]] + rest[0]] + rest[1..];
        if |rest| == 1 {
          assert r == [[s[0]] + rest[0]];
        } else {
          assert r[1..] == rest[1..];
          assert Join(rest, [sep]) == rest[0] + [sep] + Join(rest[1..], [sep]);
        }
      }
    }
  }

  /** Joining lines that hold no separator and splitting again gives back
      the lines. */
  lemma {:induction false} SplitJoin(parts: seq<string>, sep: char)
    requires |parts| >= 1
    requires forall i :: 0 <= i < |parts| ==> sep !in parts[i]
    ensures Split(Join(parts, [sep]), sep) == parts
  {
    if |parts| == 1 {
      SplitLine(parts[0], sep);
    } else {
      SplitJoin(parts[1..], sep);
      SplitAtSeparator(parts[0], Join(parts[1..], [sep]), sep);
      assert [parts[0]] + parts[1..] == parts;
    }
  }

  lemma JoinThree(a: string, b: string, c: string, sep: string)
    ensures Join([a, b, c], sep) == a + sep + b + sep + c
  {
    assert [a, b, c][1..] == [b, c];
    assert [b, c][1..] == [c];
  }

  /** A line without the separator splits into itself. */
  lemma {:induction false} SplitLine(a: string, sep: char)
    requires sep !in a
    ensures Split(a, sep) == [a]
  {
    if |a| > 0 {
      SplitLine(a[1..], sep);
      assert [a[0]] + a[1..] == a;
    }
  }

  /** The first separator ends the first piece. */
  lemma {:induction false} SplitAtSeparator(a: string, b: string, sep: char)
    requires sep !in a
    ensures Split(a + [sep] + b, sep) == [a] + Split(b, sep)
  {
    if |a| == 0 {
      assert a + [sep] + b == [sep] + b;
      assert ([sep] + b)[1..] == b;
    } else {
      assert (a + [sep] + b)[1..] == a[1..] + [sep] + b;
      SplitAtSeparator(a[1..], b, sep);
      assert [a[0]] + a[1..] == a;
    }
  }

  // ---------------------------------------------------------------------
  // String.prototype.trim

  function TrimStart(s: string): (r: string)
    ensures |r| <= |s|
  {
    if |s| > 0 && IsWhitespace(s[0]) then TrimStart(s[1..]) else s
  }

  function TrimEnd(s: string): (r: string)
    ensures |r| <= |s|
  {
    if |s| > 0 && IsWhitespace(s[|s| - 1]) then TrimEnd(s[..|s| - 1]) else s
  }

  function Trim(s: string): string {
    TrimEnd(TrimStart(s))
  }

  /** trimStart removes the longest whitespace prefix. */
  lemma {:induction false} TrimStartSpec(s: string)
    ensures var r := TrimStart(s);
      r == s[|s| - |r|..] &&
      (forall i :: 0 <= i < |s| - |r| ==> IsWhitespace(s[i])) &&
      (|r| == 0 || !IsWhitespace(r[0]))
  {
    if |s| > 0 && IsWhitespace(s[0]) {
      TrimStartSpec(s[1..]);
      var r := TrimStart(s);
      assert s[1..][|s| - 1 - |r|..] == s[|s| - |r|..];
      forall i | 1 <= i < |s| - |r|
        ensures IsWhitespace(s[i])
      {
        assert s[1..][i - 1] == s[i];
      }
    }
  }

  /** trimEnd removes the longest whitespace suffix. */
  lemma {:induction false} TrimEndSpec(s: string)
    ensures var r := TrimEnd(s);
      r == s[..|r|] &&
      (forall i :: |r| <= i < |s| ==> IsWhitespace(s[i])) &&
      (|r| == 0 || !IsWhitespace(r[|r| - 1]))
  {
    if |s| > 0 && IsWhitespace(s[|s| - 1]) {
      TrimEndSpec(s[..|s| - 1]);
      var r := TrimEnd(s);
      assert s[..|s| - 1][..|r|] == s[..|r|];
      forall i | |r| <= i < |s| - 1
        ensures IsWhitespace(s[i])
      {
        assert s[..|s| - 1][i] == s[i];
      }
    }
  }

  /** Trimming a line of indentation, text and trailing blanks leaves the
      text, when it starts and ends with a visible character. */
  lemma TrimIndented(indent: string, core: string, blanks: string)
    requires forall i :: 0 <= i < |indent| ==> IsWhitespace(indent[i])
    requires forall i :: 0 <= i < |blanks| ==> IsWhitespace(blanks[i])
    requires |core| > 0 && !IsWhitespace(core[0]) && !IsWhitespace(core[|core| - 1])
    ensures Trim(indent + core + blanks) == core
  {
    var s := indent + core + blanks;
    var t := TrimStart(s);
    TrimStartSpec(s);
    assert s[|indent|] == core[0];
    assert |t| == |core| + |blanks|;
    assert t == core + blanks by {
      assert s[|indent|..] == core + blanks;
    }
    var u := TrimEnd(t);
    TrimEndSpec(t);
    assert t[|core| - 1] == core[|core| - 1];
    assert |u| == |core|;
    assert u == t[..|core|] == core;
  }

  /** A line of whitespace only trims to the empty string. */
  lemma TrimBlank(s: string)
    requires forall i :: 0 <= i < |s| ==> IsWhitespace(s[i])
    ensures Trim(s) == ""
  {
    TrimStartSpec(s);
  }

  // ---------------------------------------------------------------------
  // String.prototype.toLowerCase, on the ASCII letters

  function LowerChar(c: char): (r: char)
    ensures 'A' <= c <= 'Z' ==> r as int == c as int + 32
    ensures !('A' <= c <= 'Z') ==> r == c
    ensures !('A' <= r <= 'Z')
  {
    if 'A' <= c <= 'Z' then (c as int + 32) as char else c
  }

  function LowerCase(s: string): (r: string)
    ensures |r| == |s|
    ensures forall i :: 0 <= i < |s| ==> r[i] == LowerChar(s[i])
    ensures forall i :: 0 <= i < |r| ==> !('A' <= r[i] <= 'Z')
  {
    seq(|s|, i requires 0 <= i < |s| => LowerChar(s[i]))
  }

  /** Lower-casing a lower-cased text changes nothing. */
  lemma LowerCaseIdempotent(s: string)
    ensures LowerCase(LowerCase(s)) == LowerCase(s)
  {
    var l := LowerCase(s);
    forall i | 0 <= i < |l|
      ensures LowerChar(l[i]) == l[i]
    {
      assert !('A' <= l[i] <= 'Z');
    }
  }

  // ---------------------------------------------------------------------
  // `${n}` for a natural number

  function DecimalDigit(d: nat): (c: char)
    requires d < 10
    ensures '0' <= c <= '9' && c as int - '0' as int == d
  {
    ('0' as int + d) as char
  }

  function NatToString(n: nat): (r: string)
    ensures |r| >= 1
    ensures forall i :: 0 <= i < |r| ==> '0' <= r[i] <= '9'
  {
    if n < 10 then [DecimalDigit(n)] else NatToString(n / 10) + [DecimalDigit(n % 10)]
  }

  /** The value of a string of decimal digits (the inverse of NatToString). */
  function ParseDecimal(s: string): nat {
    if |s| == 0 then 0
    else
      var c := s[|s| - 1];
      10 * ParseDecimal(s[..|s| - 1]) + (if '0' <= c <= '9' then c as int - '0' as int else 0)
  }

  lemma {:induction false} ParseNatToString(n: nat)
    ensures ParseDecimal(NatToString(n)) == n
  {
    if n >= 10 {
      var s := NatToString(n);
      ParseNatToString(n / 10);
      assert s[..|s| - 1] == NatToString(n / 10);
    }
  }

  /** Different numbers render differently. */
  lemma NatToStringInjective(m: nat, n: nat)
    requires NatToString(m) == NatToString(n)
    ensures m == n
  {
    ParseNatToString(m);
    ParseNatToString(n);
  }

  // ---------------------------------------------------------------------
  // The `<` comparison of two strings.

  predicate LexLess(a: string, b: string) {
    |b| > 0 && (|a| == 0 || a[0] < b[0] || (a[0] == b[0] && LexLess(a[1..], b[1..])))
  }

  predicate LexLeq(a: string, b: string) {
    a == b || LexLess(a, b)
  }

  lemma {:induction false} LexLessIrreflexive(a: string)
    ensures !LexLess(a, a)
  {
    if |a| > 0 {
      LexLessIrreflexive(a[1..]);
    }
  }

  lemma {:induction false} LexLessAsymmetric(a: string, b: string)
    requires LexLess(a, b)
    ensures !LexLess(b, a)
  {
    if |a| > 0 && a[0] == b[0] {
      LexLessAsymmetric(a[1..], b[1..]);
    }
  }

  lemma {:induction false} LexLessTransitive(a: string, b: string, c: string)
    requires LexLess(a, b) && LexLess(b, c)
    ensures LexLess(a, c)
  {
    if |a| > 0 && a[0] == b[0] && b[0] == c[0] {
      LexLessTransitive(a[1..], b[1..], c[1..]);
    }
  }

  lemma {:induction false} LexLessTotal(a: string, b: string)
    requires a != b
    ensures LexLess(a, b) || LexLess(b, a)
  {
    if |a| > 0 && |b| > 0 && a[0] == b[0] {
      assert a[1..] != b[1..] by {
        assert a == [a[0]] + a[1..];
        assert b == [b[0]] + b[1..];
      }
      LexLessTotal(a[1..], b[1..]);
    }
  }

  lemma LexLeqTransitive(a: string, b: string, c: string)
    requires LexLeq(a, b) && LexLeq(b, c)
    ensures LexLeq(a, c)
  {
    if a != b && b != c {
      LexLessTransitive(a, b, c);
    }
  }

  lemma LexLeqTotal(a: string, b: string)
    ensures LexLeq(a, b) || LexLeq(b, a)
  {
    if a != b {
      LexLessTotal(a, b);
    }
  }

  /** A common prefix does not change how two strings compare. */
  lemma {:induction false} LexLessCommonPrefix(p: string, a: string, b: string)
    ensures LexLess(p + a, p + b) <==> LexLess(a, b)
  {
    if |p| > 0 {
      assert (p + a)[1..] == p[1..] + a;
      assert (p + b)[1..] == p[1..] + b;
      LexLessCommonPrefix(p[1..], a, b);
      assert LexLess(p + a, p + b) <==> LexLess(p[1..] + a, p[1..] + b);
    } else {
      assert p + a == a && p + b == b;
    }
  }

  /** Strings that start with different characters compare by them. */
  lemma LexLessFirstChar(x: char, a: string, y: char, b: string)
    requires x != y
    ensures LexLess([x] + a, [y] + b) <==> x < y
  {
  }
}
