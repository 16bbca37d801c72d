/**
 * Text helpers of the capture side (src/fs-schema-helpers.ts): line-ending
 * normalisation, identifier quoting and unquoting, and the canonical
 * column order of a table.
 */
module SchemaHelpers {
  import opened Wrappers
  import opened JsStrings
  import opened StableSort
  import opened Types

  // ---------------------------------------------------------------------
  // normalizedSrc

  /** Text free of carriage returns and tabs. */
  predicate Clean(s: string) {
    '\r' !in s && '\t' !in s
  }

  /** `\r\n`, then `\n\r`, then a remaining `\r` become `\n`; a tab becomes
      two spaces. The four global replacements run one after the other. */
  function NormalizedSrc(src: string): (r: string)
    ensures Clean(r)
  {
    var s1 := ReplaceAll(src, "\r\n", "\n");
    var s2 := ReplaceAll(s1, "\n\r", "\n");
    var s3 := ReplaceAll(s2, "\r", "\n");
    ReplaceAllRemoves(s2, '\r', "\n");
    ReplaceAllKeepsOut(s3, "\t", "  ", '\r');
    ReplaceAllRemoves(s3, '\t', "  ");
    ReplaceAll(s3, "\t", "  ")
  }

  /** A pass whose pattern holds `\r` or a tab leaves clean text alone. */
  lemma CleanPassUnchanged(t: string, pat: string, rep: string)
    requires Clean(t) && pat != [] && ('\r' in pat || '\t' in pat)
    ensures ReplaceAll(t, pat, rep) == t
  {
    if '\r' in pat {
      ReplaceAllMissingChar(t, pat, rep, '\r');
    } else {
      ReplaceAllMissingChar(t, pat, rep, '\t');
    }
  }

  /** Clean text is returned unchanged. */
  lemma NormalizedSrcUnchanged(s: string)
    requires Clean(s)
    ensures NormalizedSrc(s) == s
  {
    CleanPassUnchanged(s, "\r\n", "\n");
    CleanPassUnchanged(s, "\n\r", "\n");
    CleanPassUnchanged(s, "\r", "\n");
    CleanPassUnchanged(s, "\t", "  ");
  }

  /** Normalising twice is normalising once. */
  lemma NormalizedSrcIdempotent(s: string)
    ensures NormalizedSrc(NormalizedSrc(s)) == NormalizedSrc(s)
  {
    NormalizedSrcUnchanged(NormalizedSrc(s));
  }

  /** Once the first pass has produced clean text, it is the result. */
  lemma CleanAfterFirstPass(s: string)
    requires Clean(ReplaceAll(s, "\r\n", "\n"))
    ensures NormalizedSrc(s) == ReplaceAll(s, "\r\n", "\n")
  {
    var s1 := ReplaceAll(s, "\r\n", "\n");
    CleanPassUnchanged(s1, "\n\r", "\n");
    CleanPassUnchanged(s1, "\r", "\n");
    CleanPassUnchanged(s1, "\t", "  ");
  }

  /** A pass whose pattern starts with `\r` or a tab copies a clean
      prefix and goes on after it. */
  lemma CleanPrefixCopied(a: string, rest: string, pat: string, rep: string)
    requires Clean(a) && pat != [] && (pat[0] == '\r' || pat[0] == '\t')
    ensures ReplaceAll(a + rest, pat, rep) == a + ReplaceAll(rest, pat, rep)
  {
    forall i | 0 <= i < |a|
      ensures !StartsWith(a[i..] + rest, pat)
    {
      NotStartsWithAt(a[i..] + rest, pat, 0);
    }
    ReplaceAllPrefixFree(a, rest, pat, rep);
  }

  /** A CRLF between two clean pieces becomes one newline. */
  lemma NormalizedCrLf(a: string, b: string)
    requires Clean(a) && Clean(b)
    ensures NormalizedSrc(a + "\r\n" + b) == a + "\n" + b
  {
    assert a + "\r\n" + b == a + ("\r\n" + b);
    CleanPrefixCopied(a, "\r\n" + b, "\r\n", "\n");
    ReplaceAllAtFront("\r\n", b, "\n");
    CleanPassUnchanged(b, "\r\n", "\n");
    assert a + ("\n" + b) == a + "\n" + b;
    CleanAfterFirstPass(a + "\r\n" + b);
  }

  /** A `\r` not followed by a `\n` is copied by the CRLF pass. */
  lemma NoCrLfAtFront(b: string)
    requires Clean(b) && (|b| == 0 || b[0] != '\n')
    ensures ReplaceAll("\r" + b, "\r\n", "\n") == "\r" + b
  {
    NotStartsWithAt("\r" + b, "\r\n", 1);
    assert ("\r" + b)[1..] == b;
    CleanPassUnchanged(b, "\r\n", "\n");
  }

  /** A `\r` followed by a `\n` is a CRLF for the first pass. */
  lemma CrLfAtFront(b: string)
    requires Clean(b)
    ensures ReplaceAll("\r\n" + b, "\r\n", "\n") == "\n" + b
  {
    ReplaceAllAtFront("\r\n", b, "\n");
    CleanPassUnchanged(b, "\r\n", "\n");
  }

  /** The first pass on `a + "\n\r" + b` where `b` opens with a newline:
      the `\r` and that newline form a CRLF. */
  lemma LfCrFirstPassMerges(a: string, b: string)
    requires Clean(a) && Clean(b) && |b| > 0 && b[0] == '\n'
    ensures ReplaceAll(a + "\n\r" + b, "\r\n", "\n") == a + "\n" + b
  {
    var t := b[1..];
    assert b == "\n" + t;
    assert Clean(t);
    var a2 := a + "\n";
    var rest := "\r\n" + t;
    LfCrRegroup(a, t);
    assert Clean(a2);
    CleanPrefixCopied(a2, rest, "\r\n", "\n");
    CrLfAtFront(t);
    assert (a + "\n") + ("\n" + t) == a + "\n" + ("\n" + t);
  }

  lemma LfCrRegroup(a: string, t: string)
    ensures a + "\n\r" + ("\n" + t) == (a + "\n") + ("\r\n" + t)
  {
    var l, r := a + "\n\r" + ("\n" + t), (a + "\n") + ("\r\n" + t);
    assert |l| == |r|;
    forall i | 0 <= i < |l|
      ensures l[i] == r[i]
    {
    }
  }

  /** Otherwise the first pass on `a + "\n\r" + b` changes nothing. */
  lemma LfCrFirstPassKeeps(a: string, b: string)
    requires Clean(a) && Clean(b) && (|b| == 0 || b[0] != '\n')
    ensures ReplaceAll(a + "\n\r" + b, "\r\n", "\n") == a + "\n\r" + b
  {
    var a2 := a + "\n";
    var rest := "\r" + b;
    assert a + "\n\r" + b == a2 + rest;
    assert Clean(a2);
    CleanPrefixCopied(a2, rest, "\r\n", "\n");
    NoCrLfAtFront(b);
  }

  /** The second pass replaces the LFCR between clean pieces. */
  lemma LfCrSecondPass(a: string, b: string)
    requires Clean(a) && Clean(b)
    ensures ReplaceAll(a + "\n\r" + b, "\n\r", "\n") == a + "\n" + b
  {
    var rest := "\n\r" + b;
    forall i | 0 <= i < |a|
      ensures !StartsWith(a[i..] + rest, "\n\r")
    {
      var t := a[i..] + rest;
      assert t[1] == if i + 1 < |a| then a[i + 1] else '\n';
      NotStartsWithAt(t, "\n\r", 1);
    }
    assert a + "\n\r" + b == a + rest;
    ReplaceAllPrefixFree(a, rest, "\n\r", "\n");
    ReplaceAllAtFront("\n\r", b, "\n");
    CleanPassUnchanged(b, "\n\r", "\n");
  }

  /** An LFCR between two clean pieces becomes one newline. */
  lemma NormalizedLfCr(a: string, b: string)
    requires Clean(a) && Clean(b)
    ensures NormalizedSrc(a + "\n\r" + b) == a + "\n" + b
  {
    if |b| > 0 && b[0] == '\n' {
      LfCrFirstPassMerges(a, b);
      CleanAfterFirstPass(a + "\n\r" + b);
    } else {
      LfCrFirstPassKeeps(a, b);
      LfCrSecondPass(a, b);
      var s2 := a + "\n" + b;
      CleanPassUnchanged(s2, "\r", "\n");
      CleanPassUnchanged(s2, "\t", "  ");
    }
  }

  /** The CRLF pass leaves a lone carriage return alone. */
  lemma LoneCrFirstPass(a: string, b: string)
    requires Clean(a) && Clean(b)
    requires |b| == 0 || b[0] != '\n'
    ensures ReplaceAll(a + "\r" + b, "\r\n", "\n") == a + "\r" + b
  {
    assert a + "\r" + b == a + ("\r" + b);
    CleanPrefixCopied(a, "\r" + b, "\r\n", "\n");
    NoCrLfAtFront(b);
  }

  /** The LFCR pass leaves a lone carriage return alone. */
  lemma LoneCrSecondPass(a: string, b: string)
    requires Clean(a) && Clean(b)
    requires |a| == 0 || a[|a| - 1] != '\n'
    ensures ReplaceAll(a + "\r" + b, "\n\r", "\n") == a + "\r" + b
  {
    var rest := "\r" + b;
    forall i | 0 <= i < |a|
      ensures !StartsWith(a[i..] + rest, "\n\r")
    {
      var t := a[i..] + rest;
      if i + 1 < |a| {
        assert t[1] == a[i + 1];
        NotStartsWithAt(t, "\n\r", 1);
      } else {
        assert t[0] == a[|a| - 1];
        NotStartsWithAt(t, "\n\r", 0);
      }
    }
    assert a + "\r" + b == a + rest;
    ReplaceAllPrefixFree(a, rest, "\n\r", "\n");
    NotStartsWithAt(rest, "\n\r", 0);
    assert rest[1..] == b;
    CleanPassUnchanged(b, "\n\r", "\n");
  }

  /** The third pass turns the carriage return into a newline. */
  lemma LoneCrThirdPass(a: string, b: string)
    requires Clean(a) && Clean(b)
    ensures ReplaceAll(a + "\r" + b, "\r", "\n") == a + "\n" + b
  {
    assert a + "\r" + b == a + ("\r" + b);
    CleanPrefixCopied(a, "\r" + b, "\r", "\n");
    ReplaceAllAtFront("\r", b, "\n");
    CleanPassUnchanged(b, "\r", "\n");
  }

  /** A lone carriage return, not next to a newline, becomes a newline. */
  lemma NormalizedLoneCr(a: string, b: string)
    requires Clean(a) && Clean(b)
    requires |a| == 0 || a[|a| - 1] != '\n'
    requires |b| == 0 || b[0] != '\n'
    ensures NormalizedSrc(a + "\r" + b) == a + "\n" + b
  {
    LoneCrFirstPass(a, b);
    LoneCrSecondPass(a, b);
    LoneCrThirdPass(a, b);
    CleanPassUnchanged(a + "\n" + b, "\t", "  ");
  }

  /** A tab between two clean pieces becomes two spaces. */
  lemma NormalizedTab(a: string, b: string)
    requires Clean(a) && Clean(b)
    ensures NormalizedSrc(a + "\t" + b) == a + "  " + b
  {
    var s := a + "\t" + b;
    assert '\r' !in s;
    NoCarriageReturnPasses(s);
    TabPass(a, b);
  }

  /** Without carriage returns only the tab pass changes anything. */
  lemma NoCarriageReturnPasses(s: string)
    requires '\r' !in s
    ensures NormalizedSrc(s) == ReplaceAll(s, "\t", "  ")
  {
    ReplaceAllMissingChar(s, "\r\n", "\n", '\r');
    ReplaceAllMissingChar(s, "\n\r", "\n", '\r');
    ReplaceAllMissingChar(s, "\r", "\n", '\r');
  }

  lemma TabPass(a: string, b: string)
    requires Clean(a) && Clean(b)
    ensures ReplaceAll(a + "\t" + b, "\t", "  ") == a + "  " + b
  {
    assert a + "\t" + b == a + ("\t" + b);
    CleanPrefixCopied(a, "\t" + b, "\t", "  ");
    ReplaceAllAtFront("\t", b, "  ");
    CleanPassUnchanged(b, "\t", "  ");
    assert a + ("  " + b) == a + "  " + b;
  }

  /** The cases of src/__tests__/fs-schema-helpers.test.ts: a lone carriage return, */
  lemma NormalizedSrcCrExample()
    ensures NormalizedSrc("hello\rworld") == "hello\nworld"
  {
    var a, b := "hello", "world";
    assert "hello\rworld" == a + "\r" + b;
    NormalizedLoneCr(a, b);
    assert a + "\n" + b == "hello\nworld";
  }

  /** a Windows line break, */
  lemma NormalizedSrcCrLfExample()
    ensures NormalizedSrc("hello\r\nworld") == "hello\nworld"
  {
    var a, b := "hello", "world";
    assert "hello\r\nworld" == a + "\r\n" + b;
    NormalizedCrLf(a, b);
    assert a + "\n" + b == "hello\nworld";
  }

  /** a reversed pair, */
  lemma NormalizedSrcLfCrExample()
    ensures NormalizedSrc("hello\n\rworld") == "hello\nworld"
  {
    var a, b := "hello", "world";
    assert "hello\n\rworld" == a + "\n\r" + b;
    NormalizedLfCr(a, b);
    assert a + "\n" + b == "hello\nworld";
  }

  /** and a plain line feed. */
  lemma NormalizedSrcLfExample()
    ensures NormalizedSrc("hello\nworld") == "hello\nworld"
  {
    NormalizedSrcUnchanged("hello\nworld");
  }

  /** The tab case of src/__tests__/fs-schema-helpers.test.ts. */
  lemma NormalizedSrcTabExample()
    ensures NormalizedSrc("hello\tworld") == "hello  world"
  {
    var a, b := "hello", "world";
    assert "hello\tworld" == a + "\t" + b;
    NormalizedTab(a, b);
    assert a + "  " + b == "hello  world";
  }

  // ---------------------------------------------------------------------
  // unquoted and quotedIfKeyword

  /** A value that starts with a double quote loses its first and last
      characters; anything else is returned as it is. Only the leading
      quote is checked. */
  function Unquoted(value: string): (r: string)
    ensures |value| >= 2 && value[0] == '"' ==> r == value[1..|value| - 1]
    ensures !(|value| >= 2 && value[0] == '"') ==> r == value
  {
    if StartsWith(value, "\"") then Substring(value, 1, |value| - 1) else value
  }

  const Keywords: seq<string> := ["count", "end", "from", "limit", "line", "uuid"]

  predicate IsKeyword(value: string) {
    LowerCase(value) in Keywords
  }

  /** Double-quotes a value whose lower-case form is one of the keywords. */
  function QuotedIfKeyword(value: string): (r: string)
    ensures r == value || r == "\"" + value + "\""
    ensures r != value <==> IsKeyword(value)
  {
    if IsKeyword(value) then "\"" + value + "\"" else value
  }

  /** Unquoting undoes the quoting, for a value that does not itself start
      with a double quote. */
  lemma UnquotedQuotedIfKeyword(x: string)
    requires |x| == 0 || x[0] != '"'
    ensures Unquoted(QuotedIfKeyword(x)) == x
  {
    var q := "\"" + x + "\"";
    assert q[1..|q| - 1] == x;
  }

  /** A keyword is matched whatever its letter case. */
  lemma IsKeywordIgnoresCase(x: string, y: string)
    requires LowerCase(x) == LowerCase(y)
    ensures QuotedIfKeyword(x) == "\"" + x + "\"" <==> QuotedIfKeyword(y) == "\"" + y + "\""
  {
  }

  /** A name ending in `_fk` is never quoted: no keyword ends so. */
  lemma ForeignKeyNameUnquoted(name: string)
    ensures QuotedIfKeyword(name + "_fk") == name + "_fk"
  {
    var v := name + "_fk";
    var l := LowerCase(v);
    assert l[|l| - 3] == '_';
    assert forall k :: k in Keywords ==> '_' !in k;
  }

  // ---------------------------------------------------------------------
  // sortedAttributes

  const Head: seq<string> := ["id", "created_at", "updated_at", "deleted_at"]

  function HeadIndex(name: string): (i: nat)
    requires name in Head
    ensures i < |Head| && Head[i] == name
  {
    if name == "id" then 0 else if name == "created_at" then 1 else if name == "updated_at" then 2 else 3
  }

  /** The sort key as lodash compares it: `[i]` for the i-th head column,
      `[4, 0 or 1, name]` otherwise, each array read as its comma-joined
      string. */
  function AttributeKey(a: Attribute): string {
    if a.name in Head then NatToString(HeadIndex(a.name))
    else Join([NatToString(|Head|), if a.references.Some? then "0" else "1", a.name], ",")
  }

  function SortedAttributes(attributes: seq<Attribute>): seq<Attribute> {
    SortBy(attributes, AttributeKey)
  }

  /** Column `a` may come before column `b`: head columns first, in their
      fixed order; then columns with a reference; each group by name. */
  predicate ColumnOrder(a: Attribute, b: Attribute) {
    if a.name in Head && b.name in Head then HeadIndex(a.name) <= HeadIndex(b.name)
    else if a.name in Head then true
    else if b.name in Head then false
    else if a.references.Some? != b.references.Some? then a.references.Some?
    else LexLeq(a.name, b.name)
  }

  /** The comma-joined key orders columns exactly as ColumnOrder says. */
  lemma AttributeKeyOrder(a: Attribute, b: Attribute)
    ensures LexLeq(AttributeKey(a), AttributeKey(b)) <==> ColumnOrder(a, b)
  {
    if a.name !in Head && b.name !in Head {
      TailKeyOrder(a, b);
    } else if a.name in Head && b.name !in Head {
      HeadKeyFirst(a, b);
    } else if a.name !in Head && b.name in Head {
      HeadKeyFirst(b, a);
      LexLessAsymmetric(AttributeKey(b), AttributeKey(a));
    } else {
      var ka, kb := AttributeKey(a), AttributeKey(b);
      assert ka == [DecimalDigit(HeadIndex(a.name))] && kb == [DecimalDigit(HeadIndex(b.name))];
    }
  }

  /** `0` for a column with a reference, `1` for one without. */
  function RefFlag(a: Attribute): string {
    if a.references.Some? then "0" else "1"
  }

  lemma TailKey(a: Attribute)
    requires a.name !in Head
    ensures AttributeKey(a) == "4," + (RefFlag(a) + ("," + a.name))
  {
    assert NatToString(|Head|) == "4";
    JoinThree("4", RefFlag(a), a.name, ",");
  }

  /** Two columns outside the head: reference flag first, then name. */
  lemma TailKeyOrder(a: Attribute, b: Attribute)
    requires a.name !in Head && b.name !in Head
    ensures LexLeq(AttributeKey(a), AttributeKey(b)) <==> ColumnOrder(a, b)
  {
    var fa, fb := RefFlag(a), RefFlag(b);
    TailKey(a);
    TailKey(b);
    LexLessCommonPrefix("4,", fa + ("," + a.name), fb + ("," + b.name));
    if fa == fb {
      SameFlagOrder(fa, a.name, b.name);
    } else {
      LexLessFirstChar(fa[0], "," + a.name, fb[0], "," + b.name);
      assert fa + ("," + a.name) == [fa[0]] + ("," + a.name);
      assert fb + ("," + b.name) == [fb[0]] + ("," + b.name);
    }
  }

  lemma SameFlagOrder(f: string, x: string, y: string)
    ensures LexLess(f + ("," + x), f + ("," + y)) <==> LexLess(x, y)
  {
    assert f + ("," + x) == (f + ",") + x;
    assert f + ("," + y) == (f + ",") + y;
    LexLessCommonPrefix(f + ",", x, y);
  }

  /** A head column's one-digit key is below every other column's key. */
  lemma HeadKeyFirst(a: Attribute, b: Attribute)
    requires a.name in Head && b.name !in Head
    ensures LexLess(AttributeKey(a), AttributeKey(b))
  {
    var ka, kb := AttributeKey(a), AttributeKey(b);
    assert ka == [DecimalDigit(HeadIndex(a.name))];
    assert ka == [ka[0]] + [] && '0' <= ka[0] <= '3';
    TailKey(b);
    assert kb[0] == '4';
    assert kb == ['4'] + kb[1..];
    LexLessFirstChar(ka[0], [], '4', kb[1..]);
  }

  /** The columns come out in ColumnOrder. */
  lemma SortedAttributesOrdered(attributes: seq<Attribute>)
    ensures forall i, j :: 0 <= i < j < |SortedAttributes(attributes)| ==>
      ColumnOrder(SortedAttributes(attributes)[i], SortedAttributes(attributes)[j])
  {
    var r := SortedAttributes(attributes);
    SortBySorted(attributes, AttributeKey);
    forall i, j | 0 <= i < j < |r|
      ensures ColumnOrder(r[i], r[j])
    {
      AttributeKeyOrder(r[i], r[j]);
    }
  }

  /** The columns are a permutation of the input. */
  lemma SortedAttributesPermutation(attributes: seq<Attribute>)
    ensures |SortedAttributes(attributes)| == |attributes|
    ensures multiset(SortedAttributes(attributes)) == multiset(attributes)
  {
    SortByPermutation(attributes, AttributeKey);
  }

  /** Columns with equal keys keep their input order. */
  lemma SortedAttributesStable(attributes: seq<Attribute>, k: string)
    ensures WithKey(SortedAttributes(attributes), AttributeKey, k) == WithKey(attributes, AttributeKey, k)
  {
    SortByStable(attributes, AttributeKey, k);
  }
}
