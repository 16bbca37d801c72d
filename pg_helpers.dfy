/**
 * SQL literal quoting for the catalog queries: a value is wrapped in single
 * quotes and copied as it is in between (no quote doubling, no escaping).
 */
module PgHelpers {

  /** `'${item}'` for a string item. */
  function PgQuoteString(item: string): (r: string)
    ensures |r| == |item| + 2
    ensures r[0] == '\'' && r[|r| - 1] == '\''
    ensures forall i :: 0 <= i < |item| ==> r[i + 1] == item[i]
  {
    "'" + item + "'"
  }

  /** The text between the outer single quotes of a quoted literal. */
  function StripSingleQuotes(r: string): (s: string)
    requires |r| >= 2
    ensures |s| == |r| - 2
  {
    r[1..|r| - 1]
  }

  /** The quoted value is exactly the input between two quotes, so the input
      can be read back from it. */
  lemma PgQuoteStringRoundTrip(item: string)
    ensures StripSingleQuotes(PgQuoteString(item)) == item
  {
    var r := PgQuoteString(item);
    assert r[1..|r| - 1] == item;
  }

  /** Distinct values quote to distinct literals. */
  lemma PgQuoteStringInjective(a: string, b: string)
    requires PgQuoteString(a) == PgQuoteString(b)
    ensures a == b
  {
    PgQuoteStringRoundTrip(a);
    PgQuoteStringRoundTrip(b);
  }

  /** The number of occurrences of `c` in `s`. */
  function Count(s: string, c: char): nat {
    if |s| == 0 then 0 else Count(s[..|s| - 1], c) + (if s[|s| - 1] == c then 1 else 0)
  }

  lemma {:induction false} CountAppend(a: string, b: string, c: char)
    ensures Count(a + b, c) == Count(a, c) + Count(b, c)
  {
    if |b| > 0 {
      CountAppend(a, b[..|b| - 1], c);
      assert (a + b)[..|a + b| - 1] == a + b[..|b| - 1];
    } else {
      assert a + b == a;
    }
  }

  /** No escaping: a single quote inside the value is copied, so the literal
      holds exactly two quotes more than the value. */
  lemma PgQuoteStringQuoteCount(item: string)
    ensures Count(PgQuoteString(item), '\'') == Count(item, '\'') + 2
  {
    CountAppend("'" + item, "'", '\'');
    CountAppend("'", item, '\'');
    assert Count("'", '\'') == 1 by {
      assert "'"[..0] == "";
    }
  }

  /** `arr.map(pgQuoteString)`. */
  function PgQuoteStrings(arr: seq<string>): (r: seq<string>)
    ensures |r| == |arr|
    ensures forall i :: 0 <= i < |arr| ==> r[i] == PgQuoteString(arr[i])
  {
    if |arr| == 0 then [] else PgQuoteStrings(arr[..|arr| - 1]) + [PgQuoteString(arr[|arr| - 1])]
  }

  /** Every quoted element can be read back: the input is recovered. */
  lemma PgQuoteStringsRoundTrip(arr: seq<string>)
    ensures |PgQuoteStrings(arr)| == |arr|
    ensures forall i :: 0 <= i < |arr| ==> StripSingleQuotes(PgQuoteStrings(arr)[i]) == arr[i]
  {
    forall i | 0 <= i < |arr|
      ensures StripSingleQuotes(PgQuoteStrings(arr)[i]) == arr[i]
    {
      PgQuoteStringRoundTrip(arr[i]);
    }
  }
}
