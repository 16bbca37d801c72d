/**
 * The rewrite applied to every index definition read from `pg_indexes`:
 * `src.replace(/^CREATE(\sUNIQUE)?\sINDEX/i, a => `${a} IF NOT EXISTS`)`.
 * The pattern is anchored at the start of the text (no multiline flag),
 * matches letters in either case, and the matched text is kept as it was
 * with " IF NOT EXISTS" added after it.
 */
module Indexes {
  import opened Wrappers
  import opened JsStrings

  const IfNotExists: string := " IF NOT EXISTS"

  /** The text at position k spells the lower-case word w in any letter case.
      Without the `u` flag, a case-insensitive JavaScript pattern equates only
      the ASCII letters with their other case. */
  predicate WordAt(s: string, k: nat, w: string) {
    k + |w| <= |s| && forall i :: 0 <= i < |w| ==> LowerChar(s[k + i]) == w[i]
  }

  predicate SpaceAt(s: string, k: nat) {
    k < |s| && IsWhitespace(s[k])
  }

  /** `CREATE<ws>UNIQUE<ws>INDEX` at the start of s. */
  predicate CreateUniqueIndexAtStart(s: string) {
    WordAt(s, 0, "create") && SpaceAt(s, 6) && WordAt(s, 7, "unique") && SpaceAt(s, 13) && WordAt(s, 14, "index")
  }

  /** `CREATE<ws>INDEX` at the start of s. */
  predicate CreateIndexAtStart(s: string) {
    WordAt(s, 0, "create") && SpaceAt(s, 6) && WordAt(s, 7, "index")
  }

  /** The length of the text the anchored pattern matches, if any. The
      optional group is tried first, as the greedy `?` does, and the
      alternative without it is tried when the group cannot be followed by
      `\sINDEX`. */
  function MatchLength(src: string): (r: Option<nat>)
    ensures r.Some? ==> r.value <= |src|
    ensures r == Some(19) <==> CreateUniqueIndexAtStart(src)
    ensures r == Some(12) <==> !CreateUniqueIndexAtStart(src) && CreateIndexAtStart(src)
    ensures r.None? <==> !CreateUniqueIndexAtStart(src) && !CreateIndexAtStart(src)
    ensures r.Some? ==> r.value >= 12 && LowerCase(src[..6]) == "create" && IsWhitespace(src[6])
    ensures r.Some? ==> IsWhitespace(src[r.value - 6]) && LowerCase(src[r.value - 5..r.value]) == "index"
  {
    if CreateUniqueIndexAtStart(src) then
      WordAtLower(src, 0, "create");
      WordAtLower(src, 14, "index");
      Some(19)
    else if CreateIndexAtStart(src) then
      WordAtLower(src, 0, "create");
      WordAtLower(src, 7, "index");
      Some(12)
    else None
  }

  /** A word found by WordAt is the lower-cased slice of the text. */
  lemma WordAtLower(s: string, k: nat, w: string)
    requires WordAt(s, k, w)
    ensures LowerCase(s[k..k + |w|]) == w
  {
    var l := LowerCase(s[k..k + |w|]);
    forall i | 0 <= i < |w|
      ensures l[i] == w[i]
    {
      assert s[k..k + |w|][i] == s[k + i];
    }
  }

  /** The rewritten definition. */
  function IndexSrc(src: string): (r: string)
  {
    match MatchLength(src)
    case Some(n) => src[..n] + IfNotExists + src[n..]
    case None => src
  }

  /** On a match the text gains exactly " IF NOT EXISTS" right after the
      matched prefix, whose letter case is kept. */
  lemma IndexSrcOnMatch(src: string)
    requires MatchLength(src).Some?
    ensures var n := MatchLength(src).value;
      var r := IndexSrc(src);
      |r| == |src| + 14 &&
      r[..n] == src[..n] &&
      r[n..n + 14] == " IF NOT EXISTS" &&
      r[n + 14..] == src[n..]
  {
    var n := MatchLength(src).value;
    var r := IndexSrc(src);
    assert r == src[..n] + IfNotExists + src[n..];
    assert r[..n] == src[..n];
    assert r[n..n + 14] == IfNotExists;
    assert r[n + 14..] == src[n..];
  }

  /** Without a match at position 0 the text is unchanged. */
  lemma IndexSrcNoMatch(src: string)
    requires MatchLength(src).None?
    ensures IndexSrc(src) == src
  {
  }

  /** Whether the pattern matches depends only on the first 19 characters,
      or the first 12 for a plain index. */
  lemma MatchOnPrefix(s: string, t: string, n: nat)
    requires n == 19 || n == 12
    requires n <= |s| && n <= |t| && s[..n] == t[..n]
    ensures n == 19 ==> (CreateUniqueIndexAtStart(s) <==> CreateUniqueIndexAtStart(t))
    ensures n == 12 ==> (CreateIndexAtStart(s) <==> CreateIndexAtStart(t))
    ensures n == 12 && |s| < 19 && |t| < 19 ==> (CreateUniqueIndexAtStart(s) <==> CreateUniqueIndexAtStart(t))
  {
    forall k | 0 <= k < n
      ensures s[k] == t[k]
    {
      assert s[k] == s[..n][k] && t[k] == t[..n][k];
    }
  }

  lemma UniqueHead()
    ensures CreateUniqueIndexAtStart("CREATE UNIQUE INDEX")
  {
    var h := "CREATE UNIQUE INDEX";
    assert WordAt(h, 0, "create");
    assert WordAt(h, 7, "unique");
    assert WordAt(h, 14, "index");
  }

  lemma PlainHead()
    ensures CreateIndexAtStart("create index") && !CreateUniqueIndexAtStart("create index")
  {
    var h := "create index";
    assert WordAt(h, 0, "create");
    assert WordAt(h, 7, "index");
  }

  /** A unique index gets the clause after `INDEX`, not after `CREATE`. */
  lemma IndexSrcUnique(rest: string)
    ensures IndexSrc("CREATE UNIQUE INDEX" + rest) == "CREATE UNIQUE INDEX IF NOT EXISTS" + rest
  {
    var head := "CREATE UNIQUE INDEX";
    var s := head + rest;
    assert s[..19] == head[..19] && s[19..] == rest;
    UniqueHead();
    MatchOnPrefix(s, head, 19);
    assert head + IfNotExists == "CREATE UNIQUE INDEX IF NOT EXISTS";
  }

  /** A plain index gets the clause after `INDEX`, whatever the case. */
  lemma IndexSrcPlainLowerCase(rest: string)
    ensures IndexSrc("create index" + rest) == "create index IF NOT EXISTS" + rest
  {
    var head := "create index";
    var s := head + rest;
    assert s[..12] == head[..12] && s[12..] == rest;
    PlainHead();
    MatchOnPrefix(s, head, 12);
    // `UNIQUE` would need a `u` where the text has the `i` of `index`.
    assert LowerChar(s[7]) == 'i' != "unique"[0];
    assert !CreateUniqueIndexAtStart(s);
    assert head + IfNotExists == "create index IF NOT EXISTS";
  }

  /** The pattern is anchored: a definition that does not start with a `c`
      in either case is left alone, wherever `CREATE INDEX` occurs in it. */
  lemma IndexSrcAnchored(src: string)
    requires |src| > 0 && LowerChar(src[0]) != 'c'
    ensures IndexSrc(src) == src
  {
    assert !WordAt(src, 0, "create") by {
      assert "create"[0] == 'c';
    }
  }

  /** Lower-casing keeps a character's whitespace class. */
  lemma LowerCharWhitespace(c: char)
    ensures IsWhitespace(LowerChar(c)) <==> IsWhitespace(c)
  {
  }

  /** Letter case does not matter to the match. */
  lemma MatchLengthIgnoresCase(s: string, t: string)
    requires LowerCase(s) == LowerCase(t)
    ensures MatchLength(s) == MatchLength(t)
  {
    assert |s| == |t|;
    forall k | 0 <= k < |s|
      ensures LowerChar(s[k]) == LowerChar(t[k])
      ensures IsWhitespace(s[k]) <==> IsWhitespace(t[k])
    {
      assert LowerCase(s)[k] == LowerCase(t)[k];
      LowerCharWhitespace(s[k]);
      LowerCharWhitespace(t[k]);
    }
  }

  /** The rewritten text still starts with the same match. */
  lemma MatchLengthAfterRewrite(src: string)
    ensures MatchLength(IndexSrc(src)) == MatchLength(src)
  {
    if MatchLength(src).Some? {
      var n := MatchLength(src).value;
      var r := IndexSrc(src);
      IndexSrcOnMatch(src);
      forall k | 0 <= k < n
        ensures r[k] == src[k]
      {
        assert r[k] == r[..n][k];
        assert src[k] == src[..n][k];
      }
      if n == 12 {
        // Both texts have an `i` where `UNIQUE` would need its `u`.
        assert LowerChar(src[7 + 0]) == "index"[0] == 'i' != "unique"[0];
        assert r[7] == src[7];
      }
    }
  }

  /** A row of `pg_indexes` as the query returns it; only `src` is
      reassigned by the rewrite. */
  class IndexRow {
    var schema: string
    var table: string
    var name: string
    var src: string

    constructor (schema: string, table: string, name: string, src: string)
      ensures this.schema == schema && this.table == table && this.name == name && this.src == src
    {
      this.schema := schema;
      this.table := table;
      this.name := name;
      this.src := src;
    }
  }

  /** `result.rows.map(row => { row.src = ...; return row; })`: the rows come
      back as the same objects in the same order, each with its definition
      rewritten and its other fields untouched. The rows are distinct
      objects, as the driver creates a new one per row. */
  method CollectIndexRows(rows: seq<IndexRow>) returns (r: seq<IndexRow>)
    requires forall i, j :: 0 <= i < j < |rows| ==> rows[i] != rows[j]
    modifies set row | row in rows
    ensures r == rows
    ensures forall i :: 0 <= i < |rows| ==> rows[i].src == IndexSrc(old(rows[i].src))
    ensures forall i :: 0 <= i < |rows| ==>
      rows[i].schema == old(rows[i].schema) && rows[i].table == old(rows[i].table) && rows[i].name == old(rows[i].name)
  {
    for i := 0 to |rows|
      invariant forall j :: 0 <= j < i ==> rows[j].src == IndexSrc(old(rows[j].src))
      invariant forall j :: i <= j < |rows| ==> rows[j].src == old(rows[j].src)
      invariant forall j :: 0 <= j < |rows| ==>
        rows[j].schema == old(rows[j].schema) && rows[j].table == old(rows[j].table) && rows[j].name == old(rows[j].name)
    {
      rows[i].src := IndexSrc(rows[i].src);
    }
    r := rows;
  }
}
