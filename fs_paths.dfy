/**
 * The output directory of a dump: the file-name templates `FsSchema`
 * writes, the replay order `readDir` gives the files back in, and the
 * collision-safe choice of a file name (`_v2`, `_v3`, ... after the name
 * when it is taken). The directory is a map from file name to content.
 */
module FsPaths {
  import opened JsStrings
  import opened StableSort
  import SchemaHelpers

  const ExtensionPrefix: string := "extension."
  const SchemaPrefix: string := "schema."
  const SequencePrefix: string := "sequence."
  const TypePrefix: string := "type."
  const TablePrefix: string := "table."
  const ForeignKeyPrefix: string := "fk."

  const FunctionPrefix: string := "function."
  const IndexPrefix: string := "index."
  const TriggerPrefix: string := "trigger."
  const ViewPrefix: string := "view."

  /** The prefixes `readDir` checks, in the order it checks them. */
  const ReplayPrefixes: seq<string> :=
    [ExtensionPrefix, SchemaPrefix, SequencePrefix, TypePrefix, TablePrefix, ForeignKeyPrefix]

  // ---------------------------------------------------------------------
  // File names

  function ExtensionFile(name: string): string { ExtensionPrefix + name + ".sql" }
  function SchemaFile(schema: string): string { SchemaPrefix + schema + ".sql" }
  function TypeFile(name: string): string { TypePrefix + name + ".sql" }
  function FunctionFile(schema: string, name: string): string { FunctionPrefix + schema + "." + name + ".sql" }
  function IndexFile(schema: string, table: string, name: string): string {
    IndexPrefix + schema + "." + table + "." + name + ".sql"
  }
  function SequenceFile(schema: string, name: string): string { SequencePrefix + schema + "." + name + ".sql" }
  function ViewFile(schema: string, name: string): string { ViewPrefix + schema + "." + name + ".sql" }
  /** The trigger's table is named without its double quotes. */
  function TriggerFile(schema: string, table: string, name: string): string {
    TriggerPrefix + schema + "." + SchemaHelpers.Unquoted(table) + "." + name + ".sql"
  }
  function TableFile(schema: string, table: string): string { TablePrefix + schema + "." + table + ".sql" }
  function ForeignKeyFile(schema: string, table: string, fkName: string): string {
    ForeignKeyPrefix + schema + "." + table + "." + fkName + ".sql"
  }

  // ---------------------------------------------------------------------
  // readDir: the replay order

  /** `checks.indexOf(true)` from position i on, or the number of checks
      when no prefix matches. */
  function FirstPrefix(file: string, i: nat): (b: nat)
    requires i <= |ReplayPrefixes|
    ensures i <= b <= |ReplayPrefixes|
    ensures b < |ReplayPrefixes| ==> StartsWith(file, ReplayPrefixes[b])
    ensures forall j :: i <= j < b ==> !StartsWith(file, ReplayPrefixes[j])
    decreases |ReplayPrefixes| - i
  {
    if i == |ReplayPrefixes| then i
    else if StartsWith(file, ReplayPrefixes[i]) then i
    else FirstPrefix(file, i + 1)
  }

  /** The bucket of a file: 0 extension, 1 schema, 2 sequence, 3 type,
      4 table, 5 foreign key, 6 anything else. */
  function Bucket(file: string): (b: nat)
    ensures b <= 6
    ensures b < 6 ==> StartsWith(file, ReplayPrefixes[b])
    ensures forall j :: 0 <= j < b ==> !StartsWith(file, ReplayPrefixes[j])
  {
    FirstPrefix(file, 0)
  }

  /** The sort key `${num}-${file}`. */
  function ReplayKey(file: string): string {
    NatToString(Bucket(file)) + "-" + file
  }

  /** `readDir`: the listing sorted (stably) by the replay key. */
  function ReplayOrder(listing: seq<string>): seq<string> {
    SortBy(listing, ReplayKey)
  }

  /** File a is replayed before file b: a lower bucket, or the same bucket
      and a smaller name. */
  predicate ReplayedBefore(a: string, b: string) {
    Bucket(a) < Bucket(b) || (Bucket(a) == Bucket(b) && LexLess(a, b))
  }

  predicate ReplayOrdered(s: seq<string>) {
    forall i, j :: 0 <= i < j < |s| ==> ReplayedBefore(s[i], s[j])
  }

  predicate NoDuplicates(s: seq<string>) {
    forall i, j :: 0 <= i < j < |s| ==> s[i] != s[j]
  }

  /** The key is a one-digit bucket, a dash and the name. */
  lemma ReplayKeyShape(file: string)
    ensures ReplayKey(file) == [DecimalDigit(Bucket(file))] + "-" + file
  {
  }

  /** Comparing keys compares bucket first, then name. */
  lemma ReplayKeyLess(a: string, b: string)
    ensures LexLess(ReplayKey(a), ReplayKey(b)) <==> ReplayedBefore(a, b)
  {
    ReplayKeyShape(a);
    ReplayKeyShape(b);
    var da, db := DecimalDigit(Bucket(a)), DecimalDigit(Bucket(b));
    if Bucket(a) == Bucket(b) {
      assert ReplayKey(a) == [da, '-'] + a && ReplayKey(b) == [da, '-'] + b;
      LexLessCommonPrefix([da, '-'], a, b);
    } else {
      assert ReplayKey(a) == [da] + ("-" + a) && ReplayKey(b) == [db] + ("-" + b);
      LexLessFirstChar(da, "-" + a, db, "-" + b);
    }
  }

  /** Different files have different keys. */
  lemma ReplayKeyInjective(a: string, b: string)
    requires ReplayKey(a) == ReplayKey(b)
    ensures a == b
  {
    ReplayKeyShape(a);
    ReplayKeyShape(b);
    var ka := ReplayKey(a);
    assert a == ka[2..] && b == ReplayKey(b)[2..];
  }

  /** `readDir` returns the listing rearranged. */
  lemma ReplayOrderPermutation(listing: seq<string>)
    ensures |ReplayOrder(listing)| == |listing|
    ensures multiset(ReplayOrder(listing)) == multiset(listing)
  {
    SortByPermutation(listing, ReplayKey);
  }

  /** `readDir` returns the files by bucket, then by name. */
  lemma ReplayOrderOrdered(listing: seq<string>)
    requires NoDuplicates(listing)
    ensures ReplayOrdered(ReplayOrder(listing))
    ensures NoDuplicates(ReplayOrder(listing))
  {
    var r := ReplayOrder(listing);
    SortBySorted(listing, ReplayKey);
    SortByPermutation(listing, ReplayKey);
    NoDuplicatesPermutation(listing, r);
    forall i, j | 0 <= i < j < |r|
      ensures ReplayedBefore(r[i], r[j])
    {
      if ReplayKey(r[i]) == ReplayKey(r[j]) {
        ReplayKeyInjective(r[i], r[j]);
      }
      ReplayKeyLess(r[i], r[j]);
    }
  }

  /** The replay order depends only on which files there are, not on the
      order the operating system lists them in. */
  lemma ReplayOrderedUnique(a: seq<string>, b: seq<string>)
    requires ReplayOrdered(a) && ReplayOrdered(b)
    requires multiset(a) == multiset(b)
    ensures a == b
  {
    forall i, j | 0 <= i < j < |a|
      ensures LexLess(ReplayKey(a[i]), ReplayKey(a[j]))
    {
      ReplayKeyLess(a[i], a[j]);
    }
    forall i, j | 0 <= i < j < |b|
      ensures LexLess(ReplayKey(b[i]), ReplayKey(b[j]))
    {
      ReplayKeyLess(b[i], b[j]);
    }
    StrictlySortedUnique(a, b, ReplayKey);
  }

  /** Two listings of the same files give the same replay order. */
  lemma ReplayOrderDeterministic(l1: seq<string>, l2: seq<string>)
    requires NoDuplicates(l1) && multiset(l1) == multiset(l2)
    ensures ReplayOrder(l1) == ReplayOrder(l2)
  {
    NoDuplicatesPermutation(l1, l2);
    ReplayOrderOrdered(l1);
    ReplayOrderOrdered(l2);
    ReplayOrderPermutation(l1);
    ReplayOrderPermutation(l2);
    ReplayOrderedUnique(ReplayOrder(l1), ReplayOrder(l2));
  }

  lemma {:induction false} NoDuplicatesCount(s: seq<string>, x: string)
    requires NoDuplicates(s)
    ensures multiset(s)[x] <= 1
  {
    if |s| > 0 {
      var init := s[..|s| - 1];
      assert NoDuplicates(init);
      NoDuplicatesCount(init, x);
      assert s == init + [s[|s| - 1]];
      if x == s[|s| - 1] {
        assert x !in init;
      }
    }
  }

  lemma TwiceCounted(s: seq<string>, i: nat, j: nat)
    requires i < j < |s| && s[i] == s[j]
    ensures multiset(s)[s[i]] >= 2
  {
    assert s == s[..j] + [s[j]] + s[j + 1..];
    assert s[..j][i] == s[i];
    assert s[i] in multiset(s[..j]);
  }

  /** Rearranging a sequence keeps it free of duplicates. */
  lemma NoDuplicatesPermutation(a: seq<string>, b: seq<string>)
    requires NoDuplicates(a) && multiset(a) == multiset(b)
    ensures NoDuplicates(b)
  {
    forall i, j | 0 <= i < j < |b|
      ensures b[i] != b[j]
    {
      NoDuplicatesCount(a, b[i]);
      if b[i] == b[j] {
        TwiceCounted(b, i, j);
      }
    }
  }

  // The bucket of every file `FsSchema` writes: each file starts with its
  // own prefix and differs from every earlier one at the position given.

  lemma ExtensionFileBucket(name: string)
    ensures Bucket(ExtensionFile(name)) == 0
  {
    var f := ExtensionFile(name);
    assert StartsWith(f, ExtensionPrefix);
  }

  lemma SchemaFileBucket(schema: string)
    ensures Bucket(SchemaFile(schema)) == 1
  {
    var f := SchemaFile(schema);
    assert StartsWith(f, SchemaPrefix);
    NotStartsWithAt(f, ExtensionPrefix, 0);
  }

  lemma SequenceFileBucket(schema: string, name: string)
    ensures Bucket(SequenceFile(schema, name)) == 2
  {
    var f := SequenceFile(schema, name);
    assert StartsWith(f, SequencePrefix);
    NotStartsWithAt(f, ExtensionPrefix, 0);
    NotStartsWithAt(f, SchemaPrefix, 1);
  }

  lemma TypeFileBucket(name: string)
    ensures Bucket(TypeFile(name)) == 3
  {
    var f := TypeFile(name);
    assert StartsWith(f, TypePrefix);
    NotStartsWithAt(f, ExtensionPrefix, 0);
    NotStartsWithAt(f, SchemaPrefix, 0);
    NotStartsWithAt(f, SequencePrefix, 0);
  }

  lemma TableFileBucket(schema: string, table: string)
    ensures Bucket(TableFile(schema, table)) == 4
  {
    var f := TableFile(schema, table);
    assert StartsWith(f, TablePrefix);
    NotStartsWithAt(f, ExtensionPrefix, 0);
    NotStartsWithAt(f, SchemaPrefix, 0);
    NotStartsWithAt(f, SequencePrefix, 0);
    NotStartsWithAt(f, TypePrefix, 1);
  }

  lemma ForeignKeyFileBucket(schema: string, table: string, fkName: string)
    ensures Bucket(ForeignKeyFile(schema, table, fkName)) == 5
  {
    var f := ForeignKeyFile(schema, table, fkName);
    assert StartsWith(f, ForeignKeyPrefix);
    NotStartsWithAt(f, ExtensionPrefix, 0);
    NotStartsWithAt(f, SchemaPrefix, 0);
    NotStartsWithAt(f, SequencePrefix, 0);
    NotStartsWithAt(f, TypePrefix, 0);
    NotStartsWithAt(f, TablePrefix, 0);
  }

  lemma FunctionFileBucket(schema: string, name: string)
    ensures Bucket(FunctionFile(schema, name)) == 6
  {
    var f := FunctionFile(schema, name);
    NotStartsWithAt(f, ExtensionPrefix, 0);
    NotStartsWithAt(f, SchemaPrefix, 0);
    NotStartsWithAt(f, SequencePrefix, 0);
    NotStartsWithAt(f, TypePrefix, 0);
    NotStartsWithAt(f, TablePrefix, 0);
    NotStartsWithAt(f, ForeignKeyPrefix, 1);
  }

  lemma IndexFileBucket(schema: string, table: string, name: string)
    ensures Bucket(IndexFile(schema, table, name)) == 6
  {
    var f := IndexFile(schema, table, name);
    NotStartsWithAt(f, ExtensionPrefix, 0);
    NotStartsWithAt(f, SchemaPrefix, 0);
    NotStartsWithAt(f, SequencePrefix, 0);
    NotStartsWithAt(f, TypePrefix, 0);
    NotStartsWithAt(f, TablePrefix, 0);
    NotStartsWithAt(f, ForeignKeyPrefix, 0);
  }

  lemma TriggerFileBucket(schema: string, table: string, name: string)
    ensures Bucket(TriggerFile(schema, table, name)) == 6
  {
    var f := TriggerFile(schema, table, name);
    NotStartsWithAt(f, ExtensionPrefix, 0);
    NotStartsWithAt(f, SchemaPrefix, 0);
    NotStartsWithAt(f, SequencePrefix, 0);
    NotStartsWithAt(f, TypePrefix, 1);
    NotStartsWithAt(f, TablePrefix, 1);
    NotStartsWithAt(f, ForeignKeyPrefix, 0);
  }

  lemma ViewFileBucket(schema: string, name: string)
    ensures Bucket(ViewFile(schema, name)) == 6
  {
    var f := ViewFile(schema, name);
    NotStartsWithAt(f, ExtensionPrefix, 0);
    NotStartsWithAt(f, SchemaPrefix, 0);
    NotStartsWithAt(f, SequencePrefix, 0);
    NotStartsWithAt(f, TypePrefix, 0);
    NotStartsWithAt(f, TablePrefix, 0);
    NotStartsWithAt(f, ForeignKeyPrefix, 0);
  }

  // ---------------------------------------------------------------------
  // outputFileSyncSafe: the name a write lands on

  /** `${filePath}_v${version}`. */
  function Versioned(p: string, k: nat): string {
    p + "_v" + NatToString(k)
  }

  /** Different versions have different names. */
  lemma VersionedInjective(p: string, j: nat, k: nat)
    requires Versioned(p, j) == Versioned(p, k)
    ensures j == k
  {
    var a, b := Versioned(p, j), Versioned(p, k);
    assert a[|p| + 2..] == NatToString(j);
    assert b[|p| + 2..] == NatToString(k);
    NatToStringInjective(j, k);
  }

  /** A versioned name stays in the bucket of the name it extends: no
      prefix holds an underscore. */
  lemma VersionedBucket(p: string, k: nat)
    ensures Bucket(Versioned(p, k)) == Bucket(p)
  {
    var v := Versioned(p, k);
    assert v[|p|] == '_';
    forall j | 0 <= j < 6
      ensures StartsWith(v, ReplayPrefixes[j]) <==> StartsWith(p, ReplayPrefixes[j])
    {
      var q := ReplayPrefixes[j];
      assert '_' !in q;
      if |q| > |p| {
        NotStartsWithAt(v, q, |p|);
      } else {
        assert v[..|q|] == p[..|q|];
      }
    }
    assert Bucket(v) < 6 ==> StartsWith(p, ReplayPrefixes[Bucket(v)]);
    assert Bucket(p) < 6 ==> StartsWith(v, ReplayPrefixes[Bucket(p)]);
  }

  /** The taken names that are versions `from` or later of p. */
  ghost function TakenFrom(taken: set<string>, p: string, from: nat): set<string> {
    set x | x in taken && exists k: nat :: k >= from && x == Versioned(p, k)
  }

  lemma TakenFromShrinks(taken: set<string>, p: string, from: nat)
    requires Versioned(p, from) in taken
    ensures TakenFrom(taken, p, from + 1) < TakenFrom(taken, p, from)
  {
    var v := Versioned(p, from);
    assert v in TakenFrom(taken, p, from);
    if v in TakenFrom(taken, p, from + 1) {
      var k: nat :| k >= from + 1 && v == Versioned(p, k);
      VersionedInjective(p, from, k);
    }
  }

  /** The probe loop: the first version, from `from` on, whose name is free. */
  function FirstFreeVersion(taken: set<string>, p: string, from: nat): (k: nat)
    ensures k >= from && Versioned(p, k) !in taken
    ensures forall j :: from <= j < k ==> Versioned(p, j) in taken
    decreases TakenFrom(taken, p, from)
  {
    if Versioned(p, from) !in taken then from
    else
      TakenFromShrinks(taken, p, from);
      FirstFreeVersion(taken, p, from + 1)
  }

  /** The name `outputFileSyncSafe` writes to: the path itself when it is
      free, otherwise its first free version from 2 on. */
  function FreePath(taken: set<string>, p: string): (r: string)
    ensures r !in taken
    ensures p !in taken ==> r == p
    ensures p in taken ==>
      exists k: nat :: 2 <= k && r == Versioned(p, k) && (forall j :: 2 <= j < k ==> Versioned(p, j) in taken)
  {
    if p !in taken then p else Versioned(p, FirstFreeVersion(taken, p, 2))
  }

  /** The chosen name is in the bucket of the requested one, so a renamed
      file is replayed with its kind. */
  lemma FreePathBucket(taken: set<string>, p: string)
    ensures Bucket(FreePath(taken, p)) == Bucket(p)
  {
    if p in taken {
      VersionedBucket(p, FirstFreeVersion(taken, p, 2));
    }
  }

  /** The directory after one collision-safe write. */
  function SafeWrite(files: map<string, string>, p: string, content: string): (r: map<string, string>)
    ensures FreePath(files.Keys, p) in r && r[FreePath(files.Keys, p)] == content
  {
    files[FreePath(files.Keys, p) := content]
  }

  /** A safe write never overwrites: it adds exactly one file and keeps
      every other one as it was. */
  lemma SafeWriteAddsOne(files: map<string, string>, p: string, content: string)
    ensures var r := SafeWrite(files, p, content);
      r.Keys == files.Keys + {FreePath(files.Keys, p)} &&
      |r.Keys| == |files.Keys| + 1 &&
      forall f :: f in files ==> r[f] == files[f]
  {
    var q := FreePath(files.Keys, p);
    assert q !in files.Keys;
  }

  /** The directory after a run of safe writes, made in order. */
  function SafeWriteAll(files: map<string, string>, writes: seq<(string, string)>): map<string, string> {
    if |writes| == 0 then files
    else
      var w := writes[|writes| - 1];
      SafeWrite(SafeWriteAll(files, writes[..|writes| - 1]), w.0, w.1)
  }

  /** Each write of a run adds one file, and none replaces one. */
  lemma {:induction false} SafeWriteAllKeeps(files: map<string, string>, writes: seq<(string, string)>)
    ensures var r := SafeWriteAll(files, writes);
      files.Keys <= r.Keys &&
      |r.Keys| == |files.Keys| + |writes| &&
      forall f :: f in files ==> r[f] == files[f]
  {
    if |writes| > 0 {
      var w := writes[|writes| - 1];
      SafeWriteAllKeeps(files, writes[..|writes| - 1]);
      SafeWriteAddsOne(SafeWriteAll(files, writes[..|writes| - 1]), w.0, w.1);
    }
  }

  /** A run of writes split in two: the second part is made on the
      directory the first part left. */
  lemma {:induction false} SafeWriteAllAppend(files: map<string, string>, a: seq<(string, string)>, b: seq<(string, string)>)
    ensures SafeWriteAll(files, a + b) == SafeWriteAll(SafeWriteAll(files, a), b)
  {
    if |b| == 0 {
      assert a + b == a;
    } else {
      var w := b[|b| - 1];
      assert (a + b)[..|a + b| - 1] == a + b[..|b| - 1];
      assert (a + b)[|a + b| - 1] == w;
      SafeWriteAllAppend(files, a, b[..|b| - 1]);
    }
  }
}
