/**
 * `FsSchema`: the directory a dump is written to and replayed from. The
 * directory is a map from file name to content; every write goes through
 * the collision-safe `outputFileSyncSafe`, so no write replaces a file.
 */
module SchemaDirectory {
  import opened Wrappers
  import opened Types
  import opened SchemaHelpers
  import opened FsPaths
  import opened FsSql

  /** The foreign-key files of a table, one per column with a reference, in
      column order: the name `fk.<schema>.<table>.<col>_fk.sql` and the
      statement. */
  function ForeignKeyWrites(schema: string, table: string, refs: seq<Attribute>): seq<(string, string)>
    requires forall i :: 0 <= i < |refs| ==> refs[i].references.Some?
  {
    seq(|refs|, i requires 0 <= i < |refs| =>
      (ForeignKeyFile(schema, table, ForeignKeyName(refs[i].name)),
       ForeignKeySql(schema, table, refs[i].name, refs[i].references.value)))
  }

  /** Every write `writeTable` makes, in order: the table file first, then
      the foreign keys. */
  function TableWrites(schema: string, table: string, attributes: seq<Attribute>, content: string): seq<(string, string)> {
    [(TableFile(schema, table), content)] + ForeignKeyWrites(schema, table, WithReference(attributes))
  }

  /** `writeTable` adds one file for the table and one per reference and
      leaves every file that was there before as it was. */
  lemma TableWritesAddFiles(files: map<string, string>, schema: string, table: string,
                            attributes: seq<Attribute>, content: string)
    ensures var r := SafeWriteAll(files, TableWrites(schema, table, attributes, content));
      files.Keys <= r.Keys &&
      |r.Keys| == |files.Keys| + 1 + |WithReference(attributes)| &&
      forall f :: f in files ==> r[f] == files[f]
  {
    SafeWriteAllKeeps(files, TableWrites(schema, table, attributes, content));
  }

  /** The table text survives the foreign-key writes that follow it, under
      the name the first write chose. */
  lemma TableWritesKeepTable(files: map<string, string>, schema: string, table: string,
                             attributes: seq<Attribute>, content: string)
    ensures var r := SafeWriteAll(files, TableWrites(schema, table, attributes, content));
      var p := FreePath(files.Keys, TableFile(schema, table));
      p in r && r[p] == content
  {
    var w := TableWrites(schema, table, attributes, content);
    var first := SafeWriteAll(files, w[..1]);
    assert w == w[..1] + w[1..];
    SafeWriteAllAppend(files, w[..1], w[1..]);
    assert w[..1][..0] == [];
    assert first == SafeWrite(files, TableFile(schema, table), content);
    SafeWriteAllKeeps(first, w[1..]);
  }

  /** However the names were versioned, a table file is replayed before the
      foreign keys that point out of any table. */
  lemma TableReplayedBeforeForeignKey(takenT: set<string>, takenF: set<string>, schema: string, table: string,
                                      fkSchema: string, fkTable: string, fkName: string)
    ensures ReplayedBefore(FreePath(takenT, TableFile(schema, table)),
                           FreePath(takenF, ForeignKeyFile(fkSchema, fkTable, fkName)))
  {
    FreePathBucket(takenT, TableFile(schema, table));
    FreePathBucket(takenF, ForeignKeyFile(fkSchema, fkTable, fkName));
    TableFileBucket(schema, table);
    ForeignKeyFileBucket(fkSchema, fkTable, fkName);
  }

  /** However the names were versioned, schemas are replayed before the
      tables, and extensions before schemas. */
  lemma SchemaReplayedBeforeTable(takenS: set<string>, takenT: set<string>, schema: string,
                                  tSchema: string, table: string)
    ensures ReplayedBefore(FreePath(takenS, SchemaFile(schema)), FreePath(takenT, TableFile(tSchema, table)))
  {
    FreePathBucket(takenS, SchemaFile(schema));
    FreePathBucket(takenT, TableFile(tSchema, table));
    SchemaFileBucket(schema);
    TableFileBucket(tSchema, table);
  }

  lemma ExtensionReplayedBeforeSchema(takenE: set<string>, takenS: set<string>, name: string, schema: string)
    ensures ReplayedBefore(FreePath(takenE, ExtensionFile(name)), FreePath(takenS, SchemaFile(schema)))
  {
    FreePathBucket(takenE, ExtensionFile(name));
    FreePathBucket(takenS, SchemaFile(schema));
    ExtensionFileBucket(name);
    SchemaFileBucket(schema);
  }

  /** The dump directory. `root` names it; `files` is what it holds. */
  class FsSchema {
    const root: string
    var files: map<string, string>

    constructor (root: string, existing: map<string, string>)
      ensures this.root == root && files == existing
    {
      this.root := root;
      files := existing;
    }

    /** `fs.emptyDirSync(root)`. */
    method Clean()
      modifies this
      ensures files == map[]
    {
      files := map[];
    }

    /** `readDir`: every file of the directory once, in replay order. The
        directory listing comes from the file system in an order the model
        leaves open; the result does not depend on it. */
    method ReadDir() returns (r: seq<string>)
      ensures NoDuplicates(r)
      ensures forall f :: f in r <==> f in files
      ensures ReplayOrdered(r)
    {
      var listing: seq<string> := [];
      var rest := files.Keys;
      while rest != {}
        invariant rest <= files.Keys
        invariant NoDuplicates(listing)
        invariant forall f :: f in listing <==> f in files && f !in rest
        decreases |rest|
      {
        var f :| f in rest;
        listing := listing + [f];
        rest := rest - {f};
      }
      r := ReplayOrder(listing);
      ReplayOrderPermutation(listing);
      ReplayOrderOrdered(listing);
      NoDuplicatesPermutation(listing, r);
      forall f
        ensures f in r <==> f in listing
      {
        assert f in multiset(r) <==> f in multiset(listing);
      }
    }

    /** `read(fName)`: the content of a file, or nothing for a missing one
        (where the source's promise is rejected). */
    method Read(fName: string) returns (r: Option<string>)
      ensures r.Some? <==> fName in files
      ensures r.Some? ==> r.value == files[fName]
    {
      if fName in files {
        r := Some(files[fName]);
      } else {
        r := None;
      }
    }

    /** `outputFileSyncSafe`: write to the path when it is free, otherwise
        to the first of `<path>_v2`, `<path>_v3`, ... that is free. */
    method OutputFileSyncSafe(filePath: string, content: string)
      modifies this
      ensures files == SafeWrite(old(files), filePath, content)
    {
      if filePath !in files {
        assert FreePath(files.Keys, filePath) == filePath;
        files := files[filePath := content];
        return;
      }
      var version := 1;
      version := version + 1;
      while Versioned(filePath, version) in files
        invariant files == old(files)
        invariant version >= 2
        invariant FirstFreeVersion(files.Keys, filePath, version) == FirstFreeVersion(files.Keys, filePath, 2)
        decreases TakenFrom(files.Keys, filePath, version)
      {
        TakenFromShrinks(files.Keys, filePath, version);
        version := version + 1;
      }
      assert FirstFreeVersion(files.Keys, filePath, version) == version;
      assert FreePath(files.Keys, filePath) == Versioned(filePath, version);
      files := files[Versioned(filePath, version) := content];
    }

    method WriteExtension(name: string, src: string)
      modifies this
      ensures files == SafeWrite(old(files), ExtensionFile(name), src)
    {
      OutputFileSyncSafe(ExtensionFile(name), src);
    }

    method WriteSchema(schema: string)
      modifies this
      ensures files == SafeWrite(old(files), SchemaFile(schema), "CREATE SCHEMA IF NOT EXISTS \"" + schema + "\"")
    {
      OutputFileSyncSafe(SchemaFile(schema), "CREATE SCHEMA IF NOT EXISTS \"" + schema + "\"");
    }

    method WriteType(name: string, src: string)
      modifies this
      ensures files == SafeWrite(old(files), TypeFile(name), NormalizedSrc(src))
    {
      OutputFileSyncSafe(TypeFile(name), NormalizedSrc(src));
    }

    method WriteFunction(schema: string, name: string, src: string)
      modifies this
      ensures files == SafeWrite(old(files), FunctionFile(schema, name), NormalizedSrc(src))
    {
      OutputFileSyncSafe(FunctionFile(schema, name), NormalizedSrc(src));
    }

    method WriteIndex(schema: string, table: string, name: string, src: string)
      modifies this
      ensures files == SafeWrite(old(files), IndexFile(schema, table, name), src)
    {
      OutputFileSyncSafe(IndexFile(schema, table, name), src);
    }

    method WriteSequence(schema: string, name: string, src: string)
      modifies this
      ensures files == SafeWrite(old(files), SequenceFile(schema, name), src)
    {
      OutputFileSyncSafe(SequenceFile(schema, name), src);
    }

    method WriteView(schema: string, name: string, src: string)
      modifies this
      ensures files == SafeWrite(old(files), ViewFile(schema, name),
        "CREATE OR REPLACE VIEW " + schema + "." + name + " AS\n" + src + "\n")
    {
      OutputFileSyncSafe(ViewFile(schema, name), "CREATE OR REPLACE VIEW " + schema + "." + name + " AS\n" + src + "\n");
    }

    method WriteTrigger(schema: string, table: string, name: string, src: string)
      modifies this
      ensures files == SafeWrite(old(files), TriggerFile(schema, table, name), src + "\n")
    {
      OutputFileSyncSafe(TriggerFile(schema, table, name), src + "\n");
    }

    /** The loop of `writeTable` over the columns with a reference. */
    method WriteForeignKeys(schema: string, table: string, refs: seq<Attribute>)
      requires forall i :: 0 <= i < |refs| ==> refs[i].references.Some?
      modifies this
      ensures files == SafeWriteAll(old(files), ForeignKeyWrites(schema, table, refs))
    {
      ghost var writes := ForeignKeyWrites(schema, table, refs);
      assert writes[..0] == [];
      for i := 0 to |refs|
        invariant files == SafeWriteAll(old(files), writes[..i])
      {
        var attr := refs[i];
        var fkName := ForeignKeyName(attr.name);
        var fkSql := ForeignKeySql(schema, table, attr.name, attr.references.value);
        OutputFileSyncSafe(ForeignKeyFile(schema, table, fkName), fkSql);
        assert writes[..i + 1][..i] == writes[..i];
        assert writes[i] == (ForeignKeyFile(schema, table, fkName), fkSql);
      }
      assert writes[..|refs|] == writes;
    }

    /** `writeTable`: the table file, then one foreign-key file per column
        with a reference. A column whose serial type has no shorthand fails
        the table before anything is written. */
    method WriteTable(schema: string, table: string, attributes: seq<Attribute>) returns (r: Result<(), string>)
      modifies this
      ensures TableSql(schema, table, attributes).Failure? ==>
        r == Failure(TableSql(schema, table, attributes).error) && files == old(files)
      ensures TableSql(schema, table, attributes).Success? ==>
        r.Success? &&
        files == SafeWriteAll(old(files), TableWrites(schema, table, attributes, TableSql(schema, table, attributes).value))
    {
      var content :- TableSql(schema, table, attributes);
      OutputFileSyncSafe(TableFile(schema, table), content);
      ghost var afterTable := files;
      var refs := WithReference(attributes);
      WriteForeignKeys(schema, table, refs);
      ghost var first := [(TableFile(schema, table), content)];
      assert first[..0] == [];
      assert afterTable == SafeWriteAll(old(files), first);
      SafeWriteAllAppend(old(files), first, ForeignKeyWrites(schema, table, refs));
      r := Success(());
    }
  }
}
