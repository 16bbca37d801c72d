# pg-schema-dump capture core, in Dafny

pg-schema-dump writes a PostgreSQL database's schema to a directory with
one SQL file per object, and later replays that directory into another
database. This project models the capture side:

- the helpers that normalise and quote the captured text
  (`src/fs-schema-helpers.ts`);
- the directory writer `FsSchema` (`src/fs-schema.ts`). This covers the
  file-name templates, the collision-safe write, the replay order of
  `readDir`, the column renderer `attributeSql` and `writeTable` with its
  foreign-key files;
- the SQL literal quoting of `src/pg-helpers.ts`;
- the `IF NOT EXISTS` rewrite applied to index definitions in
  `src/pg-objects/indexes.ts`.

Layout:

- `wrappers.dfy`: `Option` and `Result`.
- `js_strings.dfy`: the JavaScript string built-ins the core calls. These
  are global literal `replace`, `split`, `join`, `trim`, ASCII
  `toLowerCase`, decimal `${n}` and string `<`.
- `stable_sort.dfy`: lodash `sortBy` with a string key. It is modelled as a
  stable insertion sort, with permutation, sortedness and stability proved.
- `types.dfy`: the `Attribute` and `Reference` records.
- `fs_schema_helpers.dfy`, `pg_helpers.dfy` and `indexes.dfy`: one module
  per source file.
- `fs_paths.dfy`: the pure parts of `FsSchema`. These are the file names,
  the replay buckets and order, and the name a collision-safe write picks.
- `fs_sql.dfy`: the SQL text of `attributeSql` and `writeTable`.
- `fs_schema.dfy`: the class `FsSchema`. Its directory is a
  `map<string, string>` field from file name to content, which its methods
  update. `Indexes.CollectIndexRows` updates the `src` field of each row
  object in place.

The model follows the code in these details:

- `readDir` has seven buckets. Foreign-key files (`fk.`) get bucket 5,
  between tables and everything else.
- The reserved words that `quotedIfUnsafe` quotes are exactly `count`,
  `end`, `from`, `limit`, `line` and `uuid`, in any letter case. There is no
  rule for names containing `?`. `src/fs-schema.ts` imports the function as
  `quotedIfUnsafe`, but `src/fs-schema-helpers.ts` defines it as
  `quotedIfKeyword`; the model treats the two as one function.
- The serial shorthand drops `not null`. The recursive call does not pass
  `isNotNull`, so it defaults to false.
- `unquoted` looks only at the leading `"`. For the one-character value `"`,
  `substring(1, 0)` swaps its bounds and returns `"` itself.
- No reference extractor and no retry loop exist in the code, so there are
  none in the model.

## Model

| member | source | states |
|---|---|---|
| JsStrings.ReplaceAll | src/fs-schema-helpers.ts:8 | none; `replace(/pat/g, rep)` with a literal pattern, specified by ReplaceAllRemoves and ReplaceAllNoMatch |
| JsStrings.ReplaceAllRemoves | src/fs-schema-helpers.ts:8 | replacing a one-character pattern by text that does not hold it leaves none of that character |
| JsStrings.ReplaceAllNoMatch | src/fs-schema-helpers.ts:8 | a text in which the pattern occurs nowhere comes back unchanged |
| JsStrings.Split | src/fs-schema.ts:196 | `split` gives at least one part, and no part holds the separator |
| JsStrings.Join | src/fs-schema.ts:199 | joining one part gives that part; with JoinSplit and SplitJoin, `join` is the inverse of `split` |
| JsStrings.JoinSplit | src/fs-schema.ts:196-199 | splitting a text on a character and joining the parts with it gives the text back |
| JsStrings.SplitJoin | src/fs-schema.ts:196-199 | joining at least one part with a separator none of them holds, then splitting on it, gives the parts back |
| JsStrings.Trim | src/fs-schema.ts:197 | none; `trim` is trimStart then trimEnd, specified by TrimStartSpec and TrimEndSpec |
| JsStrings.TrimStartSpec | src/fs-schema.ts:197 | the start trim is a suffix of the text, everything it removed is whitespace, and it does not start with whitespace |
| JsStrings.TrimEndSpec | src/fs-schema.ts:197 | the end trim is a prefix of the text, everything it removed is whitespace, and it does not end with whitespace |
| JsStrings.LowerCase | src/fs-schema-helpers.ts:21 | `toLowerCase` keeps the length and leaves no capital letter A-Z in the text |
| JsStrings.LowerCaseIdempotent | src/fs-schema-helpers.ts:21 | lower-casing an already lower-cased text changes nothing |
| JsStrings.NatToString | src/fs-schema.ts:46 | `${n}` is a non-empty string of decimal digits |
| JsStrings.ParseNatToString | src/fs-schema.ts:46 | reading the digits of `${n}` back gives n |
| JsStrings.NatToStringInjective | src/fs-schema.ts:65 | different numbers give different digit strings |
| JsStrings.LexLess | src/fs-schema-helpers.ts:29 | none; the `<` comparison of two strings, specified by LexLessIrreflexive, LexLessTransitive and LexLessTotal |
| JsStrings.LexLessIrreflexive | src/fs-schema-helpers.ts:29 | no string is less than itself |
| JsStrings.LexLessTransitive | src/fs-schema-helpers.ts:29 | the string order is transitive |
| JsStrings.LexLessTotal | src/fs-schema-helpers.ts:29 | of two different strings, one is less than the other |
| SchemaHelpers.NormalizedSrc | src/fs-schema-helpers.ts:8 | the result holds no carriage return and no tab |
| SchemaHelpers.NormalizedSrcUnchanged | src/fs-schema-helpers.ts:8 | a text without carriage returns and tabs comes back unchanged |
| SchemaHelpers.NormalizedSrcIdempotent | src/fs-schema-helpers.ts:8 | normalising twice gives the same text as normalising once |
| SchemaHelpers.NormalizedCrLf | src/fs-schema-helpers.ts:8 | `\r\n` between clean texts becomes one `\n` |
| SchemaHelpers.NormalizedLfCr | src/fs-schema-helpers.ts:8 | `\n\r` between clean texts becomes one `\n` |
| SchemaHelpers.NormalizedLoneCr | src/fs-schema-helpers.ts:8 | a lone `\r`, not next to a `\n`, becomes `\n` |
| SchemaHelpers.NormalizedTab | src/fs-schema-helpers.ts:8 | a tab becomes two spaces |
| SchemaHelpers.NormalizedSrcCrExample | src/__tests__/fs-schema-helpers.test.ts:6 | `hello\rworld` becomes `hello\nworld` |
| SchemaHelpers.NormalizedSrcCrLfExample | src/__tests__/fs-schema-helpers.test.ts:7 | `hello\r\nworld` becomes `hello\nworld` |
| SchemaHelpers.NormalizedSrcLfCrExample | src/__tests__/fs-schema-helpers.test.ts:8 | `hello\n\rworld` becomes `hello\nworld` |
| SchemaHelpers.NormalizedSrcLfExample | src/__tests__/fs-schema-helpers.test.ts:9 | `hello\nworld` is unchanged |
| SchemaHelpers.NormalizedSrcTabExample | src/__tests__/fs-schema-helpers.test.ts:10 | `hello\tworld` becomes `hello  world` |
| SchemaHelpers.Unquoted | src/fs-schema-helpers.ts:11-16 | a value of length at least 2 that starts with `"` loses its first and last characters; any other value is unchanged |
| SchemaHelpers.QuotedIfKeyword | src/fs-schema-helpers.ts:18-25 | the result is the value or the value in double quotes, and it is quoted exactly when the lower-cased value is one of the six reserved words |
| SchemaHelpers.UnquotedQuotedIfKeyword | src/fs-schema-helpers.ts:11-25 | unquoting a quoted-if-keyword value gives the value back, for any value not starting with `"` |
| SchemaHelpers.IsKeywordIgnoresCase | src/fs-schema-helpers.ts:21 | two values equal up to letter case are either both quoted or both left alone |
| SchemaHelpers.ForeignKeyNameUnquoted | src/fs-schema.ts:189 | `<name>_fk` is never a reserved word, so it is never quoted |
| SchemaHelpers.AttributeKey | src/fs-schema-helpers.ts:28-34 | none; `[i]` for the i-th head column and `[4, 0 or 1, name]` otherwise, read as comma-joined strings; specified by AttributeKeyOrder |
| SchemaHelpers.SortedAttributes | src/fs-schema-helpers.ts:27-35 | none; `sortBy` with AttributeKey, specified by SortedAttributesOrdered, SortedAttributesPermutation and SortedAttributesStable |
| SchemaHelpers.AttributeKeyOrder | src/fs-schema-helpers.ts:28-34 | the comma-joined sort key orders two columns exactly as the column order does: head columns first in their fixed order, then referencing columns, each group by name |
| SchemaHelpers.SortedAttributesOrdered | src/fs-schema-helpers.ts:27-35 | every pair of output columns is in column order |
| SchemaHelpers.SortedAttributesPermutation | src/fs-schema-helpers.ts:27-35 | the output has the input's length and multiset |
| SchemaHelpers.SortedAttributesStable | src/fs-schema-helpers.ts:29 | columns with equal keys keep their input order |
| StableSort.SortBy | src/fs-schema-helpers.ts:29 | lodash `sortBy` keeps the length; the rest is stated by SortByPermutation, SortBySorted and SortByStable |
| StableSort.SortByPermutation | src/fs-schema-helpers.ts:29 | lodash `sortBy` returns its input rearranged |
| StableSort.SortBySorted | src/fs-schema-helpers.ts:29 | the keys of `sortBy`'s output never decrease |
| StableSort.SortByStable | src/fs-schema-helpers.ts:29 | within one key, `sortBy` keeps the input order |
| StableSort.StrictlySortedUnique | src/fs-schema.ts:36 | two rearrangements of one list that are strictly sorted by key are equal |
| PgHelpers.PgQuoteString | src/pg-helpers.ts:1-6 | the literal is two characters longer than the value, starts and ends with `'`, and holds the value between them |
| PgHelpers.PgQuoteStringRoundTrip | src/pg-helpers.ts:3 | stripping the outer quotes gives the value back |
| PgHelpers.PgQuoteStringInjective | src/pg-helpers.ts:3 | different values give different literals |
| PgHelpers.PgQuoteStringQuoteCount | src/pg-helpers.ts:3 | nothing is escaped: the literal holds exactly two more `'` than the value |
| PgHelpers.PgQuoteStrings | src/pg-helpers.ts:8-10 | same length and order as the input, and element i is the quoted element i |
| PgHelpers.PgQuoteStringsRoundTrip | src/pg-helpers.ts:8-10 | every input element can be read back from its literal |
| Indexes.MatchLength | src/pg-objects/indexes.ts:25 | a match covers at least 12 characters of the text: `create` in any case, a whitespace, and at its end a whitespace and `index` in any case. It covers 19 characters exactly when the optional `UNIQUE` group fits, which is tried first |
| Indexes.IndexSrc | src/pg-objects/indexes.ts:25 | none; the `replace` of the anchored pattern, specified by IndexSrcOnMatch and IndexSrcNoMatch |
| Indexes.IndexSrcOnMatch | src/pg-objects/indexes.ts:25 | on a match the text is 14 characters longer, the matched prefix is kept as written, and ` IF NOT EXISTS` follows it, then the rest |
| Indexes.IndexSrcNoMatch | src/pg-objects/indexes.ts:25 | without a match at the start the text is unchanged |
| Indexes.IndexSrcUnique | src/pg-objects/indexes.ts:25 | for `CREATE UNIQUE INDEX` the clause goes after `INDEX`, not after `CREATE` |
| Indexes.IndexSrcPlainLowerCase | src/pg-objects/indexes.ts:25 | `create index` in lower case gets the clause too, with its own case kept |
| Indexes.IndexSrcAnchored | src/pg-objects/indexes.ts:25 | a text not starting with `c` or `C` is unchanged, wherever `CREATE INDEX` occurs in it |
| Indexes.MatchLengthIgnoresCase | src/pg-objects/indexes.ts:25 | texts equal up to letter case match alike |
| Indexes.MatchLengthAfterRewrite | src/pg-objects/indexes.ts:25 | the rewritten text still starts with the same match |
| Indexes.CollectIndexRows | src/pg-objects/indexes.ts:24-27 | the same rows come back in the same order, each `src` rewritten, and `schema`, `table` and `name` unchanged |
| FsPaths.ExtensionFile | src/fs-schema.ts:71 | none; `extension.<name>.sql`, in bucket 0 by ExtensionFileBucket |
| FsPaths.SchemaFile | src/fs-schema.ts:77 | none; `schema.<schema>.sql`, in bucket 1 by SchemaFileBucket |
| FsPaths.TypeFile | src/fs-schema.ts:82 | none; `type.<name>.sql`, in bucket 3 by TypeFileBucket |
| FsPaths.FunctionFile | src/fs-schema.ts:88 | none; `function.<schema>.<name>.sql`, in the last bucket by FunctionFileBucket |
| FsPaths.IndexFile | src/fs-schema.ts:95 | none; `index.<schema>.<table>.<name>.sql`, in the last bucket by IndexFileBucket |
| FsPaths.SequenceFile | src/fs-schema.ts:100 | none; `sequence.<schema>.<name>.sql`, in bucket 2 by SequenceFileBucket |
| FsPaths.ViewFile | src/fs-schema.ts:106 | none; `view.<schema>.<name>.sql`, in the last bucket by ViewFileBucket |
| FsPaths.TriggerFile | src/fs-schema.ts:114 | none; `trigger.<schema>.<unquoted table>.<name>.sql`, in the last bucket by TriggerFileBucket |
| FsPaths.TableFile | src/fs-schema.ts:171 | none; `table.<schema>.<table>.sql`, in bucket 4 by TableFileBucket |
| FsPaths.ForeignKeyFile | src/fs-schema.ts:200 | none; `fk.<schema>.<table>.<fkName>.sql`, in bucket 5 by ForeignKeyFileBucket |
| FsPaths.ReplayKey | src/fs-schema.ts:37-46 | none; the key `${num}-${file}`, specified by ReplayKeyShape, ReplayKeyLess and ReplayKeyInjective |
| FsPaths.Bucket | src/fs-schema.ts:36-45 | the bucket is the position of the first prefix the name starts with, or 6 when none matches |
| FsPaths.ReplayKeyShape | src/fs-schema.ts:46 | the sort key is the bucket digit, a dash and the file name |
| FsPaths.ReplayKeyLess | src/fs-schema.ts:36-47 | one key is smaller than another exactly when its file has a lower bucket, or the same bucket and a smaller name |
| FsPaths.ReplayKeyInjective | src/fs-schema.ts:46 | different files have different keys |
| FsPaths.ReplayOrder | src/fs-schema.ts:36-47 | none; `sortBy` with ReplayKey, specified by ReplayOrderPermutation, ReplayOrderOrdered and ReplayOrderDeterministic |
| FsPaths.ReplayOrderPermutation | src/fs-schema.ts:34-36 | `readDir` returns the listing rearranged |
| FsPaths.ReplayOrderOrdered | src/fs-schema.ts:34-48 | for a listing without duplicates, every earlier file is replayed before every later one |
| FsPaths.ReplayOrderedUnique | src/fs-schema.ts:34-48 | only one arrangement of a set of names is in replay order |
| FsPaths.ReplayOrderDeterministic | src/fs-schema.ts:34-48 | two duplicate-free listings of the same files, in any order, give the same replay order |
| FsPaths.ExtensionFileBucket | src/fs-schema.ts:71 | extension files are in bucket 0 |
| FsPaths.SchemaFileBucket | src/fs-schema.ts:77 | schema files are in bucket 1 |
| FsPaths.SequenceFileBucket | src/fs-schema.ts:100 | sequence files are in bucket 2 |
| FsPaths.TypeFileBucket | src/fs-schema.ts:82 | type files are in bucket 3 |
| FsPaths.TableFileBucket | src/fs-schema.ts:171 | table files are in bucket 4 |
| FsPaths.ForeignKeyFileBucket | src/fs-schema.ts:200 | foreign-key files are in bucket 5 |
| FsPaths.FunctionFileBucket | src/fs-schema.ts:88 | function files are in the last bucket |
| FsPaths.IndexFileBucket | src/fs-schema.ts:95 | index files are in the last bucket |
| FsPaths.TriggerFileBucket | src/fs-schema.ts:114 | trigger files are in the last bucket |
| FsPaths.ViewFileBucket | src/fs-schema.ts:106 | view files are in the last bucket |
| FsPaths.VersionedInjective | src/fs-schema.ts:65 | different version numbers give different names |
| FsPaths.VersionedBucket | src/fs-schema.ts:65-67 | a versioned name is in the bucket of the name it extends |
| FsPaths.FirstFreeVersion | src/fs-schema.ts:62-65 | the probe stops at a free version, and every version it skipped is taken |
| FsPaths.FreePath | src/fs-schema.ts:54-67 | the chosen name is free; it is the path itself when that is free, otherwise `<path>_v<k>` for the smallest k of at least 2 whose name is free |
| FsPaths.FreePathBucket | src/fs-schema.ts:54-67 | a renamed file is replayed with its kind |
| FsPaths.SafeWrite | src/fs-schema.ts:54-68 | the content is stored under the chosen name |
| FsPaths.SafeWriteAddsOne | src/fs-schema.ts:54-68 | a safe write adds exactly one file and keeps every other file as it was |
| FsPaths.SafeWriteAll | src/fs-schema.ts:170-201 | none; the safe writes of `writeTable` made one after the other, specified by SafeWriteAllKeeps and SafeWriteAllAppend |
| FsPaths.SafeWriteAllKeeps | src/fs-schema.ts:168-201 | a run of safe writes adds one file per write and replaces none |
| FsSql.SerialType | src/fs-schema.ts:132-136 | a shorthand exists exactly for smallint, integer and bigint |
| FsSql.SerialTypeMapping | src/fs-schema.ts:132-136 | smallint, integer and bigint map to smallserial, serial and bigserial |
| FsSql.Collapsed | src/fs-schema.ts:138-146 | the column handed to the recursive call no longer has its serial default, so the recursion ends after one step; it has the shorthand type and no `not null`, and keeps its other fields |
| FsSql.AttributeSql | src/fs-schema.ts:120-166 | a failure carries the message `Serial mapping not found for <type>.`; the line is stated by AttributeSqlPlain and AttributeSqlSerial, and when it fails by AttributeSqlFails |
| FsSql.AttributeSqlPlain | src/fs-schema.ts:149-165 | a column without a serial default is its name (quoted if a keyword) and type, then `not null` exactly when it is known non-null, `default <value>` exactly for a non-empty default, `primary key` exactly for a primary key, and the references comment exactly when it has a reference, in that order, joined by single spaces |
| FsSql.AttributeSqlNotNullDefault | src/fs-schema.ts:124 | a missing `isNotNull` renders as `false` |
| FsSql.AttributeSqlFails | src/fs-schema.ts:131-137 | rendering fails exactly when the default is the column's own sequence and the type has no shorthand |
| FsSql.AttributeSqlSerial | src/fs-schema.ts:131-147 | a serial column renders as its name, the shorthand type, then the primary-key and reference parts, with no default and no `not null` |
| FsSql.AttributeSqlStartsWithName | src/fs-schema.ts:149-165 | a rendered column starts with its possibly quoted name and a space |
| FsSql.AttributeSqlIgnoresDescription | src/fs-schema.ts:120-166 | the description never changes the rendering |
| FsSql.AttributeSqlEmptyDefault | src/fs-schema.ts:160 | an empty default renders as no default |
| FsSql.AttributeSqlSerialExample | src/fs-schema.ts:131-147 | `id bigint not null default nextval('users_id_seq'::regclass)`, a primary key, renders as `id bigserial primary key` |
| FsSql.ColumnSqls | src/fs-schema.ts:174-180 | on success there is one rendered line per column, in order; it fails exactly when some column fails |
| FsSql.AttributeSqlTableOnlySerial | src/fs-schema.ts:176-179 | the table a column is given changes its line only through the serial check |
| FsSql.TableSql | src/fs-schema.ts:170-185 | none; the table text, specified by TableSqlShape and TableSqlFails |
| FsSql.TableSqlShape | src/fs-schema.ts:170-185 | the table text is `create table <schema>.<table> (`, a newline, the indented column lines in column order joined by `,\n`, and `\n);\n` |
| FsSql.TableSqlFails | src/fs-schema.ts:170-185 | the table text fails exactly when some column fails to render |
| FsSql.WithReference | src/fs-schema.ts:186 | the kept columns are exactly those with a reference |
| FsSql.WithReferenceAppend | src/fs-schema.ts:186 | the filter keeps the input order |
| FsSql.ForeignKeyName | src/fs-schema.ts:189 | the constraint name is `<name>_fk`, never quoted |
| FsSql.ForeignKeySql | src/fs-schema.ts:186-199 | none; the cleaned-up template, specified by ForeignKeySqlShape |
| FsSql.ForeignKeySqlShape | src/fs-schema.ts:190-199 | the statement is the four lines `ALTER TABLE`, `ADD CONSTRAINT`, `FOREIGN KEY (<col>)` and `REFERENCES <t>[ (<col>)]`, trimmed and joined by `\n` |
| FsSql.ForeignKeyStatementShape | src/fs-schema.ts:190-199 | splitting, trimming and dropping the blank lines of the template leaves exactly its four statement lines |
| SchemaDirectory.TableWritesAddFiles | src/fs-schema.ts:168-201 | `writeTable` adds one file for the table and one per referencing column, and keeps every earlier file |
| SchemaDirectory.TableWritesKeepTable | src/fs-schema.ts:170-185 | the table text survives the foreign-key writes under the name its write chose |
| SchemaDirectory.TableReplayedBeforeForeignKey | src/fs-schema.ts:36-46 | however names were versioned, a table file is replayed before every foreign-key file |
| SchemaDirectory.SchemaReplayedBeforeTable | src/fs-schema.ts:36-46 | a schema file is replayed before every table file |
| SchemaDirectory.ExtensionReplayedBeforeSchema | src/fs-schema.ts:36-46 | an extension file is replayed before every schema file |
| SchemaDirectory.FsSchema.constructor | src/fs-schema.ts:25-28 | the writer starts on the given root and directory |
| SchemaDirectory.FsSchema.Clean | src/fs-schema.ts:30-32 | the directory is empty afterwards |
| SchemaDirectory.FsSchema.ReadDir | src/fs-schema.ts:34-48 | every file of the directory appears exactly once, and in replay order |
| SchemaDirectory.FsSchema.Read | src/fs-schema.ts:50-52 | an existing file's content, or nothing for a missing one |
| SchemaDirectory.FsSchema.OutputFileSyncSafe | src/fs-schema.ts:54-68 | the directory afterwards is the safe write of the content to the path |
| SchemaDirectory.FsSchema.WriteExtension | src/fs-schema.ts:70-73 | `extension.<name>.sql` gets the source as it is |
| SchemaDirectory.FsSchema.WriteSchema | src/fs-schema.ts:75-79 | `schema.<schema>.sql` gets `CREATE SCHEMA IF NOT EXISTS "<schema>"` |
| SchemaDirectory.FsSchema.WriteType | src/fs-schema.ts:81-84 | `type.<name>.sql` gets the normalised source |
| SchemaDirectory.FsSchema.WriteFunction | src/fs-schema.ts:86-92 | `function.<schema>.<name>.sql` gets the normalised source |
| SchemaDirectory.FsSchema.WriteIndex | src/fs-schema.ts:94-97 | `index.<schema>.<table>.<name>.sql` gets the source as it is |
| SchemaDirectory.FsSchema.WriteSequence | src/fs-schema.ts:99-102 | `sequence.<schema>.<name>.sql` gets the source as it is |
| SchemaDirectory.FsSchema.WriteView | src/fs-schema.ts:104-110 | `view.<schema>.<name>.sql` gets `CREATE OR REPLACE VIEW <schema>.<name> AS\n<src>\n` |
| SchemaDirectory.FsSchema.WriteTrigger | src/fs-schema.ts:112-118 | `trigger.<schema>.<unquoted table>.<name>.sql` gets the source and a newline |
| SchemaDirectory.FsSchema.WriteForeignKeys | src/fs-schema.ts:187-201 | one safe write per referencing column, in input order, of its foreign-key statement |
| SchemaDirectory.FsSchema.WriteTable | src/fs-schema.ts:168-203 | when a column cannot render, nothing is written and the error is returned; otherwise the table file is written, then one foreign-key file per referencing column |

## Left out

- The catalog queries are left out: the SQL text in `src/pg-client.ts`, `src/db-schema.ts` and the `collect*` functions. They are queries sent to the server with no logic of their own. This includes the query of `collectIndexes`; only its row rewrite is modelled.
- The connection lifecycle and the dump and restore orchestration are left out, because they are network I/O.
- The command line and the test harness are left out.
- The file system is a map from file name to content. `path.join(root, ·)` and `path.resolve` are not modelled: names are taken relative to the root, and `root` is kept only as the writer's name for the directory.
- The writes are synchronous map updates. Errors from the file system, such as permissions or a full disk, are not modelled.
- The order in which `fs.readdir` lists the files is left open: `ReadDir` takes the keys in any order. Its result is proved not to depend on that order.
- SchemaHelpers.Unquoted: JavaScript's `value.length - 1` counts UTF-16 code units. For a value that starts with `"` and ends in a character above U+FFFF, the source keeps a lone surrogate, while the model drops the whole character.
- A name holding `/` makes `path.join` write into a subdirectory, which `readdir` then lists in place of the file. The flat map of file names does not show this.
- SchemaDirectory.FsSchema.Read: `read` returns a promise that is rejected for a missing file. The model returns `None` instead.
- The `write*` methods return their argument; this is not modelled.
- The warning that `outputFileSyncSafe` logs on a clash is not modelled.
- `normalizedSrc` and `pgQuoteString` return a non-string argument unchanged. That is a dynamic-typing case that a typed model has no counterpart for.
- JsStrings.LowerChar: `toLowerCase` is modelled on ASCII letters only. This is exact for comparing against the lower-case reserved words and for the index pattern, which has no `u` flag.
- JsStrings.LexLess: JavaScript compares strings by UTF-16 code units, and the model compares Unicode scalar values. The two orders differ only between characters above U+FFFF and those from U+E000 to U+FFFF.
- FsSql.SerialType: the source looks the type up in an object literal. For keys such as `constructor`, inherited from `Object.prototype`, the lookup would return a function and not fail the assertion. The model treats only the three listed types as having a shorthand.
- FsSql.ForeignKeySqlShape: proved for schema, table, column and reference names that hold no newline, and for non-empty table and reference-table names that do not end in whitespace; catalog identifiers are like this. For other names the statement is still defined by `ForeignKeySql`.
- FsPaths.ReplayOrderOrdered: the strict order is stated for listings without duplicate names, as a directory listing is.
- Indexes.CollectIndexRows: requires the rows to be distinct objects, as the database driver creates a new object per row.
- The functions that the restore side imports from `src/pg-helpers.ts` (`findAndShiftTableReferences`, `findAndShiftFunctionReferences`, `sqlGetFunctionReferences`) are not in that file, so they are not part of this model.
