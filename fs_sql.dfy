/**
 * The SQL text `FsSchema` writes for a table: one line per column
 * (`attributeSql`), the `create table` statement around them, and one
 * `ALTER TABLE ... ADD CONSTRAINT ... FOREIGN KEY` statement per column with
 * a reference.
 */
module FsSql {
  import opened Wrappers
  import opened JsStrings
  import opened Types
  import opened SchemaHelpers

  // ---------------------------------------------------------------------
  // attributeSql

  /** The default that marks a serial column: the sequence the column's own
      table and name imply. */
  predicate IsSerialDefault(a: Attribute) {
    a.defaultValue == Some("nextval('" + a.table + "_" + a.name + "_seq'::regclass)")
  }

  /** The serial shorthand of an integer type, if it has one. */
  function SerialType(typeName: string): (r: Option<string>)
    ensures r.Some? <==> typeName in ["smallint", "integer", "bigint"]
  {
    if typeName == "smallint" then Some("smallserial")
    else if typeName == "integer" then Some("serial")
    else if typeName == "bigint" then Some("bigserial")
    else None
  }

  /** The column as the recursive call sees it: the serial type, no default,
      and `isNotNull` not passed on, so absent. It is never serial again, so
      the recursion stops after one step. */
  function Collapsed(a: Attribute, serialType: string): (c: Attribute)
    ensures !IsSerialDefault(c)
    ensures c.table == a.table && c.name == a.name && c.typeName == serialType
    ensures c.isNotNull.None? && c.defaultValue.None?
    ensures c.description == a.description && c.references == a.references && c.isPrimaryKey == a.isPrimaryKey
  {
    a.(typeName := serialType, isNotNull := None, defaultValue := None)
  }

  /** `/* references t */` for a primary-key target,
      `/* references t(col) */` otherwise. */
  function ReferenceComment(ref: Reference): string {
    "/* references " + ref.table + (if ref.attribute.isPrimaryKey then "" else "(" + ref.attribute.name + ")") + " */"
  }

  /** The parts of a column line that are present, in order: the name
      (quoted if it is a keyword), the type, `not null`, the default (when
      it is a non-empty text), `primary key`, the references comment. */
  function ColumnParts(a: Attribute): (parts: seq<string>)
    ensures |parts| >= 2 && parts[0] == QuotedIfKeyword(a.name) && parts[1] == a.typeName
  {
    [QuotedIfKeyword(a.name), a.typeName]
    + (if a.isNotNull == Some(true) then ["not null"] else [])
    + (if a.defaultValue.Some? && a.defaultValue.value != "" then ["default " + a.defaultValue.value] else [])
    + (if a.isPrimaryKey then ["primary key"] else [])
    + (if a.references.Some? then [ReferenceComment(a.references.value)] else [])
  }

  /** One column line, or the failed assertion's message when a serial
      default sits on a type without a serial shorthand. */
  function AttributeSql(a: Attribute): (r: Result<string, string>)
    ensures r.Failure? ==> r.error == "Serial mapping not found for " + a.typeName + "."
    decreases if IsSerialDefault(a) then 1 else 0
  {
    if IsSerialDefault(a) then
      match SerialType(a.typeName)
      case None => Failure("Serial mapping not found for " + a.typeName + ".")
      case Some(st) => AttributeSql(Collapsed(a, st))
    else Success(Join(ColumnParts(a), " "))
  }

  /** The rendering fails exactly for a serial default on a type that is not
      smallint, integer or bigint. */
  lemma AttributeSqlFails(a: Attribute)
    ensures AttributeSql(a).Failure? <==> IsSerialDefault(a) && a.typeName !in ["smallint", "integer", "bigint"]
  {
    if IsSerialDefault(a) && a.typeName in ["smallint", "integer", "bigint"] {
      var c := Collapsed(a, SerialType(a.typeName).value);
      assert !IsSerialDefault(c);
    }
  }

  /** A serial column is written with the serial type, and with neither a
      default nor `not null`. */
  lemma AttributeSqlSerial(a: Attribute)
    requires IsSerialDefault(a) && a.typeName in ["smallint", "integer", "bigint"]
    ensures AttributeSql(a) == Success(Join(
      [QuotedIfKeyword(a.name), SerialType(a.typeName).value]
      + (if a.isPrimaryKey then ["primary key"] else [])
      + (if a.references.Some? then [ReferenceComment(a.references.value)] else []), " "))
  {
    var c := Collapsed(a, SerialType(a.typeName).value);
    assert !IsSerialDefault(c);
    assert ColumnParts(c) == [QuotedIfKeyword(a.name), SerialType(a.typeName).value]
      + (if a.isPrimaryKey then ["primary key"] else [])
      + (if a.references.Some? then [ReferenceComment(a.references.value)] else []);
  }

  /** A column without a serial default is written as its name (quoted if
      it is a keyword) and type, then `not null` when it is known to be
      non-null, `default <value>` for a non-empty default, `primary key`,
      and the references comment, each only when present, in that order,
      separated by single spaces. */
  lemma AttributeSqlPlain(a: Attribute)
    requires !IsSerialDefault(a)
    ensures AttributeSql(a) == Success(Join(
      [QuotedIfKeyword(a.name), a.typeName]
      + (if a.isNotNull == Some(true) then ["not null"] else [])
      + (if a.defaultValue.Some? && a.defaultValue.value != "" then ["default " + a.defaultValue.value] else [])
      + (if a.isPrimaryKey then ["primary key"] else [])
      + (if a.references.Some? then [ReferenceComment(a.references.value)] else []), " "))
  {
  }

  /** A missing `isNotNull` defaults to false: it renders as an explicit
      false. */
  lemma AttributeSqlNotNullDefault(a: Attribute)
    ensures AttributeSql(a.(isNotNull := None)) == AttributeSql(a.(isNotNull := Some(false)))
  {
    var n, f := a.(isNotNull := None), a.(isNotNull := Some(false));
    assert IsSerialDefault(n) == IsSerialDefault(f);
    assert ColumnParts(n) == ColumnParts(f);
    if IsSerialDefault(n) && SerialType(a.typeName).Some? {
      var st := SerialType(a.typeName).value;
      assert Collapsed(n, st) == Collapsed(f, st);
    }
  }

  /** The table a column is given at src/fs-schema.ts:178 matters only to
      the serial check: once that check agrees, the rendering is the same. */
  lemma AttributeSqlTableOnlySerial(a: Attribute, table: string)
    requires IsSerialDefault(a.(table := table)) == IsSerialDefault(a)
    ensures AttributeSql(a.(table := table)) == AttributeSql(a)
  {
    var b := a.(table := table);
    if !IsSerialDefault(a) {
      ColumnPartsIgnoreTable(a, table);
    } else if SerialType(a.typeName).Some? {
      var st := SerialType(a.typeName).value;
      assert Collapsed(b, st) == Collapsed(a, st).(table := table);
      ColumnPartsIgnoreTable(Collapsed(a, st), table);
    }
  }

  lemma ColumnPartsIgnoreTable(a: Attribute, table: string)
    ensures ColumnParts(a.(table := table)) == ColumnParts(a)
  {
  }

  /** The serial types map one to one. */
  lemma SerialTypeMapping()
    ensures SerialType("smallint") == Some("smallserial")
    ensures SerialType("integer") == Some("serial")
    ensures SerialType("bigint") == Some("bigserial")
  {
  }

  /** Every rendered line starts with the column's name and a space. */
  lemma AttributeSqlStartsWithName(a: Attribute)
    requires AttributeSql(a).Success?
    ensures StartsWith(AttributeSql(a).value, QuotedIfKeyword(a.name) + " ")
  {
    var b := if IsSerialDefault(a) then Collapsed(a, SerialType(a.typeName).value) else a;
    if IsSerialDefault(a) {
      assert !IsSerialDefault(b);
    }
    assert AttributeSql(a) == Success(Join(ColumnParts(b), " "));
    JoinStartsWith(ColumnParts(b), " ");
  }

  lemma JoinStartsWith(parts: seq<string>, sep: string)
    requires |parts| >= 2
    ensures StartsWith(Join(parts, sep), parts[0] + sep)
  {
    var r := Join(parts, sep);
    assert r == parts[0] + sep + Join(parts[1..], sep);
    assert r[..|parts[0] + sep|] == parts[0] + sep;
  }

  /** The description never reaches the output. */
  lemma AttributeSqlIgnoresDescription(a: Attribute, d: Option<string>)
    ensures AttributeSql(a.(description := d)) == AttributeSql(a)
  {
    var b := a.(description := d);
    assert IsSerialDefault(b) == IsSerialDefault(a);
    assert ColumnParts(b) == ColumnParts(a);
    if IsSerialDefault(a) && SerialType(a.typeName).Some? {
      var st := SerialType(a.typeName).value;
      assert !IsSerialDefault(Collapsed(a, st)) && !IsSerialDefault(Collapsed(b, st));
      assert ColumnParts(Collapsed(b, st)) == ColumnParts(Collapsed(a, st));
    }
  }

  /** An empty default is falsy and writes no default clause. */
  lemma AttributeSqlEmptyDefault(a: Attribute)
    requires a.defaultValue == Some("")
    ensures AttributeSql(a) == AttributeSql(a.(defaultValue := None))
  {
    assert !IsSerialDefault(a);
  }

  /** Example: a serial primary key loses its default and its `not null`. */
  lemma AttributeSqlSerialExample()
    ensures AttributeSql(Attribute("users", "id", "bigint", Some(true),
      Some("nextval('users_id_seq'::regclass)"), None, None, true)) == Success("id bigserial primary key")
  {
    var a := Attribute("users", "id", "bigint", Some(true), Some("nextval('users_id_seq'::regclass)"), None, None, true);
    SerialExampleDefault();
    AttributeSqlSerial(a);
    SerialExampleLine();
  }

  lemma SerialExampleDefault()
    ensures "nextval('" + "users" + "_" + "id" + "_seq'::regclass)" == "nextval('users_id_seq'::regclass)"
  {
  }

  lemma SerialExampleLine()
    ensures Join([QuotedIfKeyword("id"), "bigserial"] + ["primary key"] + [], " ") == "id bigserial primary key"
  {
    IdNotKeyword();
    var parts := [QuotedIfKeyword("id"), "bigserial"] + ["primary key"] + [];
    assert parts == ["id", "bigserial", "primary key"];
    JoinThree("id", "bigserial", "primary key", " ");
    SerialExampleText();
  }

  lemma IdNotKeyword()
    ensures QuotedIfKeyword("id") == "id"
  {
    assert LowerCase("id") == "id";
    assert "id" !in Keywords;
  }

  lemma SerialExampleText()
    ensures "id" + " " + "bigserial" + " " + "primary key" == "id bigserial primary key"
  {
  }

  // ---------------------------------------------------------------------
  // writeTable: the table file

  /** `items.map(render)` where a render may throw: the first failure ends
      the computation. */
  function RenderAll(render: Attribute -> Result<string, string>, items: seq<Attribute>): (r: Result<seq<string>, string>)
    ensures r.Success? ==> |r.value| == |items|
    ensures r.Success? ==> forall i :: 0 <= i < |items| ==> render(items[i]) == Success(r.value[i])
    ensures r.Failure? <==> exists i :: 0 <= i < |items| && render(items[i]).Failure?
  {
    if |items| == 0 then Success([])
    else
      match render(items[0])
      case Failure(e) => Failure(e)
      case Success(line) =>
        match RenderAll(render, items[1..])
        case Failure(e) =>
          assert forall i :: 0 <= i < |items| - 1 ==> items[1..][i] == items[i + 1];
          Failure(e)
        case Success(rest) =>
          assert forall i :: 1 <= i < |items| ==> items[i] == items[1..][i - 1];
          Success([line] + rest)
  }

  /** The columns rendered in order. */
  function ColumnSqls(attributes: seq<Attribute>): (r: Result<seq<string>, string>)
    ensures r.Success? ==> |r.value| == |attributes|
    ensures r.Success? ==> forall i :: 0 <= i < |attributes| ==> AttributeSql(attributes[i]) == Success(r.value[i])
    ensures r.Failure? <==> exists i :: 0 <= i < |attributes| && AttributeSql(attributes[i]).Failure?
  {
    RenderAll(AttributeSql, attributes)
  }

  /** `"  " + line` for each line. */
  function Indented(lines: seq<string>): (r: seq<string>)
    ensures |r| == |lines| && forall i :: 0 <= i < |lines| ==> r[i] == "  " + lines[i]
  {
    seq(|lines|, i requires 0 <= i < |lines| => "  " + lines[i])
  }

  /** Each column as the table sees it: the record with the table's name. */
  function WithTable(attributes: seq<Attribute>, table: string): (r: seq<Attribute>)
    ensures |r| == |attributes| && forall i :: 0 <= i < |attributes| ==> r[i] == attributes[i].(table := table)
  {
    seq(|attributes|, i requires 0 <= i < |attributes| => attributes[i].(table := table))
  }

  /** The content of `table.<schema>.<table>.sql`. */
  function TableSql(schema: string, table: string, attributes: seq<Attribute>): Result<string, string> {
    var lines :- ColumnSqls(WithTable(SortedAttributes(attributes), table));
    Success(Join(["create table " + schema + "." + table + " (", Join(Indented(lines), ",\n"), ");\n"], "\n"))
  }

  /** The table text: a header line, the indented column lines in column
      order separated by `,\n`, and `);` on a line of its own. */
  lemma TableSqlShape(schema: string, table: string, attributes: seq<Attribute>)
    requires TableSql(schema, table, attributes).Success?
    ensures var sorted := SortedAttributes(attributes);
      var lines := ColumnSqls(WithTable(sorted, table)).value;
      |lines| == |attributes| &&
      (forall i :: 0 <= i < |lines| ==> AttributeSql(sorted[i].(table := table)) == Success(lines[i])) &&
      TableSql(schema, table, attributes).value ==
        "create table " + schema + "." + table + " (" + "\n" + Join(Indented(lines), ",\n") + "\n);\n"
  {
    var sorted := SortedAttributes(attributes);
    SortedAttributesPermutation(attributes);
    var lines := ColumnSqls(WithTable(sorted, table)).value;
    TableText("create table " + schema + "." + table + " (", Join(Indented(lines), ",\n"));
  }

  lemma TableText(header: string, body: string)
    ensures Join([header, body, ");\n"], "\n") == header + "\n" + body + "\n);\n"
  {
    JoinThree(header, body, ");\n", "\n");
    assert header + "\n" + body + "\n" + ");\n" == header + "\n" + body + "\n);\n";
  }

  /** The table text fails exactly when one of its columns does. */
  lemma TableSqlFails(schema: string, table: string, attributes: seq<Attribute>)
    ensures TableSql(schema, table, attributes).Failure? <==>
      exists a :: a in attributes && AttributeSql(a.(table := table)).Failure?
  {
    var sorted := SortedAttributes(attributes);
    SortedAttributesPermutation(attributes);
    var w := WithTable(sorted, table);
    if TableSql(schema, table, attributes).Failure? {
      var i :| 0 <= i < |w| && AttributeSql(w[i]).Failure?;
      assert sorted[i] in multiset(attributes);
    } else {
      forall a | a in attributes
        ensures AttributeSql(a.(table := table)).Success?
      {
        assert a in multiset(sorted);
        var i :| 0 <= i < |sorted| && sorted[i] == a;
        assert w[i] == a.(table := table);
      }
    }
  }

  // ---------------------------------------------------------------------
  // writeTable: the foreign-key files

  /** `attributes.filter(attr => attr.references)`: the columns with a
      reference, in input order. */
  function WithReference(attributes: seq<Attribute>): (r: seq<Attribute>)
    ensures |r| <= |attributes|
    ensures forall i :: 0 <= i < |r| ==> r[i].references.Some?
    ensures forall a :: a in r <==> a in attributes && a.references.Some?
  {
    if |attributes| == 0 then []
    else (if attributes[0].references.Some? then [attributes[0]] else []) + WithReference(attributes[1..])
  }

  /** The filter keeps the order: a column list made of two parts filters
      into the filtered parts. */
  lemma {:induction false} WithReferenceAppend(a: seq<Attribute>, b: seq<Attribute>)
    ensures WithReference(a + b) == WithReference(a) + WithReference(b)
  {
    if |a| == 0 {
      assert a + b == b;
    } else {
      assert (a + b)[0] == a[0];
      assert (a + b)[1..] == a[1..] + b;
      WithReferenceAppend(a[1..], b);
    }
  }

  /** `quotedIfUnsafe(name + '_fk')`. */
  function ForeignKeyName(name: string): (r: string)
    ensures r == name + "_fk"
  {
    ForeignKeyNameUnquoted(name);
    QuotedIfKeyword(name + "_fk")
  }

  /** `` for a primary-key target, `(<col>)` otherwise. */
  function TargetColumn(ref: Reference): string {
    if ref.attribute.isPrimaryKey then "" else "(" + ref.attribute.name + ")"
  }

  const Indent: string := "        "

  /** The lines of the template literal, which opens with a line break and
      closes with the indentation of its closing backquote. */
  function ForeignKeyTemplateLines(schema: string, table: string, fkName: string, column: string,
                                   refTable: string, target: string): seq<string> {
    [ "",
      Indent + ("ALTER TABLE " + schema + "." + table),
      Indent + ("ADD CONSTRAINT " + fkName),
      Indent + ("FOREIGN KEY (" + column + ")"),
      Indent + ("REFERENCES " + refTable + " " + target),
      "      " ]
  }

  /** The template literal before it is cleaned up. */
  function ForeignKeyTemplate(schema: string, table: string, name: string, ref: Reference): string {
    Join(ForeignKeyTemplateLines(schema, table, ForeignKeyName(name), QuotedIfKeyword(name), ref.table, TargetColumn(ref)), "\n")
  }

  /** `lines.map(f)`. */
  function MapLines(f: string -> string, lines: seq<string>): (r: seq<string>)
    ensures |r| == |lines|
    ensures forall i :: 0 <= i < |lines| ==> r[i] == f(lines[i])
  {
    if |lines| == 0 then [] else [f(lines[0])] + MapLines(f, lines[1..])
  }

  /** A sequence of six lines, given line by line. */
  lemma SixLines(t: seq<string>, x0: string, x1: string, x2: string, x3: string, x4: string, x5: string)
    requires |t| == 6
    requires t[0] == x0 && t[1] == x1 && t[2] == x2 && t[3] == x3 && t[4] == x4 && t[5] == x5
    ensures t == [x0, x1, x2, x3, x4, x5]
  {
  }

  /** `lines.map(l => l.trim())`. */
  function TrimAll(lines: seq<string>): (r: seq<string>)
    ensures |r| == |lines|
  {
    MapLines(Trim, lines)
  }

  /** `lines.filter(l => l)`: the non-empty lines, in order. */
  function NonEmpty(lines: seq<string>): (r: seq<string>)
    ensures |r| <= |lines|
    ensures forall i :: 0 <= i < |r| ==> r[i] != ""
  {
    if |lines| == 0 then []
    else (if lines[0] == "" then [] else [lines[0]]) + NonEmpty(lines[1..])
  }

  /** The content of a foreign-key file: the template split into lines,
      each trimmed, the empty ones dropped, joined again. */
  function ForeignKeySql(schema: string, table: string, name: string, ref: Reference): string {
    Join(NonEmpty(TrimAll(Split(ForeignKeyTemplate(schema, table, name, ref), '\n'))), "\n")
  }

  /** A line ends with a character that trimming keeps. */
  predicate EndsVisible(s: string) {
    |s| > 0 && !IsWhitespace(s[|s| - 1])
  }

  /** For names without line breaks and with a visible last character, the
      statement is exactly four lines with the indentation gone. */
  lemma ForeignKeySqlShape(schema: string, table: string, name: string, ref: Reference)
    requires '\n' !in schema && '\n' !in table && '\n' !in name
    requires '\n' !in ref.table && '\n' !in ref.attribute.name
    requires EndsVisible(table) && EndsVisible(ref.table)
    ensures ForeignKeySql(schema, table, name, ref) == Join([
      "ALTER TABLE " + schema + "." + table,
      "ADD CONSTRAINT " + name + "_fk",
      "FOREIGN KEY (" + QuotedIfKeyword(name) + ")",
      "REFERENCES " + ref.table + (if ref.attribute.isPrimaryKey then "" else " (" + ref.attribute.name + ")")], "\n")
  {
    var fkName, column, target := ForeignKeyName(name), QuotedIfKeyword(name), TargetColumn(ref);
    QuotedIfKeywordNoNewline(name);
    assert target == "" || (target[0] == '(' && EndsVisible(target));
    assert EndsVisible(fkName) by {
      assert fkName[|fkName| - 1] == 'k';
    }
    ForeignKeySqlIsStatement(schema, table, name, ref);
    ForeignKeyStatementShape(schema, table, fkName, column, ref.table, target);
    ConstraintLine(name);
    ReferencesTarget(ref);
  }

  lemma ForeignKeySqlIsStatement(schema: string, table: string, name: string, ref: Reference)
    ensures ForeignKeySql(schema, table, name, ref) ==
      ForeignKeyStatement(schema, table, ForeignKeyName(name), QuotedIfKeyword(name), ref.table, TargetColumn(ref))
  {
  }

  lemma ConstraintLine(name: string)
    ensures "ADD CONSTRAINT " + ForeignKeyName(name) == "ADD CONSTRAINT " + name + "_fk"
  {
  }

  /** The last statement line for either kind of target. */
  lemma ReferencesTarget(ref: Reference)
    ensures var target := TargetColumn(ref);
      "REFERENCES " + ref.table + (if target == "" then "" else " " + target) ==
      "REFERENCES " + ref.table + (if ref.attribute.isPrimaryKey then "" else " (" + ref.attribute.name + ")")
  {
    if !ref.attribute.isPrimaryKey {
      var n := ref.attribute.name;
      assert TargetColumn(ref) != "";
      assert " " + ("(" + n + ")") == " (" + n + ")";
    }
  }

  /** The cleaned-up template for plain strings. */
  function ForeignKeyStatement(schema: string, table: string, fkName: string, column: string,
                               refTable: string, target: string): string {
    Join(NonEmpty(TrimAll(Split(Join(ForeignKeyTemplateLines(schema, table, fkName, column, refTable, target), "\n"), '\n'))), "\n")
  }

  lemma ForeignKeyStatementShape(schema: string, table: string, fkName: string, column: string,
                                 refTable: string, target: string)
    requires '\n' !in schema && '\n' !in table && '\n' !in fkName && '\n' !in column
    requires '\n' !in refTable && '\n' !in target
    requires EndsVisible(table) && EndsVisible(fkName) && EndsVisible(refTable)
    requires target == "" || (target[0] == '(' && EndsVisible(target))
    ensures ForeignKeyStatement(schema, table, fkName, column, refTable, target) == Join([
      "ALTER TABLE " + schema + "." + table,
      "ADD CONSTRAINT " + fkName,
      "FOREIGN KEY (" + column + ")",
      "REFERENCES " + refTable + (if target == "" then "" else " " + target)], "\n")
  {
    var lines := ForeignKeyTemplateLines(schema, table, fkName, column, refTable, target);
    ForeignKeyTemplateSplit(schema, table, fkName, column, refTable, target);
    var c1 := "ALTER TABLE " + schema + "." + table;
    var c2 := "ADD CONSTRAINT " + fkName;
    var c3 := "FOREIGN KEY (" + column + ")";
    var c4 := "REFERENCES " + refTable + (if target == "" then "" else " " + target);
    assert Trim(lines[0]) == "" by {
      TrimBlank(lines[0]);
    }
    assert Trim(lines[1]) == c1 by {
      IndentedLine(c1);
    }
    assert Trim(lines[2]) == c2 by {
      IndentedLine(c2);
    }
    assert Trim(lines[3]) == c3 by {
      IndentedLine(c3);
    }
    assert Trim(lines[4]) == c4 by {
      ReferencesLine(refTable, target);
    }
    assert Trim(lines[5]) == "" by {
      assert lines[5] == "      ";
      TrimBlank("      ");
    }
    var t := TrimAll(lines);
    SixLines(t, "", c1, c2, c3, c4, "");
    NonEmptyFour(c1, c2, c3, c4);
  }

  /** The template splits back into its lines. */
  lemma ForeignKeyTemplateSplit(schema: string, table: string, fkName: string, column: string,
                                refTable: string, target: string)
    requires '\n' !in schema && '\n' !in table && '\n' !in fkName && '\n' !in column
    requires '\n' !in refTable && '\n' !in target
    ensures var lines := ForeignKeyTemplateLines(schema, table, fkName, column, refTable, target);
      Split(Join(lines, "\n"), '\n') == lines
  {
    var lines := ForeignKeyTemplateLines(schema, table, fkName, column, refTable, target);
    forall i | 0 <= i < |lines|
      ensures '\n' !in lines[i]
    {
    }
    SplitJoin(lines, '\n');
  }

  lemma QuotedIfKeywordNoNewline(name: string)
    requires '\n' !in name
    ensures '\n' !in QuotedIfKeyword(name)
  {
  }

  /** The last line of the template: a primary-key target leaves a blank
      at its end, which the trim removes. */
  lemma ReferencesLine(refTable: string, target: string)
    requires EndsVisible(refTable)
    requires target == "" || (target[0] == '(' && EndsVisible(target))
    ensures Trim(Indent + ("REFERENCES " + refTable + " " + target)) ==
      "REFERENCES " + refTable + (if target == "" then "" else " " + target)
  {
    var core := "REFERENCES " + refTable;
    assert core[0] == 'R';
    if target == "" {
      assert "REFERENCES " + refTable + " " + target == core + " ";
      PaddedLine(core);
    } else {
      var full := core + (" " + target);
      assert "REFERENCES " + refTable + " " + target == full;
      assert full[|full| - 1] == target[|target| - 1];
      IndentedLine(full);
    }
  }

  /** A line of the template: eight blanks and its text. */
  lemma IndentedLine(core: string)
    requires |core| > 0 && !IsWhitespace(core[0]) && EndsVisible(core)
    ensures Trim(Indent + core) == core
  {
    TrimIndented(Indent, core, "");
    assert Indent + core + "" == Indent + core;
  }

  /** A line of the template that ends in a blank. */
  lemma PaddedLine(core: string)
    requires |core| > 0 && !IsWhitespace(core[0]) && EndsVisible(core)
    ensures Trim(Indent + (core + " ")) == core
  {
    TrimIndented(Indent, core, " ");
    assert Indent + core + " " == Indent + (core + " ");
  }

  lemma NonEmptyFour(c1: string, c2: string, c3: string, c4: string)
    requires c1 != "" && c2 != "" && c3 != "" && c4 != ""
    ensures NonEmpty(["", c1, c2, c3, c4, ""]) == [c1, c2, c3, c4]
  {
    var s := ["", c1, c2, c3, c4, ""];
    assert NonEmpty([""]) == [] by {
      assert [""][1..] == [];
    }
    assert NonEmpty([c4, ""]) == [c4] by {
      assert [c4, ""][1..] == [""];
    }
    assert NonEmpty([c3, c4, ""]) == [c3, c4] by {
      assert [c3, c4, ""][1..] == [c4, ""];
    }
    assert NonEmpty([c2, c3, c4, ""]) == [c2, c3, c4] by {
      assert [c2, c3, c4, ""][1..] == [c3, c4, ""];
    }
    assert NonEmpty([c1, c2, c3, c4, ""]) == [c1, c2, c3, c4] by {
      assert [c1, c2, c3, c4, ""][1..] == [c2, c3, c4, ""];
    }
    assert s[1..] == [c1, c2, c3, c4, ""];
  }

}
