/**
 * The column records that the catalog query of a table yields
 * (`Attribute` and `Reference` in src/pg-objects/tables.ts and src/types.ts).
 * Optional and nullable fields become `Option`s.
 */
module Types {
  import opened Wrappers

  /** One column. `typeName` is the catalog's formatted type (`type` in the
      record); `isNotNull` is optional and `defaultValue` nullable. */
  datatype Attribute = Attribute(
    table: string,
    name: string,
    typeName: string,
    isNotNull: Option<bool>,
    defaultValue: Option<string>,
    description: Option<string>,
    references: Option<Reference>,
    isPrimaryKey: bool)

  /** A single-column foreign key: the referenced table and column. */
  datatype Reference = Reference(table: string, attribute: Attribute)
}
