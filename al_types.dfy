/** The record shapes of the schema: fields, keys, tables and relations. */
module AlTypes {
  import opened Text

  datatype ObjectType = Table | TableExtension

  /** One column declaration of a `table` or `tableextension`. */
  datatype AlField = AlField(
    id: nat,
    name: string,
    fieldType: string,
    caption: string,
    fieldClass: string,      // Normal, FlowField, FlowFilter
    tableRelation: string,   // raw TableRelation text
    isPrimaryKey: bool,
    isForeignKey: bool,
    relatedTable: string,    // resolved from tableRelation
    relatedField: string)    // resolved from tableRelation

  datatype AlKey = AlKey(name: string, fields: seq<string>, isPrimaryKey: bool)

  /** One parsed object. `caption` is set by the parser and read by the diagram preparation. */
  datatype AlTable = AlTable(
    id: nat,
    name: string,
    caption: string,
    objectType: ObjectType,
    extendsTable: string,    // only for a tableextension
    fields: seq<AlField>,
    keys: seq<AlKey>,
    filePath: string)

  datatype AlRelation = AlRelation(fromTable: string, fromField: string, toTable: string, toField: string)

  /** `app.json` is carried as the string-valued entries the host extracted from it. */
  type AppJson = map<string, string>

  datatype AlProjectScanResult = AlProjectScanResult(
    tables: seq<AlTable>,
    relations: seq<AlRelation>,
    appJson: Option<AppJson>,
    errors: seq<string>)

  /** Some field of the list has the name `name`, ignoring case. */
  predicate HasFieldNamed(fields: seq<AlField>, name: string) {
    exists k :: 0 <= k < |fields| && EqualsIgnoreCase(fields[k].name, name)
  }
}
