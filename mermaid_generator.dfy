/** The Mermaid `erDiagram` export: one block per drawn table name (after
    sanitizing, first object wins) listing typed fields with PK/FK markers and
    captions, then one `}o--||` line per distinct relation, all joined by newlines. */
module MermaidGenerator {
  import opened Text
  import opened AlTypes
  import opened Dedup
  import opened EntitySelection
  import opened MermaidName

  // ----- joining and splitting lines -----

  /** `parts.join(sep)`. */
  function Join(parts: seq<string>, sep: char): string
    decreases |parts|
  {
    if |parts| == 0 then []
    else if |parts| == 1 then parts[0]
    else parts[0] + [sep] + Join(parts[1..], sep)
  }

  /** `s.split(sep)`. */
  function Split(s: string, sep: char): seq<string>
    decreases |s|
  {
    var i := FindChar(s, sep, 0);
    if i == |s| then [s] else [s[..i]] + Split(s[i + 1..], sep)
  }

  /** Splitting undoes joining when no part holds the separator. */
  lemma {:induction false} SplitJoin(parts: seq<string>, sep: char)
    requires |parts| > 0
    requires forall i :: 0 <= i < |parts| ==> sep !in parts[i]
    ensures Split(Join(parts, sep), sep) == parts
    decreases |parts|
  {
    if |parts| == 1 {
      assert FindChar(parts[0], sep, 0) == |parts[0]|;
    } else {
      var rest := Join(parts[1..], sep);
      var s := parts[0] + [sep] + rest;
      assert Join(parts, sep) == s;
      FindAfter(parts[0], sep, rest);
      assert s[..|parts[0]|] == parts[0];
      assert s[|parts[0]| + 1..] == rest;
      assert Split(s, sep) == [parts[0]] + Split(rest, sep);
      SplitJoin(parts[1..], sep);
      assert parts == [parts[0]] + parts[1..];
    }
  }

  // ----- types and constraints -----

  /** `mapAlTypeToMermaid`: the label of the lower-cased, trimmed type name. */
  function MapAlTypeToMermaid(alType: string): string {
    TypeLabel(Trim(Lower(alType)))
  }

  /** The chain of tests on the normalized type name, in the order written. */
  function TypeLabel(t: string): string {
    if StartsWith(t, "code") then "string"
    else if StartsWith(t, "text") then "string"
    else if t == "integer" then "int"
    else if t == "biginteger" then "bigint"
    else if t == "decimal" then "decimal"
    else if t == "boolean" then "boolean"
    else if t == "date" then "date"
    else if t == "time" then "time"
    else if t == "datetime" then "datetime"
    else if t == "guid" then "guid"
    else if t == "blob" then "blob"
    else if t == "media" then "media"
    else if t == "mediaset" then "mediaset"
    else if t == "recordid" then "recordid"
    else if t == "option" then "option"
    else if StartsWith(t, "enum") then "enum"
    else if t == "duration" then "duration"
    else if t == "dateformula" then "dateformula"
    else "string"
  }

  /** Every type label the export can write. */
  function Labels(): set<string> { {"string", "int", "bigint", "decimal", "boolean", "date", "time", "datetime",
    "guid", "blob", "media", "mediaset", "recordid", "option", "enum", "duration", "dateformula"}
  }

  /** The export writes one of a fixed set of labels. */
  lemma MapAlTypeLabels(alType: string)
    ensures MapAlTypeToMermaid(alType) in Labels()
  {
  }

  /** The type names mapped by exact match, and their labels. */
  function ExactTypes(): map<string, string> {
    map[
    "integer" := "int", "biginteger" := "bigint", "decimal" := "decimal", "boolean" := "boolean",
    "date" := "date", "time" := "time", "datetime" := "datetime", "guid" := "guid", "blob" := "blob",
    "media" := "media", "mediaset" := "mediaset", "recordid" := "recordid", "option" := "option",
    "duration" := "duration", "dateformula" := "dateformula"]
  }

  /** `Code…` and `Text…` types are strings. */
  lemma TypeLabelText(t: string)
    requires StartsWith(t, "code") || StartsWith(t, "text")
    ensures TypeLabel(t) == "string"
  {
  }

  /** The exactly matched names map as listed. */
  lemma TypeLabelExact(t: string)
    requires t in ExactTypes()
    ensures TypeLabel(t) == ExactTypes()[t]
  {
    assert |t| >= 4 && t[0] != 'c' && (t[0] != 't' || t[1] != 'e');
    assert !StartsWith(t, "code") && !StartsWith(t, "text") by {
      assert "code"[0] == 'c' && "text"[1] == 'e';
    }
  }

  /** `Enum…` types are enums. */
  lemma TypeLabelEnum(t: string)
    requires StartsWith(t, "enum")
    ensures TypeLabel(t) == "enum"
  {
    assert t[0] == t[..4][0] == 'e';
  }

  /** Anything else is a string. */
  lemma TypeLabelOther(t: string)
    requires !StartsWith(t, "code") && !StartsWith(t, "text") && !StartsWith(t, "enum") && t !in ExactTypes()
    ensures TypeLabel(t) == "string"
  {
  }

  /** Lower-casing and trimming a second time changes nothing. */
  lemma NormalizeTwice(alType: string)
    ensures Trim(Lower(Trim(Lower(alType)))) == Trim(Lower(alType))
  {
    var l := Lower(alType);
    var t := Trim(l);
    var a := SkipSpaces(l, 0);
    assert t == l[a..a + |t|];
    LowerSlice(alType, a, a + |t|);
    TrimOfTrimmed(t);
  }

  /** Case and surrounding whitespace do not matter. */
  lemma MapAlTypeNormalized(alType: string)
    ensures MapAlTypeToMermaid(Trim(Lower(alType))) == MapAlTypeToMermaid(alType)
  {
    NormalizeTwice(alType);
  }

  /** `buildConstraints`: ` PK`, ` FK`, ` PK,FK` or nothing. */
  function BuildConstraints(f: AlField): string {
    var parts := (if f.isPrimaryKey then ["PK"] else []) + (if f.isForeignKey then ["FK"] else []);
    if |parts| > 0 then " " + Join(parts, ',') else ""
  }

  /** Reading the markers back from a constraint suffix. */
  function ReadConstraints(c: string): (bool, bool) {
    if c == [] then (false, false)
    else var parts := Split(c[1..], ','); ("PK" in parts, "FK" in parts)
  }

  /** The suffix records exactly the two flags. */
  lemma ConstraintsRoundTrip(f: AlField)
    ensures ReadConstraints(BuildConstraints(f)) == (f.isPrimaryKey, f.isForeignKey)
  {
    var parts := (if f.isPrimaryKey then ["PK"] else []) + (if f.isForeignKey then ["FK"] else []);
    if |parts| > 0 {
      var c := " " + Join(parts, ',');
      assert c[1..] == Join(parts, ',');
      assert forall i :: 0 <= i < |parts| ==> parts[i] == "PK" || parts[i] == "FK";
      assert ',' !in "PK" && ',' !in "FK";
      SplitJoin(parts, ',');
      assert "PK" != "FK";
    }
  }

  // ----- the diagram text -----

  /** One line per element, in order. */
  function Each<T>(xs: seq<T>, line: T -> string): seq<string> {
    seq(|xs|, i requires 0 <= i < |xs| => line(xs[i]))
  }

  lemma EachSnoc<T>(xs: seq<T>, x: T, line: T -> string)
    ensures Each(xs + [x], line) == Each(xs, line) + [line(x)]
  {
    assert forall i :: 0 <= i < |xs| ==> (xs + [x])[i] == xs[i];
  }

  /** The Mermaid name of the entity an object draws. */
  function MermaidEntityName(t: AlTable): string {
    SanitizeMermaidName(EntityName(t))
  }

  /** ` "caption"` when the caption is not empty. */
  function Comment(caption: string): string {
    if caption != [] then " \"" + caption + "\"" else ""
  }

  function FieldLine(f: AlField): string {
    "        " + MapAlTypeToMermaid(f.fieldType) + " " + SanitizeMermaidName(f.name) + BuildConstraints(f) + Comment(f.caption)
  }

  function EntityBlock(t: AlTable): seq<string> {
    ["    " + MermaidEntityName(t) + " {"] + Each(t.fields, FieldLine) + ["    }"]
  }

  /** The blocks of the elements, one after the other. */
  function Blocks<T>(xs: seq<T>, block: T -> seq<string>): seq<string> {
    if xs == [] then [] else Blocks(xs[..|xs| - 1], block) + block(xs[|xs| - 1])
  }

  /** The objects whose block is written: the first to draw each Mermaid name. */
  function DrawnEntities(ts: seq<AlTable>): seq<AlTable> {
    Firsts(Candidates(ts), MermaidEntityName)
  }

  /** The de-duplication key of a relation line. */
  function MermaidRelationKey(r: AlRelation): string {
    SanitizeMermaidName(r.fromTable) + "|" + SanitizeMermaidName(r.toTable) + "|" + r.fromField
  }

  function RelationLine(r: AlRelation): string {
    "    " + SanitizeMermaidName(r.fromTable) + " }o--|| " + SanitizeMermaidName(r.toTable)
      + " : \"" + SanitizeMermaidName(r.fromField) + "\""
  }

  /** The lines of the export, before they are joined. */
  function ErdLines(scan: AlProjectScanResult): seq<string> {
    ["erDiagram"] + Blocks(DrawnEntities(scan.tables), EntityBlock)
      + Each(Firsts(scan.relations, MermaidRelationKey), RelationLine)
  }

  lemma Assoc(a: seq<string>, b: seq<string>, c: seq<string>)
    ensures a + b + c == a + (b + c)
  {
  }

  /** One step of a loop that writes the block of each element whose key is new:
      `seen` and `lines` describe the first `i` elements, `k` is the next key. */
  lemma EmitStep<T>(xs: seq<T>, i: nat, key: T -> string, block: T -> seq<string>,
                    seen: set<string>, k: string, start: seq<string>, lines: seq<string>)
    requires i < |xs|
    requires seen == KeySet(xs[..i], key) && k == key(xs[i])
    requires lines == start + Blocks(Firsts(xs[..i], key), block)
    ensures k in seen ==>
      seen == KeySet(xs[..i + 1], key) && lines == start + Blocks(Firsts(xs[..i + 1], key), block)
    ensures k !in seen ==>
      seen + {k} == KeySet(xs[..i + 1], key) && lines + block(xs[i]) == start + Blocks(Firsts(xs[..i + 1], key), block)
  {
    FirstsStep(xs, i, key, seen, k);
    var f := Firsts(xs[..i], key);
    assert (f + [xs[i]])[..|f|] == f;
    Assoc(start, Blocks(f, block), block(xs[i]));
  }

  /** `generateMermaidERD`. */
  method GenerateMermaidErd(scan: AlProjectScanResult) returns (text: string)
    ensures text == Join(ErdLines(scan), '\n')
  {
    var lines := ["erDiagram"];
    lines := EmitEntities(lines, Candidates(scan.tables));
    lines := EmitRelations(lines, scan.relations);
    text := Join(lines, '\n');
  }

  /** The entity loop: skip a Mermaid name already rendered, else write its block. */
  method EmitEntities(start: seq<string>, candidates: seq<AlTable>) returns (lines: seq<string>)
    ensures lines == start + Blocks(Firsts(candidates, MermaidEntityName), EntityBlock)
  {
    lines := start;
    var rendered: set<string> := {};
    var i := 0;
    while i < |candidates|
      invariant i <= |candidates|
      invariant rendered == KeySet(candidates[..i], MermaidEntityName)
      invariant lines == start + Blocks(Firsts(candidates[..i], MermaidEntityName), EntityBlock)
    {
      var table := candidates[i];
      var entityName := MermaidEntityName(table);
      EmitStep(candidates, i, MermaidEntityName, EntityBlock, rendered, entityName, start, lines);
      if entityName !in rendered {
        rendered := rendered + {entityName};
        lines := EmitBlock(lines, table, entityName);
      }
      i := i + 1;
    }
    assert candidates[..i] == candidates;
  }

  /** One entity block: the header, the fields, the closing brace. */
  method EmitBlock(start: seq<string>, table: AlTable, entityName: string) returns (lines: seq<string>)
    requires entityName == MermaidEntityName(table)
    ensures lines == start + EntityBlock(table)
  {
    var header := "    " + entityName + " {";
    lines := start + [header];
    lines := EmitFields(lines, table.fields);
    lines := lines + ["    }"];
    Assoc(start, [header], Each(table.fields, FieldLine));
    Assoc(start, [header] + Each(table.fields, FieldLine), ["    }"]);
  }

  /** The field loop of one block. */
  method EmitFields(start: seq<string>, fields: seq<AlField>) returns (lines: seq<string>)
    ensures lines == start + Each(fields, FieldLine)
  {
    lines := start;
    var k := 0;
    while k < |fields|
      invariant k <= |fields|
      invariant lines == start + Each(fields[..k], FieldLine)
    {
      var field := fields[k];
      PrefixSnoc(fields, k);
      EachSnoc(fields[..k], field, FieldLine);
      var mermaidType := MapAlTypeToMermaid(field.fieldType);
      var constraints := BuildConstraints(field);
      var comment := if field.caption != [] then " \"" + field.caption + "\"" else "";
      lines := lines + ["        " + mermaidType + " " + SanitizeMermaidName(field.name) + constraints + comment];
      k := k + 1;
    }
    assert fields[..k] == fields;
  }

  /** The relation loop: skip a key already written, else write the line. */
  method EmitRelations(start: seq<string>, rels: seq<AlRelation>) returns (lines: seq<string>)
    ensures lines == start + Each(Firsts(rels, MermaidRelationKey), RelationLine)
  {
    lines := start;
    var seen: set<string> := {};
    var i := 0;
    while i < |rels|
      invariant i <= |rels|
      invariant seen == KeySet(rels[..i], MermaidRelationKey)
      invariant lines == start + Each(Firsts(rels[..i], MermaidRelationKey), RelationLine)
    {
      var rel := rels[i];
      var prefix := rels[..i];
      EachSnoc(Firsts(prefix, MermaidRelationKey), rel, RelationLine);
      var from := SanitizeMermaidName(rel.fromTable);
      var to := SanitizeMermaidName(rel.toTable);
      var key := from + "|" + to + "|" + rel.fromField;
      assert key == MermaidRelationKey(rel);
      FirstsStep(rels, i, MermaidRelationKey, seen, key);
      if key !in seen {
        seen := seen + {key};
        var fieldLabel := SanitizeMermaidName(rel.fromField);
        var line := "    " + from + " }o--|| " + to + " : \"" + fieldLabel + "\"";
        assert line == RelationLine(rel);
        Assoc(start, Each(Firsts(prefix, MermaidRelationKey), RelationLine), [line]);
        lines := lines + [line];
      }
      i := i + 1;
    }
    assert rels[..i] == rels;
  }

  // ----- what the export promises -----

  /** No two entity blocks carry the same Mermaid name. */
  lemma EntityNamesDistinct(ts: seq<AlTable>)
    ensures var d := DrawnEntities(ts);
      forall i, j :: 0 <= i < j < |d| ==> MermaidEntityName(d[i]) != MermaidEntityName(d[j])
  {
    var d := DrawnEntities(ts);
    forall i, j | 0 <= i < j < |d| ensures MermaidEntityName(d[i]) != MermaidEntityName(d[j]) {
      FirstsDistinctAt(Candidates(ts), MermaidEntityName, i, j);
    }
  }

  /** Every table, and every extension of a table the project does not declare,
      has a block under its Mermaid name. */
  lemma EveryCandidateWritten(ts: seq<AlTable>, t: AlTable) returns (i: nat)
    requires t in ts && (t.objectType == Table || IsExternalExtension(ts, t))
    ensures i < |DrawnEntities(ts)| && MermaidEntityName(DrawnEntities(ts)[i]) == MermaidEntityName(t)
  {
    var cs := Candidates(ts);
    var d := DrawnEntities(ts);
    CandidatesIff(ts, t);
    var j :| 0 <= j < |cs| && cs[j] == t;
    KeySetIff(cs, MermaidEntityName);
    assert MermaidEntityName(cs[j]) in KeySet(cs, MermaidEntityName);
    FirstsKeys(cs, MermaidEntityName);
    KeySetIff(d, MermaidEntityName);
    i :| 0 <= i < |d| && MermaidEntityName(d[i]) == MermaidEntityName(t);
  }

  /** The key regrouped with its first separator in front. */
  lemma MermaidRelationKeyParts(r: AlRelation)
    ensures MermaidRelationKey(r)
      == SanitizeMermaidName(r.fromTable) + "|" + (SanitizeMermaidName(r.toTable) + "|" + r.fromField)
  {
  }

  /** Two relations share a key exactly when their tables have the same Mermaid
      names and they leave from the same field. */
  lemma MermaidRelationKeyInjective(r1: AlRelation, r2: AlRelation)
    ensures MermaidRelationKey(r1) == MermaidRelationKey(r2) <==>
      SanitizeMermaidName(r1.fromTable) == SanitizeMermaidName(r2.fromTable) &&
      SanitizeMermaidName(r1.toTable) == SanitizeMermaidName(r2.toTable) &&
      r1.fromField == r2.fromField
  {
    if MermaidRelationKey(r1) == MermaidRelationKey(r2) {
      SanitizedHasNo(r1.fromTable, '|');
      SanitizedHasNo(r1.toTable, '|');
      SanitizedHasNo(r2.fromTable, '|');
      SanitizedHasNo(r2.toTable, '|');
      MermaidRelationKeyParts(r1);
      MermaidRelationKeyParts(r2);
      SplitAtSep(SanitizeMermaidName(r1.fromTable), SanitizeMermaidName(r1.toTable) + "|" + r1.fromField,
                 SanitizeMermaidName(r2.fromTable), SanitizeMermaidName(r2.toTable) + "|" + r2.fromField, '|');
      SplitAtSep(SanitizeMermaidName(r1.toTable), r1.fromField, SanitizeMermaidName(r2.toTable), r2.fromField, '|');
    }
  }

  /** Every relation is written, by itself or by an earlier relation between the
      same Mermaid entities from the same field. Unlike the diagram view, the
      export does not check that both ends are drawn. */
  lemma EveryRelationWritten(scan: AlProjectScanResult, j: nat) returns (i: nat)
    requires j < |scan.relations|
    ensures var f := Firsts(scan.relations, MermaidRelationKey);
      var r := scan.relations[j];
      i < |f| &&
      SanitizeMermaidName(f[i].fromTable) == SanitizeMermaidName(r.fromTable) &&
      SanitizeMermaidName(f[i].toTable) == SanitizeMermaidName(r.toTable) &&
      f[i].fromField == r.fromField
  {
    var rels := scan.relations;
    var f := Firsts(rels, MermaidRelationKey);
    KeySetIff(rels, MermaidRelationKey);
    assert MermaidRelationKey(rels[j]) in KeySet(rels, MermaidRelationKey);
    FirstsKeys(rels, MermaidRelationKey);
    KeySetIff(f, MermaidRelationKey);
    i :| 0 <= i < |f| && MermaidRelationKey(f[i]) == MermaidRelationKey(rels[j]);
    MermaidRelationKeyInjective(f[i], rels[j]);
  }

  /** The key holds the field as written but the line its sanitized form, so two
      relations can be kept apart by the key and still write the same line. */
  lemma SameLineDifferentKeys()
    ensures var r1 := AlRelation("T", "A B", "U", "");
      var r2 := AlRelation("T", "A_B", "U", "");
      MermaidRelationKey(r1) != MermaidRelationKey(r2) && RelationLine(r1) == RelationLine(r2)
  {
    SpacedField();
    MermaidRelationKeyInjective(AlRelation("T", "A B", "U", ""), AlRelation("T", "A_B", "U", ""));
  }

  /** `A B` and `A_B` have the same Mermaid name. */
  lemma SpacedField()
    ensures SanitizeMermaidName("A B") == SanitizeMermaidName("A_B")
  {
    assert DropQuotes("A B") == "A B";
    assert DropQuotes("A_B") == "A_B";
    assert SpacesToUnderscore("B") == "B";
    assert SpacesToUnderscore("_B") == "_B";
    assert SpacesToUnderscore(" B") == "_B" by {
      assert SkipSpaces(" B", 0) == 1;
      assert " B"[1..] == "B";
    }
    assert SpacesToUnderscore("A B") == "A_B" by {
      assert "A B"[1..] == " B";
    }
    assert SpacesToUnderscore("A_B") == "A_B" by {
      assert "A_B"[1..] == "_B";
    }
  }

  // ----- one statement per line -----

  /** No line holds a line break. */
  predicate OneLineEach(ls: seq<string>) {
    forall i :: 0 <= i < |ls| ==> '\n' !in ls[i]
  }

  /** No field caption of `t` holds a line break. */
  predicate CaptionsOneLine(t: AlTable) {
    forall k :: 0 <= k < |t.fields| ==> '\n' !in t.fields[k].caption
  }

  lemma LabelsOneLine()
    ensures forall l :: l in Labels() ==> '\n' !in l
  {
  }

  lemma LabelOneLine(alType: string)
    ensures '\n' !in MapAlTypeToMermaid(alType)
  {
    MapAlTypeLabels(alType);
    LabelsOneLine();
  }

  /** The suffix is one of ` PK`, ` FK`, ` PK,FK` or nothing. */
  lemma ConstraintsByFlags(f: AlField)
    ensures BuildConstraints(f) == (if f.isPrimaryKey && f.isForeignKey then " PK,FK"
      else if f.isPrimaryKey then " PK" else if f.isForeignKey then " FK" else "")
    ensures '\n' !in BuildConstraints(f)
  {
    if f.isPrimaryKey && f.isForeignKey {
      assert Join(["PK", "FK"], ',') == "PK" + [','] + Join(["FK"], ',');
    }
  }

  lemma FieldLineOneLine(f: AlField)
    requires '\n' !in f.caption
    ensures '\n' !in FieldLine(f)
  {
    LabelOneLine(f.fieldType);
    SanitizedHasNo(f.name, '\n');
    ConstraintsByFlags(f);
    assert '\n' !in Comment(f.caption);
  }

  lemma EntityBlockOneLine(t: AlTable)
    requires CaptionsOneLine(t)
    ensures OneLineEach(EntityBlock(t))
  {
    SanitizedHasNo(EntityName(t), '\n');
    forall k | 0 <= k < |t.fields| ensures '\n' !in Each(t.fields, FieldLine)[k] {
      FieldLineOneLine(t.fields[k]);
    }
  }

  lemma {:induction false} BlocksOneLine(xs: seq<AlTable>)
    requires forall t :: t in xs ==> CaptionsOneLine(t)
    ensures OneLineEach(Blocks(xs, EntityBlock))
    decreases |xs|
  {
    if xs != [] {
      var init := xs[..|xs| - 1];
      assert forall t :: t in init ==> t in xs;
      BlocksOneLine(init);
      EntityBlockOneLine(xs[|xs| - 1]);
    }
  }

  lemma RelationLineOneLine(r: AlRelation)
    ensures '\n' !in RelationLine(r)
  {
    SanitizedHasNo(r.fromTable, '\n');
    SanitizedHasNo(r.toTable, '\n');
    SanitizedHasNo(r.fromField, '\n');
    assert '\n' !in "    " && '\n' !in " }o--|| " && '\n' !in " : \"" && '\n' !in "\"";
  }

  lemma OneLineConcat(a: seq<string>, b: seq<string>)
    requires OneLineEach(a) && OneLineEach(b)
    ensures OneLineEach(a + b)
  {
    assert forall i :: |a| <= i < |a + b| ==> (a + b)[i] == b[i - |a|];
  }

  /** A written block comes from the project. */
  lemma DrawnFromProject(ts: seq<AlTable>, t: AlTable)
    requires t in DrawnEntities(ts)
    ensures t in ts
  {
    FirstsIff(Candidates(ts), MermaidEntityName, t);
    CandidatesIff(ts, t);
  }

  /** While no caption holds a line break, splitting the export at line breaks
      gives back its statements one by one. */
  lemma ErdLinesSplit(scan: AlProjectScanResult)
    requires forall t :: t in scan.tables ==> CaptionsOneLine(t)
    ensures Split(Join(ErdLines(scan), '\n'), '\n') == ErdLines(scan)
  {
    var d := DrawnEntities(scan.tables);
    forall t | t in d ensures CaptionsOneLine(t) {
      DrawnFromProject(scan.tables, t);
    }
    BlocksOneLine(d);
    var rs := Each(Firsts(scan.relations, MermaidRelationKey), RelationLine);
    forall k | 0 <= k < |rs| ensures '\n' !in rs[k] {
      RelationLineOneLine(Firsts(scan.relations, MermaidRelationKey)[k]);
    }
    var b := Blocks(d, EntityBlock);
    assert OneLineEach(rs);
    OneLineConcat(["erDiagram"], b);
    OneLineConcat(["erDiagram"] + b, rs);
    var ls := ErdLines(scan);
    assert ls == ["erDiagram"] + b + rs;
    SplitJoin(ls, '\n');
  }
}
