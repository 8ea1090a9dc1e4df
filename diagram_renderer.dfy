/** The data the interactive diagram is drawn from: one entity per drawn table
    name (case-insensitively, the first object wins) and the relations between
    drawn entities, de-duplicated on source table, target table and source field. */
module DiagramRenderer {
  import opened Text
  import opened AlTypes
  import opened Dedup
  import opened EntitySelection

  datatype DiagramField = DiagramField(name: string, caption: string, fieldType: string, isPK: bool, isFK: bool)
  datatype DiagramEntity = DiagramEntity(name: string, caption: string, fields: seq<DiagramField>)
  datatype DiagramRelation = DiagramRelation(from: string, fromField: string, to: string, toField: string)
  datatype DiagramData = DiagramData(entities: seq<DiagramEntity>, relations: seq<DiagramRelation>)

  /** JavaScript `a || b` on strings: the empty string is falsy. */
  function OrElse(a: string, b: string): string {
    if a != [] then a else b
  }

  function ToDiagramField(f: AlField): DiagramField {
    DiagramField(f.name, OrElse(f.caption, f.name), f.fieldType, f.isPrimaryKey, f.isForeignKey)
  }

  function ToEntity(t: AlTable): DiagramEntity {
    var name := EntityName(t);
    DiagramEntity(name, OrElse(t.caption, name),
      seq(|t.fields|, i requires 0 <= i < |t.fields| => ToDiagramField(t.fields[i])))
  }

  /** The key of the entity map: the drawn name, lower-cased. */
  function EntityKey(t: AlTable): string {
    Lower(EntityName(t))
  }

  /** The entities of a de-duplicated candidate list, in order. */
  function EntitiesOf(f: seq<AlTable>): (r: seq<DiagramEntity>)
    ensures |r| == |f| && forall i :: 0 <= i < |f| ==> r[i] == ToEntity(f[i])
  {
    if f == [] then [] else EntitiesOf(f[..|f| - 1]) + [ToEntity(f[|f| - 1])]
  }

  /** The entities drawn for a project's objects. */
  function Entities(ts: seq<AlTable>): seq<DiagramEntity> {
    EntitiesOf(Firsts(Candidates(ts), EntityKey))
  }

  /** The keys of the entity map once every candidate was visited. */
  function EntityKeys(ts: seq<AlTable>): set<string> {
    KeySet(Candidates(ts), EntityKey)
  }

  /** The relation as the diagram carries it (`toField || ""` is `toField`). */
  function ToDiagramRelation(r: AlRelation): DiagramRelation {
    DiagramRelation(r.fromTable, r.fromField, r.toTable, r.toField)
  }

  /** The de-duplication key `from|to|fromField`, table names lower-cased. */
  function RelationKey(r: AlRelation): string {
    Lower(r.fromTable) + "|" + Lower(r.toTable) + "|" + r.fromField
  }

  /** Both ends of the relation are entities of the diagram. */
  predicate Linked(names: set<string>, r: AlRelation) {
    Lower(r.fromTable) in names && Lower(r.toTable) in names
  }

  /** The relations whose two ends are drawn, in order. */
  function LinkedRelations(rels: seq<AlRelation>, names: set<string>): seq<AlRelation>
  {
    if rels == [] then []
    else
      var init := rels[..|rels| - 1];
      var x := rels[|rels| - 1];
      LinkedRelations(init, names) + (if Linked(names, x) then [x] else [])
  }

  function DiagramRelationsOf(f: seq<AlRelation>): (r: seq<DiagramRelation>)
    ensures |r| == |f| && forall i :: 0 <= i < |f| ==> r[i] == ToDiagramRelation(f[i])
  {
    if f == [] then [] else DiagramRelationsOf(f[..|f| - 1]) + [ToDiagramRelation(f[|f| - 1])]
  }

  /** The relations drawn: linked ones, the first of each key. */
  function Relations(scan: AlProjectScanResult): seq<DiagramRelation> {
    DiagramRelationsOf(Firsts(LinkedRelations(scan.relations, EntityKeys(scan.tables)), RelationKey))
  }

  lemma EntitiesOfSnoc(f: seq<AlTable>, x: AlTable)
    ensures EntitiesOf(f + [x]) == EntitiesOf(f) + [ToEntity(x)]
  {
    assert (f + [x])[..|f|] == f;
  }

  lemma DiagramRelationsOfSnoc(f: seq<AlRelation>, x: AlRelation)
    ensures DiagramRelationsOf(f + [x]) == DiagramRelationsOf(f) + [ToDiagramRelation(x)]
  {
    assert (f + [x])[..|f|] == f;
  }

  lemma LinkedSnoc(rels: seq<AlRelation>, x: AlRelation, names: set<string>)
    ensures LinkedRelations(rels + [x], names) == LinkedRelations(rels, names) + (if Linked(names, x) then [x] else [])
  {
    assert (rels + [x])[..|rels|] == rels;
  }

  /** `prepareDiagramData`: the entity loop fills a map keyed by lower-cased name,
      then the relation loop keeps relations between entities, once per key. */
  method PrepareDiagramData(scan: AlProjectScanResult) returns (data: DiagramData)
    ensures data == DiagramData(Entities(scan.tables), Relations(scan))
  {
    var names, entities := CollectEntities(Candidates(scan.tables));
    var relations := CollectRelations(scan.relations, names);
    data := DiagramData(entities, relations);
  }

  /** The entity loop. The map is carried as its key set `names` and its values
      in insertion order `entities`. */
  method CollectEntities(candidates: seq<AlTable>) returns (names: set<string>, entities: seq<DiagramEntity>)
    ensures names == KeySet(candidates, EntityKey)
    ensures entities == EntitiesOf(Firsts(candidates, EntityKey))
  {
    names := {};
    entities := [];
    var i := 0;
    while i < |candidates|
      invariant i <= |candidates|
      invariant names == KeySet(candidates[..i], EntityKey)
      invariant entities == EntitiesOf(Firsts(candidates[..i], EntityKey))
    {
      var table := candidates[i];
      var prefix := candidates[..i];
      PrefixSnoc(candidates, i);
      FirstsSnoc(prefix, table, EntityKey);
      KeySetSnoc(prefix, table, EntityKey);
      EntitiesOfSnoc(Firsts(prefix, EntityKey), table);
      var name := EntityName(table);
      if Lower(name) !in names {
        names := names + {Lower(name)};
        entities := entities + [ToEntity(table)];
      }
      i := i + 1;
    }
    assert candidates[..i] == candidates;
  }

  /** One step of the relation loop: a relation is skipped when its key was seen
      or an end is not drawn; otherwise it is drawn and its key remembered. */
  lemma RelationStep(prefix: seq<AlRelation>, rel: AlRelation, names: set<string>)
    ensures var linked := LinkedRelations(prefix, names);
      var next := LinkedRelations(prefix + [rel], names);
      var skip := RelationKey(rel) in KeySet(linked, RelationKey) || !Linked(names, rel);
      KeySet(next, RelationKey) == (if skip then KeySet(linked, RelationKey) else KeySet(linked, RelationKey) + {RelationKey(rel)}) &&
      DiagramRelationsOf(Firsts(next, RelationKey)) ==
        (if skip then DiagramRelationsOf(Firsts(linked, RelationKey))
         else DiagramRelationsOf(Firsts(linked, RelationKey)) + [ToDiagramRelation(rel)])
  {
    var linked := LinkedRelations(prefix, names);
    LinkedSnoc(prefix, rel, names);
    if Linked(names, rel) {
      var ks := KeySet(linked, RelationKey);
      FirstsSnocStep(linked, rel, RelationKey, ks, RelationKey(rel));
      DiagramRelationsOfSnoc(Firsts(linked, RelationKey), rel);
    } else {
      assert linked + [] == linked;
    }
  }

  /** The relation loop: skip a seen key or a relation with an end not drawn. */
  method CollectRelations(rels: seq<AlRelation>, names: set<string>) returns (relations: seq<DiagramRelation>)
    ensures relations == DiagramRelationsOf(Firsts(LinkedRelations(rels, names), RelationKey))
  {
    var seen: set<string> := {};
    relations := [];
    var i := 0;
    while i < |rels|
      invariant i <= |rels|
      invariant seen == KeySet(LinkedRelations(rels[..i], names), RelationKey)
      invariant relations == DiagramRelationsOf(Firsts(LinkedRelations(rels[..i], names), RelationKey))
    {
      var rel := rels[i];
      PrefixSnoc(rels, i);
      RelationStep(rels[..i], rel, names);
      var key := RelationKey(rel);
      if !(key in seen || Lower(rel.fromTable) !in names || Lower(rel.toTable) !in names) {
        seen := seen + {key};
        relations := relations + [ToDiagramRelation(rel)];
      }
      i := i + 1;
    }
    assert rels[..i] == rels;
  }

  /** An entity of the diagram has lower-cased name `k`. */
  predicate Drawn(es: seq<DiagramEntity>, k: string) {
    exists i :: 0 <= i < |es| && Lower(es[i].name) == k
  }

  /** The entity map's keys are exactly the lower-cased names of the entities. */
  lemma EntityKeysDrawn(ts: seq<AlTable>, k: string)
    ensures k in EntityKeys(ts) <==> Drawn(Entities(ts), k)
  {
    var cs := Candidates(ts);
    var f := Firsts(cs, EntityKey);
    var es := Entities(ts);
    FirstsKeys(cs, EntityKey);
    KeySetIff(f, EntityKey);
    if k in EntityKeys(ts) {
      assert k in KeySet(f, EntityKey);
      var j :| 0 <= j < |f| && EntityKey(f[j]) == k;
      assert Lower(es[j].name) == k;
    }
    if Drawn(es, k) {
      var i :| 0 <= i < |es| && Lower(es[i].name) == k;
      assert EntityKey(f[i]) == k;
    }
  }

  /** No two entities share a name, ignoring case. */
  lemma EntityNamesDistinct(ts: seq<AlTable>)
    ensures var es := Entities(ts);
      forall i, j :: 0 <= i < j < |es| ==> Lower(es[i].name) != Lower(es[j].name)
  {
    var f := Firsts(Candidates(ts), EntityKey);
    var es := Entities(ts);
    forall i, j | 0 <= i < j < |es| ensures Lower(es[i].name) != Lower(es[j].name) {
      FirstsDistinctAt(Candidates(ts), EntityKey, i, j);
      assert es[i] == ToEntity(f[i]) && es[j] == ToEntity(f[j]);
      assert Lower(es[i].name) == EntityKey(f[i]) && Lower(es[j].name) == EntityKey(f[j]);
    }
  }

  /** Every table, and every extension of a table the project does not declare,
      is drawn under its name. */
  lemma EveryCandidateDrawn(ts: seq<AlTable>, t: AlTable)
    requires t in ts && (t.objectType == Table || IsExternalExtension(ts, t))
    ensures Drawn(Entities(ts), Lower(EntityName(t)))
  {
    var cs := Candidates(ts);
    CandidatesIff(ts, t);
    var j :| 0 <= j < |cs| && cs[j] == t;
    KeySetIff(cs, EntityKey);
    assert EntityKey(cs[j]) in KeySet(cs, EntityKey);
    EntityKeysDrawn(ts, EntityKey(t));
  }

  /** An entity is drawn exactly from an object that is the first, in visiting
      order, to draw its name. */
  lemma EntityIsFirstDeclaration(ts: seq<AlTable>, e: DiagramEntity)
    ensures e in Entities(ts) <==> exists t :: KeptAt(Candidates(ts), EntityKey, t) && e == ToEntity(t)
  {
    var cs := Candidates(ts);
    var f := Firsts(cs, EntityKey);
    if e in Entities(ts) {
      var i :| 0 <= i < |f| && e == ToEntity(f[i]);
      FirstsIff(cs, EntityKey, f[i]);
    }
    if exists t :: KeptAt(cs, EntityKey, t) && e == ToEntity(t) {
      var t :| KeptAt(cs, EntityKey, t) && e == ToEntity(t);
      FirstsIff(cs, EntityKey, t);
      var i :| 0 <= i < |f| && f[i] == t;
      assert Entities(ts)[i] == e;
    }
  }

  /** The key of a drawn relation, as computed from its input relation. */
  function DrawnKey(d: DiagramRelation): string {
    Lower(d.from) + "|" + Lower(d.to) + "|" + d.fromField
  }

  /** Both ends of every drawn relation are entities of the diagram. */
  lemma RelationsJoinEntities(scan: AlProjectScanResult, d: DiagramRelation)
    requires d in Relations(scan)
    ensures Drawn(Entities(scan.tables), Lower(d.from)) && Drawn(Entities(scan.tables), Lower(d.to))
  {
    var names := EntityKeys(scan.tables);
    var linked := LinkedRelations(scan.relations, names);
    var f := Firsts(linked, RelationKey);
    var i :| 0 <= i < |f| && d == ToDiagramRelation(f[i]);
    FirstsIff(linked, RelationKey, f[i]);
    var j :| 0 <= j < |linked| && linked[j] == f[i] && IsFirst(linked, RelationKey, j);
    LinkedAreLinked(scan.relations, names, j);
    EntityKeysDrawn(scan.tables, Lower(d.from));
    EntityKeysDrawn(scan.tables, Lower(d.to));
  }

  lemma {:induction false} LinkedAreLinked(rels: seq<AlRelation>, names: set<string>, j: nat)
    requires j < |LinkedRelations(rels, names)|
    ensures Linked(names, LinkedRelations(rels, names)[j])
    decreases |rels|
  {
    var init := rels[..|rels| - 1];
    var x := rels[|rels| - 1];
    if j < |LinkedRelations(init, names)| {
      LinkedAreLinked(init, names, j);
    }
  }

  /** No two drawn relations share a key. */
  lemma RelationKeysDistinct(scan: AlProjectScanResult)
    ensures var ds := Relations(scan);
      forall i, j :: 0 <= i < j < |ds| ==> DrawnKey(ds[i]) != DrawnKey(ds[j])
  {
    var linked := LinkedRelations(scan.relations, EntityKeys(scan.tables));
    var f := Firsts(linked, RelationKey);
    var ds := Relations(scan);
    forall i, j | 0 <= i < j < |ds| ensures DrawnKey(ds[i]) != DrawnKey(ds[j]) {
      FirstsDistinctAt(linked, RelationKey, i, j);
      assert ds[i] == ToDiagramRelation(f[i]) && ds[j] == ToDiagramRelation(f[j]);
      assert DrawnKey(ds[i]) == RelationKey(f[i]) && DrawnKey(ds[j]) == RelationKey(f[j]);
    }
  }

  lemma {:induction false} LinkedCover(rels: seq<AlRelation>, names: set<string>, j: nat)
    requires j < |rels| && Linked(names, rels[j])
    ensures rels[j] in LinkedRelations(rels, names)
    decreases |rels|
  {
    var init := rels[..|rels| - 1];
    if j < |init| {
      LinkedCover(init, names, j);
      assert init[j] == rels[j];
    }
  }

  /** A key of the linked relations is the key of a drawn relation. */
  lemma KeyDrawn(linked: seq<AlRelation>, k: string) returns (i: nat)
    requires k in KeySet(linked, RelationKey)
    ensures i < |DiagramRelationsOf(Firsts(linked, RelationKey))|
    ensures DrawnKey(DiagramRelationsOf(Firsts(linked, RelationKey))[i]) == k
  {
    FirstsKeys(linked, RelationKey);
    var f := Firsts(linked, RelationKey);
    KeySetIff(f, RelationKey);
    i :| 0 <= i < |f| && RelationKey(f[i]) == k;
    assert DrawnKey(DiagramRelationsOf(f)[i]) == k;
  }

  /** Every relation between two drawn entities is drawn, possibly through an
      earlier relation with the same key. */
  lemma EveryLinkedRelationDrawn(scan: AlProjectScanResult, j: nat)
    requires j < |scan.relations|
    requires Drawn(Entities(scan.tables), Lower(scan.relations[j].fromTable))
    requires Drawn(Entities(scan.tables), Lower(scan.relations[j].toTable))
    ensures exists i :: 0 <= i < |Relations(scan)| && DrawnKey(Relations(scan)[i]) == RelationKey(scan.relations[j])
  {
    var r := scan.relations[j];
    var names := EntityKeys(scan.tables);
    EntityKeysDrawn(scan.tables, Lower(r.fromTable));
    EntityKeysDrawn(scan.tables, Lower(r.toTable));
    var linked := LinkedRelations(scan.relations, names);
    LinkedCover(scan.relations, names, j);
    var k :| 0 <= k < |linked| && linked[k] == r;
    KeySetIff(linked, RelationKey);
    assert RelationKey(linked[k]) in KeySet(linked, RelationKey);
    var i := KeyDrawn(linked, RelationKey(r));
    var ds := Relations(scan);
    assert ds == DiagramRelationsOf(Firsts(linked, RelationKey));
    assert DrawnKey(ds[i]) == RelationKey(scan.relations[j]);
  }

  /** Lower-casing keeps a `|` where it was and adds none. */
  lemma LowerKeepsBar(s: string)
    ensures '|' in Lower(s) <==> '|' in s
  {
    if '|' in Lower(s) {
      var i :| 0 <= i < |s| && Lower(s)[i] == '|';
      assert s[i] == '|';
    }
    if '|' in s {
      var i :| 0 <= i < |s| && s[i] == '|';
      assert Lower(s)[i] == '|';
    }
  }

  /** The key regrouped with its first separator in front. */
  lemma RelationKeyParts(r: AlRelation)
    ensures RelationKey(r) == Lower(r.fromTable) + "|" + (Lower(r.toTable) + "|" + r.fromField)
  {
  }

  /** While no table name holds a `|`, two relations share a key exactly when they
      join the same tables, ignoring case, from the same field. */
  lemma RelationKeyInjective(r1: AlRelation, r2: AlRelation)
    requires '|' !in r1.fromTable && '|' !in r1.toTable
    requires '|' !in r2.fromTable && '|' !in r2.toTable
    ensures RelationKey(r1) == RelationKey(r2) <==>
      EqualsIgnoreCase(r1.fromTable, r2.fromTable) && EqualsIgnoreCase(r1.toTable, r2.toTable) && r1.fromField == r2.fromField
  {
    LowerKeepsBar(r1.fromTable);
    LowerKeepsBar(r1.toTable);
    LowerKeepsBar(r2.fromTable);
    LowerKeepsBar(r2.toTable);
    if RelationKey(r1) == RelationKey(r2) {
      RelationKeyParts(r1);
      RelationKeyParts(r2);
      SplitAtSep(Lower(r1.fromTable), Lower(r1.toTable) + "|" + r1.fromField,
                 Lower(r2.fromTable), Lower(r2.toTable) + "|" + r2.fromField, '|');
      SplitAtSep(Lower(r1.toTable), r1.fromField, Lower(r2.toTable), r2.fromField, '|');
    }
  }

  /** With a `|` inside a table name two different relations can share a key, and
      the later one is then not drawn. */
  lemma RelationKeyCollision()
    ensures var r1 := AlRelation("a|b", "f", "c", "");
      var r2 := AlRelation("a", "f", "b|c", "");
      r1 != r2 && RelationKey(r1) == RelationKey(r2)
  {
    assert Lower("a|b") == "a|b";
    assert Lower("b|c") == "b|c";
    assert Lower("a") == "a";
    assert Lower("c") == "c";
  }
}
