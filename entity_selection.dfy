/** Which parsed objects become diagram entities. Both the diagram view and the
    Mermaid export draw every `table`, then every `tableextension` whose base
    table is not declared in the project (its base would otherwise be missing). */
module EntitySelection {
  import opened Text
  import opened AlTypes

  /** The `table` objects, in order. */
  function LocalTables(ts: seq<AlTable>): (r: seq<AlTable>)
    ensures forall t :: t in r <==> t in ts && t.objectType == Table
    ensures forall i :: 0 <= i < |r| ==> r[i].objectType == Table
  {
    if ts == [] then []
    else (if ts[0].objectType == Table then [ts[0]] else []) + LocalTables(ts[1..])
  }

  /** Selecting the tables of two lists in a row selects those of the first list,
      then those of the second: the tables keep the order of the input. */
  lemma {:induction false} LocalTablesAppend(a: seq<AlTable>, b: seq<AlTable>)
    ensures LocalTables(a + b) == LocalTables(a) + LocalTables(b)
    decreases |a|
  {
    if a != [] {
      assert (a + b)[0] == a[0] && (a + b)[1..] == a[1..] + b;
      LocalTablesAppend(a[1..], b);
    } else {
      assert a + b == b;
    }
  }

  /** `n` is the lower-cased name of a `table` object of `ts`. */
  predicate IsLocalName(ts: seq<AlTable>, n: string) {
    exists i :: 0 <= i < |ts| && ts[i].objectType == Table && Lower(ts[i].name) == n
  }

  /** A table extension whose base table is not declared in `ts`. */
  predicate IsExternalExtension(ts: seq<AlTable>, t: AlTable) {
    t.objectType == TableExtension && !IsLocalName(ts, Lower(t.extendsTable))
  }

  /** The external extensions among `xs`, judged against the whole project `ts`. */
  function ExternalIn(ts: seq<AlTable>, xs: seq<AlTable>): (r: seq<AlTable>)
    ensures forall t :: t in r <==> t in xs && IsExternalExtension(ts, t)
  {
    if xs == [] then []
    else (if IsExternalExtension(ts, xs[0]) then [xs[0]] else []) + ExternalIn(ts, xs[1..])
  }

  /** The objects drawn, in the order they are visited: tables, then external extensions. */
  function Candidates(ts: seq<AlTable>): seq<AlTable> {
    LocalTables(ts) + ExternalIn(ts, ts)
  }

  /** What is drawn: every table, and every extension whose base table is not declared. */
  lemma CandidatesIff(ts: seq<AlTable>, t: AlTable)
    ensures t in Candidates(ts) <==> t in ts && (t.objectType == Table || IsExternalExtension(ts, t))
  {
  }

  /** Tables are visited before every extension. */
  lemma TablesFirst(ts: seq<AlTable>)
    ensures var r := Candidates(ts);
      forall i, j :: 0 <= i < j < |r| && r[j].objectType == Table ==> r[i].objectType == Table
  {
    var local := LocalTables(ts);
    var external := ExternalIn(ts, ts);
    assert forall j :: 0 <= j < |external| ==> external[j] in external && external[j].objectType == TableExtension;
  }

  /** The entity an object draws: an extension draws its base table (its own name
      when the base is empty), a table itself. */
  function EntityName(t: AlTable): string {
    if t.objectType == TableExtension && t.extendsTable != [] then t.extendsTable else t.name
  }

  /** An external extension never draws the name of a declared table. */
  lemma ExternalDrawsUndeclared(ts: seq<AlTable>, t: AlTable)
    requires t in Candidates(ts) && t.objectType == TableExtension && t.extendsTable != []
    ensures !IsLocalName(ts, Lower(EntityName(t)))
  {
    CandidatesIff(ts, t);
  }
}
