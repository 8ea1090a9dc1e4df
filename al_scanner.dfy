/** The cross-file steps of `scanAlProject` (src/alScanner.ts): extension
    fields merged into their base tables, then one relation per foreign key. */
module AlScanner {
  import opened Text
  import opened AlTypes
  import EntitySelection

  // ---------------------------------------------------------------------------
  // mergeTableExtensions
  // ---------------------------------------------------------------------------

  /** The `tablesByName` map once its loop has seen the first `n` entries: each
      lowercased table name to the index of the table; a later table of the
      same name replaces an earlier one (`Map.set`). */
  function IndexOf(ts: seq<AlTable>, n: nat): (m: map<string, nat>)
    requires n <= |ts|
    ensures forall key :: key in m ==> m[key] < n && ts[m[key]].objectType == Table && Lower(ts[m[key]].name) == key
    decreases n
  {
    if n == 0 then map[]
    else
      var m := IndexOf(ts, n - 1);
      if ts[n - 1].objectType == Table then m[Lower(ts[n - 1].name) := n - 1] else m
  }

  /** Table `b` is a merge target for the name `name`. */
  predicate Targets(ts: seq<AlTable>, b: nat, name: string)
    requires b < |ts|
  {
    ts[b].objectType == Table && EqualsIgnoreCase(ts[b].name, name)
  }

  /** The table an extension's fields go to: the table its `extendsTable` names. */
  function TargetOf(ts: seq<AlTable>, ext: AlTable): (r: Option<nat>)
    ensures r.Some? ==> r.value < |ts| && ts[r.value].objectType == Table
  {
    var m := IndexOf(ts, |ts|);
    if ext.objectType == TableExtension && ext.extendsTable != [] && Lower(ext.extendsTable) in m
    then Some(m[Lower(ext.extendsTable)])
    else None
  }

  /** `fields` after the `push` loop over `extra`: each extra field whose name
      (ignoring case) is not yet in the growing list is appended. */
  function AddMissing(fields: seq<AlField>, extra: seq<AlField>): seq<AlField>
    decreases |extra|
  {
    if extra == [] then fields
    else AddMissing(if HasFieldNamed(fields, extra[0].name) then fields else fields + [extra[0]], extra[1..])
  }

  /** The list after the extension at `i` has been handled. */
  function MergeStep(ts: seq<AlTable>, cur: seq<AlTable>, i: nat): (r: seq<AlTable>)
    requires |cur| == |ts| && i < |ts|
    ensures |r| == |ts|
  {
    match TargetOf(ts, cur[i])
    case None => cur
    case Some(b) => cur[b := cur[b].(fields := AddMissing(cur[b].fields, cur[i].fields))]
  }

  /** The list after the extensions from `i` on have been handled, starting from `cur`. */
  function MergeFrom(ts: seq<AlTable>, cur: seq<AlTable>, i: nat): (r: seq<AlTable>)
    requires |cur| == |ts| && i <= |ts|
    ensures |r| == |ts|
    decreases |ts| - i
  {
    if i == |ts| then cur else MergeFrom(ts, MergeStep(ts, cur, i), i + 1)
  }

  /** What `mergeTableExtensions(tables)` leaves in `tables`. */
  function Merged(ts: seq<AlTable>): (r: seq<AlTable>)
    ensures |r| == |ts|
  {
    MergeFrom(ts, ts, 0)
  }

  method MergeTableExtensions(tables: array<AlTable>)
    modifies tables
    ensures tables[..] == Merged(old(tables[..]))
  {
    ghost var ts := tables[..];
    var tablesByName := BuildIndex(tables);
    var i := 0;
    while i < tables.Length
      invariant 0 <= i <= tables.Length
      invariant MergeFrom(ts, tables[..], i) == Merged(ts)
    {
      var ext := tables[i];
      if ext.objectType == TableExtension && ext.extendsTable != [] {
        var key := Lower(ext.extendsTable);
        if key in tablesByName {
          var b := tablesByName[key];
          AddExtensionFields(tables, b, ext.fields);
        }
      }
      i := i + 1;
    }
  }

  /** The first loop: only `table` entries are recorded. */
  method BuildIndex(tables: array<AlTable>) returns (m: map<string, nat>)
    ensures m == IndexOf(tables[..], tables.Length)
  {
    m := map[];
    var n := 0;
    while n < tables.Length
      invariant 0 <= n <= tables.Length
      invariant m == IndexOf(tables[..], n)
    {
      var t := tables[n];
      if t.objectType == Table {
        m := m[Lower(t.name) := n];
      }
      n := n + 1;
    }
  }

  /** The inner loop: `base.fields.push({ ...f })` for each extension field
      whose name the base does not have yet. */
  method AddExtensionFields(tables: array<AlTable>, b: nat, extFields: seq<AlField>)
    requires b < tables.Length
    modifies tables
    ensures tables[..] == old(tables[..])[b := old(tables[b]).(fields := AddMissing(old(tables[b]).fields, extFields))]
  {
    var j := 0;
    while j < |extFields|
      invariant 0 <= j <= |extFields|
      invariant forall k :: 0 <= k < tables.Length && k != b ==> tables[k] == old(tables[k])
      invariant tables[b] == old(tables[b]).(fields := tables[b].fields)
      invariant AddMissing(tables[b].fields, extFields[j..]) == AddMissing(old(tables[b]).fields, extFields)
    {
      var f := extFields[j];
      assert extFields[j..][1..] == extFields[j + 1..];
      if !HasFieldNamed(tables[b].fields, f.name) {
        tables[b] := tables[b].(fields := tables[b].fields + [f]);
      }
      j := j + 1;
    }
    assert extFields[j..] == [];
  }

  // ---------------------------------------------------------------------------
  // Properties of the merge
  // ---------------------------------------------------------------------------

  /** The name map sends a name to the LAST table of that name (ignoring case). */
  lemma {:induction false} IndexOfLast(ts: seq<AlTable>, n: nat, name: string, b: nat)
    requires n <= |ts|
    ensures (Lower(name) in IndexOf(ts, n) && IndexOf(ts, n)[Lower(name)] == b) <==>
      (b < n && Targets(ts, b, name) && forall j :: b < j < n ==> !Targets(ts, j, name))
    decreases n
  {
    if n > 0 {
      IndexOfLast(ts, n - 1, name, b);
      var last := n - 1;
      if Targets(ts, last, name) {
        assert IndexOf(ts, n) == IndexOf(ts, last)[Lower(name) := last];
        if b < last {
          assert !(forall j :: b < j < n ==> !Targets(ts, j, name));
        }
      } else {
        assert Lower(name) in IndexOf(ts, n) <==> Lower(name) in IndexOf(ts, last);
        assert Lower(name) in IndexOf(ts, n) ==> IndexOf(ts, n)[Lower(name)] == IndexOf(ts, last)[Lower(name)];
      }
    }
  }

  /** An extension's target is the last table whose name is its `extendsTable`,
      ignoring case; there is none when `extendsTable` is empty. */
  lemma TargetIsLastTable(ts: seq<AlTable>, ext: AlTable, b: nat)
    requires ext.objectType == TableExtension
    ensures ext.extendsTable == [] ==> TargetOf(ts, ext) == None
    ensures TargetOf(ts, ext) == Some(b) <==>
      (ext.extendsTable != [] && b < |ts| && Targets(ts, b, ext.extendsTable) &&
       forall j :: b < j < |ts| ==> !Targets(ts, j, ext.extendsTable))
  {
    IndexOfLast(ts, |ts|, ext.extendsTable, b);
  }

  /** Merging twice is merging once with the two lists of extra fields in a row. */
  lemma {:induction false} AddMissingAppend(fields: seq<AlField>, x: seq<AlField>, y: seq<AlField>)
    ensures AddMissing(AddMissing(fields, x), y) == AddMissing(fields, x + y)
    decreases |x|
  {
    if x != [] {
      var next := if HasFieldNamed(fields, x[0].name) then fields else fields + [x[0]];
      assert (x + y)[0] == x[0] && (x + y)[1..] == x[1..] + y;
      assert AddMissing(fields, x) == AddMissing(next, x[1..]);
      assert AddMissing(fields, x + y) == AddMissing(next, x[1..] + y);
      AddMissingAppend(next, x[1..], y);
    } else {
      assert x + y == y;
    }
  }

  /** The base's own fields stay first, in order and unchanged. */
  lemma {:induction false} AddMissingKeepsPrefix(fields: seq<AlField>, extra: seq<AlField>)
    ensures |fields| <= |AddMissing(fields, extra)| && AddMissing(fields, extra)[..|fields|] == fields
    decreases |extra|
  {
    if extra != [] {
      var next := if HasFieldNamed(fields, extra[0].name) then fields else fields + [extra[0]];
      var r := AddMissing(fields, extra);
      assert r == AddMissing(next, extra[1..]);
      AddMissingKeepsPrefix(next, extra[1..]);
      assert next[..|fields|] == fields;
      assert r[..|fields|] == r[..|next|][..|fields|];
    }
  }

  /** Adding fields never loses a name. */
  lemma AddMissingKeepsNames(fields: seq<AlField>, extra: seq<AlField>, name: string)
    requires HasFieldNamed(fields, name)
    ensures HasFieldNamed(AddMissing(fields, extra), name)
  {
    AddMissingKeepsPrefix(fields, extra);
    var k :| 0 <= k < |fields| && EqualsIgnoreCase(fields[k].name, name);
    assert AddMissing(fields, extra)[k] == fields[k];
  }

  /** After the merge, the base has a field of every extra field's name. */
  lemma {:induction false} AddMissingCovers(fields: seq<AlField>, extra: seq<AlField>, i: nat)
    requires i < |extra|
    ensures HasFieldNamed(AddMissing(fields, extra), extra[i].name)
    decreases |extra|
  {
    var next := if HasFieldNamed(fields, extra[0].name) then fields else fields + [extra[0]];
    if i == 0 {
      assert HasFieldNamed(next, extra[0].name) by {
        if !HasFieldNamed(fields, extra[0].name) {
          assert next[|fields|] == extra[0];
        }
      }
      AddMissingKeepsNames(next, extra[1..], extra[0].name);
    } else {
      assert extra[1..][i - 1] == extra[i];
      AddMissingCovers(next, extra[1..], i - 1);
    }
  }

  /** Extension field `i` is the first of its name (ignoring case) among the
      extension fields, and the base has no field of that name. */
  predicate NewAt(fields: seq<AlField>, extra: seq<AlField>, i: nat)
    requires i < |extra|
  {
    !HasFieldNamed(fields, extra[i].name) &&
    forall j :: 0 <= j < i ==> !EqualsIgnoreCase(extra[j].name, extra[i].name)
  }

  /** The extension fields that are new to the base and first of their name, in order. */
  function NewFirsts(fields: seq<AlField>, extra: seq<AlField>): seq<AlField>
    decreases |extra|
  {
    if extra == [] then []
    else NewFirsts(fields, extra[..|extra| - 1]) + (if NewAt(fields, extra, |extra| - 1) then [extra[|extra| - 1]] else [])
  }

  lemma HasFieldNamedAppend(a: seq<AlField>, b: seq<AlField>, name: string)
    ensures HasFieldNamed(a + b, name) <==> HasFieldNamed(a, name) || HasFieldNamed(b, name)
  {
    if HasFieldNamed(a, name) {
      var k :| 0 <= k < |a| && EqualsIgnoreCase(a[k].name, name);
      assert (a + b)[k] == a[k];
    }
    if HasFieldNamed(b, name) {
      var k :| 0 <= k < |b| && EqualsIgnoreCase(b[k].name, name);
      assert (a + b)[|a| + k] == b[k];
    }
    if HasFieldNamed(a + b, name) {
      var k :| 0 <= k < |a + b| && EqualsIgnoreCase((a + b)[k].name, name);
      if k < |a| {
        assert (a + b)[k] == a[k];
      } else {
        assert (a + b)[k] == b[k - |a|];
      }
    }
  }

  /** A name the base lacks is among the new fields exactly when some extension field has it. */
  lemma {:induction false} NewFirstsNames(fields: seq<AlField>, xs: seq<AlField>, name: string)
    requires !HasFieldNamed(fields, name)
    ensures HasFieldNamed(NewFirsts(fields, xs), name) <==> HasFieldNamed(xs, name)
    decreases |xs|
  {
    if xs != [] {
      var n := |xs|;
      var init, x := xs[..n - 1], xs[n - 1];
      assert xs == init + [x];
      NewFirstsNames(fields, init, name);
      var added := if NewAt(fields, xs, n - 1) then [x] else [];
      HasFieldNamedAppend(NewFirsts(fields, init), added, name);
      HasFieldNamedAppend(init, [x], name);
      assert HasFieldNamed([x], name) <==> EqualsIgnoreCase(x.name, name) by {
        assert [x][0] == x;
      }
      if EqualsIgnoreCase(x.name, name) && !HasFieldNamed(init, name) {
        forall j | 0 <= j < n - 1 ensures !EqualsIgnoreCase(xs[j].name, x.name) {
          assert xs[j] == init[j];
        }
        assert NewAt(fields, xs, n - 1);
      }
    }
  }

  /** What the `push` loop appends: exactly the extension fields that are new to the
      base and the first of their name, in order. A later field of a name already
      added is dropped: the first one seen wins. */
  lemma {:induction false} AddMissingTail(fields: seq<AlField>, extra: seq<AlField>)
    ensures AddMissing(fields, extra) == fields + NewFirsts(fields, extra)
    decreases |extra|
  {
    if extra == [] {
      assert fields + [] == fields;
    } else {
      var n := |extra|;
      var init, x := extra[..n - 1], extra[n - 1];
      assert extra == init + [x];
      AddMissingTail(fields, init);
      AddMissingAppend(fields, init, [x]);
      var F := fields + NewFirsts(fields, init);
      assert AddMissing(F, [x]) == if HasFieldNamed(F, x.name) then F else F + [x] by {
        assert [x][1..] == [];
      }
      HasFieldNamedAppend(fields, NewFirsts(fields, init), x.name);
      if !HasFieldNamed(fields, x.name) {
        NewFirstsNames(fields, init, x.name);
        assert HasFieldNamed(init, x.name) <==> !NewAt(fields, extra, n - 1) by {
          if HasFieldNamed(init, x.name) {
            var k :| 0 <= k < |init| && EqualsIgnoreCase(init[k].name, x.name);
            assert extra[k] == init[k];
          }
          if !NewAt(fields, extra, n - 1) {
            var k :| 0 <= k < n - 1 && EqualsIgnoreCase(extra[k].name, x.name);
            assert init[k] == extra[k];
          }
        }
      }
    }
  }

  /** No two fields share a name, ignoring case. */
  predicate UniqueNames(fields: seq<AlField>) {
    forall i, j :: 0 <= i < j < |fields| ==> !EqualsIgnoreCase(fields[i].name, fields[j].name)
  }

  /** A base whose field names are unique keeps them unique, whatever the extensions add. */
  lemma {:induction false} AddMissingUnique(fields: seq<AlField>, extra: seq<AlField>)
    requires UniqueNames(fields)
    ensures UniqueNames(AddMissing(fields, extra))
    decreases |extra|
  {
    if extra != [] {
      if !HasFieldNamed(fields, extra[0].name) {
        var next := fields + [extra[0]];
        forall i, j | 0 <= i < j < |next| ensures !EqualsIgnoreCase(next[i].name, next[j].name) {
          if j == |fields| {
            assert next[i] == fields[i];
          }
        }
        AddMissingUnique(next, extra[1..]);
      } else {
        AddMissingUnique(fields, extra[1..]);
      }
    }
  }

  /** Adding the same fields again changes nothing. */
  lemma AddMissingIdempotent(fields: seq<AlField>, extra: seq<AlField>)
    ensures AddMissing(AddMissing(fields, extra), extra) == AddMissing(fields, extra)
  {
    forall i | 0 <= i < |extra| ensures HasFieldNamed(AddMissing(fields, extra), extra[i].name) {
      AddMissingCovers(fields, extra, i);
    }
    AddMissingAllPresent(AddMissing(fields, extra), extra);
  }

  /** Extra fields whose names are all present already add nothing. */
  lemma {:induction false} AddMissingAllPresent(fields: seq<AlField>, extra: seq<AlField>)
    requires forall i :: 0 <= i < |extra| ==> HasFieldNamed(fields, extra[i].name)
    ensures AddMissing(fields, extra) == fields
    decreases |extra|
  {
    if extra != [] {
      assert HasFieldNamed(fields, extra[0].name);
      forall i | 0 <= i < |extra[1..]| ensures HasFieldNamed(fields, extra[1..][i].name) {
        assert extra[1..][i] == extra[i + 1];
      }
      AddMissingAllPresent(fields, extra[1..]);
    }
  }

  /** The extension fields that go to table `b`, from the entries before `n`, in order. */
  function Contributions(ts: seq<AlTable>, b: nat, n: nat): seq<AlField>
    requires n <= |ts|
    decreases n
  {
    if n == 0 then []
    else Contributions(ts, b, n - 1) + (if TargetOf(ts, ts[n - 1]) == Some(b) then ts[n - 1].fields else [])
  }

  /** The list once the extensions before `i` are handled: each entry is the
      original with the contributions made to it so far. */
  predicate MergedUpTo(ts: seq<AlTable>, cur: seq<AlTable>, i: nat)
    requires i <= |ts|
  {
    |cur| == |ts| &&
    forall j :: 0 <= j < |ts| ==> cur[j] == Expected(ts, j, i)
  }

  /** What the entry at `j` looks like once the extensions before `i` are handled. */
  function Expected(ts: seq<AlTable>, j: nat, i: nat): AlTable
    requires j < |ts| && i <= |ts|
  {
    ts[j].(fields := AddMissing(ts[j].fields, Contributions(ts, j, i)))
  }

  lemma MergeStepEntry(ts: seq<AlTable>, cur: seq<AlTable>, i: nat, j: nat)
    requires i < |ts| && j < |ts| && |cur| == |ts|
    requires cur[i] == Expected(ts, i, i) && cur[j] == Expected(ts, j, i)
    ensures MergeStep(ts, cur, i)[j] == Expected(ts, j, i + 1)
  {
    assert TargetOf(ts, cur[i]) == TargetOf(ts, ts[i]);
    if TargetOf(ts, ts[i]) == Some(j) {
      NoContributionsToExtension(ts, i, i);
      assert cur[i].fields == ts[i].fields;
      AddMissingAppend(ts[j].fields, Contributions(ts, j, i), ts[i].fields);
    } else {
      var c := Contributions(ts, j, i);
      assert Contributions(ts, j, i + 1) == c + [];
      assert c + [] == c;
    }
  }

  lemma MergeStepKeeps(ts: seq<AlTable>, cur: seq<AlTable>, i: nat)
    requires i < |ts| && MergedUpTo(ts, cur, i)
    ensures MergedUpTo(ts, MergeStep(ts, cur, i), i + 1)
  {
    forall j | 0 <= j < |ts| ensures MergeStep(ts, cur, i)[j] == Expected(ts, j, i + 1) {
      MergeStepEntry(ts, cur, i, j);
    }
  }

  /** Nothing is ever merged into an extension. */
  lemma {:induction false} NoContributionsToExtension(ts: seq<AlTable>, b: nat, n: nat)
    requires b < |ts| && ts[b].objectType == TableExtension && n <= |ts|
    ensures Contributions(ts, b, n) == []
    decreases n
  {
    if n > 0 {
      NoContributionsToExtension(ts, b, n - 1);
    }
  }

  lemma {:induction false} MergeFromEntry(ts: seq<AlTable>, cur: seq<AlTable>, i: nat, j: nat)
    requires i <= |ts| && j < |ts| && MergedUpTo(ts, cur, i)
    ensures MergeFrom(ts, cur, i)[j] == Expected(ts, j, |ts|)
    decreases |ts| - i
  {
    if i < |ts| {
      var next := MergeStep(ts, cur, i);
      assert MergeFrom(ts, cur, i) == MergeFrom(ts, next, i + 1);
      MergeStepKeeps(ts, cur, i);
      MergeFromEntry(ts, next, i + 1, j);
    } else {
      assert MergeFrom(ts, cur, i) == cur;
    }
  }

  /** Each entry after the merge is the original entry whose field list has
      gained, in list order, the fields of every extension that targets it. */
  lemma MergedEntry(ts: seq<AlTable>, j: nat)
    requires j < |ts|
    ensures Merged(ts)[j] == ts[j].(fields := AddMissing(ts[j].fields, Contributions(ts, j, |ts|)))
  {
    assert MergedUpTo(ts, ts, 0) by {
      forall k | 0 <= k < |ts| ensures ts[k] == Expected(ts, k, 0) {
      }
    }
    MergeFromEntry(ts, ts, 0, j);
  }

  /** Only field lists change: every other part of every entry is kept, the
      old fields stay first and in order, and extensions are untouched. */
  lemma MergeKeepsEntries(ts: seq<AlTable>, j: nat)
    requires j < |ts|
    ensures Merged(ts)[j].(fields := ts[j].fields) == ts[j]
    ensures |ts[j].fields| <= |Merged(ts)[j].fields| && Merged(ts)[j].fields[..|ts[j].fields|] == ts[j].fields
    ensures ts[j].objectType == TableExtension ==> Merged(ts)[j] == ts[j]
  {
    MergedEntry(ts, j);
    AddMissingKeepsPrefix(ts[j].fields, Contributions(ts, j, |ts|));
    if ts[j].objectType == TableExtension {
      NoContributionsToExtension(ts, j, |ts|);
    }
  }

  /** An extension's fields all show up, by name, in the table it extends. */
  lemma MergeCoversExtension(ts: seq<AlTable>, i: nat, b: nat, k: nat)
    requires i < |ts| && TargetOf(ts, ts[i]) == Some(b) && k < |ts[i].fields|
    ensures HasFieldNamed(Merged(ts)[b].fields, ts[i].fields[k].name)
  {
    MergedEntry(ts, b);
    var c := Contributions(ts, b, |ts|);
    var p := |Contributions(ts, b, i)|;
    ContributionsContain(ts, b, i, |ts|);
    assert c[p + k] == c[p..p + |ts[i].fields|][k] == ts[i].fields[k];
    AddMissingCovers(ts[b].fields, c, p + k);
    assert Merged(ts)[b].fields == AddMissing(ts[b].fields, c);
  }

  /** The fields of the extension at `i` sit in the contributions to its target,
      right after those of the extensions before it. */
  lemma {:induction false} ContributionsContain(ts: seq<AlTable>, b: nat, i: nat, n: nat)
    requires i < n <= |ts| && TargetOf(ts, ts[i]) == Some(b)
    ensures |Contributions(ts, b, i)| + |ts[i].fields| <= |Contributions(ts, b, n)|
    ensures Contributions(ts, b, n)[|Contributions(ts, b, i)|..|Contributions(ts, b, i)| + |ts[i].fields|] == ts[i].fields
    decreases n
  {
    var p := |Contributions(ts, b, i)|;
    if n == i + 1 {
      assert Contributions(ts, b, n) == Contributions(ts, b, i) + ts[i].fields;
    } else {
      ContributionsContain(ts, b, i, n - 1);
      var prev := Contributions(ts, b, n - 1);
      assert Contributions(ts, b, n)[..|prev|] == prev;
      assert Contributions(ts, b, n)[p..p + |ts[i].fields|] == prev[p..p + |ts[i].fields|];
    }
  }

  // ---------------------------------------------------------------------------
  // The relation loop (scanAlProject, lines 72-83)
  // ---------------------------------------------------------------------------

  /** The entity a relation starts from: an extension's base table, or its own
      name when it has no base; a table's own name. */
  function FromTable(t: AlTable): (r: string)
    ensures t.objectType == TableExtension && t.extendsTable != [] ==> r == t.extendsTable
    ensures t.objectType == Table || t.extendsTable == [] ==> r == t.name
  {
    if t.objectType == TableExtension then (if t.extendsTable != [] then t.extendsTable else t.name)
    else t.name
  }

  /** A relation starts from the entity the diagram draws for its table. */
  lemma FromTableIsEntityName(t: AlTable)
    ensures FromTable(t) == EntitySelection.EntityName(t)
  {
  }

  /** `field.isForeignKey && field.relatedTable`. */
  predicate Emits(f: AlField) {
    f.isForeignKey && f.relatedTable != []
  }

  /** The relation pushed for field `f` of table `t`; `relatedField || ''` is `relatedField`. */
  function RelationFor(t: AlTable, f: AlField): AlRelation {
    AlRelation(FromTable(t), f.name, f.relatedTable, f.relatedField)
  }

  /** The relations of table `t` from its fields `fs`, in field order. */
  function FieldRelations(t: AlTable, fs: seq<AlField>): seq<AlRelation>
  {
    if fs == [] then []
    else FieldRelations(t, fs[..|fs| - 1]) + (if Emits(fs[|fs| - 1]) then [RelationFor(t, fs[|fs| - 1])] else [])
  }

  /** The relations of the tables `ts`, table by table. */
  function RelationsOf(ts: seq<AlTable>): seq<AlRelation>
  {
    if ts == [] then []
    else RelationsOf(ts[..|ts| - 1]) + FieldRelations(ts[|ts| - 1], ts[|ts| - 1].fields)
  }

  method BuildRelations(tables: seq<AlTable>) returns (relations: seq<AlRelation>)
    ensures relations == RelationsOf(tables)
  {
    relations := [];
    var i := 0;
    while i < |tables|
      invariant 0 <= i <= |tables|
      invariant relations == RelationsOf(tables[..i])
    {
      var table := tables[i];
      var j := 0;
      while j < |table.fields|
        invariant 0 <= j <= |table.fields|
        invariant relations == RelationsOf(tables[..i]) + FieldRelations(table, table.fields[..j])
      {
        var field := table.fields[j];
        assert table.fields[..j + 1][..j] == table.fields[..j];
        if field.isForeignKey && field.relatedTable != [] {
          relations := relations + [RelationFor(table, field)];
        }
        j := j + 1;
      }
      assert table.fields[..j] == table.fields;
      assert tables[..i + 1][..i] == tables[..i];
      i := i + 1;
    }
    assert tables[..i] == tables;
  }

  /** A relation comes from table `t` exactly when it is the relation of one of
      its foreign-key fields with a related table. */
  lemma {:induction false} FieldRelationsIff(t: AlTable, fs: seq<AlField>, r: AlRelation)
    ensures r in FieldRelations(t, fs) <==> exists k :: 0 <= k < |fs| && Emits(fs[k]) && r == RelationFor(t, fs[k])
    decreases |fs|
  {
    if fs != [] {
      var init := fs[..|fs| - 1];
      FieldRelationsIff(t, init, r);
      if exists k :: 0 <= k < |fs| && Emits(fs[k]) && r == RelationFor(t, fs[k]) {
        var k :| 0 <= k < |fs| && Emits(fs[k]) && r == RelationFor(t, fs[k]);
        if k < |fs| - 1 {
          assert init[k] == fs[k];
        }
      }
      if exists k :: 0 <= k < |init| && Emits(init[k]) && r == RelationFor(t, init[k]) {
        var k :| 0 <= k < |init| && Emits(init[k]) && r == RelationFor(t, init[k]);
        assert fs[k] == init[k];
      }
    }
  }

  /** Exactly one relation per foreign-key field that has a related table: a
      relation is emitted if and only if some such field of some table yields it. */
  lemma {:induction false} RelationsIff(ts: seq<AlTable>, r: AlRelation)
    ensures r in RelationsOf(ts) <==>
      exists i, k :: 0 <= i < |ts| && 0 <= k < |ts[i].fields| && Emits(ts[i].fields[k]) && r == RelationFor(ts[i], ts[i].fields[k])
    decreases |ts|
  {
    if ts != [] {
      var init := ts[..|ts| - 1];
      var last := ts[|ts| - 1];
      RelationsIff(init, r);
      FieldRelationsIff(last, last.fields, r);
      if exists i, k :: 0 <= i < |ts| && 0 <= k < |ts[i].fields| && Emits(ts[i].fields[k]) && r == RelationFor(ts[i], ts[i].fields[k]) {
        var i, k :| 0 <= i < |ts| && 0 <= k < |ts[i].fields| && Emits(ts[i].fields[k]) && r == RelationFor(ts[i], ts[i].fields[k]);
        if i < |ts| - 1 {
          assert init[i] == ts[i];
        }
      }
      if exists i, k :: 0 <= i < |init| && 0 <= k < |init[i].fields| && Emits(init[i].fields[k]) && r == RelationFor(init[i], init[i].fields[k]) {
        var i, k :| 0 <= i < |init| && 0 <= k < |init[i].fields| && Emits(init[i].fields[k]) && r == RelationFor(init[i], init[i].fields[k]);
        assert ts[i] == init[i];
      }
    }
  }

  /** The number of relations is the number of emitting fields. */
  function EmittingCount(fs: seq<AlField>): nat {
    if fs == [] then 0 else EmittingCount(fs[..|fs| - 1]) + (if Emits(fs[|fs| - 1]) then 1 else 0)
  }

  lemma {:induction false} FieldRelationsCount(t: AlTable, fs: seq<AlField>)
    ensures |FieldRelations(t, fs)| == EmittingCount(fs)
    decreases |fs|
  {
    if fs != [] {
      FieldRelationsCount(t, fs[..|fs| - 1]);
    }
  }

  // ---------------------------------------------------------------------------
  // The two steps together
  // ---------------------------------------------------------------------------

  /** Steps 4 and 5 of `scanAlProject` over the tables parsed from the files:
      merge, then derive the relations from the merged list. */
  method ScanParsed(parsed: seq<AlTable>, appJson: Option<AppJson>, errors: seq<string>) returns (result: AlProjectScanResult)
    ensures result.tables == Merged(parsed) && result.relations == RelationsOf(Merged(parsed))
    ensures result.appJson == appJson && result.errors == errors
  {
    var tables := new AlTable[|parsed|](i requires 0 <= i < |parsed| => parsed[i]);
    assert tables[..] == parsed;
    MergeTableExtensions(tables);
    var relations := BuildRelations(tables[..]);
    result := AlProjectScanResult(tables[..], relations, appJson, errors);
  }
}
