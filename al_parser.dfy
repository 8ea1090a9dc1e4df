/** `parseAlFile` (src/alParser.ts): every `table` / `tableextension` header of
    a source text, with its body's caption, fields and keys, and the primary-key
    and foreign-key flags set on the fields. */
module AlParser {
  import opened Text
  import opened AlTypes
  import opened AlPatterns
  import opened AlProperties
  import opened BalancedBlock
  import opened AlFields
  import opened AlKeys

  /** The object headers the global `objectRegex.exec` loop visits once `lastIndex` is `k`. */
  function HeadersFrom(content: string, k: nat): (hs: seq<ObjectHeader>)
    ensures forall i :: 0 <= i < |hs| ==> k < hs[i].end <= |content|
    decreases |content| + 1 - k
  {
    match Search(content, k, ObjectHeaderAt)
    case None => []
    case Some(m) => [m.m] + HeadersFrom(content, m.m.end)
  }

  /** The first key flagged as primary, if any (`keys.find`). */
  function PrimaryKeyOf(keys: seq<AlKey>): (r: Option<AlKey>)
    ensures r.Some? ==> r.value in keys && r.value.isPrimaryKey
    ensures r.None? <==> forall i :: 0 <= i < |keys| ==> !keys[i].isPrimaryKey
  {
    if keys == [] then None
    else if keys[0].isPrimaryKey then Some(keys[0])
    else PrimaryKeyOf(keys[1..])
  }

  /** Some field listed by the key has the name `name`, ignoring case. */
  predicate InKey(keyFields: seq<string>, name: string) {
    exists j :: 0 <= j < |keyFields| && EqualsIgnoreCase(keyFields[j], name)
  }

  /** A field after the primary-key pass: flagged when the primary key lists its name. */
  function WithPrimaryFlag(f: AlField, pkKey: Option<AlKey>): AlField {
    if pkKey.Some? && InKey(pkKey.value.fields, f.name) then f.(isPrimaryKey := true) else f
  }

  /** A field after the relation pass: a non-empty `TableRelation` makes it a
      foreign key pointing at the resolved table and field. */
  function WithRelation(f: AlField, prefix: string): AlField {
    if f.tableRelation != [] then
      var resolved := ResolveTableRelation(f.tableRelation, prefix);
      f.(isForeignKey := true, relatedTable := resolved.table, relatedField := resolved.field)
    else f
  }

  function PrimaryMarked(fields: seq<AlField>, pkKey: Option<AlKey>): (r: seq<AlField>)
    ensures |r| == |fields|
  {
    seq(|fields|, i requires 0 <= i < |fields| => WithPrimaryFlag(fields[i], pkKey))
  }

  function RelationMarked(fields: seq<AlField>, prefix: string): (r: seq<AlField>)
    ensures |r| == |fields|
  {
    seq(|fields|, i requires 0 <= i < |fields| => WithRelation(fields[i], prefix))
  }

  /** The table built for one header: its body is the balanced block after the `{`. */
  function TableFrom(content: string, h: ObjectHeader, prefix: string, filePath: string): AlTable {
    var body := Block(content, h.end);
    var fields := ParseFieldsSpec(body, prefix);
    var keys := ParseKeysSpec(body, prefix);
    AlTable(DigitsValue(h.idDigits), StripPrefix(prefix, h.name),
      StripPrefix(prefix, ExtractTableCaption(body)), h.kind, StripPrefix(prefix, h.extendsName),
      RelationMarked(PrimaryMarked(fields, PrimaryKeyOf(keys)), prefix), keys, filePath)
  }

  function TablesOf(content: string, hs: seq<ObjectHeader>, prefix: string, filePath: string): (ts: seq<AlTable>)
    ensures |ts| == |hs|
  {
    seq(|hs|, i requires 0 <= i < |hs| => TableFrom(content, hs[i], prefix, filePath))
  }

  /** What `parseAlFile(content, filePath, prefix)` returns. */
  function ParseAlFileSpec(content: string, filePath: string, prefix: string): (ts: seq<AlTable>)
    ensures |ts| == |HeadersFrom(content, 0)|
  {
    TablesOf(content, HeadersFrom(content, 0), prefix, filePath)
  }

  method ParseAlFile(content: string, filePath: string, prefix: string) returns (tables: seq<AlTable>)
    ensures tables == ParseAlFileSpec(content, filePath, prefix)
  {
    tables := [];
    var lastIndex := 0;
    ghost var visited: seq<ObjectHeader> := [];
    assert [] + HeadersFrom(content, 0) == HeadersFrom(content, 0);
    while true
      invariant lastIndex <= |content|
      invariant visited + HeadersFrom(content, lastIndex) == HeadersFrom(content, 0)
      invariant tables == TablesOf(content, visited, prefix, filePath)
      decreases |content| + 1 - lastIndex
    {
      var m := Search(content, lastIndex, ObjectHeaderAt);
      if m.None? {
        assert HeadersFrom(content, lastIndex) == [];
        assert visited + [] == visited;
        break;
      }
      var header := m.value.m;
      var table := ReadTable(content, header, prefix, filePath);
      assert HeadersFrom(content, lastIndex) == [header] + HeadersFrom(content, header.end);
      AppendAssoc(visited, [header], HeadersFrom(content, header.end));
      TablesOfSnoc(content, visited, header, prefix, filePath);
      visited := visited + [header];
      tables := tables + [table];
      lastIndex := header.end;
    }
  }

  lemma TablesOfSnoc(content: string, hs: seq<ObjectHeader>, h: ObjectHeader, prefix: string, filePath: string)
    ensures TablesOf(content, hs + [h], prefix, filePath) == TablesOf(content, hs, prefix, filePath) + [TableFrom(content, h, prefix, filePath)]
  {
    var a := TablesOf(content, hs + [h], prefix, filePath);
    var b := TablesOf(content, hs, prefix, filePath) + [TableFrom(content, h, prefix, filePath)];
    forall i | 0 <= i < |a| ensures a[i] == b[i] {
      if i < |hs| {
        assert (hs + [h])[i] == hs[i];
      }
    }
  }

  /** One iteration of the `objectRegex` loop. */
  method ReadTable(content: string, header: ObjectHeader, prefix: string, filePath: string) returns (table: AlTable)
    ensures table == TableFrom(content, header, prefix, filePath)
  {
    var name := StripPrefix(prefix, header.name);
    var extendsTable := StripPrefix(prefix, header.extendsName);
    var body := ExtractBalancedBlock(content, header.end);
    var caption := StripPrefix(prefix, ExtractTableCaption(body));
    var fields := ParseFields(body, prefix);
    var keys := ParseKeys(body, prefix);
    var pkKey := PrimaryKeyOf(keys);
    fields := MarkPrimaryKeys(fields, pkKey);
    fields := MarkForeignKeys(fields, prefix);
    table := AlTable(DigitsValue(header.idDigits), name, caption, header.kind, extendsTable, fields, keys, filePath);
  }

  /** The `for (const f of fields)` pass that sets `isPrimaryKey`. */
  method MarkPrimaryKeys(fields: seq<AlField>, pkKey: Option<AlKey>) returns (marked: seq<AlField>)
    ensures marked == PrimaryMarked(fields, pkKey)
  {
    marked := fields;
    if pkKey.Some? {
      var i := 0;
      while i < |marked|
        invariant 0 <= i <= |marked| == |fields|
        invariant forall j :: 0 <= j < i ==> marked[j] == WithPrimaryFlag(fields[j], pkKey)
        invariant forall j :: i <= j < |marked| ==> marked[j] == fields[j]
      {
        var f := marked[i];
        if InKey(pkKey.value.fields, f.name) {
          marked := marked[i := f.(isPrimaryKey := true)];
        }
        i := i + 1;
      }
    }
    assert forall j :: 0 <= j < |marked| ==> marked[j] == PrimaryMarked(fields, pkKey)[j];
  }

  /** The `for (const f of fields)` pass that resolves each `TableRelation`. */
  method MarkForeignKeys(fields: seq<AlField>, prefix: string) returns (marked: seq<AlField>)
    ensures marked == RelationMarked(fields, prefix)
  {
    marked := fields;
    var i := 0;
    while i < |marked|
      invariant 0 <= i <= |marked| == |fields|
      invariant forall j :: 0 <= j < i ==> marked[j] == WithRelation(fields[j], prefix)
      invariant forall j :: i <= j < |marked| ==> marked[j] == fields[j]
    {
      var f := marked[i];
      ghost var before := marked;
      if f.tableRelation != [] {
        var resolved := ResolveTableRelation(f.tableRelation, prefix);
        marked := marked[i := f.(isForeignKey := true, relatedTable := resolved.table, relatedField := resolved.field)];
      }
      assert marked == before[i := WithRelation(f, prefix)];
      i := i + 1;
    }
    assert forall j :: 0 <= j < |marked| ==> marked[j] == RelationMarked(fields, prefix)[j];
  }

  /** The keys of a body: when there is one, the first is the primary key. */
  lemma PrimaryKeyIsFirst(body: string, prefix: string)
    ensures var keys := ParseKeysSpec(body, prefix);
      PrimaryKeyOf(keys) == if keys == [] then None else Some(keys[0])
  {
    var keys := ParseKeysSpec(body, prefix);
    if keys != [] {
      assert keys[0].isPrimaryKey;
    }
  }

  /** What the two passes do to a freshly parsed field: only the four flags
      change; it is a primary key exactly when the primary key names it
      (ignoring case), and a foreign key exactly when it has a relation,
      whose resolved target it then carries. */
  lemma MarkedField(f: AlField, pkKey: Option<AlKey>, prefix: string)
    requires Emitted(f)
    ensures var g := WithRelation(WithPrimaryFlag(f, pkKey), prefix);
      g.(isPrimaryKey := false, isForeignKey := false, relatedTable := "", relatedField := "") == f &&
      (g.isPrimaryKey <==> pkKey.Some? && InKey(pkKey.value.fields, f.name)) &&
      (g.isForeignKey <==> f.tableRelation != []) &&
      (g.isForeignKey ==> RelationTarget(g.relatedTable, g.relatedField) == ResolveTableRelation(f.tableRelation, prefix)) &&
      (!g.isForeignKey ==> g.relatedTable == [] && g.relatedField == [])
  {
  }

  /** End to end, without a prefix: a field whose block starts with
      `TableRelation = "T"."F";` becomes a foreign key to table T and field F. */
  lemma ForeignKeyFromRelation(fieldsBody: string, d: FieldDecl, t: string, f: string, rest: string)
    requires t != [] && f != [] && '"' !in t && '"' !in f && ';' !in t && ';' !in f
    requires SingleSpaced(Quote(t) + ("." + Quote(f))) && NoConditionKeyword(Quote(t) + ("." + Quote(f)))
    requires FieldBodyOf(fieldsBody, d) == RelationLine(Quote(t) + ("." + Quote(f))) + rest
    ensures var g := WithRelation(FieldFrom(fieldsBody, d, ""), "");
      g.isForeignKey && g.relatedTable == t && g.relatedField == f
  {
    var v := Quote(t) + ("." + Quote(f));
    assert ';' !in v;
    ExtractTableRelationRoundTrip(v, rest, "");
    assert FieldFrom(fieldsBody, d, "").tableRelation == v;
    ResolveQuotedQualified(t, f, "");
  }

  /** Field `i` of a parsed table is field `i` of its body with the flags set:
      primary exactly when the body's first key lists it, foreign exactly when
      it has a `TableRelation`. */
  lemma TableFieldFlags(content: string, h: ObjectHeader, prefix: string, filePath: string, i: nat)
    requires i < |TableFrom(content, h, prefix, filePath).fields|
    ensures var t := TableFrom(content, h, prefix, filePath);
      var f := ParseFieldsSpec(Block(content, h.end), prefix)[i];
      var g := t.fields[i];
      g.(isPrimaryKey := false, isForeignKey := false, relatedTable := "", relatedField := "") == f &&
      (g.isPrimaryKey <==> t.keys != [] && InKey(t.keys[0].fields, f.name)) &&
      (g.isForeignKey <==> f.tableRelation != []) &&
      (g.isForeignKey ==> RelationTarget(g.relatedTable, g.relatedField) == ResolveTableRelation(f.tableRelation, prefix)) &&
      (!g.isForeignKey ==> g.relatedTable == [] && g.relatedField == [])
  {
    var body := Block(content, h.end);
    var fields := ParseFieldsSpec(body, prefix);
    var keys := ParseKeysSpec(body, prefix);
    ParseFieldsEmitted(body, prefix);
    PrimaryKeyIsFirst(body, prefix);
    MarkedField(fields[i], PrimaryKeyOf(keys), prefix);
  }

  /** The keyword of an object kind, as written in source. */
  function KindWord(k: ObjectType): string {
    if k == Table then "table" else "tableextension"
  }

  /** ` extends "<base>"`, or nothing for a plain table. */
  function ExtendsText(base: string): string {
    if base == [] then "" else " extends " + Quote(base)
  }

  /** `<kind> <digits> "<name>"[ extends "<base>"] {` */
  function HeaderText(k: ObjectType, digits: string, name: string, base: string): string {
    (KindWord(k) + " ") + (digits + " ") + Quote(name) + (ExtendsText(base) + " {")
  }

  /** `table ` or `tableextension ` at 0 is read as that kind; `w` is the keyword's length. */
  lemma KindAt(s: string, k: ObjectType, w: nat)
    requires w == |KindWord(k)| && w < |s| && s[0..w] == KindWord(k) && s[w] == ' '
    ensures ObjectKindAt(s, 0) == Some((k, w))
  {
    var kw := KindWord(k);
    assert s[0] == kw[0] == 't';
    assert IsBoundary(s, 0);
    assert s[..5] == kw[..5] == "table";
    assert KeywordStart(s, 0, "table");
    if k == TableExtension {
      assert s[5] == kw[5] == 'e';
      assert s[..14] == "tableextension";
    }
  }

  /** The header's number and name, read from position `a`: the digits end at
      `d` and the quoted name at `q`. */
  lemma IdThenName(s: string, a: nat, d: nat, q: nat, digits: string, name: string)
    requires AllDigits(digits) && name != [] && '"' !in name
    requires d == a + |digits| && q == d + |name| + 3 && q <= |s|
    requires s[a..d] == digits && s[d] == ' ' && s[d + 1..q] == Quote(name)
    ensures DigitsEnd(s, a) == d && SkipSpaces(s, d) == d + 1
    ensures QuotedAt(s, d + 1) == Some((name, q))
  {
    DigitsAt(s, a, digits);
    assert s[d + 1] == s[d + 1..q][0];
    QuotedAtWithin(s, d + 1, name);
  }

  /** ` {` after the name ends the header of a plain table. */
  lemma PlainTail(s: string, q: nat)
    requires q + 2 <= |s| && s[q..q + 2] == " {"
    ensures HeaderTail(s, q) == Some(("", q + 2))
  {
    assert s[q] == s[q..q + 2][0] && s[q + 1] == s[q..q + 2][1];
    assert SkipSpaces(s, q + 1) == q + 1;
    assert SkipSpaces(s, q) == q + 1;
    if q + 8 <= |s| {
      assert Lower(s[q + 1..q + 8])[0] == '{';
      assert Lower("extends")[0] == 'e';
    }
    assert !MatchesAt(s, q + 1, "extends");
  }

  /** The characters of ` extends "<base>" {` at `q`. */
  lemma ExtendsChars(s: string, q: nat, base: string)
    requires q + |base| + 13 <= |s|
    requires s[q..q + |base| + 13] == " extends " + Quote(base) + " {"
    ensures s[q] == ' ' && s[q + 1..q + 8] == "extends" && s[q + 8] == ' ' && s[q + 9] == '"'
    ensures s[q + 9..q + |base| + 11] == Quote(base)
    ensures s[q + |base| + 11] == ' ' && s[q + |base| + 12] == '{'
  {
    var b := |base|;
    SliceParts(s, q, " extends " + Quote(base), " {");
    SliceParts(s, q, " extends ", Quote(base));
    SliceParts(s, q, " extends", " ");
    SliceParts(s, q, " ", "extends");
    assert s[q] == s[q..q + 1][0];
    assert s[q + 8] == s[q + 8..q + 9][0];
    assert s[q + 9] == s[q + 9..q + b + 11][0];
    assert s[q + b + 11] == s[q + b + 11..q + b + 13][0];
    assert s[q + b + 12] == s[q + b + 11..q + b + 13][1];
  }

  /** ` extends "<base>" {` after the name ends the header of an extension. */
  lemma ExtendsTail(s: string, q: nat, base: string)
    requires base != [] && '"' !in base
    requires q + |base| + 13 <= |s|
    requires s[q..q + |base| + 13] == " extends " + Quote(base) + " {"
    ensures HeaderTail(s, q) == Some((base, q + |base| + 13))
  {
    var b := |base|;
    ExtendsChars(s, q, base);
    assert SkipSpaces(s, q + 1) == q + 1;
    assert SkipSpaces(s, q) == q + 1;
    assert MatchesAt(s, q + 1, "extends");
    assert SkipSpaces(s, q + 9) == q + 9;
    assert SkipSpaces(s, q + 8) == q + 9;
    QuotedAtWithin(s, q + 9, base);
    assert SkipSpaces(s, q + b + 12) == q + b + 12;
    assert SkipSpaces(s, q + b + 11) == q + b + 12;
  }

  /** The tail of the header after the name, with or without `extends`, ends at `end`. */
  lemma TailAt(s: string, q: nat, end: nat, base: string)
    requires '"' !in base
    requires end == q + |ExtendsText(base)| + 2 && end <= |s|
    requires s[q..end] == ExtendsText(base) + " {"
    ensures HeaderTail(s, q) == Some((base, end))
  {
    if base == [] {
      assert ExtendsText(base) + " {" == " {";
      PlainTail(s, q);
    } else {
      assert ExtendsText(base) + " {" == " extends " + Quote(base) + " {";
      ExtendsTail(s, q, base);
    }
  }

  /** `ObjectHeaderAt` at 0, read off the positions where each part of the header ends. */
  lemma HeaderSteps(s: string, k: ObjectType, w: nat, d: nat, q: nat, digits: string, name: string, base: string, end: nat)
    requires w + 1 < d < |s| && s[w] == ' ' && s[w + 1..d] == digits
    requires ObjectKindAt(s, 0) == Some((k, w))
    requires DigitsEnd(s, w + 1) == d && SkipSpaces(s, d) == d + 1
    requires QuotedAt(s, d + 1) == Some((name, q)) && q <= |s|
    requires HeaderTail(s, q) == Some((base, end))
    ensures ObjectHeaderAt(s, 0) == Some(ObjectHeader(k, digits, name, base, end))
  {
    assert IsDigit(s[w + 1]);
    assert SkipSpaces(s, w + 1) == w + 1;
    assert SkipSpaces(s, w) == w + 1;
    assert s[d + 1] == '"';
    assert QuotedHeader(s, d + 1) == Some((name, base, end));
    assert NamedHeaderAt(s, d + 1) == Some((name, base, end));
  }

  /** A text that starts with `p1 + p2 + p3 + p4` spells each part in turn. */
  lemma Slices4(s: string, p1: string, p2: string, p3: string, p4: string, a: nat, b: nat, c: nat, e: nat)
    requires StartsWith(s, p1 + p2 + p3 + p4)
    requires a == |p1| && b == a + |p2| && c == b + |p3| && e == c + |p4|
    ensures e <= |s| && s[0..a] == p1 && s[a..b] == p2 && s[b..c] == p3 && s[c..e] == p4
  {
    var w := p1 + p2 + p3 + p4;
    assert s[..e] == w;
    forall i | 0 <= i < a ensures s[0..a][i] == p1[i] {
      assert s[i] == w[i];
    }
    forall i | 0 <= i < |p2| ensures s[a..b][i] == p2[i] {
      assert s[a + i] == w[a + i];
    }
    forall i | 0 <= i < |p3| ensures s[b..c][i] == p3[i] {
      assert s[b + i] == w[b + i];
    }
    forall i | 0 <= i < |p4| ensures s[c..e][i] == p4[i] {
      assert s[c + i] == w[c + i];
    }
  }

  /** Where each part of a header text starts and ends. */
  lemma HeaderTextParts(s: string, k: ObjectType, digits: string, name: string, base: string,
                        w: nat, d: nat, q: nat, end: nat)
    requires StartsWith(s, HeaderText(k, digits, name, base))
    requires w == |KindWord(k)| && d == w + 1 + |digits| && q == d + |name| + 3 && end == |HeaderText(k, digits, name, base)|
    ensures end == q + |ExtendsText(base)| + 2 && end <= |s|
    ensures s[0..w] == KindWord(k) && s[w] == ' '
    ensures s[w + 1..d] == digits && s[d] == ' ' && s[d + 1..q] == Quote(name)
    ensures s[q..end] == ExtendsText(base) + " {"
  {
    HeaderTextSlices(s, k, digits, name, base, w, d, q, end);
    WordThenSpace(s, 0, KindWord(k), w);
    WordThenSpace(s, w + 1, digits, d);
  }

  /** The four parts of a header text, each at its place. */
  lemma HeaderTextSlices(s: string, k: ObjectType, digits: string, name: string, base: string,
                         w: nat, d: nat, q: nat, end: nat)
    requires StartsWith(s, HeaderText(k, digits, name, base))
    requires w == |KindWord(k)| && d == w + 1 + |digits| && q == d + |name| + 3 && end == |HeaderText(k, digits, name, base)|
    ensures end == q + |ExtendsText(base)| + 2 && end <= |s|
    ensures s[0..w + 1] == KindWord(k) + " " && s[w + 1..d + 1] == digits + " "
    ensures s[d + 1..q] == Quote(name) && s[q..end] == ExtendsText(base) + " {"
  {
    var tail := ExtendsText(base) + " {";
    assert |Quote(name)| == |name| + 2;
    assert HeaderText(k, digits, name, base) == (KindWord(k) + " ") + (digits + " ") + Quote(name) + tail;
    Slices4(s, KindWord(k) + " ", digits + " ", Quote(name), tail, w + 1, d + 1, q, end);
  }

  /** The object pattern reads a header back as its kind, its number, its name
      and the table it extends, and ends just after its `{`. */
  lemma HeaderRoundTrip(s: string, k: ObjectType, digits: string, name: string, base: string)
    requires AllDigits(digits) && name != [] && '"' !in name && '"' !in base
    requires StartsWith(s, HeaderText(k, digits, name, base))
    ensures ObjectHeaderAt(s, 0) == Some(ObjectHeader(k, digits, name, base, |HeaderText(k, digits, name, base)|))
  {
    var w := |KindWord(k)|;
    var d := w + 1 + |digits|;
    var q := d + |name| + 3;
    var end := |HeaderText(k, digits, name, base)|;
    HeaderTextParts(s, k, digits, name, base, w, d, q, end);
    KindAt(s, k, w);
    IdThenName(s, w + 1, d, q, digits, name);
    TailAt(s, q, end, base);
    HeaderSteps(s, k, w, d, q, digits, name, base, end);
  }

  /** The decimal spelling of `n`. */
  function DecimalText(n: nat): (r: string)
    ensures AllDigits(r)
    decreases n
  {
    var last := ['0' + (n % 10) as char];
    if n < 10 then last else DecimalText(n / 10) + last
  }

  /** The table number is read back from its decimal spelling. */
  lemma {:induction false} DecimalRoundTrip(n: nat)
    ensures DigitsValue(DecimalText(n)) == n
    decreases n
  {
    var t := DecimalText(n);
    if n >= 10 {
      DecimalRoundTrip(n / 10);
      assert t[..|t| - 1] == DecimalText(n / 10);
    }
  }

  /** A file that starts with a header yields, first, the table that header
      declares: its kind, number, name and base table as written. */
  lemma FirstTable(s: string, k: ObjectType, id: nat, name: string, base: string, filePath: string)
    requires name != [] && '"' !in name && '"' !in base
    requires StartsWith(s, HeaderText(k, DecimalText(id), name, base))
    ensures var ts := ParseAlFileSpec(s, filePath, "");
      ts != [] && ts[0].objectType == k && ts[0].id == id && ts[0].name == name &&
      ts[0].extendsTable == base && ts[0].filePath == filePath
  {
    var digits := DecimalText(id);
    HeaderRoundTrip(s, k, digits, name, base);
    var h := ObjectHeader(k, digits, name, base, |HeaderText(k, digits, name, base)|);
    assert Search(s, 0, ObjectHeaderAt) == Some(Found(0, h));
    assert HeadersFrom(s, 0)[0] == h;
    DecimalRoundTrip(id);
  }
}
