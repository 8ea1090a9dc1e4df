/** `parseFields` (src/alParser.ts): the `field(id; name; type)` declarations of
    the `fields { ... }` block, each with the properties of its own `{ ... }`. */
module AlFields {
  import opened Text
  import opened AlTypes
  import opened AlPatterns
  import opened AlProperties
  import opened BalancedBlock

  /** `FlowField` and `FlowFilter` fields (any case) are not columns and are skipped. */
  predicate IsFlowClass(fieldClass: string) {
    Lower(fieldClass) == "flowfield" || Lower(fieldClass) == "flowfilter"
  }

  /** The property block `{ ... }` that follows the declaration `d` in `fieldsBody`. */
  function FieldBodyOf(fieldsBody: string, d: FieldDecl): string {
    ExtractFieldBody(if d.end <= |fieldsBody| then fieldsBody[d.end..] else [])
  }

  /** The record built for one declaration matched in `fieldsBody`. */
  function FieldFrom(fieldsBody: string, d: FieldDecl, prefix: string): (f: AlField)
    ensures f.fieldClass != [] && !f.isPrimaryKey && !f.isForeignKey && f.relatedTable == [] && f.relatedField == []
  {
    var fieldBody := FieldBodyOf(fieldsBody, d);
    var fieldClass := ExtractProperty(fieldBody, "FieldClass");
    AlField(d.id, StripPrefix(prefix, Trim(d.name)), Trim(d.fieldType),
      StripPrefix(prefix, ExtractProperty(fieldBody, "Caption")),
      if fieldClass == [] then "Normal" else fieldClass,
      ExtractTableRelation(fieldBody, prefix),
      false, false, "", "")
  }

  /** A field whose block never assigns `FieldClass` (in any case) is a `Normal` field. */
  lemma FieldClassDefault(fieldsBody: string, d: FieldDecl, prefix: string)
    requires forall q :: 0 <= q <= |FieldBodyOf(fieldsBody, d)| ==> AssignAt(FieldBodyOf(fieldsBody, d), q, "FieldClass").None?
    ensures FieldFrom(fieldsBody, d, prefix).fieldClass == "Normal"
  {
    UnassignedProperty(FieldBodyOf(fieldsBody, d), "FieldClass");
  }

  /** A field whose block starts with `FieldClass = '<v>';` (the name in any case)
      has the class v, when v is not empty. */
  lemma FieldClassWritten(fieldsBody: string, d: FieldDecl, prefix: string, written: string, v: string, rest: string)
    requires IsWordName(written) && Lower(written) == Lower("FieldClass") && v != []
    requires FieldBodyOf(fieldsBody, d) == PropertyLine(written, v) + rest
    ensures FieldFrom(fieldsBody, d, prefix).fieldClass == v
  {
    ExtractPropertyAnyCase(written, "FieldClass", v, rest);
  }

  /** Everything the fields are promised to satisfy when they leave `parseFields`. */
  predicate Emitted(f: AlField) {
    !IsFlowClass(f.fieldClass) && f.fieldClass != [] &&
    !f.isPrimaryKey && !f.isForeignKey && f.relatedTable == [] && f.relatedField == []
  }

  /** The declarations the global `fieldRegex.exec` loop visits once `lastIndex` is `k`. */
  function DeclsFrom(fieldsBody: string, k: nat): seq<FieldDecl>
    decreases |fieldsBody| + 1 - k
  {
    match Search(fieldsBody, k, FieldDeclAt)
    case None => []
    case Some(m) => [m.m] + DeclsFrom(fieldsBody, m.m.end)
  }

  /** The field kept for one declaration: none for a FlowField or FlowFilter. */
  function Kept(fieldsBody: string, d: FieldDecl, prefix: string): seq<AlField>
  {
    var f := FieldFrom(fieldsBody, d, prefix);
    if IsFlowClass(f.fieldClass) then [] else [f]
  }

  /** The fields built from the declarations `ds`, in order. */
  function FieldsOf(fieldsBody: string, ds: seq<FieldDecl>, prefix: string): seq<AlField>
  {
    if ds == [] then []
    else FieldsOf(fieldsBody, ds[..|ds| - 1], prefix) + Kept(fieldsBody, ds[|ds| - 1], prefix)
  }

  /** What `parseFields(body, normalizeName, prefix)` returns. */
  function ParseFieldsSpec(body: string, prefix: string): (fs: seq<AlField>)
    ensures Search(body, 0, FieldsOpenAt).None? ==> fs == []
  {
    match Search(body, 0, FieldsOpenAt)
    case None => []
    case Some(open) =>
      var fieldsBody := Block(body, open.m);
      FieldsOf(fieldsBody, DeclsFrom(fieldsBody, 0), prefix)
  }

  method ParseFields(body: string, prefix: string) returns (fields: seq<AlField>)
    ensures fields == ParseFieldsSpec(body, prefix)
  {
    var blockMatch := Search(body, 0, FieldsOpenAt);
    if blockMatch.None? {
      return [];
    }
    var fieldsBody := ExtractBalancedBlock(body, blockMatch.value.m);
    fields := ReadFields(fieldsBody, prefix);
  }

  /** The `fieldRegex.exec` loop over the fields block. */
  method ReadFields(fieldsBody: string, prefix: string) returns (fields: seq<AlField>)
    ensures fields == FieldsOf(fieldsBody, DeclsFrom(fieldsBody, 0), prefix)
  {
    fields := [];
    var lastIndex := 0;
    ghost var visited: seq<FieldDecl> := [];
    assert [] + DeclsFrom(fieldsBody, 0) == DeclsFrom(fieldsBody, 0);
    while true
      invariant lastIndex <= |fieldsBody|
      invariant visited + DeclsFrom(fieldsBody, lastIndex) == DeclsFrom(fieldsBody, 0)
      invariant fields == FieldsOf(fieldsBody, visited, prefix)
      decreases |fieldsBody| + 1 - lastIndex
    {
      var fm := Search(fieldsBody, lastIndex, FieldDeclAt);
      if fm.None? {
        assert DeclsFrom(fieldsBody, lastIndex) == [];
        assert visited + [] == visited;
        break;
      }
      var decl := fm.value.m;
      var field := ReadField(fieldsBody, decl, prefix);
      DeclsFromStep(fieldsBody, lastIndex);
      AppendAssoc(visited, [decl], DeclsFrom(fieldsBody, decl.end));
      FieldsOfSnoc(fieldsBody, visited, decl, prefix);
      visited := visited + [decl];
      lastIndex := decl.end;
      if IsFlowClass(field.fieldClass) {
        continue;
      }
      fields := fields + [field];
    }
  }

  /** One iteration's record: the declaration's id, name and type, and the
      Caption, FieldClass (default `Normal`) and TableRelation of its own block. */
  method ReadField(fieldsBody: string, decl: FieldDecl, prefix: string) returns (field: AlField)
    requires decl.end <= |fieldsBody|
    ensures field == FieldFrom(fieldsBody, decl, prefix)
  {
    var fieldBody := ExtractFieldBody(fieldsBody[decl.end..]);
    var caption := StripPrefix(prefix, ExtractProperty(fieldBody, "Caption"));
    var fieldClass := ExtractProperty(fieldBody, "FieldClass");
    if fieldClass == [] {
      fieldClass := "Normal";
    }
    var tableRelation := ExtractTableRelation(fieldBody, prefix);
    field := AlField(decl.id, StripPrefix(prefix, Trim(decl.name)), Trim(decl.fieldType),
      caption, fieldClass, tableRelation, false, false, "", "");
  }

  /** A match at or after `k` is the first declaration visited from `k`. */
  lemma DeclsFromStep(fieldsBody: string, k: nat)
    ensures var m := Search(fieldsBody, k, FieldDeclAt);
      m.Some? ==> DeclsFrom(fieldsBody, k) == [m.value.m] + DeclsFrom(fieldsBody, m.value.m.end)
  {
  }

  /** One more declaration adds its kept field, if any, at the end. */
  lemma FieldsOfSnoc(fieldsBody: string, ds: seq<FieldDecl>, d: FieldDecl, prefix: string)
    ensures FieldsOf(fieldsBody, ds + [d], prefix) == FieldsOf(fieldsBody, ds, prefix) + Kept(fieldsBody, d, prefix)
  {
    assert (ds + [d])[..|ds|] == ds;
  }

  lemma AppendAssoc<T>(a: seq<T>, b: seq<T>, c: seq<T>)
    ensures (a + b) + c == a + (b + c)
  {
  }

  /** No FlowField or FlowFilter is emitted, every field has a class, and no
      key or relation flag is set yet (the caller sets those). */
  lemma {:induction false} FieldsOfEmitted(fieldsBody: string, ds: seq<FieldDecl>, prefix: string)
    ensures forall i :: 0 <= i < |FieldsOf(fieldsBody, ds, prefix)| ==> Emitted(FieldsOf(fieldsBody, ds, prefix)[i])
  {
    if ds != [] {
      FieldsOfEmitted(fieldsBody, ds[..|ds| - 1], prefix);
    }
  }

  lemma ParseFieldsEmitted(body: string, prefix: string)
    ensures forall i :: 0 <= i < |ParseFieldsSpec(body, prefix)| ==> Emitted(ParseFieldsSpec(body, prefix)[i])
  {
    match Search(body, 0, FieldsOpenAt)
    case None =>
    case Some(open) =>
      var fieldsBody := Block(body, open.m);
      FieldsOfEmitted(fieldsBody, DeclsFrom(fieldsBody, 0), prefix);
  }

  predicate AllDigits(s: string) {
    s != [] && forall k :: 0 <= k < |s| ==> IsDigit(s[k])
  }

  /** How AL writes a field declaration with a quoted name: `field(<id>; ` and
      then `"<name>"; <type>)`. */
  function FieldDeclText(digits: string, name: string, fieldType: string): string {
    FieldDeclHead(digits) + FieldDeclTail(name, fieldType)
  }

  function FieldDeclHead(digits: string): string {
    "field(" + digits + "; "
  }

  function FieldDeclTail(name: string, fieldType: string): string {
    Quote(name) + ";" + (" " + fieldType + ")")
  }

  lemma {:induction false} DigitsRun(s: string, b: nat, n: nat)
    requires b + n <= |s| && forall k :: b <= k < b + n ==> IsDigit(s[k])
    requires b + n < |s| && !IsDigit(s[b + n])
    ensures DigitsEnd(s, b) == b + n
    decreases n
  {
    if n > 0 {
      DigitsRun(s, b + 1, n - 1);
    }
  }

  /** ` type)` at `g`: the rest group is the type. */
  lemma RestTailAt(s: string, g: nat, fieldType: string)
    requires fieldType != [] && ')' !in fieldType && !IsSpace(fieldType[0])
    requires g + |fieldType| + 2 <= |s|
    requires s[g..g + |fieldType| + 2] == " " + fieldType + ")"
    ensures RestAt(s, g) == Some((fieldType, g + |fieldType| + 2))
  {
    var w := s[g..g + |fieldType| + 2];
    var close := g + 1 + |fieldType|;
    assert s[g] == w[0] == ' ';
    forall i | g <= i < close ensures s[i] != ')' {
      if i > g {
        assert s[i] == w[i - g] == fieldType[i - g - 1];
      }
    }
    assert s[close] == w[close - g] == ')';
    assert FindChar(s, ')', g) == close;
    assert s[g + 1] == w[1] == fieldType[0];
    assert SkipSpaces(s, g + 1) == g + 1;
    assert SkipSpaces(s, g) == g + 1;
    assert s[g + 1..close] == fieldType by {
      forall i | 0 <= i < |fieldType| ensures s[g + 1 + i] == fieldType[i] {
        assert s[g + 1 + i] == w[1 + i];
      }
    }
  }

  /** `QuotedNameTail` at `e`, read off the positions of the two quotes and the `;`. */
  lemma QuotedNameSteps(s: string, e: nat, k: nat, name: string, rest: string, end: nat)
    requires e + 1 < k && k + 2 <= |s|
    requires s[e] == '"' && s[k] == '"' && s[k + 1] == ';' && s[e + 1..k] == name
    requires forall i :: e + 1 <= i < k ==> s[i] != '"'
    requires RestAt(s, k + 2) == Some((rest, end))
    ensures QuotedNameTail(s, e) == Some(DeclTail(name, rest, end))
  {
    assert FindChar(s, '"', e + 1) == k;
    assert SkipSpaces(s, k + 1) == k + 1;
  }

  /** The characters of `"name"; type)` written at `e`. */
  lemma QuotedTailChars(s: string, e: nat, name: string, fieldType: string)
    requires e + |name| + |fieldType| + 5 <= |s| && '"' !in name
    requires s[e..e + |name| + |fieldType| + 5] == FieldDeclTail(name, fieldType)
    ensures s[e] == '"' && s[e + |name| + 1] == '"' && s[e + |name| + 2] == ';'
    ensures forall i :: e + 1 <= i < e + |name| + 1 ==> s[i] != '"'
    ensures s[e + 1..e + |name| + 1] == name
    ensures s[e + |name| + 3..e + |name| + |fieldType| + 5] == " " + fieldType + ")"
  {
    var w := s[e..e + |name| + |fieldType| + 5];
    var k := e + |name| + 1;
    assert w == "\"" + name + "\"" + ";" + (" " + fieldType + ")");
    assert s[e] == w[0] == '"';
    forall i | e + 1 <= i < k ensures s[i] != '"' {
      assert s[i] == w[i - e] == name[i - e - 1];
    }
    assert s[k] == w[k - e] == '"';
    assert s[k + 1] == w[k + 1 - e] == ';';
    forall i | 0 <= i < |name| ensures s[e + 1 + i] == name[i] {
      assert s[e + 1 + i] == w[1 + i];
    }
    assert s[k + 2..k + |fieldType| + 4] == w[k + 2 - e..];
  }

  /** `"name"; type)` at `e` is the quoted name-and-rest tail. */
  lemma QuotedTailAt(s: string, e: nat, name: string, fieldType: string)
    requires name != [] && '"' !in name && fieldType != [] && ')' !in fieldType && !IsSpace(fieldType[0])
    requires e + |name| + |fieldType| + 5 <= |s|
    requires s[e..e + |name| + |fieldType| + 5] == FieldDeclTail(name, fieldType)
    ensures QuotedNameTail(s, e) == Some(DeclTail(name, fieldType, e + |name| + |fieldType| + 5))
  {
    var k := e + |name| + 1;
    QuotedTailChars(s, e, name, fieldType);
    RestTailAt(s, k + 2, fieldType);
    QuotedNameSteps(s, e, k, name, fieldType, e + |name| + |fieldType| + 5);
  }

  /** A run of digits at `b`, ended by a non-digit, is what `\s*(\d+)` reads there. */
  lemma DigitsAt(s: string, b: nat, digits: string)
    requires AllDigits(digits) && b + |digits| < |s|
    requires s[b..b + |digits|] == digits && !IsDigit(s[b + |digits|])
    ensures SkipSpaces(s, b) == b && DigitsEnd(s, b) == b + |digits|
  {
    assert s[b] == digits[0];
    forall k | b <= k < b + |digits| ensures IsDigit(s[k]) {
      assert s[k] == digits[k - b];
    }
    DigitsRun(s, b, |digits|);
  }

  /** `FieldDeclAt` at 0, read off the positions where each of its parts ends. */
  lemma FieldDeclSteps(s: string, d: nat, t: DeclTail)
    requires 6 < d < |s| && KeywordStart(s, 0, "field") && s[5] == '('
    requires DigitsEnd(s, 6) == d && s[d] == ';'
    requires NameAndRest(s, d + 1) == Some(t)
    ensures FieldDeclAt(s, 0) == Some(FieldDecl(DigitsValue(s[6..d]), t.name, t.rest, t.end))
  {
    assert !IsSpace(s[5]) && IsDigit(s[6]) && !IsSpace(s[6]) && !IsSpace(s[d]);
    assert SkipSpaces(s, 5) == 5;
    assert SkipSpaces(s, 6) == 6;
    assert SkipSpaces(s, d) == d;
  }

  /** What `field(<digits>; ` at 0 tells the pattern, up to the name's opening quote. */
  lemma FieldHeadChars(s: string, digits: string)
    requires AllDigits(digits) && |digits| + 8 < |s|
    requires s[..|digits| + 8] == FieldDeclHead(digits) && s[|digits| + 8] == '"'
    ensures KeywordStart(s, 0, "field") && s[5] == '('
    ensures DigitsEnd(s, 6) == |digits| + 6 && s[|digits| + 6] == ';'
    ensures SkipSpaces(s, |digits| + 7) == |digits| + 8
    ensures s[6..|digits| + 6] == digits
  {
    var w := s[..|digits| + 8];
    var n := |digits|;
    assert w == "field(" + digits + "; ";
    assert s[0] == w[0] == 'f';
    assert s[..5] == w[..5] == "field";
    assert s[5] == w[5] == '(';
    assert IsBoundary(s, 0);
    assert s[6..6 + n] == digits by {
      assert w[6..6 + n] == digits;
    }
    assert s[n + 6] == w[n + 6] == ';';
    assert s[n + 7] == w[n + 7] == ' ';
    DigitsAt(s, 6, digits);
  }

  /** `field(<digits>; ` at 0 followed by a quoted name-and-rest tail is a field declaration. */
  lemma FieldHeadAt(s: string, digits: string, t: DeclTail)
    requires AllDigits(digits) && |digits| + 8 <= |s|
    requires s[..|digits| + 8] == FieldDeclHead(digits)
    requires QuotedNameTail(s, |digits| + 8) == Some(t)
    ensures FieldDeclAt(s, 0) == Some(FieldDecl(DigitsValue(digits), t.name, t.rest, t.end))
  {
    var n := |digits|;
    assert s[n + 8] == '"';
    FieldHeadChars(s, digits);
    assert NameAndRest(s, n + 7) == Some(t);
    FieldDeclSteps(s, n + 6, t);
  }

  /** The length of a declaration text, and its two halves. */
  lemma FieldDeclTextParts(digits: string, name: string, fieldType: string)
    ensures FieldDeclText(digits, name, fieldType) == FieldDeclHead(digits) + FieldDeclTail(name, fieldType)
    ensures |FieldDeclHead(digits)| == |digits| + 8
    ensures |FieldDeclTail(name, fieldType)| == |name| + |fieldType| + 5
  {
  }

  lemma PrefixHalves(s: string, head: string, tail: string)
    requires StartsWith(s, head + tail)
    ensures s[..|head|] == head && s[|head|..|head| + |tail|] == tail
  {
    assert s[..|head|] == (head + tail)[..|head|];
    assert s[|head|..|head| + |tail|] == (head + tail)[|head|..];
  }

  /** The field pattern reads a declaration `field(<id>; "<name>"; <type>)` back
      as its number, its name and its type, whatever text follows it. */
  lemma FieldDeclRoundTrip(s: string, digits: string, name: string, fieldType: string)
    requires AllDigits(digits)
    requires name != [] && '"' !in name
    requires fieldType != [] && ')' !in fieldType && !IsSpace(fieldType[0])
    requires StartsWith(s, FieldDeclText(digits, name, fieldType))
    ensures FieldDeclAt(s, 0) == Some(FieldDecl(DigitsValue(digits), name, fieldType, |FieldDeclText(digits, name, fieldType)|))
  {
    var head := FieldDeclHead(digits);
    var tail := FieldDeclTail(name, fieldType);
    FieldDeclTextParts(digits, name, fieldType);
    var end := |digits| + |name| + |fieldType| + 13;
    PrefixHalves(s, head, tail);
    var e := |digits| + 8;
    var t := DeclTail(name, fieldType, end);
    assert QuotedNameTail(s, e) == Some(t) by {
      QuotedTailAt(s, e, name, fieldType);
    }
    FieldHeadAt(s, digits, t);
  }
}
