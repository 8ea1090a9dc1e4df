/** `parseKeys` and `parseKeyFields` (src/alParser.ts): the `key(name; fields)`
    declarations of the `keys { ... }` block. The first key is the primary key. */
module AlKeys {
  import opened Text
  import opened AlTypes
  import opened AlPatterns
  import opened AlProperties
  import opened BalancedBlock
  import opened AlFields

  /** `.replace(/^"|"$/g, "")`: one leading and one trailing double quote removed. */
  function StripQuoteEnds(t: string): string {
    var a := if t != [] && t[0] == '"' then t[1..] else t;
    if a != [] && a[|a| - 1] == '"' then a[..|a| - 1] else a
  }

  /** Removing the quote ends undoes `Quote`. */
  lemma StripQuoteEndsQuote(n: string)
    ensures StripQuoteEnds(Quote(n)) == n
  {
    var t := Quote(n);
    assert t[1..] == n + "\"";
    assert (n + "\"")[..|n|] == n;
  }

  /** A name that neither starts nor ends with a quote is left alone. */
  lemma StripQuoteEndsPlain(t: string)
    requires t == [] || (t[0] != '"' && t[|t| - 1] != '"')
    ensures StripQuoteEnds(t) == t
  {
  }

  /** One match of `/\s*(?:"([^"]+)"|([^,]+))/g`, the corrected key field pattern
      (see `KeyFieldItemAt` for the pattern as written): the spaces after a comma
      belong to the next match, so a quoted name after `, ` is read by the quoted
      alternative. When only the unquoted alternative fits after the spaces and
      nothing but a comma or the end follows them, the backtracking `\s*` gives
      its last space to `[^,]+`. */
  function KeyFieldEntryAt(s: string, p: nat): (r: Option<(string, nat)>)
    ensures r.Some? ==> p < r.value.1 <= |s|
  {
    if p > |s| then None
    else
      var e := SkipSpaces(s, p);
      var quoted := QuotedAt(s, e);
      if quoted.Some? then quoted
      else if e < |s| && s[e] != ',' then
        var end := FindChar(s, ',', e);
        Some((s[e..end], end))
      else if p < e then Some(([s[e - 1]], e))
      else None
  }

  /** What one match adds to the list: its capture trimmed, unless that is empty. */
  function KeptValue(capture: string): seq<string> {
    var v := Trim(capture);
    if v == [] then [] else [v]
  }

  /** The key fields the corrected `regex.exec` loop collects once `lastIndex` is `k`. */
  function KeyFieldsFrom(raw: string, k: nat): seq<string>
    decreases |raw| + 1 - k
  {
    match Search(raw, k, KeyFieldEntryAt)
    case None => []
    case Some(m) => KeptValue(m.m.0) + KeyFieldsFrom(raw, m.m.1)
  }

  /** The same loop with the pattern as written, `/"([^"]+)"|([^,]+)/g`. */
  function KeyFieldsAsWritten(raw: string, k: nat): seq<string>
    decreases |raw| + 1 - k
  {
    match Search(raw, k, KeyFieldItemAt)
    case None => []
    case Some(m) => KeptValue(m.m.0) + KeyFieldsAsWritten(raw, m.m.1)
  }

  /** `parseKeyFields(raw)`, with the corrected pattern. */
  method ParseKeyFields(raw: string) returns (fields: seq<string>)
    ensures fields == KeyFieldsFrom(raw, 0)
  {
    fields := [];
    var lastIndex := 0;
    while true
      invariant lastIndex <= |raw|
      invariant fields + KeyFieldsFrom(raw, lastIndex) == KeyFieldsFrom(raw, 0)
      decreases |raw| + 1 - lastIndex
    {
      var m := Search(raw, lastIndex, KeyFieldEntryAt);
      if m.None? {
        assert fields + [] == fields;
        break;
      }
      var capture := m.value.m.0;
      var end := m.value.m.1;
      var value := Trim(capture);
      AppendAssoc(fields, KeptValue(capture), KeyFieldsFrom(raw, end));
      if value != [] {
        fields := fields + [value];
      } else {
        assert fields + [] == fields;
      }
      lastIndex := end;
    }
  }

  /** Every collected key field is non-empty and has no surrounding whitespace. */
  lemma {:induction false} KeyFieldsTrimmed(raw: string, k: nat)
    ensures forall i :: 0 <= i < |KeyFieldsFrom(raw, k)| ==>
      KeyFieldsFrom(raw, k)[i] != [] && Trim(KeyFieldsFrom(raw, k)[i]) == KeyFieldsFrom(raw, k)[i]
    decreases |raw| + 1 - k
  {
    match Search(raw, k, KeyFieldEntryAt)
    case None =>
    case Some(m) =>
      var v := Trim(m.m.0);
      TrimOfTrimmed(v);
      KeyFieldsTrimmed(raw, m.m.1);
  }

  /** How AL writes a key's field list with quoted names: `"A", "B", "C"`. */
  function QuotedList(fs: seq<string>): string {
    if fs == [] then "" else Quote(fs[0]) + CommaQuoted(fs[1..])
  }

  /** The part of a quoted list after its first name: `, "B", "C"`. */
  function CommaQuoted(fs: seq<string>): string {
    if fs == [] then "" else ", " + Quote(fs[0]) + CommaQuoted(fs[1..])
  }

  /** A field name that a quoted list can carry and the trim gives back unchanged. */
  predicate PlainName(f: string) {
    f != [] && '"' !in f && Trim(f) == f
  }

  /** `"<f>"` at `p`: the quoted alternative captures `f`. */
  lemma QuotedAtWithin(s: string, p: nat, f: string)
    requires f != [] && '"' !in f
    requires p + |f| + 2 <= |s| && s[p..p + |f| + 2] == Quote(f)
    ensures QuotedAt(s, p) == Some((f, p + |f| + 2))
  {
    var w := s[p..p + |f| + 2];
    assert w == "\"" + f + "\"";
    assert s[p] == w[0] == '"';
    forall i | p + 1 <= i < p + |f| + 1 ensures s[i] != '"' {
      assert s[i] == w[i - p] == f[i - p - 1];
    }
    assert s[p + |f| + 1] == w[|f| + 1] == '"';
    assert FindChar(s, '"', p + 1) == p + |f| + 1;
    forall i | 0 <= i < |f| ensures s[p + 1 + i] == f[i] {
      assert s[p + 1 + i] == w[1 + i];
    }
    assert s[p + 1..p + |f| + 1] == f;
  }

  /** `, "<f>"` at `k`: the next match starts at the space and captures `f`. */
  lemma CommaEntry(s: string, k: nat, f: string)
    requires f != [] && '"' !in f
    requires k + |f| + 4 <= |s| && s[k..k + |f| + 4] == ", " + Quote(f)
    ensures Search(s, k, KeyFieldEntryAt) == Some(Found(k + 1, (f, k + |f| + 4)))
  {
    var w := s[k..k + |f| + 4];
    assert s[k] == w[0] == ',';
    assert s[k + 1] == w[1] == ' ';
    assert s[k + 2..k + |f| + 4] == Quote(f) by {
      forall i | 0 <= i < |f| + 2 ensures s[k + 2 + i] == Quote(f)[i] {
        assert s[k + 2 + i] == w[2 + i];
      }
    }
    QuotedAtWithin(s, k + 2, f);
    assert s[k + 2] == '"';
    assert SkipSpaces(s, k + 1) == k + 2;
    assert KeyFieldEntryAt(s, k).None?;
    assert KeyFieldEntryAt(s, k + 1) == Some((f, k + |f| + 4));
    SearchFirst(s, k, k + 1, KeyFieldEntryAt, (f, k + |f| + 4));
  }

  /** The two parts of a comma-led list written from `k` to the end of `s`. */
  lemma CommaQuotedParts(s: string, k: nat, fs: seq<string>)
    requires fs != []
    requires k + |CommaQuoted(fs)| == |s| && s[k..] == CommaQuoted(fs)
    ensures k + |fs[0]| + 4 + |CommaQuoted(fs[1..])| == |s|
    ensures s[k..k + |fs[0]| + 4] == ", " + Quote(fs[0])
    ensures s[k + |fs[0]| + 4..] == CommaQuoted(fs[1..])
  {
    var head := ", " + Quote(fs[0]);
    assert CommaQuoted(fs) == head + CommaQuoted(fs[1..]);
    assert s[k..k + |head|] == s[k..][..|head|];
    assert s[k + |head|..] == s[k..][|head|..];
  }

  /** One turn of the loop: the match found from `k` adds its trimmed capture. */
  lemma KeyFieldsStep(raw: string, k: nat, p: nat, capture: string, end: nat)
    requires Search(raw, k, KeyFieldEntryAt) == Some(Found(p, (capture, end)))
    ensures KeyFieldsFrom(raw, k) == KeptValue(capture) + KeyFieldsFrom(raw, end)
  {
  }

  lemma KeptPlain(f: string)
    requires PlainName(f)
    ensures KeptValue(f) == [f]
  {
  }

  /** A turn of the loop whose capture is a plain name adds exactly that name. */
  lemma KeyFieldsPlainStep(raw: string, k: nat, p: nat, f: string, end: nat)
    requires Search(raw, k, KeyFieldEntryAt) == Some(Found(p, (f, end))) && PlainName(f)
    ensures KeyFieldsFrom(raw, k) == [f] + KeyFieldsFrom(raw, end)
  {
    KeyFieldsStep(raw, k, p, f, end);
    KeptPlain(f);
  }

  /** The first name of a comma-led list, and where the rest of the list starts. */
  lemma CommaQuotedHead(s: string, k: nat, fs: seq<string>, f: string, end: nat)
    requires fs != [] && f == fs[0] && PlainName(f) && end == k + |f| + 4
    requires k + |CommaQuoted(fs)| == |s| && s[k..] == CommaQuoted(fs)
    ensures KeyFieldsFrom(s, k) == [f] + KeyFieldsFrom(s, end)
    ensures end + |CommaQuoted(fs[1..])| == |s|
    ensures s[end..] == CommaQuoted(fs[1..])
  {
    CommaQuotedParts(s, k, fs);
    CommaEntry(s, k, f);
    KeyFieldsPlainStep(s, k, k + 1, f, end);
  }

  /** Nothing is read from the end of the text. */
  lemma KeyFieldsAtEnd(s: string)
    ensures KeyFieldsFrom(s, |s|) == []
  {
    assert KeyFieldEntryAt(s, |s|).None?;
    assert Search(s, |s|, KeyFieldEntryAt).None?;
  }

  lemma {:induction false} CommaQuotedRead(s: string, k: nat, fs: seq<string>)
    requires forall i :: 0 <= i < |fs| ==> PlainName(fs[i])
    requires k + |CommaQuoted(fs)| == |s| && s[k..] == CommaQuoted(fs)
    ensures KeyFieldsFrom(s, k) == fs
    decreases fs
  {
    if fs == [] {
      KeyFieldsAtEnd(s);
    } else {
      var f := fs[0];
      var end := k + |f| + 4;
      var rest := fs[1..];
      assert fs == [f] + rest;
      CommaQuotedHead(s, k, fs, f, end);
      assert forall i :: 0 <= i < |rest| ==> PlainName(rest[i]) by {
        forall i | 0 <= i < |rest| ensures PlainName(rest[i]) {
          assert rest[i] == fs[i + 1];
        }
      }
      CommaQuotedRead(s, end, rest);
    }
  }

  /** Round trip of the corrected pattern: a quoted list reads back as its names. */
  lemma KeyFieldsRoundTrip(fs: seq<string>)
    requires forall i :: 0 <= i < |fs| ==> PlainName(fs[i])
    ensures KeyFieldsFrom(QuotedList(fs), 0) == fs
  {
    var s := QuotedList(fs);
    if fs == [] {
      assert KeyFieldEntryAt(s, 0).None?;
    } else {
      var f := fs[0];
      var end := |f| + 2;
      QuotedAtStart(f, CommaQuoted(fs[1..]));
      assert s[0] == '"';
      assert KeyFieldEntryAt(s, 0) == Some((f, end));
      assert PlainName(f);
      assert KeyFieldsFrom(s, 0) == [f] + KeyFieldsFrom(s, end);
      assert s[end..] == CommaQuoted(fs[1..]);
      CommaQuotedRead(s, end, fs[1..]);
    }
  }

  /** The list `"A", "B"` of the example. */
  function TwoQuotedNames(): string {
    "\"A\", \"B\""
  }

  /** As written, the second of two quoted key fields keeps its quotes: after
      `"A"` the match restarts at the space, where only `[^,]+` fits. */
  lemma KeyFieldsAsWrittenKeepsQuotes()
    ensures KeyFieldsAsWritten(TwoQuotedNames(), 0) == ["A", "\"B\""]
  {
    var s := TwoQuotedNames();
    assert s[0] == '"' && s[1] == 'A' && s[2] == '"' && s[3] == ',' && s[4] == ' ';
    assert s[5] == '"' && s[6] == 'B' && s[7] == '"' && |s| == 8;
    assert FindChar(s, '"', 1) == 2;
    assert s[1..2] == "A";
    assert QuotedAt(s, 0) == Some(("A", 3));
    assert KeyFieldItemAt(s, 0) == Some(("A", 3));
    assert Search(s, 0, KeyFieldItemAt) == Some(Found(0, ("A", 3)));
    assert KeyFieldItemAt(s, 3).None?;
    assert FindChar(s, ',', 4) == 8;
    assert s[4..8] == " \"B\"";
    assert KeyFieldItemAt(s, 4) == Some((" \"B\"", 8));
    SearchFirst(s, 3, 4, KeyFieldItemAt, (" \"B\"", 8));
    assert KeyFieldItemAt(s, 8).None?;
    assert Search(s, 8, KeyFieldItemAt).None?;
    TrimOfTrimmed("A");
    assert SkipSpaces(" \"B\"", 0) == 1;
    assert Trim(" \"B\"") == "\"B\"";
  }

  /** Without whitespace after the comma, the pattern as written reads both names:
      the next match starts at the quote, where the quoted alternative fits. */
  lemma KeyFieldsAsWrittenNoSpace()
    ensures KeyFieldsAsWritten("\"A\",\"B\"", 0) == ["A", "B"]
  {
    var s := "\"A\",\"B\"";
    assert s[0] == '"' && s[1] == 'A' && s[2] == '"' && s[3] == ',';
    assert s[4] == '"' && s[5] == 'B' && s[6] == '"' && |s| == 7;
    assert FindChar(s, '"', 1) == 2;
    assert s[1..2] == "A";
    assert KeyFieldItemAt(s, 0) == Some(("A", 3));
    assert Search(s, 0, KeyFieldItemAt) == Some(Found(0, ("A", 3)));
    assert KeyFieldItemAt(s, 3).None?;
    assert FindChar(s, '"', 5) == 6;
    assert s[5..6] == "B";
    assert KeyFieldItemAt(s, 4) == Some(("B", 7));
    SearchFirst(s, 3, 4, KeyFieldItemAt, ("B", 7));
    assert KeyFieldItemAt(s, 7).None?;
    assert Search(s, 7, KeyFieldItemAt).None?;
    TrimOfTrimmed("A");
    TrimOfTrimmed("B");
  }

  /** The corrected pattern reads the same list as both names. */
  lemma KeyFieldsCorrectedDropsQuotes()
    ensures KeyFieldsFrom(TwoQuotedNames(), 0) == ["A", "B"]
  {
    TrimOfTrimmed("A");
    TrimOfTrimmed("B");
    assert TwoQuotedNames() == QuotedList(["A", "B"]);
    KeyFieldsRoundTrip(["A", "B"]);
  }

  /** `.map(normalizeName)`. */
  function StripAll(prefix: string, vs: seq<string>): (r: seq<string>)
    ensures |r| == |vs|
  {
    seq(|vs|, i requires 0 <= i < |vs| => StripPrefix(prefix, vs[i]))
  }

  /** The key built from one `key(...)` match; `first` is the `isFirst` flag. The
      fields are read with the corrected pattern (`KeyFieldsFrom`), so that every
      quoted name of a composite key loses its quotes. */
  function KeyFrom(d: DeclTail, prefix: string, first: bool): AlKey {
    AlKey(StripPrefix(prefix, StripQuoteEnds(Trim(d.name))), StripAll(prefix, KeyFieldsFrom(d.rest, 0)), first)
  }

  /** The key declarations the global `keyRegex.exec` loop visits once `lastIndex` is `k`. */
  function KeyDeclsFrom(keysBody: string, k: nat): seq<DeclTail>
    decreases |keysBody| + 1 - k
  {
    match Search(keysBody, k, KeyDeclAt)
    case None => []
    case Some(m) => [m.m] + KeyDeclsFrom(keysBody, m.m.end)
  }

  /** The keys built from the declarations `ds`, in order: only the first is primary. */
  function KeysOf(ds: seq<DeclTail>, prefix: string): (keys: seq<AlKey>)
    ensures |keys| == |ds|
    ensures forall i :: 0 <= i < |keys| ==> (keys[i].isPrimaryKey <==> i == 0)
    ensures forall i :: 0 <= i < |keys| ==> |keys[i].fields| == |KeyFieldsFrom(ds[i].rest, 0)|
  {
    seq(|ds|, i requires 0 <= i < |ds| => KeyFrom(ds[i], prefix, i == 0))
  }

  /** What `parseKeys(body, normalizeName)` returns. */
  function ParseKeysSpec(body: string, prefix: string): (keys: seq<AlKey>)
    ensures Search(body, 0, KeysOpenAt).None? ==> keys == []
  {
    match Search(body, 0, KeysOpenAt)
    case None => []
    case Some(open) =>
      var keysBody := Block(body, open.m);
      KeysOf(KeyDeclsFrom(keysBody, 0), prefix)
  }

  method ParseKeys(body: string, prefix: string) returns (keys: seq<AlKey>)
    ensures keys == ParseKeysSpec(body, prefix)
  {
    var blockMatch := Search(body, 0, KeysOpenAt);
    if blockMatch.None? {
      return [];
    }
    var keysBody := ExtractBalancedBlock(body, blockMatch.value.m);
    keys := ReadKeys(keysBody, prefix);
  }

  /** The `keyRegex.exec` loop over the keys block, with its `isFirst` flag. */
  method ReadKeys(keysBody: string, prefix: string) returns (keys: seq<AlKey>)
    ensures keys == KeysOf(KeyDeclsFrom(keysBody, 0), prefix)
  {
    keys := [];
    var lastIndex := 0;
    var isFirst := true;
    ghost var visited: seq<DeclTail> := [];
    assert [] + KeyDeclsFrom(keysBody, 0) == KeyDeclsFrom(keysBody, 0);
    while true
      invariant lastIndex <= |keysBody|
      invariant visited + KeyDeclsFrom(keysBody, lastIndex) == KeyDeclsFrom(keysBody, 0)
      invariant keys == KeysOf(visited, prefix)
      invariant isFirst <==> visited == []
      decreases |keysBody| + 1 - lastIndex
    {
      var km := Search(keysBody, lastIndex, KeyDeclAt);
      if km.None? {
        assert KeyDeclsFrom(keysBody, lastIndex) == [];
        assert visited + [] == visited;
        break;
      }
      var decl := km.value.m;
      var key := ReadKey(decl, prefix, isFirst);
      assert KeyDeclsFrom(keysBody, lastIndex) == [decl] + KeyDeclsFrom(keysBody, decl.end);
      AppendAssoc(visited, [decl], KeyDeclsFrom(keysBody, decl.end));
      KeysOfSnoc(visited, decl, prefix);
      visited := visited + [decl];
      keys := keys + [key];
      isFirst := false;
      lastIndex := decl.end;
    }
  }

  /** Appending a declaration appends its key, primary exactly when it is the first. */
  lemma KeysOfSnoc(ds: seq<DeclTail>, d: DeclTail, prefix: string)
    ensures KeysOf(ds + [d], prefix) == KeysOf(ds, prefix) + [KeyFrom(d, prefix, ds == [])]
  {
    var a := KeysOf(ds + [d], prefix);
    var b := KeysOf(ds, prefix) + [KeyFrom(d, prefix, ds == [])];
    assert |a| == |b|;
    forall i | 0 <= i < |a| ensures a[i] == b[i] {
      if i < |ds| {
        assert (ds + [d])[i] == ds[i];
        assert a[i] == KeyFrom(ds[i], prefix, i == 0) == b[i];
      } else {
        assert a[i] == KeyFrom(d, prefix, i == 0) == b[i];
      }
    }
  }

  /** One iteration's key: the trimmed, unquoted, prefix-stripped name and the stripped fields. */
  method ReadKey(decl: DeclTail, prefix: string, isFirst: bool) returns (key: AlKey)
    ensures key == KeyFrom(decl, prefix, isFirst)
  {
    var keyName := StripPrefix(prefix, StripQuoteEnds(Trim(decl.name)));
    var raw := ParseKeyFields(decl.rest);
    key := AlKey(keyName, StripAll(prefix, raw), isFirst);
  }

  /** Only the first key of the block is the primary key. */
  lemma OnlyFirstKeyIsPrimary(body: string, prefix: string)
    ensures forall i :: 0 <= i < |ParseKeysSpec(body, prefix)| ==>
      (ParseKeysSpec(body, prefix)[i].isPrimaryKey <==> i == 0)
  {
  }

  /** Without a prefix, every key field is a non-empty trimmed name. */
  lemma KeyFieldsOfKeysTrimmed(ds: seq<DeclTail>, i: nat)
    requires i < |ds|
    ensures forall j :: 0 <= j < |KeysOf(ds, "")[i].fields| ==>
      KeysOf(ds, "")[i].fields[j] != [] && Trim(KeysOf(ds, "")[i].fields[j]) == KeysOf(ds, "")[i].fields[j]
  {
    KeyFieldsTrimmed(ds[i].rest, 0);
    assert KeysOf(ds, "")[i].fields == KeyFieldsFrom(ds[i].rest, 0);
  }

  /** How AL writes a key: `key(<Name>; <fields>)`, with a quoted name. */
  function KeyDeclText(name: string, list: string): string {
    "key(" + FieldDeclTail(name, list)
  }

  /** `KeyDeclAt` at 0, read off the keyword, the `(` and the quoted tail. */
  lemma KeyDeclSteps(s: string, t: DeclTail)
    requires 4 < |s| && KeywordStart(s, 0, "key") && s[3] == '(' && s[4] == '"'
    requires QuotedNameTail(s, 4) == Some(t)
    ensures KeyDeclAt(s, 0) == Some(t)
  {
    assert SkipSpaces(s, 3) == 3;
    assert SkipSpaces(s, 4) == 4;
  }

  /** What `key(` at 0 tells the pattern. */
  lemma KeyHeadChars(s: string)
    requires 4 <= |s| && s[..4] == "key("
    ensures KeywordStart(s, 0, "key") && s[3] == '('
  {
    var w := s[..4];
    assert s[..3] == w[..3] == "key";
    assert s[3] == w[3] == '(';
    assert s[0] == 'k';
    assert IsBoundary(s, 0);
  }

  /** The key pattern reads `key("<name>"; <list>)` back as the name and the list. */
  lemma KeyDeclRoundTrip(s: string, name: string, list: string)
    requires name != [] && '"' !in name
    requires list != [] && ')' !in list && !IsSpace(list[0])
    requires StartsWith(s, KeyDeclText(name, list))
    ensures KeyDeclAt(s, 0) == Some(DeclTail(name, list, |KeyDeclText(name, list)|))
  {
    var tail := FieldDeclTail(name, list);
    var end := |name| + |list| + 9;
    assert |tail| == |name| + |list| + 5;
    assert KeyDeclText(name, list) == "key(" + tail;
    assert |KeyDeclText(name, list)| == end;
    PrefixHalves(s, "key(", tail);
    KeyHeadChars(s);
    KeyTailAt(s, name, list, DeclTail(name, list, end));
  }

  lemma KeyTailAt(s: string, name: string, list: string, t: DeclTail)
    requires name != [] && '"' !in name
    requires list != [] && ')' !in list && !IsSpace(list[0])
    requires 4 <= |s| && KeywordStart(s, 0, "key") && s[3] == '('
    requires |name| + |list| + 9 <= |s| && s[4..|name| + |list| + 9] == FieldDeclTail(name, list)
    requires t == DeclTail(name, list, |name| + |list| + 9)
    ensures KeyDeclAt(s, 0) == Some(t)
  {
    assert QuotedNameTail(s, 4) == Some(t) by {
      QuotedTailAt(s, 4, name, list);
    }
    assert s[4] == FieldDeclTail(name, list)[0] == '"';
    KeyDeclSteps(s, t);
  }

  /** With the corrected key-field reading and without a prefix, a key written as
      `key("<name>"; "A", "B", ...)` is read back with its name and its field names.
      With the pattern as written and the `, ` layout written here, this holds for
      at most one quoted field (`KeyFieldsAsWrittenKeepsQuotes`). */
  lemma KeyRoundTrip(name: string, fs: seq<string>, first: bool)
    requires PlainName(name) && name[0] != '"' && name[|name| - 1] != '"'
    requires forall i :: 0 <= i < |fs| ==> PlainName(fs[i])
    ensures KeyFrom(DeclTail(name, QuotedList(fs), 0), "", first) == AlKey(name, fs, first)
  {
    StripQuoteEndsPlain(name);
    KeyFieldsRoundTrip(fs);
    assert StripAll("", fs) == fs;
  }
}
