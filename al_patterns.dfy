/** The regular expressions of src/alParser.ts, each written out as a matcher
    `XAt(s, p)` that says whether the pattern matches at position `p` of `s`
    and what it captures. Backtracking is resolved case by case, so that each
    matcher accepts exactly what the JavaScript pattern accepts at `p`
    (over ASCII `\s`/`\w`). Leftmost search over positions is `Text.Search`. */
module AlPatterns {
  import opened Text
  import opened AlTypes

  /** `\b<kw>` with the `i` flag. */
  predicate KeywordStart(s: string, p: nat, kw: string) {
    p <= |s| && IsBoundary(s, p) && MatchesAt(s, p, kw)
  }

  /** `\b<kw>\s*<sym>`: the index just after `sym`. */
  function KeywordThen(s: string, p: nat, kw: string, sym: char): (r: Option<nat>)
    ensures r.Some? ==> p < r.value <= |s| && s[r.value - 1] == sym
  {
    if KeywordStart(s, p, kw) then
      var q := SkipSpaces(s, p + |kw|);
      if q < |s| && s[q] == sym then Some(q + 1) else None
    else None
  }

  /** `\b<kw>\s*\{`: the index just after the `{`. */
  function OpenAt(s: string, p: nat, kw: string): Option<nat> {
    KeywordThen(s, p, kw, '{')
  }

  /** `/\bfields\s*\{/i` */
  function FieldsOpenAt(s: string, p: nat): Option<nat> {
    OpenAt(s, p, "fields")
  }

  /** `/\bkeys\s*\{/i` */
  function KeysOpenAt(s: string, p: nat): Option<nat> {
    OpenAt(s, p, "keys")
  }

  /** What `\s*(?:"([^"]+)"|([^;]+))\s*;\s*([^)]+)\)` captures: the name
      (group 1 or 2, untrimmed), the text before `)` (group 3, untrimmed), and
      the index just after the `)`. */
  datatype DeclTail = DeclTail(name: string, rest: string, end: nat)

  /** `\s*([^)]+)\)` from `f`: `[^)]+` needs one character, so when only spaces
      precede the `)` the greedy `\s*` gives back its last space. */
  function RestAt(s: string, f: nat): (r: Option<(string, nat)>)
    requires f <= |s|
    ensures r.Some? ==> f < r.value.1 <= |s| && s[r.value.1 - 1] == ')'
    ensures r.Some? ==> ')' !in r.value.0 && r.value.0 != []
  {
    var close := FindChar(s, ')', f);
    if close < |s| && close > f then
      var g := SkipSpaces(s, f);
      Some((s[(if g < close then g else close - 1)..close], close + 1))
    else None
  }

  /** The quoted alternative `"([^"]+)"\s*;` followed by the rest. */
  function QuotedNameTail(s: string, e: nat): (r: Option<DeclTail>)
    requires e <= |s|
    ensures r.Some? ==> e < r.value.end <= |s|
  {
    if e < |s| && s[e] == '"' then
      var k := FindChar(s, '"', e + 1);
      if k < |s| && k > e + 1 then
        var m := SkipSpaces(s, k + 1);
        if m < |s| && s[m] == ';' then
          match RestAt(s, m + 1)
          case Some((rest, end)) => Some(DeclTail(s[e + 1..k], rest, end))
          case None => None
        else None
      else None
    else None
  }

  /** The name-and-rest tail shared by `field(...)` and `key(...)`, from just after
      the `;` or `(` that precedes the name. The quoted form is tried first; if
      it or anything after it fails, the unquoted form `[^;]+` takes everything
      up to the next `;`. */
  function NameAndRest(s: string, from: nat): (r: Option<DeclTail>)
    requires from <= |s|
    ensures r.Some? ==> from < r.value.end <= |s|
  {
    var e := SkipSpaces(s, from);
    var quoted := QuotedNameTail(s, e);
    if quoted.Some? then quoted
    else
      var semi := FindChar(s, ';', from);
      if semi < |s| && semi > from then
        match RestAt(s, semi + 1)
        case Some((rest, end)) => Some(DeclTail(s[(if e < semi then e else semi - 1)..semi], rest, end))
        case None => None
      else None
  }

  datatype FieldDecl = FieldDecl(id: nat, name: string, fieldType: string, end: nat)

  /** `/\bfield\s*\(\s*(\d+)\s*;\s*(?:"([^"]+)"|([^;]+))\s*;\s*([^)]+)\)/gi` */
  function FieldDeclAt(s: string, p: nat): (r: Option<FieldDecl>)
    ensures r.Some? ==> p < r.value.end <= |s|
  {
    if KeywordStart(s, p, "field") then
      var a := SkipSpaces(s, p + 5);
      if a < |s| && s[a] == '(' then
        var b := SkipSpaces(s, a + 1);
        var d := DigitsEnd(s, b);
        var c := SkipSpaces(s, d);
        if d > b && c < |s| && s[c] == ';' then
          match NameAndRest(s, c + 1)
          case Some(t) => Some(FieldDecl(DigitsValue(s[b..d]), t.name, t.rest, t.end))
          case None => None
        else None
      else None
    else None
  }

  /** `/\bkey\s*\(\s*(?:"([^"]+)"|([^;]+))\s*;\s*([^)]+)\)/gi` */
  function KeyDeclAt(s: string, p: nat): (r: Option<DeclTail>)
    ensures r.Some? ==> p < r.value.end <= |s|
  {
    if KeywordStart(s, p, "key") then
      var a := SkipSpaces(s, p + 3);
      if a < |s| && s[a] == '(' then NameAndRest(s, a + 1) else None
    else None
  }

  /** `'((?:[^']|'')*)'` from just after the opening quote: greedily take
      non-quotes and doubled quotes; a single quote closes. If the text ends
      first, backtracking lets the first quote of the last doubled pair close. */
  function QuotedClose(s: string, g: nat, lastPair: Option<nat>): (r: Option<nat>)
    requires g <= |s|
    requires lastPair.Some? ==> lastPair.value < g && s[lastPair.value] == '\''
    ensures r.Some? ==> r.value < |s| && s[r.value] == '\''
    ensures r.Some? ==> r.value >= g || (lastPair.Some? && lastPair.value <= r.value)
    decreases |s| - g
  {
    if g == |s| then lastPair
    else if s[g] != '\'' then QuotedClose(s, g + 1, lastPair)
    else if g + 1 < |s| && s[g + 1] == '\'' then QuotedClose(s, g + 2, Some(g))
    else Some(g)
  }

  /** `\b<name>\s*=\s*` : the index just after the `=`. */
  function AssignAt(s: string, p: nat, name: string): Option<nat> {
    KeywordThen(s, p, name, '=')
  }

  /** `\b<name>\s*=\s*'((?:[^']|'')*)'` with the `i` flag: the raw text between the quotes. */
  function QuotedPropertyAt(s: string, p: nat, name: string): Option<string> {
    match QuotedPropertySpan(s, p, name)
    case Some((a, b)) => Some(s[a..b])
    case None => None
  }

  /** Where the capture of the quoted property pattern lies in `s`. */
  function QuotedPropertySpan(s: string, p: nat, name: string): (r: Option<(nat, nat)>)
    ensures r.Some? ==> r.value.0 <= r.value.1 < |s|
  {
    match AssignAt(s, p, name)
    case None => None
    case Some(j) => QuotedValueSpan(s, j)
  }

  /** `\s*'((?:[^']|'')*)'` from `j`: where the text between the quotes lies. */
  function QuotedValueSpan(s: string, j: nat): (r: Option<(nat, nat)>)
    requires j <= |s|
    ensures r.Some? ==> j < r.value.0 <= r.value.1 < |s|
  {
    var q := SkipSpaces(s, j);
    if q < |s| && s[q] == '\'' then
      match QuotedClose(s, q + 1, None)
      case Some(close) => Some((q + 1, close))
      case None => None
    else None
  }

  /** `\b<name>\s*=\s*([^;]+);` with the `i` flag: the raw text before the `;`. */
  function UnquotedPropertyAt(s: string, p: nat, name: string): Option<string> {
    match AssignAt(s, p, name)
    case None => None
    case Some(j) =>
      match UnquotedValueSpan(s, j)
      case Some((a, b)) => Some(s[a..b])
      case None => None
  }

  /** `([^;]+);` from `j`, with the `\s*` before it: where the capture lies. When the text
      before the `;` is all spaces, the backtracking regex still captures its last one. */
  function UnquotedValueSpan(s: string, j: nat): (r: Option<(nat, nat)>)
    requires j <= |s|
    ensures r.Some? ==> j <= r.value.0 < r.value.1 < |s|
  {
    var semi := FindChar(s, ';', j);
    if semi < |s| && semi > j then
      var q := SkipSpaces(s, j);
      Some((if q < semi then q else semi - 1, semi))
    else None
  }

  /** `/\bTableRelation\s*=\s*([\s\S]*?);/i`: the lazy group stops at the first `;`. */
  function TableRelationAt(s: string, p: nat): (r: Option<string>)
    ensures r.Some? ==> ';' !in r.value
  {
    match AssignAt(s, p, "TableRelation")
    case None => None
    case Some(j) =>
      var a := SkipSpaces(s, j);
      var semi := FindChar(s, ';', a);
      if semi < |s| then Some(s[a..semi]) else None
  }

  /** `/\b(WHERE|IF)\b/i` */
  predicate IsConditionKeyword(s: string, p: nat) {
    p <= |s| && IsBoundary(s, p) &&
    ((MatchesAt(s, p, "where") && IsBoundary(s, p + 5)) || (MatchesAt(s, p, "if") && IsBoundary(s, p + 2)))
  }

  function ConditionAt(s: string, p: nat): Option<()> {
    if IsConditionKeyword(s, p) then Some(()) else None
  }

  /** `"([^"]+)"` anchored at `p`: the text between the quotes and the index after the closing one. */
  function QuotedAt(s: string, p: nat): (r: Option<(string, nat)>)
    ensures r.Some? ==> p < r.value.1 <= |s| && r.value.0 != [] && '"' !in r.value.0
  {
    if p < |s| && s[p] == '"' then
      var k := FindChar(s, '"', p + 1);
      if k < |s| && k > p + 1 then Some((s[p + 1..k], k + 1)) else None
    else None
  }

  /** One match of `/"([^"]+)"|([^,]+)/g` (the key field list): the captured text and the end. */
  function KeyFieldItemAt(s: string, p: nat): (r: Option<(string, nat)>)
    ensures r.Some? ==> p < r.value.1 <= |s|
  {
    var quoted := QuotedAt(s, p);
    if quoted.Some? then quoted
    else if p < |s| && s[p] != ',' then
      var end := FindChar(s, ',', p);
      Some((s[p..end], end))
    else None
  }

  datatype ObjectHeader = ObjectHeader(kind: ObjectType, idDigits: string, name: string, extendsName: string, end: nat)

  /** `\s*(?:extends\s+(?:"([^"]+)"|([A-Za-z_][\w]*)))?\s*\{` from `q`: the base name
      ("" when the optional group is absent) and the index after `{`. */
  function HeaderTail(s: string, q: nat): (r: Option<(string, nat)>)
    requires q <= |s|
    ensures r.Some? ==> q < r.value.1 <= |s| && s[r.value.1 - 1] == '{'
  {
    var r := SkipSpaces(s, q);
    var ext := ExtendsAt(s, r);
    if ext.Some? then ext
    else if r < |s| && s[r] == '{' then Some(("", r + 1))
    else None
  }

  function ExtendsAt(s: string, r: nat): (res: Option<(string, nat)>)
    requires r <= |s|
    ensures res.Some? ==> r < res.value.1 <= |s| && s[res.value.1 - 1] == '{'
  {
    if MatchesAt(s, r, "extends") then
      var t := SkipSpaces(s, r + 7);
      if t == r + 7 || t == |s| then None
      else if s[t] == '"' then
        match QuotedAt(s, t)
        case Some((name, after)) =>
          var u := SkipSpaces(s, after);
          if u < |s| && s[u] == '{' then Some((name, u + 1)) else None
        case None => None
      else if IsIdentStart(s[t]) then
        var w := WordEnd(s, t + 1);
        var u := SkipSpaces(s, w);
        if u < |s| && s[u] == '{' then Some((s[t..w], u + 1)) else None
      else None
    else None
  }

  /** The bare object name `[A-Za-z_][\w]*` backtracks: the longest prefix of the
      word after which the rest of the header matches (`Fooextends Bar {` reads as
      name `Foo` extending `Bar`). */
  function BareHeader(s: string, b: nat, len: nat): (r: Option<(string, string, nat)>)
    requires b + len <= |s|
    ensures r.Some? ==> b < r.value.2 <= |s| && s[r.value.2 - 1] == '{'
    decreases len
  {
    if len == 0 then None
    else match HeaderTail(s, b + len)
      case Some((ext, end)) => Some((s[b..b + len], ext, end))
      case None => BareHeader(s, b, len - 1)
  }

  /** A quoted object name at `b`, then the rest of the header. */
  function QuotedHeader(s: string, b: nat): (r: Option<(string, string, nat)>)
    requires b <= |s|
    ensures r.Some? ==> b < r.value.2 <= |s| && s[r.value.2 - 1] == '{'
  {
    match QuotedAt(s, b)
    case None => None
    case Some((name, after)) =>
      match HeaderTail(s, after)
      case Some((ext, end)) => Some((name, ext, end))
      case None => None
  }

  /** The object name (quoted or bare) at `b`, then the rest of the header. */
  function NamedHeaderAt(s: string, b: nat): (r: Option<(string, string, nat)>)
    requires b <= |s|
    ensures r.Some? ==> b < r.value.2 <= |s| && s[r.value.2 - 1] == '{'
  {
    if b == |s| then None
    else if s[b] == '"' then QuotedHeader(s, b)
    else if IsIdentStart(s[b]) then BareHeader(s, b, WordEnd(s, b + 1) - b)
    else None
  }

  /** `table` or `tableextension` followed by `\s`, at `p`. */
  function ObjectKindAt(s: string, p: nat): (r: Option<(ObjectType, nat)>)
    ensures r.Some? ==> p < r.value.1 <= |s|
  {
    if !KeywordStart(s, p, "table") then None
    else if p + 5 < |s| && IsSpace(s[p + 5]) then Some((Table, p + 5))
    else if MatchesAt(s, p, "tableextension") && p + 14 < |s| && IsSpace(s[p + 14]) then Some((TableExtension, p + 14))
    else None
  }

  /** `/\b(table|tableextension)\s+(\d+)\s+(?:"([^"]+)"|([A-Za-z_][\w]*))\s*(?:extends\s+(?:"([^"]+)"|([A-Za-z_][\w]*)))?\s*\{/gi` */
  function ObjectHeaderAt(s: string, p: nat): (r: Option<ObjectHeader>)
    ensures r.Some? ==> p < r.value.end <= |s| && s[r.value.end - 1] == '{'
  {
    match ObjectKindAt(s, p)
    case None => None
    case Some((k, kwEnd)) =>
      var a := SkipSpaces(s, kwEnd);
      var d := DigitsEnd(s, a);
      var b := SkipSpaces(s, d);
      if d == a || b == d then None
      else match NamedHeaderAt(s, b)
        case Some((name, ext, end)) => Some(ObjectHeader(k, s[a..d], name, ext, end))
        case None => None
  }
}
