/** The pure extractors of src/alParser.ts: property values, the table caption,
    the raw TableRelation text and its resolution into a target table and field,
    the field property block, and the name-prefix stripper. */
module AlProperties {
  import opened Text
  import opened AlPatterns
  import opened BalancedBlock

  /** `buildPrefixStripper(prefix)(value)`. An empty prefix stands for "no prefix"
      (JavaScript's `!prefix` treats `undefined` and `""` alike). */
  function StripPrefix(prefix: string, value: string): (r: string)
    ensures prefix == [] ==> r == value
    ensures |r| <= |value|
    ensures StartsWith(value, prefix) && prefix != [] ==> r == value[|prefix|..]
    ensures !StartsWith(value, prefix) ==> r == value
  {
    if prefix == [] || value == [] then value
    else if StartsWith(value, prefix) then value[|prefix|..]
    else value
  }

  /** Stripping only ever removes a leading part: the result is a suffix of the value. */
  lemma StripPrefixIsSuffix(prefix: string, value: string)
    ensures var r := StripPrefix(prefix, value); r == value[|value| - |r|..]
  {
  }

  /** `.replace(/''/g, "'")`: each doubled quote, read left to right, becomes one. */
  function Undouble(s: string): string
    decreases |s|
  {
    if s == [] then []
    else if |s| >= 2 && s[0] == '\'' && s[1] == '\'' then "'" + Undouble(s[2..])
    else [s[0]] + Undouble(s[1..])
  }

  /** How AL writes a value inside `'...'`: every quote doubled. */
  function Double(v: string): string
  {
    Subst(v, '\'', "''")
  }

  lemma {:induction false} UndoubleDouble(v: string)
    ensures Undouble(Double(v)) == v
  {
    if v != [] {
      UndoubleDouble(v[1..]);
      var d := Double(v[1..]);
      if v[0] == '\'' {
        assert Double(v) == "''" + d;
        assert ("''" + d)[2..] == d;
      } else {
        assert Double(v) == [v[0]] + d;
        assert ([v[0]] + d)[1..] == d;
      }
    }
  }

  function QuotedPropertyMatcher(name: string): (string, nat) -> Option<string> {
    (s: string, p: nat) => QuotedPropertyAt(s, p, name)
  }

  function UnquotedPropertyMatcher(name: string): (string, nat) -> Option<string> {
    (s: string, p: nat) => UnquotedPropertyAt(s, p, name)
  }

  /** `extractProperty(block, name)`: the quoted form anywhere in the block wins,
      unescaped; otherwise the first unquoted form, trimmed; otherwise "". */
  function ExtractProperty(block: string, name: string): (r: string)
  {
    match Search(block, 0, QuotedPropertyMatcher(name))
    case Some(f) => Undouble(f.m)
    case None =>
      match Search(block, 0, UnquotedPropertyMatcher(name))
      case Some(f) => Trim(f.m)
      case None => ""
  }

  predicate IsWordName(name: string) {
    name != [] && forall k :: 0 <= k < |name| ==> IsWordChar(name[k])
  }

  /** The quoted scan runs over a doubled value and stops at the quote after it. */
  lemma {:induction false} QuotedCloseOverDoubled(s: string, g: nat, lastPair: Option<nat>, v: string)
    requires g + |Double(v)| + 1 < |s| && s[g..g + |Double(v)|] == Double(v)
    requires s[g + |Double(v)|] == '\'' && s[g + |Double(v)| + 1] != '\''
    requires lastPair.Some? ==> lastPair.value < g && s[lastPair.value] == '\''
    ensures QuotedClose(s, g, lastPair) == Some(g + |Double(v)|)
    decreases v
  {
    if v != [] {
      var d := Double(v[1..]);
      if v[0] == '\'' {
        assert Double(v) == "''" + d;
        assert s[g] == Double(v)[0] && s[g + 1] == Double(v)[1];
        assert s[g + 2..g + 2 + |d|] == d by {
          assert s[g + 2..g + 2 + |d|] == s[g..g + |Double(v)|][2..];
        }
        QuotedCloseOverDoubled(s, g + 2, Some(g), v[1..]);
      } else {
        assert Double(v) == [v[0]] + d;
        assert s[g] == Double(v)[0];
        assert s[g + 1..g + 1 + |d|] == d by {
          assert s[g + 1..g + 1 + |d|] == s[g..g + |Double(v)|][1..];
        }
        QuotedCloseOverDoubled(s, g + 1, lastPair, v[1..]);
      }
    }
  }

  /** How AL writes `name = '<v>';`. */
  function PropertyLine(name: string, v: string): string {
    name + " = '" + Double(v) + "';"
  }

  /** `name = ` at the start of a text is the assignment the property patterns look for. */
  lemma AssignAtStart(s: string, name: string)
    requires IsWordName(name) && StartsWith(s, name + " = ")
    ensures AssignAt(s, 0, name) == Some(|name| + 2)
    ensures s[|name| + 2] == ' '
  {
    var n := |name|;
    var w := s[..n + 3];
    assert w == name + " = ";
    assert s[..n] == w[..n] == name;
    assert s[0] == name[0];
    assert IsBoundary(s, 0);
    assert s[n] == w[n] == ' ';
    assert s[n + 1] == w[n + 1] == '=';
    assert s[n + 2] == w[n + 2] == ' ';
    assert SkipSpaces(s, n + 1) == n + 1;
    assert SkipSpaces(s, n) == n + 1;
  }

  /** `QuotedPropertyAt` at 0, read off the positions of the assignment and the quotes. */
  lemma QuotedPropertySteps(s: string, name: string, j: nat, q: nat, close: nat)
    requires AssignAt(s, 0, name) == Some(j) && j <= q < |s|
    requires SkipSpaces(s, j) == q && s[q] == '\''
    requires QuotedClose(s, q + 1, None) == Some(close)
    ensures QuotedPropertySpan(s, 0, name) == Some((q + 1, close))
  {
    QuotedValueSteps(s, j, q, close);
  }

  lemma QuotedValueSteps(s: string, j: nat, q: nat, close: nat)
    requires j <= q < |s| && SkipSpaces(s, j) == q && s[q] == '\''
    requires QuotedClose(s, q + 1, None) == Some(close)
    ensures QuotedValueSpan(s, j) == Some((q + 1, close))
  {
  }

  lemma QuotedPropertyCapture(s: string, name: string, a: nat, b: nat)
    requires QuotedPropertySpan(s, 0, name) == Some((a, b))
    ensures QuotedPropertyAt(s, 0, name) == Some(s[a..b])
  {
  }

  /** The pieces of `'<d>';` written at `q`. */
  lemma QuotedValueAt(s: string, q: nat, d: string)
    requires q + |d| + 3 <= |s| && s[q..q + |d| + 3] == "'" + d + "';"
    ensures s[q] == '\'' && s[q + 1..q + 1 + |d|] == d
    ensures s[q + 1 + |d|] == '\'' && s[q + 2 + |d|] == ';'
  {
    var w := s[q..q + |d| + 3];
    assert s[q] == w[0];
    assert s[q + 1 + |d|] == w[1 + |d|];
    assert s[q + 2 + |d|] == w[2 + |d|];
    forall k | 0 <= k < |d| ensures s[q + 1 + k] == d[k] {
      assert s[q + 1 + k] == w[1 + k];
    }
    assert s[q + 1..q + 1 + |d|] == d;
  }

  /** The positions in a text that starts with `name = '<d>';`. */
  lemma QuotedLineFacts(s: string, name: string, d: string)
    requires IsWordName(name) && StartsWith(s, name + " = '" + d + "';")
    ensures AssignAt(s, 0, name) == Some(|name| + 2)
    ensures SkipSpaces(s, |name| + 2) == |name| + 3 && s[|name| + 3] == '\''
    ensures s[|name| + 4..|name| + 4 + |d|] == d
    ensures s[|name| + 4 + |d|] == '\'' && s[|name| + 5 + |d|] == ';'
  {
    var n := |name|;
    QuotedLineParts(s, name, d);
    AssignAtStart(s, name);
    QuotedValueAt(s, n + 3, d);
    assert SkipSpaces(s, n + 3) == n + 3;
    assert SkipSpaces(s, n + 2) == n + 3;
  }

  /** `name = '<d>';` at the start of a text: `name = ` and then `'<d>';`. */
  lemma QuotedLineParts(s: string, name: string, d: string)
    requires StartsWith(s, name + " = '" + d + "';")
    ensures StartsWith(s, name + " = ")
    ensures |name| + |d| + 6 <= |s| && s[|name| + 3..|name| + |d| + 6] == "'" + d + "';"
  {
    var a, w := name + " = ", "'" + d + "';";
    assert name + " = '" + d + "';" == a + w;
    SliceParts(s, 0, a, w);
  }

  /** A text that starts with `name = '<doubled v>';` has its quoted span around the doubled value. */
  lemma QuotedLineSpan(s: string, name: string, v: string)
    requires IsWordName(name) && StartsWith(s, PropertyLine(name, v))
    ensures QuotedPropertySpan(s, 0, name) == Some((|name| + 4, |name| + 4 + |Double(v)|))
    ensures s[|name| + 4..|name| + 4 + |Double(v)|] == Double(v)
  {
    var n := |name|;
    var d := Double(v);
    QuotedLineFacts(s, name, d);
    QuotedCloseOverDoubled(s, n + 4, None, v);
    QuotedPropertySteps(s, name, n + 2, n + 3, n + 4 + |d|);
  }

  /** `name = '<doubled v>';` at the start of a text matches the quoted form and captures the doubled value. */
  lemma QuotedPropertyAtStart(name: string, v: string, rest: string)
    requires IsWordName(name)
    ensures QuotedPropertyAt(PropertyLine(name, v) + rest, 0, name) == Some(Double(v))
  {
    var s := PropertyLine(name, v) + rest;
    var n := |name|;
    assert StartsWith(s, PropertyLine(name, v));
    QuotedLineSpan(s, name, v);
    QuotedPropertyCapture(s, name, n + 4, n + 4 + |Double(v)|);
  }

  /** Round trip: reading back a value written as `Name = '...';` gives the value,
      whatever follows it (the example `Caption = 'A''B';` reads as `A'B`). */
  lemma ExtractPropertyRoundTrip(name: string, v: string, rest: string)
    requires IsWordName(name)
    ensures ExtractProperty(PropertyLine(name, v) + rest, name) == v
  {
    QuotedPropertyAtStart(name, v, rest);
    UndoubleDouble(v);
  }

  /** The assignment pattern carries the `i` flag: two spellings of a name that
      differ only in ASCII case match at the same places. */
  lemma AssignIgnoresCase(s: string, p: nat, a: string, b: string)
    requires Lower(a) == Lower(b)
    ensures AssignAt(s, p, a) == AssignAt(s, p, b)
  {
    assert |a| == |Lower(a)| == |Lower(b)| == |b|;
  }

  /** `extractProperty` reads the same value whatever the ASCII case of the name asked for. */
  lemma ExtractPropertyIgnoresCase(block: string, a: string, b: string)
    requires Lower(a) == Lower(b)
    ensures ExtractProperty(block, a) == ExtractProperty(block, b)
  {
    forall q | 0 <= q <= |block|
      ensures QuotedPropertyMatcher(a)(block, q) == QuotedPropertyMatcher(b)(block, q)
      ensures UnquotedPropertyMatcher(a)(block, q) == UnquotedPropertyMatcher(b)(block, q)
    {
      AssignIgnoresCase(block, q, a, b);
    }
    SearchSame(block, 0, QuotedPropertyMatcher(a), QuotedPropertyMatcher(b));
    SearchSame(block, 0, UnquotedPropertyMatcher(a), UnquotedPropertyMatcher(b));
  }

  /** Round trip with the name written in another case: `caption = 'x';` is read
      back when `Caption` is asked for. */
  lemma ExtractPropertyAnyCase(written: string, name: string, v: string, rest: string)
    requires IsWordName(written) && Lower(written) == Lower(name)
    ensures ExtractProperty(PropertyLine(written, v) + rest, name) == v
  {
    ExtractPropertyRoundTrip(written, v, rest);
    ExtractPropertyIgnoresCase(PropertyLine(written, v) + rest, written, name);
  }

  /** A block in which the name is never assigned (no `name =`, in any case) has no
      such property: "" is read. */
  lemma UnassignedProperty(block: string, name: string)
    requires forall q :: 0 <= q <= |block| ==> AssignAt(block, q, name).None?
    ensures ExtractProperty(block, name) == ""
  {
    assert forall q :: 0 <= q <= |block| ==> QuotedPropertyMatcher(name)(block, q).None?;
    assert forall q :: 0 <= q <= |block| ==> UnquotedPropertyMatcher(name)(block, q).None?;
  }

  /** Without any quote character, no quoted property can match. */
  lemma NoQuoteNoQuotedProperty(s: string, name: string)
    requires '\'' !in s
    ensures Search(s, 0, QuotedPropertyMatcher(name)).None?
  {
    forall q | 0 <= q <= |s| ensures QuotedPropertyMatcher(name)(s, q).None? {
      match AssignAt(s, q, name)
      case None =>
      case Some(j) =>
        var k := SkipSpaces(s, j);
        assert k < |s| ==> s[k] != '\'';
    }
  }

  lemma TrimAfterSpaces(s: string, j: nat, q: nat, e: nat)
    requires j <= q <= e <= |s|
    requires forall k :: j <= k < q ==> IsSpace(s[k])
    ensures Trim(s[j..e]) == Trim(s[q..e])
  {
    var a := s[j..e];
    var b := s[q..e];
    assert a == s[j..q] + b;
    assert SkipSpaces(a, 0) == (q - j) + SkipSpaces(b, 0) by {
      SkipSpacesShift(s[j..q], b, 0);
    }
    assert a[SkipSpaces(a, 0)..] == b[SkipSpaces(b, 0)..];
  }

  lemma {:induction false} SkipSpacesShift(x: string, y: string, i: nat)
    requires i <= |x|
    requires forall k :: 0 <= k < |x| ==> IsSpace(x[k])
    ensures SkipSpaces(x + y, i) == |x| + SkipSpaces(y, 0)
    decreases |x| - i
  {
    if i < |x| {
      assert (x + y)[i] == x[i];
      SkipSpacesShift(x, y, i + 1);
    } else {
      SkipSpacesFrom(x, y, 0);
    }
  }

  lemma {:induction false} SkipSpacesFrom(x: string, y: string, i: nat)
    requires i <= |y|
    ensures SkipSpaces(x + y, |x| + i) == |x| + SkipSpaces(y, i)
    decreases |y| - i
  {
    if i < |y| {
      assert (x + y)[|x| + i] == y[i];
      if IsSpace(y[i]) {
        SkipSpacesFrom(x, y, i + 1);
      }
    }
  }

  /** The positions in a text that starts with `name = <t>;`. */
  lemma UnquotedLineFacts(s: string, name: string, t: string)
    requires IsWordName(name) && ';' !in t && StartsWith(s, name + " = " + t + ";")
    ensures AssignAt(s, 0, name) == Some(|name| + 2) && s[|name| + 2] == ' '
    ensures FindChar(s, ';', |name| + 2) == |name| + 3 + |t|
    ensures s[|name| + 3..|name| + 3 + |t|] == t
  {
    var n := |name|;
    var semi := n + 3 + |t|;
    var w := s[..semi + 1];
    assert w == (name + " = ") + (t + ";");
    AssignAtStart(s, name);
    assert s[semi] == w[semi] == ';';
    forall k | n + 2 <= k < semi ensures s[k] != ';' {
      if k > n + 2 {
        assert s[k] == w[k] == t[k - n - 3];
      }
    }
    forall k | 0 <= k < |t| ensures s[n + 3 + k] == t[k] {
      assert s[n + 3 + k] == w[n + 3 + k];
    }
  }

  lemma UnquotedPropertySteps(s: string, name: string, j: nat, semi: nat, from: nat)
    requires AssignAt(s, 0, name) == Some(j) && j < semi < |s|
    requires FindChar(s, ';', j) == semi
    requires from == if SkipSpaces(s, j) < semi then SkipSpaces(s, j) else semi - 1
    ensures UnquotedPropertyAt(s, 0, name) == Some(s[from..semi])
  {
    assert UnquotedValueSpan(s, j) == Some((from, semi));
  }

  /** After `name =` and a space, the unquoted capture trims like the text up to the first `;`. */
  lemma UnquotedCaptureTrim(s: string, name: string, j: nat, semi: nat, t: string)
    requires AssignAt(s, 0, name) == Some(j) && j < semi < |s| && s[j] == ' '
    requires FindChar(s, ';', j) == semi && s[j + 1..semi] == t
    ensures UnquotedPropertyAt(s, 0, name).Some?
    ensures Trim(UnquotedPropertyAt(s, 0, name).value) == Trim(t)
  {
    var q := SkipSpaces(s, j);
    var from := if q < semi then q else semi - 1;
    UnquotedPropertySteps(s, name, j, semi, from);
    TrimFromSpaces(s, j, from, semi);
  }

  /** Where the unquoted capture starts after a space, it trims like the text after that space. */
  lemma TrimFromSpaces(s: string, j: nat, from: nat, e: nat)
    requires j < e <= |s| && s[j] == ' '
    requires from == if SkipSpaces(s, j) < e then SkipSpaces(s, j) else e - 1
    ensures Trim(s[from..e]) == Trim(s[j + 1..e])
  {
    assert IsSpace(s[j]);
    TrimAfterSpaces(s, j, from, e);
    TrimAfterSpaces(s, j, j + 1, e);
  }

  /** `name = <t>;` at the start of a text matches the unquoted form; its capture trims to `t` trimmed. */
  lemma UnquotedPropertyAtStart(name: string, t: string, rest: string)
    requires IsWordName(name) && ';' !in t
    ensures var s := name + " = " + t + ";" + rest;
      UnquotedPropertyAt(s, 0, name).Some? && Trim(UnquotedPropertyAt(s, 0, name).value) == Trim(t)
  {
    var s := name + " = " + t + ";" + rest;
    var n := |name|;
    assert StartsWith(s, name + " = " + t + ";");
    UnquotedLineFacts(s, name, t);
    UnquotedCaptureTrim(s, name, n + 2, n + 3 + |t|, t);
  }

  /** The unquoted form: with no quote in the text, `Name = text;` reads as the trimmed text. */
  lemma ExtractPropertyUnquoted(name: string, t: string, rest: string)
    requires IsWordName(name)
    requires ';' !in t && '\'' !in t && '\'' !in rest
    ensures ExtractProperty(name + " = " + t + ";" + rest, name) == Trim(t)
  {
    var s := name + " = " + t + ";" + rest;
    assert '\'' !in s by {
      assert s == name + (" = " + t + ";" + rest);
      forall k | 0 <= k < |name| ensures name[k] != '\'' {
        assert IsWordChar(name[k]);
      }
    }
    NoQuoteNoQuotedProperty(s, name);
    UnquotedPropertyAtStart(name, t, rest);
  }

  /** `extractTableCaption(body)`: the quoted `Caption` found before the `fields {`
      opener when it is past position 0, otherwise within the first 500 characters. */
  function ExtractTableCaption(body: string): string
  {
    var fieldsStart := Search(body, 0, FieldsOpenAt);
    var top := if fieldsStart.Some? && fieldsStart.value.pos > 0 then body[..fieldsStart.value.pos]
      else body[..if |body| < 500 then |body| else 500];
    match Search(top, 0, QuotedPropertyMatcher("Caption"))
    case Some(f) => Undouble(f.m)
    case None => ""
  }

  /** `fields {` right after text without a brace is where the fields block opens. */
  lemma FieldsOpenerAfter(pre: string, x: string)
    requires pre != [] && !IsWordChar(pre[|pre| - 1]) && '{' !in pre
    ensures Search(pre + "fields {" + x, 0, FieldsOpenAt) == Some(Found(|pre|, (|pre| + 8) as nat))
  {
    var s := pre + "fields {" + x;
    NoFieldsOpenerIn(pre, x);
    FieldsOpenerAt(pre, x);
    SearchFirst(s, 0, |pre|, FieldsOpenAt, (|pre| + 8) as nat);
  }

  /** No `fields {` opener starts inside brace-free text before `fields {`. */
  lemma NoFieldsOpenerIn(pre: string, x: string)
    requires '{' !in pre
    ensures forall q :: 0 <= q < |pre| ==> FieldsOpenAt(pre + "fields {" + x, q).None?
  {
    var s := pre + "fields {" + x;
    var n := |pre|;
    assert s[n] == 'f';
    forall k | 0 <= k < n ensures s[k] != '{' {
      assert s[k] == pre[k];
    }
    forall q | 0 <= q < n ensures FieldsOpenAt(s, q).None? {
      NoFieldsOpenerBefore(s, n, q);
    }
  }

  /** Before an `f` with no `{` ahead of it, `fields {` cannot start. */
  lemma NoFieldsOpenerBefore(s: string, n: nat, q: nat)
    requires q < n < |s| && s[n] == 'f'
    requires forall k :: 0 <= k < n ==> s[k] != '{'
    ensures FieldsOpenAt(s, q).None?
  {
    assert !IsSpace(s[n]);
    if n < q + 6 <= |s| {
      // the word would have to run into the `f` at `n`
      assert s[q..q + 6][n - q] == s[n];
      assert Lower(s[q..q + 6])[n - q] == 'f';
      assert Lower("fields")[n - q] != 'f';
    }
  }

  lemma FieldsOpenerAt(pre: string, x: string)
    requires pre != [] && !IsWordChar(pre[|pre| - 1])
    ensures FieldsOpenAt(pre + "fields {" + x, |pre|) == Some(|pre| + 8)
  {
    var s := pre + "fields {" + x;
    var n := |pre|;
    assert s[n..n + 6] == "fields";
    assert s[n - 1] == pre[n - 1];
    assert s[n + 6] == ' ' && s[n + 7] == '{';
    assert SkipSpaces(s, n + 7) == n + 7;
  }

  /** A Caption that occurs only inside the fields block is never taken as the table caption. */
  lemma CaptionNotReadFromFieldsBlock(pre: string, x: string)
    requires pre != [] && !IsWordChar(pre[|pre| - 1]) && '{' !in pre && '\'' !in pre
    ensures ExtractTableCaption(pre + "fields {" + x) == ""
  {
    var s := pre + "fields {" + x;
    FieldsOpenerAfter(pre, x);
    assert s[..|pre|] == pre;
    NoQuoteNoQuotedProperty(pre, "Caption");
  }

  /** A table-level `Caption = '...';` on the line before the fields block is read back exactly. */
  lemma TableCaptionRoundTrip(v: string, x: string)
    requires '{' !in v
    ensures ExtractTableCaption(PropertyLine("Caption", v) + "\n" + "fields {" + x) == v
  {
    var pre := PropertyLine("Caption", v) + "\n";
    var s := pre + "fields {" + x;
    assert '{' !in Double(v);
    assert '{' !in pre;
    assert pre[|pre| - 1] == '\n';
    FieldsOpenerAfter(pre, x);
    assert s[..|pre|] == pre;
    QuotedPropertyAtStart("Caption", v, "\n");
    UndoubleDouble(v);
  }

  /** Each run of whitespace replaced by one space (`.replace(/\s+/g, " ")`). */
  function CollapseSpaces(s: string): (r: string)
    ensures forall k :: 0 <= k < |r| ==> r[k] in s || r[k] == ' '
    ensures forall k :: 0 <= k < |r| && IsSpace(r[k]) ==> r[k] == ' '
    ensures forall k :: 0 <= k < |r| - 1 ==> !(IsSpace(r[k]) && IsSpace(r[k + 1]))
    ensures s != [] ==> r != [] && (IsSpace(r[0]) <==> IsSpace(s[0]))
    decreases |s|
  {
    if s == [] then []
    else if IsSpace(s[0]) then
      var rest := s[SkipSpaces(s, 0)..];
      var r := " " + CollapseSpaces(rest);
      assert forall k :: 0 <= k < |rest| ==> rest[k] in s;
      r
    else
      var r := [s[0]] + CollapseSpaces(s[1..]);
      assert forall k :: 0 <= k < |s[1..]| ==> s[1..][k] in s;
      r
  }

  /** Every double-quoted name in the text with the prefix stripped from it,
      the quotes kept (`.replace(/"([^"]+)"/g, …)` with the prefix stripper). */
  function StripQuotedNames(s: string, prefix: string): (r: string)
    ensures forall k :: 0 <= k < |r| ==> r[k] in s
    decreases |s|
  {
    if s == [] then []
    else match QuotedAt(s, 0)
      case Some((name, after)) =>
        var stripped := StripPrefix(prefix, name);
        var tail := StripQuotedNames(s[after..], prefix);
        StrippedNameChars(s, prefix);
        SliceChars(s, after, tail);
        ConcatChars("\"" + stripped + "\"", tail, s);
        "\"" + stripped + "\"" + tail
      case None =>
        var tail := StripQuotedNames(s[1..], prefix);
        SliceChars(s, 1, tail);
        ConcatChars([s[0]], tail, s);
        [s[0]] + tail
  }

  lemma ConcatChars(a: string, b: string, s: string)
    requires forall k :: 0 <= k < |a| ==> a[k] in s
    requires forall k :: 0 <= k < |b| ==> b[k] in s
    ensures forall k :: 0 <= k < |a + b| ==> (a + b)[k] in s
  {
    forall k | 0 <= k < |a + b| ensures (a + b)[k] in s {
      if k < |a| {
        assert (a + b)[k] == a[k];
      } else {
        assert (a + b)[k] == b[k - |a|];
      }
    }
  }

  lemma SliceChars(s: string, from: nat, t: string)
    requires from <= |s|
    requires forall k :: 0 <= k < |t| ==> t[k] in s[from..]
    ensures forall k :: 0 <= k < |t| ==> t[k] in s
  {
    forall k | 0 <= k < |t| ensures t[k] in s {
      var i :| 0 <= i < |s[from..]| && s[from..][i] == t[k];
      assert s[from + i] == t[k];
    }
  }

  /** The quotes and the stripped name of a quoted name at the start of `s` all come from `s`. */
  lemma StrippedNameChars(s: string, prefix: string)
    requires QuotedAt(s, 0).Some?
    ensures var stripped := StripPrefix(prefix, QuotedAt(s, 0).value.0);
      forall k :: 0 <= k < |"\"" + stripped + "\""| ==> ("\"" + stripped + "\"")[k] in s
  {
    var name := QuotedAt(s, 0).value.0;
    var close := FindChar(s, '"', 1);
    assert name == s[1..close];
    var stripped := StripPrefix(prefix, name);
    StripPrefixIsSuffix(prefix, name);
    var w := "\"" + stripped + "\"";
    assert s[0] == '"';
    forall k | 0 <= k < |w| ensures w[k] in s {
      if 0 < k <= |stripped| {
        assert w[k] == stripped[k - 1] == name[|name| - |stripped| + k - 1] == s[1 + |name| - |stripped| + k - 1];
      } else {
        assert w[k] == s[0];
      }
    }
  }

  /** `extractTableRelation(fieldBody, prefix)`: the text of the first
      `TableRelation = ...;`, up to the first `;`, with whitespace runs collapsed
      and trimmed; with a prefix, quoted names inside it are stripped. */
  function ExtractTableRelation(fieldBody: string, prefix: string): (r: string)
    ensures ';' !in r
    ensures Search(fieldBody, 0, TableRelationAt).None? ==> r == ""
    ensures prefix == [] ==> r == [] || (!IsSpace(r[0]) && !IsSpace(r[|r| - 1]))
    ensures prefix == [] ==> forall k :: 0 <= k < |r| - 1 ==> !(IsSpace(r[k]) && IsSpace(r[k + 1]))
  {
    match Search(fieldBody, 0, TableRelationAt)
    case None => ""
    case Some(f) =>
      var normalized := NormalizeSpaces(f.m);
      if prefix == [] then normalized else StripQuotedNames(normalized, prefix)
  }

  /** `.replace(/\s+/g, ' ').trim()`: single spaces inside, none at the ends, no new characters. */
  function NormalizeSpaces(m: string): (r: string)
    ensures forall k :: 0 <= k < |r| ==> r[k] in m || r[k] == ' '
    ensures r == [] || (!IsSpace(r[0]) && !IsSpace(r[|r| - 1]))
    ensures forall k :: 0 <= k < |r| - 1 ==> !(IsSpace(r[k]) && IsSpace(r[k + 1]))
  {
    var collapsed := CollapseSpaces(m);
    TrimKeepsShape(collapsed, m);
    Trim(collapsed)
  }

  /** Trimming keeps what holds of every character and of every neighbouring pair. */
  lemma TrimKeepsShape(c: string, m: string)
    requires forall k :: 0 <= k < |c| ==> c[k] in m || c[k] == ' '
    requires forall k :: 0 <= k < |c| - 1 ==> !(IsSpace(c[k]) && IsSpace(c[k + 1]))
    ensures var t := Trim(c); forall k :: 0 <= k < |t| ==> t[k] in m || t[k] == ' '
    ensures var t := Trim(c); forall k :: 0 <= k < |t| - 1 ==> !(IsSpace(t[k]) && IsSpace(t[k + 1]))
  {
    var t := Trim(c);
    var a := SkipSpaces(c, 0);
    assert t == c[a..a + |t|];
    forall k | 0 <= k < |t| ensures t[k] in m || t[k] == ' ' {
      assert t[k] == c[a + k];
    }
    forall k | 0 <= k < |t| - 1 ensures !(IsSpace(t[k]) && IsSpace(t[k + 1])) {
      assert t[k] == c[a + k] && t[k + 1] == c[a + k + 1];
    }
  }

  /** A relation text as the normalization leaves it: its only whitespace is
      single spaces, and none at either end. */
  predicate SingleSpaced(v: string) {
    (v == [] || (!IsSpace(v[0]) && !IsSpace(v[|v| - 1]))) &&
    (forall k :: 0 <= k < |v| && IsSpace(v[k]) ==> v[k] == ' ') &&
    (forall k :: 0 <= k < |v| - 1 ==> !(IsSpace(v[k]) && IsSpace(v[k + 1])))
  }

  /** Collapsing whitespace changes nothing in a text whose whitespace is single spaces. */
  lemma {:induction false} CollapseSpacesFixed(v: string)
    requires forall k :: 0 <= k < |v| && IsSpace(v[k]) ==> v[k] == ' '
    requires forall k :: 0 <= k < |v| - 1 ==> !(IsSpace(v[k]) && IsSpace(v[k + 1]))
    ensures CollapseSpaces(v) == v
    decreases |v|
  {
    if v != [] {
      var t := v[1..];
      assert forall k :: 0 <= k < |t| && IsSpace(t[k]) ==> t[k] == ' ' by {
        forall k | 0 <= k < |t| && IsSpace(t[k]) ensures t[k] == ' ' {
          assert t[k] == v[k + 1];
        }
      }
      assert forall k :: 0 <= k < |t| - 1 ==> !(IsSpace(t[k]) && IsSpace(t[k + 1])) by {
        forall k | 0 <= k < |t| - 1 ensures !(IsSpace(t[k]) && IsSpace(t[k + 1])) {
          assert t[k] == v[k + 1] && t[k + 1] == v[k + 2];
        }
      }
      CollapseSpacesFixed(t);
      if IsSpace(v[0]) {
        assert |v| > 1 ==> !IsSpace(v[1]);
        assert SkipSpaces(v, 0) == 1;
      }
      assert v == [v[0]] + t;
    }
  }

  /** A single-spaced text is its own normalization. */
  lemma NormalizeSpacesFixed(v: string)
    requires SingleSpaced(v)
    ensures NormalizeSpaces(v) == v
  {
    CollapseSpacesFixed(v);
    TrimOfTrimmed(v);
  }

  /** How AL writes a relation: `TableRelation = <v>;`. */
  function RelationLine(v: string): string {
    "TableRelation = " + v + ";"
  }

  /** The pieces of `TableRelation = <v>;` at the start of a text. */
  lemma RelationLineParts(s: string, v: string)
    requires StartsWith(s, RelationLine(v))
    ensures StartsWith(s, "TableRelation" + " = ")
    ensures 16 + |v| < |s| && s[16..16 + |v|] == v && s[16 + |v|] == ';'
  {
    var a, w := "TableRelation = ", v + ";";
    assert RelationLine(v) == a + w;
    SliceParts(s, 0, a, w);
    SliceParts(s, 16, v, ";");
    assert s[16 + |v|] == s[16 + |v|..16 + |v| + 1][0];
  }

  /** The relation pattern captures `v` from `TableRelation = <v>;` at the start of a text. */
  lemma TableRelationAtStart(s: string, v: string)
    requires ';' !in v && (v == [] || !IsSpace(v[0]))
    requires StartsWith(s, RelationLine(v))
    ensures TableRelationAt(s, 0) == Some(v)
  {
    RelationLineParts(s, v);
    AssignAtStart(s, "TableRelation");
    assert !IsSpace(s[16]) by {
      if v != [] {
        assert s[16] == s[16..16 + |v|][0] == v[0];
      }
    }
    assert SkipSpaces(s, 15) == 16;
    forall k | 16 <= k < 16 + |v| ensures s[k] != ';' {
      assert s[k] == s[16..16 + |v|][k - 16] == v[k - 16];
    }
    FindCharAt(s, ';', 16, 16 + |v|);
  }

  /** Round trip: `TableRelation = <v>;` followed by anything reads back as v when v
      is already single-spaced; with a prefix, the quoted names inside v are stripped. */
  lemma ExtractTableRelationRoundTrip(v: string, rest: string, prefix: string)
    requires ';' !in v && SingleSpaced(v)
    ensures ExtractTableRelation(RelationLine(v) + rest, prefix)
      == if prefix == [] then v else StripQuotedNames(v, prefix)
  {
    var s := RelationLine(v) + rest;
    assert StartsWith(s, RelationLine(v)) by {
      assert s[..|RelationLine(v)|] == RelationLine(v);
    }
    TableRelationAtStart(s, v);
    SearchFirst(s, 0, 0, TableRelationAt, v);
    NormalizeSpacesFixed(v);
  }

  /** Outside a quoted name a character is copied as it is. */
  lemma StripQuotedPlain(c: char, x: string, prefix: string)
    requires c != '"'
    ensures StripQuotedNames([c] + x, prefix) == [c] + StripQuotedNames(x, prefix)
  {
    assert ([c] + x)[1..] == x;
  }

  /** A quoted name loses the prefix and keeps its quotes; the text after it is handled on its own. */
  lemma StripQuotedHead(t: string, x: string, prefix: string)
    requires t != [] && '"' !in t
    ensures StripQuotedNames(Quote(t) + x, prefix) == Quote(StripPrefix(prefix, t)) + StripQuotedNames(x, prefix)
  {
    QuotedAtStart(t, x);
    assert (Quote(t) + x)[|t| + 2..] == x;
  }

  /** Text without a double quote is kept as it is. */
  lemma {:induction false} StripQuotedUnquoted(s: string, prefix: string)
    requires '"' !in s
    ensures StripQuotedNames(s, prefix) == s
    decreases |s|
  {
    if s != [] {
      assert s == [s[0]] + s[1..];
      StripQuotedPlain(s[0], s[1..], prefix);
      StripQuotedUnquoted(s[1..], prefix);
    }
  }

  /** `"T"."F"` becomes `"<T stripped>"."<F stripped>"`. */
  lemma StripQuotedQualified(t: string, f: string, prefix: string)
    requires t != [] && f != [] && '"' !in t && '"' !in f
    ensures StripQuotedNames(Quote(t) + ("." + Quote(f)), prefix)
      == Quote(StripPrefix(prefix, t)) + ("." + Quote(StripPrefix(prefix, f)))
  {
    StripQuotedHead(t, "." + Quote(f), prefix);
    StripQuotedPlain('.', Quote(f), prefix);
    StripQuotedHead(f, [], prefix);
    assert Quote(f) + [] == Quote(f);
    assert StripQuotedNames([], prefix) == [];
  }

  /** `extractFieldBody(afterField)`: the property block `{ ... }` that follows a
      field declaration (after optional whitespace), or "" when there is none. */
  function ExtractFieldBody(afterField: string): (r: string)
    ensures var t := TrimStart(afterField);
      (t == [] || t[0] != '{' ==> r == []) &&
      (t != [] && t[0] == '{' ==> 1 + |r| <= |t| && r == t[1..1 + |r|] && (1 + |r| == |t| || t[1 + |r|] == '}'))
  {
    var t := TrimStart(afterField);
    if t != [] && t[0] == '{' then Block(t, 1) else []
  }

  /** The resolved target of a TableRelation. */
  datatype RelationTarget = RelationTarget(table: string, field: string)

  /** The text before the first whole-word `WHERE` or `IF` (any case). */
  function CutAtCondition(s: string): (r: string)
    ensures |r| <= |s| && r == s[..|r|]
    ensures forall q :: 0 <= q < |r| ==> !IsConditionKeyword(s, q)
    ensures |r| < |s| ==> IsConditionKeyword(s, |r|)
  {
    ConditionSearch(s);
    match Search(s, 0, ConditionAt)
    case Some(f) => s[..f.pos]
    case None =>
      assert s[..|s|] == s;
      s
  }

  /** The leftmost-match facts of the `WHERE`/`IF` search, stated on the keyword predicate. */
  lemma ConditionSearch(s: string)
    ensures match Search(s, 0, ConditionAt)
      case Some(f) => f.pos <= |s| && IsConditionKeyword(s, f.pos) && forall q :: 0 <= q < f.pos ==> !IsConditionKeyword(s, q)
      case None => forall q :: 0 <= q <= |s| ==> !IsConditionKeyword(s, q)
  {
    match Search(s, 0, ConditionAt)
    case Some(f) =>
      assert ConditionAt(s, f.pos).Some?;
      forall q | 0 <= q < f.pos ensures !IsConditionKeyword(s, q) {
        assert ConditionAt(s, q).None?;
      }
    case None =>
      forall q | 0 <= q <= |s| ensures !IsConditionKeyword(s, q) {
        assert ConditionAt(s, q).None?;
      }
  }

  /** `"x"` or a bare word at the start of the text after the dot. */
  function FieldAfterDot(t: string): string {
    match QuotedAt(t, 0)
    case Some((name, _)) => name
    case None => t[..WordEnd(t, 0)]
  }

  /** `resolveTableRelation(raw, normalizeName)`. */
  function ResolveTableRelation(raw: string, prefix: string): (r: RelationTarget)
    ensures raw == [] ==> r == RelationTarget("", "")
    ensures var c := Trim(CutAtCondition(raw)); (c == [] || c[0] != '"') ==> r.field == ""
  {
    if raw == [] then RelationTarget("", "")
    else
      var cleaned := Trim(CutAtCondition(raw));
      match QuotedAt(cleaned, 0)
      case None =>
        var w := WordEnd(cleaned, 0);
        RelationTarget(StripPrefix(prefix, if w > 0 then cleaned[..w] else raw), "")
      case Some((table, after)) =>
        RelationTarget(StripPrefix(prefix, table), StripPrefix(prefix, QualifiedField(cleaned[after..])))
  }

  /** After a quoted table name: `."x"` or `.word` (after optional whitespace), else no field. */
  function QualifiedField(afterTable: string): string {
    var rest := Trim(afterTable);
    if rest != [] && rest[0] == '.' then FieldAfterDot(rest[1..]) else ""
  }

  /** Without a prefix, the target table is empty exactly when the relation text is. */
  lemma ResolvedTableEmptyIff(raw: string)
    ensures ResolveTableRelation(raw, "").table == "" <==> raw == ""
  {
  }

  /** An AL quoted identifier. */
  function Quote(t: string): string {
    "\"" + t + "\""
  }

  predicate NoConditionKeyword(s: string) {
    forall q :: 0 <= q <= |s| ==> !IsConditionKeyword(s, q)
  }

  lemma QuotedAtStart(t: string, rest: string)
    requires t != [] && '"' !in t
    ensures QuotedAt(Quote(t) + rest, 0) == Some((t, |t| + 2))
  {
    var s := Quote(t) + rest;
    assert s == "\"" + t + "\"" + rest;
    forall k | 1 <= k < |t| + 1 ensures s[k] != '"' {
      assert s[k] == t[k - 1];
    }
    assert s[|t| + 1] == '"';
    assert FindChar(s, '"', 1) == |t| + 1;
    assert s[1..|t| + 1] == t;
  }

  lemma WholeTextKept(raw: string)
    requires NoConditionKeyword(raw)
    requires raw != [] && !IsSpace(raw[0]) && !IsSpace(raw[|raw| - 1])
    ensures Trim(CutAtCondition(raw)) == raw
  {
    TrimOfTrimmed(raw);
  }

  lemma QualifiedQuotedField(f: string)
    requires f != [] && '"' !in f
    ensures QualifiedField("." + Quote(f)) == f
  {
    var rest := "." + Quote(f);
    assert rest[|rest| - 1] == '"';
    TrimOfTrimmed(rest);
    assert rest[1..] == Quote(f) + [];
    QuotedAtStart(f, []);
  }

  lemma QualifiedWordField(f: string)
    requires IsWordName(f)
    ensures QualifiedField("." + f) == f
  {
    var rest := "." + f;
    assert rest[|rest| - 1] == f[|f| - 1];
    TrimOfTrimmed(rest);
    assert rest[1..] == f;
    assert f[0] != '"' by { assert IsWordChar(f[0]); }
    WordRunToEnd(f, 0);
  }

  /** A quoted table name followed by `tail` resolves to that table and the field named in `tail`. */
  lemma ResolveQuotedTable(t: string, tail: string, prefix: string)
    requires t != [] && '"' !in t
    requires tail != [] && !IsSpace(tail[|tail| - 1])
    requires NoConditionKeyword(Quote(t) + tail)
    ensures ResolveTableRelation(Quote(t) + tail, prefix)
      == RelationTarget(StripPrefix(prefix, t), StripPrefix(prefix, QualifiedField(tail)))
  {
    var raw := Quote(t) + tail;
    assert raw[0] == '"' && raw[|raw| - 1] == tail[|tail| - 1];
    WholeTextKept(raw);
    QuotedAtStart(t, tail);
    assert raw[|t| + 2..] == tail;
  }

  /** `"T"."F"` resolves to table T and field F (each prefix-stripped). */
  lemma ResolveQuotedQualified(t: string, f: string, prefix: string)
    requires t != [] && f != [] && '"' !in t && '"' !in f
    requires NoConditionKeyword(Quote(t) + ("." + Quote(f)))
    ensures ResolveTableRelation(Quote(t) + ("." + Quote(f)), prefix)
      == RelationTarget(StripPrefix(prefix, t), StripPrefix(prefix, f))
  {
    ResolveQuotedTable(t, "." + Quote(f), prefix);
    QualifiedQuotedField(f);
  }

  /** `"T".F` with a bare word F resolves to table T and field F. */
  lemma ResolveQuotedThenWord(t: string, f: string, prefix: string)
    requires t != [] && '"' !in t && IsWordName(f)
    requires NoConditionKeyword(Quote(t) + ("." + f))
    ensures ResolveTableRelation(Quote(t) + ("." + f), prefix)
      == RelationTarget(StripPrefix(prefix, t), StripPrefix(prefix, f))
  {
    assert ("." + f)[|f|] == f[|f| - 1];
    ResolveQuotedTable(t, "." + f, prefix);
    QualifiedWordField(f);
  }

  lemma {:induction false} WordRunToEnd(f: string, i: nat)
    requires i <= |f| && forall k :: 0 <= k < |f| ==> IsWordChar(f[k])
    ensures WordEnd(f, i) == |f|
    decreases |f| - i
  {
    if i < |f| {
      WordRunToEnd(f, i + 1);
    }
  }

  /** `"T" WHERE ...` (or `IF ...`): everything from the keyword on is ignored and the field is empty. */
  lemma ResolveFiltered(t: string, y: string, prefix: string)
    requires t != [] && '"' !in t
    requires forall q :: 0 <= q < |t| + 3 ==> !IsConditionKeyword(Quote(t) + " " + y, q)
    requires IsConditionKeyword(Quote(t) + " " + y, |t| + 3)
    ensures ResolveTableRelation(Quote(t) + " " + y, prefix) == RelationTarget(StripPrefix(prefix, t), "")
  {
    var raw := Quote(t) + " " + y;
    var cut := CutAtCondition(raw);
    assert |cut| == |t| + 3;
    assert cut == Quote(t) + " ";
    var c := Trim(cut);
    assert c == Quote(t) by {
      assert TrimEnd(cut) == TrimEnd(Quote(t));
      TrimOfTrimmed(Quote(t));
    }
    QuotedAtStart(t, []);
    assert c == Quote(t) + [];
    assert c[|t| + 2..] == [];
  }
}
