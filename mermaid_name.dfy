/** `sanitizeMermaidName`: the identifier Mermaid is given for a table or field
    name. Five replacements in a row: drop `/`, `"` and `'`; turn each run of
    whitespace into `_`; turn every other character outside `[A-Za-z0-9_]` into
    `_`; collapse runs of `_`; drop one `_` at the start and one at the end. */
module MermaidName {
  import opened Text

  predicate IsDropped(c: char) {
    c == '/' || c == '"' || c == '\''
  }

  /** The name without its slashes, double quotes and single quotes
      (`.replace(/[/"']/g, '')`). */
  function DropQuotes(s: string): string {
    if s == [] then [] else (if IsDropped(s[0]) then [] else [s[0]]) + DropQuotes(s[1..])
  }

  /** Each run of whitespace replaced by one `_` (`.replace(/\s+/g, '_')`). */
  function SpacesToUnderscore(s: string): string
    decreases |s|
  {
    if s == [] then []
    else if IsSpace(s[0]) then "_" + SpacesToUnderscore(s[SkipSpaces(s, 0)..])
    else [s[0]] + SpacesToUnderscore(s[1..])
  }

  /** Every character outside `[A-Za-z0-9_]` replaced by `_`
      (`.replace(/[^a-zA-Z0-9_]/g, '_')`): only word characters are left, and
      the word characters of the input stay where they were. */
  function OthersToUnderscore(s: string): (r: string)
    ensures |r| == |s|
    ensures forall i :: 0 <= i < |r| ==> IsWordChar(r[i])
    ensures forall i :: 0 <= i < |s| && IsWordChar(s[i]) ==> r[i] == s[i]
  {
    seq(|s|, i requires 0 <= i < |s| => if IsWordChar(s[i]) then s[i] else '_')
  }

  /** The end of the run of `_` that starts at `p`. */
  function UnderscoresEnd(s: string, p: nat): (q: nat)
    requires p <= |s|
    ensures p <= q <= |s|
    ensures forall k :: p <= k < q ==> s[k] == '_'
    ensures q < |s| ==> s[q] != '_'
    decreases |s| - p
  {
    if p < |s| && s[p] == '_' then UnderscoresEnd(s, p + 1) else p
  }

  /** No two `_` in a row. */
  predicate NoDoubleUnderscore(s: string) {
    forall i :: 0 <= i < |s| - 1 ==> !(s[i] == '_' && s[i + 1] == '_')
  }

  /** Each run of `_` replaced by a single `_` (`.replace(/_+/g, '_')`). */
  function CollapseUnderscores(s: string): string
    decreases |s|
  {
    if s == [] then []
    else if s[0] == '_' then "_" + CollapseUnderscores(s[UnderscoresEnd(s, 0)..])
    else [s[0]] + CollapseUnderscores(s[1..])
  }

  /** Dropping removes exactly the slashes and quotes. */
  lemma {:induction false} DropQuotesChars(s: string, c: char)
    ensures c in DropQuotes(s) <==> c in s && !IsDropped(c)
  {
    if s != [] {
      DropQuotesChars(s[1..], c);
      assert s == [s[0]] + s[1..];
    }
  }

  /** Whitespace is gone after its runs are replaced; nothing else is introduced but `_`. */
  lemma {:induction false} SpacesChars(s: string, c: char)
    requires c in SpacesToUnderscore(s)
    ensures c == '_' || (c in s && !IsSpace(c))
    decreases |s|
  {
    if IsSpace(s[0]) {
      var q := SkipSpaces(s, 0);
      if c != '_' {
        SpacesChars(s[q..], c);
      }
    } else if c != s[0] {
      SpacesChars(s[1..], c);
    }
  }

  /** Collapsing introduces no character, keeps a leading `_`, and leaves no `__`. */
  lemma {:induction false} CollapseShape(s: string)
    ensures forall c :: c in CollapseUnderscores(s) ==> c in s
    ensures var r := CollapseUnderscores(s); (r != [] && r[0] == '_') <==> (s != [] && s[0] == '_')
    ensures NoDoubleUnderscore(CollapseUnderscores(s))
    decreases |s|
  {
    if s != [] {
      var q := if s[0] == '_' then UnderscoresEnd(s, 0) else 1;
      var rest := CollapseUnderscores(s[q..]);
      CollapseShape(s[q..]);
      var r := [s[0]] + rest;
      assert CollapseUnderscores(s) == r;
      assert forall i :: 1 <= i < |r| ==> r[i] == rest[i - 1];
    }
  }

  /** `.replace(/^_|_$/g, '')`: one `_` off the front, then one off the back. */
  function TrimUnderscore(s: string): string {
    var a := if s != [] && s[0] == '_' then s[1..] else s;
    if a != [] && a[|a| - 1] == '_' then a[..|a| - 1] else a
  }

  /** What a sanitized name looks like: word characters only, no `__`, no `_` at either end. */
  predicate Clean(s: string) {
    (forall i :: 0 <= i < |s| ==> IsWordChar(s[i]))
    && NoDoubleUnderscore(s)
    && (s != [] ==> s[0] != '_' && s[|s| - 1] != '_')
  }

  /** Trimming a collapsed run of word characters leaves a clean name. */
  lemma TrimmedIsClean(s: string)
    requires forall i :: 0 <= i < |s| ==> IsWordChar(s[i])
    requires NoDoubleUnderscore(s)
    ensures Clean(TrimUnderscore(s))
  {
    var a := if s != [] && s[0] == '_' then s[1..] else s;
    assert forall i :: 0 <= i < |a| ==> IsWordChar(a[i]);
    assert NoDoubleUnderscore(a);
    assert a != [] ==> a[0] != '_' by {
      if s != [] && s[0] == '_' && a != [] {
        assert a[0] == s[1];
      }
    }
    if a != [] && a[|a| - 1] == '_' {
      var b := a[..|a| - 1];
      assert b != [] ==> b[|b| - 1] == a[|a| - 2];
    }
  }

  function SanitizeMermaidName(name: string): string {
    TrimUnderscore(CollapseUnderscores(OthersToUnderscore(SpacesToUnderscore(DropQuotes(name)))))
  }

  /** A sanitized name is clean: word characters only, no `__`, no `_` at either end. */
  lemma SanitizedIsClean(name: string)
    ensures Clean(SanitizeMermaidName(name))
  {
    var o := OthersToUnderscore(SpacesToUnderscore(DropQuotes(name)));
    var c := CollapseUnderscores(o);
    CollapseShape(o);
    assert forall i :: 0 <= i < |c| ==> IsWordChar(c[i]) by {
      assert forall ch :: ch in o ==> IsWordChar(ch);
    }
    TrimmedIsClean(c);
  }

  lemma {:induction false} DropQuotesKeeps(s: string)
    requires forall i :: 0 <= i < |s| ==> IsWordChar(s[i])
    ensures DropQuotes(s) == s
  {
    if s != [] {
      DropQuotesKeeps(s[1..]);
    }
  }

  lemma {:induction false} SpacesKeep(s: string)
    requires forall i :: 0 <= i < |s| ==> IsWordChar(s[i])
    ensures SpacesToUnderscore(s) == s
  {
    if s != [] {
      assert !IsSpace(s[0]);
      SpacesKeep(s[1..]);
    }
  }

  lemma {:induction false} CollapseKeeps(s: string)
    requires NoDoubleUnderscore(s)
    ensures CollapseUnderscores(s) == s
    decreases |s|
  {
    if s != [] {
      assert NoDoubleUnderscore(s[1..]) by {
        var t := s[1..];
        assert forall i :: 0 <= i < |t| ==> t[i] == s[i + 1];
      }
      CollapseKeeps(s[1..]);
      if s[0] == '_' {
        assert UnderscoresEnd(s, 0) == 1 by {
          assert |s| > 1 ==> s[1] != '_';
          assert UnderscoresEnd(s, 1) == 1;
        }
      }
    }
  }

  /** A clean name passes every replacement unchanged. */
  lemma CleanIsFixed(s: string)
    requires Clean(s)
    ensures SanitizeMermaidName(s) == s
  {
    WordCharsKept(s);
    CleanCollapseTrimKeeps(s);
  }

  /** The first three replacements leave a run of word characters alone. */
  lemma WordCharsKept(s: string)
    requires forall i :: 0 <= i < |s| ==> IsWordChar(s[i])
    ensures OthersToUnderscore(SpacesToUnderscore(DropQuotes(s))) == s
  {
    DropQuotesKeeps(s);
    SpacesKeep(s);
    assert OthersToUnderscore(s) == s;
  }

  /** Collapsing and trimming leave a clean name alone. */
  lemma CleanCollapseTrimKeeps(s: string)
    requires Clean(s)
    ensures TrimUnderscore(CollapseUnderscores(s)) == s
  {
    CollapseKeeps(s);
  }

  /** Sanitizing twice is sanitizing once. */
  lemma SanitizeIdempotent(name: string)
    ensures SanitizeMermaidName(SanitizeMermaidName(name)) == SanitizeMermaidName(name)
  {
    SanitizedIsClean(name);
    CleanIsFixed(SanitizeMermaidName(name));
  }

  /** A sanitized name holds no character outside `\w`: no `|`, so it can stand
      in a `|`-separated key, and no line break, so it stays on its line. */
  lemma SanitizedHasNo(name: string, ch: char)
    requires !IsWordChar(ch)
    ensures ch !in SanitizeMermaidName(name)
  {
    var r := SanitizeMermaidName(name);
    SanitizedIsClean(name);
    assert forall i :: 0 <= i < |r| ==> r[i] != ch;
  }

  predicate IsAlnum(c: char) {
    IsWordChar(c) && c != '_'
  }

  /** The letters and digits of `s`, in order. */
  function Alnums(s: string): string {
    if s == [] then [] else (if IsAlnum(s[0]) then [s[0]] else []) + Alnums(s[1..])
  }

  lemma {:induction false} AlnumsAppend(a: string, b: string)
    ensures Alnums(a + b) == Alnums(a) + Alnums(b)
  {
    if a == [] {
      assert a + b == b;
    } else {
      var h := if IsAlnum(a[0]) then [a[0]] else [];
      assert (a + b)[0] == a[0] && (a + b)[1..] == a[1..] + b;
      assert Alnums(a + b) == h + Alnums(a[1..] + b);
      assert Alnums(a) == h + Alnums(a[1..]);
      AlnumsAppend(a[1..], b);
    }
  }

  /** A front run without letters or digits contributes none. */
  lemma {:induction false} AlnumsSkip(s: string, q: nat)
    requires q <= |s|
    requires forall k :: 0 <= k < q ==> !IsAlnum(s[k])
    ensures Alnums(s) == Alnums(s[q..])
  {
    if q > 0 {
      assert s[1..][q - 1..] == s[q..];
      AlnumsSkip(s[1..], q - 1);
    }
  }

  lemma {:induction false} DropQuotesAlnums(s: string)
    ensures Alnums(DropQuotes(s)) == Alnums(s)
  {
    if s != [] {
      DropQuotesAlnums(s[1..]);
      AlnumsAppend(if IsDropped(s[0]) then [] else [s[0]], DropQuotes(s[1..]));
    }
  }

  lemma {:induction false} SpacesAlnums(s: string)
    ensures Alnums(SpacesToUnderscore(s)) == Alnums(s)
    decreases |s|
  {
    if s != [] {
      if IsSpace(s[0]) {
        var q := SkipSpaces(s, 0);
        SpacesAlnums(s[q..]);
        AlnumsAppend("_", SpacesToUnderscore(s[q..]));
        AlnumsSkip(s, q);
      } else {
        SpacesAlnums(s[1..]);
        AlnumsAppend([s[0]], SpacesToUnderscore(s[1..]));
      }
    }
  }

  lemma {:induction false} OthersAlnums(s: string)
    ensures Alnums(OthersToUnderscore(s)) == Alnums(s)
  {
    if s != [] {
      var o := OthersToUnderscore(s);
      assert o == [o[0]] + OthersToUnderscore(s[1..]);
      OthersAlnums(s[1..]);
      AlnumsAppend([o[0]], OthersToUnderscore(s[1..]));
    }
  }

  lemma {:induction false} CollapseAlnums(s: string)
    ensures Alnums(CollapseUnderscores(s)) == Alnums(s)
    decreases |s|
  {
    if s != [] {
      if s[0] == '_' {
        var q := UnderscoresEnd(s, 0);
        CollapseAlnums(s[q..]);
        AlnumsAppend("_", CollapseUnderscores(s[q..]));
        AlnumsSkip(s, q);
      } else {
        CollapseAlnums(s[1..]);
        AlnumsAppend([s[0]], CollapseUnderscores(s[1..]));
      }
    }
  }

  lemma TrimAlnums(s: string)
    ensures Alnums(TrimUnderscore(s)) == Alnums(s)
  {
    var a := if s != [] && s[0] == '_' then s[1..] else s;
    if s != [] && s[0] == '_' {
      AlnumsSkip(s, 1);
    }
    if a != [] && a[|a| - 1] == '_' {
      var b := a[..|a| - 1];
      assert a == b + "_";
      AlnumsAppend(b, "_");
    }
  }

  /** Only separators change: the letters and digits of a name survive, in order. */
  lemma SanitizeKeepsAlnums(name: string)
    ensures Alnums(SanitizeMermaidName(name)) == Alnums(name)
  {
    var d := DropQuotes(name);
    var s := SpacesToUnderscore(d);
    var o := OthersToUnderscore(s);
    var c := CollapseUnderscores(o);
    DropQuotesAlnums(name);
    SpacesAlnums(d);
    OthersAlnums(s);
    CollapseAlnums(o);
    TrimAlnums(c);
  }
}
