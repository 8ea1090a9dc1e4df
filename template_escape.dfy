/** The escaping that embeds the Mermaid text in the JavaScript template literal
    of the export page: `\` is doubled, then `` ` `` and `$` get a backslash in
    front, so the text can neither close the literal nor open a `${…}` substitution. */
module TemplateEscape {
  import opened Text

  /** The text with a backslash put in front of every backslash, backtick and
      dollar sign, in three passes with the backslash first. */
  function EscapeTemplate(s: string): string {
    Subst(Subst(Subst(s, '\\', "\\\\"), '`', "\\`"), '$', "\\$")
  }

  /** What one character becomes. */
  function EscapeTemplateChar(c: char): string {
    if c == '\\' then "\\\\"
    else if c == '`' then "\\`"
    else if c == '$' then "\\$"
    else [c]
  }

  /** Escaping character by character. */
  function EscapeTemplateEach(s: string): string {
    if s == [] then [] else EscapeTemplateChar(s[0]) + EscapeTemplateEach(s[1..])
  }

  /** The value of the literal's body as JavaScript reads it, for the escapes the
      export writes: `\\`, `` \` `` and `\$` stand for the character after the
      backslash. Any other backslash is kept as it is; escaped text holds none.
      A line end written as CR LF or as a lone CR is read as LF. */
  function Cooked(s: string): string
    decreases |s|
  {
    if s == [] then []
    else if |s| >= 2 && s[0] == '\\' && (s[1] == '\\' || s[1] == '`' || s[1] == '$') then [s[1]] + Cooked(s[2..])
    else if s[0] == '\r' then "\n" + Cooked(if |s| >= 2 && s[1] == '\n' then s[2..] else s[1..])
    else [s[0]] + Cooked(s[1..])
  }

  /** The text with every CR LF pair and every lone CR replaced by LF, as a
      template literal reads its line ends. */
  function NormalizeLineEnds(s: string): string
    decreases |s|
  {
    if s == [] then []
    else if s[0] == '\r' then "\n" + NormalizeLineEnds(if |s| >= 2 && s[1] == '\n' then s[2..] else s[1..])
    else [s[0]] + NormalizeLineEnds(s[1..])
  }

  /** No CR survives the line-end rule. */
  lemma {:induction false} NormalizedHasNoCR(s: string)
    ensures '\r' !in NormalizeLineEnds(s)
    decreases |s|
  {
    if s != [] {
      if s[0] == '\r' {
        NormalizedHasNoCR(if |s| >= 2 && s[1] == '\n' then s[2..] else s[1..]);
      } else {
        NormalizedHasNoCR(s[1..]);
      }
    }
  }

  /** Text without a CR is left as it is by the line-end rule. */
  lemma {:induction false} NormalizeWithoutCR(s: string)
    requires '\r' !in s
    ensures NormalizeLineEnds(s) == s
    decreases |s|
  {
    if s != [] {
      assert s[0] != '\r' && '\r' !in s[1..];
      NormalizeWithoutCR(s[1..]);
      assert s == [s[0]] + s[1..];
    }
  }

  /** Read from left to right, as the JavaScript lexer does, every backslash
      starts a two-character escape and no backtick or dollar stands unescaped:
      the text neither ends the literal nor starts a substitution. */
  predicate Inert(s: string)
    decreases |s|
  {
    s == [] ||
    (|s| >= 2 && s[0] == '\\' && Inert(s[2..])) ||
    (s[0] != '\\' && s[0] != '`' && s[0] != '$' && Inert(s[1..]))
  }

  lemma EscapeTemplateAppend(a: string, b: string)
    ensures EscapeTemplate(a + b) == EscapeTemplate(a) + EscapeTemplate(b)
  {
    var s1, s2 := Subst(a, '\\', "\\\\"), Subst(b, '\\', "\\\\");
    SubstAppend(a, b, '\\', "\\\\");
    var t1, t2 := Subst(s1, '`', "\\`"), Subst(s2, '`', "\\`");
    SubstAppend(s1, s2, '`', "\\`");
    SubstAppend(t1, t2, '$', "\\$");
  }

  /** The chain of replacements on a single character. */
  lemma EscapeTemplateOne(c: char)
    ensures EscapeTemplate([c]) == EscapeTemplateChar(c)
  {
    SubstOne(c, '\\', "\\\\");
    if c == '\\' {
      assert '`' !in "\\\\" && '$' !in "\\\\";
      SubstAbsent("\\\\", '`', "\\`");
      SubstAbsent("\\\\", '$', "\\$");
    } else {
      SubstOne(c, '`', "\\`");
      if c == '`' {
        assert '$' !in "\\`";
        SubstAbsent("\\`", '$', "\\$");
      } else {
        SubstOne(c, '$', "\\$");
      }
    }
  }

  /** The chained replacements equal escaping each character on its own: the
      backslashes the later replacements add are not doubled again. */
  lemma {:induction false} EscapeTemplateIsEach(s: string)
    ensures EscapeTemplate(s) == EscapeTemplateEach(s)
    decreases |s|
  {
    if s != [] {
      assert s == [s[0]] + s[1..];
      EscapeTemplateAppend([s[0]], s[1..]);
      EscapeTemplateOne(s[0]);
      EscapeTemplateIsEach(s[1..]);
    }
  }

  /** Reading one escaped character other than CR in front of anything. */
  lemma CookedChar(c: char, t: string)
    requires c != '\r'
    ensures Cooked(EscapeTemplateChar(c) + t) == [c] + Cooked(t)
  {
    var e := EscapeTemplateChar(c) + t;
    if c == '\\' || c == '`' || c == '$' {
      assert e[0] == '\\' && e[1] == c && e[2..] == t;
    } else {
      assert e[0] == c && e[1..] == t;
    }
  }

  /** Escaped text starts with LF exactly when the text does. */
  lemma EachStartsLF(s: string)
    requires s != []
    ensures EscapeTemplateEach(s) != [] && (EscapeTemplateEach(s)[0] == '\n' <==> s[0] == '\n')
  {
    assert EscapeTemplateEach(s) == EscapeTemplateChar(s[0]) + EscapeTemplateEach(s[1..]);
  }

  lemma {:induction false} EachCooked(s: string)
    ensures Cooked(EscapeTemplateEach(s)) == NormalizeLineEnds(s)
    decreases |s|
  {
    if s != [] {
      var t := EscapeTemplateEach(s[1..]);
      assert EscapeTemplateEach(s) == EscapeTemplateChar(s[0]) + t;
      if s[0] == '\r' {
        var e := "\r" + t;
        assert e[1..] == t;
        if |s| >= 2 && s[1] == '\n' {
          EachStartsLF(s[1..]);
          assert t == "\n" + EscapeTemplateEach(s[2..]);
          assert e[2..] == EscapeTemplateEach(s[2..]);
          EachCooked(s[2..]);
        } else {
          if s[1..] != [] {
            EachStartsLF(s[1..]);
          }
          EachCooked(s[1..]);
        }
      } else {
        CookedChar(s[0], t);
        EachCooked(s[1..]);
      }
    }
  }

  /** The value of the template literal is the Mermaid text with its line ends
      read as LF. */
  lemma EscapeTemplateRoundTrip(s: string)
    ensures Cooked(EscapeTemplate(s)) == NormalizeLineEnds(s)
  {
    EscapeTemplateIsEach(s);
    EachCooked(s);
  }

  /** For text without a CR, the value of the template literal is exactly the text. */
  lemma EscapeTemplateRoundTripNoCR(s: string)
    requires '\r' !in s
    ensures Cooked(EscapeTemplate(s)) == s
  {
    EscapeTemplateRoundTrip(s);
    NormalizeWithoutCR(s);
  }

  lemma {:induction false} EachInert(s: string)
    ensures Inert(EscapeTemplateEach(s))
    decreases |s|
  {
    if s != [] {
      var t := EscapeTemplateEach(s[1..]);
      EachInert(s[1..]);
      var e := EscapeTemplateChar(s[0]) + t;
      if s[0] == '\\' || s[0] == '`' || s[0] == '$' {
        assert e[2..] == t;
      } else {
        assert e[1..] == t;
      }
    }
  }

  /** The escaped text cannot end the literal or start a substitution. */
  lemma EscapeTemplateInert(s: string)
    ensures Inert(EscapeTemplate(s))
  {
    EscapeTemplateIsEach(s);
    EachInert(s);
  }
}
