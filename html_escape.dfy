/** The HTML escaping both webview builders apply to the page title and subtitle:
    `&`, `<`, `>` and `"` replaced, in that order, by their character references. */
module HtmlEscape {
  import opened Text

  /** The text with `&`, `<`, `>` and `"` replaced by their character references,
      in four passes with `&` first. */
  function EscapeHtml(s: string): (r: string)
    ensures '<' !in r && '>' !in r && '"' !in r
  {
    Subst(Subst(Subst(Subst(s, '&', "&amp;"), '<', "&lt;"), '>', "&gt;"), '"', "&quot;")
  }

  /** What one character becomes. */
  function EscapeChar(c: char): string {
    if c == '&' then "&amp;"
    else if c == '<' then "&lt;"
    else if c == '>' then "&gt;"
    else if c == '"' then "&quot;"
    else [c]
  }

  /** Escaping character by character. */
  function EscapeEach(s: string): string {
    if s == [] then [] else EscapeChar(s[0]) + EscapeEach(s[1..])
  }

  /** Decoding the four character references back; every other character is kept. */
  function Unescape(s: string): string
    decreases |s|
  {
    if s == [] then []
    else if StartsWith(s, "&amp;") then "&" + Unescape(s[5..])
    else if StartsWith(s, "&lt;") then "<" + Unescape(s[4..])
    else if StartsWith(s, "&gt;") then ">" + Unescape(s[4..])
    else if StartsWith(s, "&quot;") then "\"" + Unescape(s[6..])
    else [s[0]] + Unescape(s[1..])
  }

  lemma EscapeHtmlAppend(a: string, b: string)
    ensures EscapeHtml(a + b) == EscapeHtml(a) + EscapeHtml(b)
  {
    var s1, s2 := Subst(a, '&', "&amp;"), Subst(b, '&', "&amp;");
    SubstAppend(a, b, '&', "&amp;");
    var t1, t2 := Subst(s1, '<', "&lt;"), Subst(s2, '<', "&lt;");
    SubstAppend(s1, s2, '<', "&lt;");
    var u1, u2 := Subst(t1, '>', "&gt;"), Subst(t2, '>', "&gt;");
    SubstAppend(t1, t2, '>', "&gt;");
    SubstAppend(u1, u2, '"', "&quot;");
  }

  /** The chain of replacements on a single character. */
  lemma EscapeHtmlChar(c: char)
    ensures EscapeHtml([c]) == EscapeChar(c)
  {
    SubstOne(c, '&', "&amp;");
    if c == '&' {
      assert '<' !in "&amp;" && '>' !in "&amp;" && '"' !in "&amp;";
      SubstAbsent("&amp;", '<', "&lt;");
      SubstAbsent("&amp;", '>', "&gt;");
      SubstAbsent("&amp;", '"', "&quot;");
    } else {
      SubstOne(c, '<', "&lt;");
      if c == '<' {
        assert '>' !in "&lt;" && '"' !in "&lt;";
        SubstAbsent("&lt;", '>', "&gt;");
        SubstAbsent("&lt;", '"', "&quot;");
      } else {
        SubstOne(c, '>', "&gt;");
        if c == '>' {
          assert '"' !in "&gt;";
          SubstAbsent("&gt;", '"', "&quot;");
        } else {
          SubstOne(c, '"', "&quot;");
        }
      }
    }
  }

  /** The chained replacements equal escaping each character on its own: no
      replacement text is rewritten by a later replacement. */
  lemma {:induction false} EscapeHtmlIsEach(s: string)
    ensures EscapeHtml(s) == EscapeEach(s)
    decreases |s|
  {
    if s != [] {
      assert s == [s[0]] + s[1..];
      EscapeHtmlAppend([s[0]], s[1..]);
      EscapeHtmlChar(s[0]);
      EscapeHtmlIsEach(s[1..]);
    }
  }

  /** One of the four character references starts at position `i` of `r`. */
  predicate ReferenceAt(r: string, i: nat)
    requires i < |r|
  {
    StartsWith(r[i..], "&amp;") || StartsWith(r[i..], "&lt;") ||
    StartsWith(r[i..], "&gt;") || StartsWith(r[i..], "&quot;")
  }

  /** In an escaped character, an `&` can only be the first character of a reference. */
  lemma EscapeCharAmpersand(c: char, t: string, i: nat)
    requires i < |EscapeChar(c)| && EscapeChar(c)[i] == '&'
    ensures i == 0 && ReferenceAt(EscapeChar(c) + t, 0)
  {
    var r := EscapeChar(c) + t;
    assert r[0..] == r;
    assert r[..|EscapeChar(c)|] == EscapeChar(c);
  }

  lemma {:induction false} EachAmpersandsStartReferences(s: string)
    ensures forall i :: 0 <= i < |EscapeEach(s)| && EscapeEach(s)[i] == '&' ==> ReferenceAt(EscapeEach(s), i)
    decreases |s|
  {
    if s != [] {
      var e, t := EscapeChar(s[0]), EscapeEach(s[1..]);
      var r := e + t;
      assert EscapeEach(s) == r;
      EachAmpersandsStartReferences(s[1..]);
      forall i | 0 <= i < |r| && r[i] == '&' ensures ReferenceAt(r, i) {
        if i < |e| {
          EscapeCharAmpersand(s[0], t, i);
        } else {
          assert r[i..] == t[i - |e|..];
          assert t[i - |e|] == r[i];
        }
      }
    }
  }

  /** Every `&` of the escaped text starts one of the four character references:
      no `&` of the input is left bare. */
  lemma AmpersandsStartReferences(s: string)
    ensures forall i :: 0 <= i < |EscapeHtml(s)| && EscapeHtml(s)[i] == '&' ==> ReferenceAt(EscapeHtml(s), i)
  {
    EscapeHtmlIsEach(s);
    EachAmpersandsStartReferences(s);
  }

  lemma UnescapeAmp(t: string)
    ensures Unescape("&amp;" + t) == "&" + Unescape(t)
  {
    var e := "&amp;" + t;
    assert e[..5] == "&amp;" && e[5..] == t;
  }

  lemma UnescapeLt(t: string)
    ensures Unescape("&lt;" + t) == "<" + Unescape(t)
  {
    var e := "&lt;" + t;
    assert e[..4] == "&lt;" && e[4..] == t;
    assert !StartsWith(e, "&amp;") by {
      assert |e| < 5 || e[..5][1] == e[1] == 'l';
    }
  }

  lemma UnescapeGt(t: string)
    ensures Unescape("&gt;" + t) == ">" + Unescape(t)
  {
    var e := "&gt;" + t;
    assert e[..4] == "&gt;" && e[4..] == t;
    assert !StartsWith(e, "&amp;") by {
      assert |e| < 5 || e[..5][1] == e[1] == 'g';
    }
    assert !StartsWith(e, "&lt;") by {
      assert e[..4][1] == e[1] == 'g';
    }
  }

  lemma UnescapeQuot(t: string)
    ensures Unescape("&quot;" + t) == "\"" + Unescape(t)
  {
    var e := "&quot;" + t;
    assert e[..6] == "&quot;" && e[6..] == t;
    assert e[..5][1] == e[..4][1] == e[1] == 'q';
  }

  lemma UnescapePlain(c: char, t: string)
    requires c != '&'
    ensures Unescape([c] + t) == [c] + Unescape(t)
  {
    var e := [c] + t;
    assert e[1..] == t;
    assert e[0] == c;
    assert |e| < 4 || e[..4][0] == c;
    assert |e| < 5 || e[..5][0] == c;
    assert |e| < 6 || e[..6][0] == c;
  }

  /** Decoding one escaped character in front of anything. */
  lemma UnescapeChar(c: char, t: string)
    ensures Unescape(EscapeChar(c) + t) == [c] + Unescape(t)
  {
    if c == '&' {
      UnescapeAmp(t);
    } else if c == '<' {
      UnescapeLt(t);
    } else if c == '>' {
      UnescapeGt(t);
    } else if c == '"' {
      UnescapeQuot(t);
    } else {
      UnescapePlain(c, t);
    }
  }

  /** Escaping loses nothing: decoding the references gives the original text back. */
  lemma {:induction false} EscapeHtmlRoundTrip(s: string)
    ensures Unescape(EscapeHtml(s)) == s
  {
    EscapeHtmlIsEach(s);
    EachRoundTrip(s);
  }

  lemma {:induction false} EachRoundTrip(s: string)
    ensures Unescape(EscapeEach(s)) == s
    decreases |s|
  {
    if s != [] {
      UnescapeChar(s[0], EscapeEach(s[1..]));
      EachRoundTrip(s[1..]);
      assert s == [s[0]] + s[1..];
    }
  }
}
