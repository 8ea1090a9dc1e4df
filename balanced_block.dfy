/** `extractBalancedBlock` (src/alParser.ts): given the index just after an
    opening `{`, the text up to the `}` that closes it. Braces inside a `'` or
    `"` string, and everything after `//` up to the end of the line, are ignored.
    Unbalanced text is not an error: the scan runs to the end of the text. */
module BalancedBlock {
  import opened Text

  /** Whether the scanner is in code or inside a string opened by `quote`. */
  datatype Mode = Code | InString(quote: char)

  predicate IsQuote(c: char) {
    c == '\'' || c == '"'
  }

  /** The index at which the scan that starts at `i` with nesting `depth` stops.
      It may be `|c| + 1`: a `//` comment without a newline moves the cursor to
      `|c|` and the loop still advances it once (the final `substring` clamps). */
  function ScanEnd(c: string, i: nat, depth: nat, mode: Mode): (e: nat)
    requires i <= |c| + 1
    ensures i <= e <= |c| + 1
    ensures depth > 0 && e < |c| ==> c[e] == '}'
    decreases |c| + 1 - i
  {
    if i >= |c| || depth == 0 then i
    else if mode.InString? then
      ScanEnd(c, i + 1, depth, if c[i] == mode.quote then Code else mode)
    else if IsQuote(c[i]) then ScanEnd(c, i + 1, depth, InString(c[i]))
    else if c[i] == '{' then ScanEnd(c, i + 1, depth + 1, Code)
    else if c[i] == '}' then (if depth == 1 then i else ScanEnd(c, i + 1, depth - 1, Code))
    else if c[i] == '/' && i + 1 < |c| && c[i + 1] == '/' then
      ScanEnd(c, FindChar(c, '\n', i) + 1, depth, Code)
    else ScanEnd(c, i + 1, depth, Code)
  }

  /** The index where the block that starts at `start` ends (clamped to the text). */
  function BlockEnd(c: string, start: nat): (e: nat)
    requires start <= |c|
    ensures start <= e <= |c|
    ensures e < |c| ==> c[e] == '}'
  {
    var e := ScanEnd(c, start, 1, Code);
    if e <= |c| then e else |c|
  }

  /** What `extractBalancedBlock(c, start)` returns: a slice of the text that starts
      at `start` and either runs to the end of the text or stops just before a `}`. */
  function Block(c: string, start: nat): (r: string)
    ensures start <= |c| ==> start + |r| <= |c| && r == c[start..start + |r|]
    ensures start <= |c| && start + |r| < |c| ==> c[start + |r|] == '}'
    ensures start > |c| ==> r == []
  {
    if start <= |c| then c[start..BlockEnd(c, start)] else []
  }

  method ExtractBalancedBlock(content: string, startAfterBrace: nat) returns (block: string)
    ensures block == Block(content, startAfterBrace)
  {
    var depth: nat := 1;
    var i := startAfterBrace;
    var inString := false;
    var stringChar := '"';
    while i < |content| && depth > 0
      invariant startAfterBrace <= i
      invariant startAfterBrace <= |content| ==> i <= |content| + 1
      invariant startAfterBrace <= |content| ==>
        ScanEnd(content, i, depth, if inString then InString(stringChar) else Code)
          == ScanEnd(content, startAfterBrace, 1, Code)
      invariant startAfterBrace > |content| ==> i == startAfterBrace
      decreases |content| - i, depth
    {
      var ch := content[i];
      if inString {
        if ch == stringChar {
          inString := false;
        }
      } else {
        if ch == '\'' || ch == '"' {
          inString := true;
          stringChar := ch;
        } else if ch == '{' {
          depth := depth + 1;
        } else if ch == '}' {
          depth := depth - 1;
        } else if ch == '/' && i + 1 < |content| && content[i + 1] == '/' {
          // indexOf("\n", i), with -1 read as the end of the text
          i := FindChar(content, '\n', i);
        }
      }
      if depth > 0 {
        i := i + 1;
      }
    }
    // substring clamps both bounds to the length of the text
    if startAfterBrace <= |content| {
      block := content[startAfterBrace..if i <= |content| then i else |content|];
    } else {
      block := "";
    }
  }

  /** Inside a string opened by `q`, nothing counts until the next `q`; an
      unterminated string swallows the rest of the text. */
  lemma {:induction false} StringRun(c: string, j: nat, depth: nat, q: char)
    requires j <= |c| && depth > 0
    ensures var k := FindChar(c, q, j);
      ScanEnd(c, j, depth, InString(q)) == if k < |c| then ScanEnd(c, k + 1, depth, Code) else |c|
    decreases |c| - j
  {
    if j < |c| && c[j] != q {
      StringRun(c, j + 1, depth, q);
    }
  }

  /** A quoted span hides its braces and `//` from the depth count. */
  lemma QuotedSpan(c: string, i: nat, depth: nat)
    requires i < |c| && IsQuote(c[i]) && depth > 0
    ensures var k := FindChar(c, c[i], i + 1);
      ScanEnd(c, i, depth, Code) == if k < |c| then ScanEnd(c, k + 1, depth, Code) else |c|
  {
    StringRun(c, i + 1, depth, c[i]);
  }

  /** Outside strings, `//` skips to the line end; the newline itself is skipped too. */
  lemma CommentSpan(c: string, i: nat, depth: nat)
    requires i + 1 < |c| && c[i] == '/' && c[i + 1] == '/' && depth > 0
    ensures ScanEnd(c, i, depth, Code) == ScanEnd(c, FindChar(c, '\n', i) + 1, depth, Code)
  {
  }

  /** Text with no `}` after `start` is unbalanced: the whole rest is returned. */
  lemma UnbalancedTakesRest(c: string, start: nat)
    requires start <= |c|
    requires forall k :: start <= k < |c| ==> c[k] != '}'
    ensures Block(c, start) == c[start..]
  {
  }

  /** Well-nested block content, built from pieces the scanner treats as a unit. */
  datatype Piece =
    | Plain(ch: char)                  // one character that is not a quote or a brace; a '/' not followed by '/'
    | Str(quote: char, text: string)   // a string literal: quote, text without that quote, quote
    | LineComment(text: string)        // "//", text without a newline, "\n"
    | Nested(inner: seq<Piece>)        // "{", nested content, "}"

  predicate WellFormedPiece(p: Piece)
    decreases p
  {
    match p
    case Plain(ch) => !IsQuote(ch) && ch != '{' && ch != '}'
    case Str(q, t) => IsQuote(q) && q !in t
    case LineComment(t) => '\n' !in t
    case Nested(inner) => WellFormed(inner)
  }

  /** Pieces in a row; a single `/` is never followed by a piece that starts with
      `/`, since the two would read as a comment marker. */
  predicate WellFormed(ps: seq<Piece>)
    decreases ps
  {
    ps == [] ||
    (WellFormedPiece(ps[0]) &&
     (|ps| >= 2 && ps[0] == Plain('/') ==> RenderPiece(ps[1])[0] != '/') &&
     WellFormed(ps[1..]))
  }

  /** The text of one piece; never empty. */
  function RenderPiece(p: Piece): (r: string)
    ensures r != []
    decreases p
  {
    match p
    case Plain(ch) => [ch]
    case Str(q, t) => [q] + t + [q]
    case LineComment(t) => "//" + t + "\n"
    case Nested(inner) => "{" + Render(inner) + "}"
  }

  function Render(ps: seq<Piece>): string
    decreases ps
  {
    if ps == [] then [] else RenderPiece(ps[0]) + Render(ps[1..])
  }

  /** Scanning over well-nested content, laid down from `i` to `e` and followed
      by a `}`, leaves depth and mode as they were. */
  lemma {:induction false} ScanOverPieces(c: string, i: nat, e: nat, depth: nat, ps: seq<Piece>)
    requires WellFormed(ps) && depth > 0
    requires e == i + |Render(ps)| && e < |c| && c[i..e] == Render(ps) && c[e] == '}'
    ensures ScanEnd(c, i, depth, Code) == ScanEnd(c, e, depth, Code)
    decreases ps
  {
    if ps != [] {
      var head := RenderPiece(ps[0]);
      var rest := Render(ps[1..]);
      assert Render(ps) == head + rest;
      SliceParts(c, i, head, rest);
      var m := i + |head|;
      if ps[1..] != [] {
        assert rest == RenderPiece(ps[1]) + Render(ps[2..]);
        assert c[m] == c[m..e][0] == rest[0];
      }
      ScanOverPiece(c, i, m, depth, ps[0]);
      ScanOverPieces(c, m, e, depth, ps[1..]);
    }
  }

  lemma {:induction false} ScanOverPiece(c: string, i: nat, e: nat, depth: nat, p: Piece)
    requires WellFormedPiece(p) && depth > 0
    requires e == i + |RenderPiece(p)| && e < |c| && c[i..e] == RenderPiece(p)
    requires p == Plain('/') ==> c[e] != '/'
    ensures ScanEnd(c, i, depth, Code) == ScanEnd(c, e, depth, Code)
    decreases p, 1
  {
    match p
    case Plain(ch) => {
      assert c[i] == c[i..e][0];
      ScanOverPlain(c, i, depth);
    }
    case Str(_, _) => ScanOverString(c, i, e, depth, p);
    case LineComment(_) => ScanOverComment(c, i, e, depth, p);
    case Nested(_) => ScanOverNested(c, i, e, depth, p);
  }

  /** A character that is not a quote or a brace, and not the start of `//`, is stepped over. */
  lemma ScanOverPlain(c: string, i: nat, depth: nat)
    requires i + 1 < |c| && depth > 0
    requires !IsQuote(c[i]) && c[i] != '{' && c[i] != '}' && (c[i] == '/' ==> c[i + 1] != '/')
    ensures ScanEnd(c, i, depth, Code) == ScanEnd(c, i + 1, depth, Code)
  {
  }

  /** An opening brace outside strings and comments goes one level deeper. */
  lemma ScanOverOpen(c: string, i: nat, depth: nat)
    requires i < |c| && c[i] == '{' && depth > 0
    ensures ScanEnd(c, i, depth, Code) == ScanEnd(c, i + 1, depth + 1, Code)
  {
  }

  /** A closing brace just before `e`, below the outermost level, comes back up one level. */
  lemma ScanOverClose(c: string, e: nat, depth: nat)
    requires 0 < e <= |c| && c[e - 1] == '}' && depth > 0
    ensures ScanEnd(c, e - 1, depth + 1, Code) == ScanEnd(c, e, depth, Code)
  {
  }

  /** The characters of `{X}` laid down from `i` to `e`. */
  lemma NestedChars(c: string, i: nat, e: nat, ri: string)
    requires e == i + |ri| + 2 && e <= |c| && c[i..e] == "{" + ri + "}"
    ensures c[i] == '{' && c[e - 1] == '}'
    ensures c[i + 1..e - 1] == ri
  {
    var w := c[i..e];
    assert w[1..1 + |ri|] == ri;
    forall k | 0 <= k < |ri| ensures c[i + 1 + k] == ri[k] {
      assert c[i + 1 + k] == w[1 + k] == w[1..1 + |ri|][k];
    }
    assert c[i] == w[0];
    assert c[e - 1] == w[|ri| + 1];
  }

  lemma {:induction false} ScanOverNested(c: string, i: nat, e: nat, depth: nat, p: Piece)
    requires p.Nested? && WellFormedPiece(p) && depth > 0
    requires e == i + |RenderPiece(p)| && e <= |c| && c[i..e] == RenderPiece(p)
    ensures ScanEnd(c, i, depth, Code) == ScanEnd(c, e, depth, Code)
    decreases p, 0
  {
    var ri := Render(p.inner);
    assert RenderPiece(p) == "{" + ri + "}";
    NestedChars(c, i, e, ri);
    ScanOverOpen(c, i, depth);
    ScanOverPieces(c, i + 1, e - 1, depth + 1, p.inner);
    ScanOverClose(c, e, depth);
  }

  /** The characters of a quoted literal laid down from `i` to `e`. */
  lemma QuotedChars(c: string, i: nat, e: nat, q: char, t: string)
    requires q !in t
    requires e == i + |t| + 2 && e <= |c| && c[i..e] == [q] + t + [q]
    ensures c[i] == q && c[e - 1] == q
    ensures forall k :: i + 1 <= k < e - 1 ==> c[k] != q
  {
    var w := c[i..e];
    assert c[i] == w[0];
    assert c[e - 1] == w[1 + |t|];
    forall k | i + 1 <= k < e - 1 ensures c[k] != q {
      assert c[k] == w[k - i] == t[k - i - 1];
    }
  }

  /** A string that closes just before `e` is skipped as a whole. */
  lemma QuotedSpanTo(c: string, i: nat, e: nat, depth: nat)
    requires i + 2 <= e <= |c| && IsQuote(c[i]) && c[e - 1] == c[i] && depth > 0
    requires forall k :: i + 1 <= k < e - 1 ==> c[k] != c[i]
    ensures ScanEnd(c, i, depth, Code) == ScanEnd(c, e, depth, Code)
  {
    FindCharAt(c, c[i], i + 1, e - 1);
    QuotedSpan(c, i, depth);
  }

  lemma ScanOverString(c: string, i: nat, e: nat, depth: nat, p: Piece)
    requires p.Str? && WellFormedPiece(p) && depth > 0
    requires e == i + |RenderPiece(p)| && e <= |c| && c[i..e] == RenderPiece(p)
    ensures ScanEnd(c, i, depth, Code) == ScanEnd(c, e, depth, Code)
  {
    var q, t := p.quote, p.text;
    assert RenderPiece(p) == [q] + t + [q];
    QuotedChars(c, i, e, q, t);
    QuotedSpanTo(c, i, e, depth);
  }

  /** The characters of a line comment laid down from `i` to `e`. */
  lemma CommentChars(c: string, i: nat, e: nat, t: string)
    requires '\n' !in t
    requires e == i + |t| + 3 && e <= |c| && c[i..e] == "//" + t + "\n"
    ensures c[i] == '/' && c[i + 1] == '/' && c[e - 1] == '\n'
    ensures forall k :: i <= k < e - 1 ==> c[k] != '\n'
  {
    var w := c[i..e];
    assert c[i] == w[0];
    assert c[i + 1] == w[1];
    assert c[e - 1] == w[2 + |t|];
    forall k | i <= k < e - 1 ensures c[k] != '\n' {
      assert c[k] == w[k - i];
      if k >= i + 2 {
        assert w[k - i] == t[k - i - 2];
      }
    }
  }

  lemma ScanOverComment(c: string, i: nat, e: nat, depth: nat, p: Piece)
    requires p.LineComment? && WellFormedPiece(p) && depth > 0
    requires e == i + |RenderPiece(p)| && e <= |c| && c[i..e] == RenderPiece(p)
    ensures ScanEnd(c, i, depth, Code) == ScanEnd(c, e, depth, Code)
  {
    var t := p.text;
    assert RenderPiece(p) == "//" + t + "\n";
    CommentChars(c, i, e, t);
    CommentSpanTo(c, i, e, depth);
  }

  /** A comment whose line ends just before `e` is skipped as a whole. */
  lemma CommentSpanTo(c: string, i: nat, e: nat, depth: nat)
    requires i + 3 <= e <= |c| && c[i] == '/' && c[i + 1] == '/' && c[e - 1] == '\n' && depth > 0
    requires forall k :: i <= k < e - 1 ==> c[k] != '\n'
    ensures ScanEnd(c, i, depth, Code) == ScanEnd(c, e, depth, Code)
  {
    FindCharAt(c, '\n', i, e - 1);
    CommentSpan(c, i, depth);
  }

  /** For well-nested content X, the block read just after `{` in `{X}...` is exactly X. */
  lemma BalancedBlockIsContent(pre: string, ps: seq<Piece>, rest: string)
    requires WellFormed(ps)
    ensures Block(pre + Render(ps) + "}" + rest, |pre|) == Render(ps)
  {
    var x := Render(ps);
    var c := pre + x + "}" + rest;
    var e := |pre| + |x|;
    assert c[|pre|..e] == x;
    ScanOverPieces(c, |pre|, e, 1, ps);
    assert c[e] == '}';
    assert ScanEnd(c, e, 1, Code) == e;
    assert BlockEnd(c, |pre|) == e;
  }
}
