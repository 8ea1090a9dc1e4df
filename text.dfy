/** Character classes and string primitives shared by the AL scanners.
    The source's regular expressions use `\s`, `\w`, `\d` and `\b`; they are
    modelled here over ASCII, and `toLowerCase` as ASCII case mapping. */
module Text {

  datatype Option<+T> = None | Some(value: T)

  /** JavaScript `\s` restricted to ASCII: space, tab, LF, VT, FF, CR. */
  predicate IsSpace(c: char) {
    c == ' ' || c == '\t' || c == '\n' || c == '\r' || c == '\U{0B}' || c == '\U{0C}'
  }

  /** `\w`: `[A-Za-z0-9_]`. */
  predicate IsWordChar(c: char) {
    ('a' <= c <= 'z') || ('A' <= c <= 'Z') || ('0' <= c <= '9') || c == '_'
  }

  /** `[A-Za-z_]`, the first character of a bare AL identifier. */
  predicate IsIdentStart(c: char) {
    ('a' <= c <= 'z') || ('A' <= c <= 'Z') || c == '_'
  }

  predicate IsDigit(c: char) {
    '0' <= c <= '9'
  }

  function LowerChar(c: char): (r: char)
    ensures 'A' <= c <= 'Z' ==> 'a' <= r <= 'z' && r as int == c as int + 32
    ensures !('A' <= c <= 'Z') ==> r == c
  {
    if 'A' <= c <= 'Z' then (c as int + 32) as char else c
  }

  /** `toLowerCase()` on ASCII letters; every other character is kept. */
  function Lower(s: string): (r: string)
    ensures |r| == |s|
    ensures forall i :: 0 <= i < |s| ==> r[i] == LowerChar(s[i])
  {
    seq(|s|, i requires 0 <= i < |s| => LowerChar(s[i]))
  }

  lemma LowerIdempotent(s: string)
    ensures Lower(Lower(s)) == Lower(s)
  {
  }

  lemma LowerAppend(a: string, b: string)
    ensures Lower(a + b) == Lower(a) + Lower(b)
  {
  }

  /** A slice of a lower-cased text is already lower-case. */
  lemma LowerSlice(s: string, a: nat, b: nat)
    requires a <= b <= |s|
    ensures Lower(Lower(s)[a..b]) == Lower(s)[a..b]
  {
    var t := Lower(s)[a..b];
    forall i | 0 <= i < |t| ensures Lower(t)[i] == t[i] {
      assert t[i] == LowerChar(s[a + i]);
    }
  }

  /** Case-insensitive equality, as `a.toLowerCase() === b.toLowerCase()`. */
  predicate EqualsIgnoreCase(a: string, b: string) {
    Lower(a) == Lower(b)
  }

  predicate StartsWith(s: string, prefix: string) {
    |prefix| <= |s| && s[..|prefix|] == prefix
  }

  /** A slice that spells `x + y` spells `x` and then `y`. */
  lemma SliceParts(s: string, q: nat, x: string, y: string)
    requires q + |x| + |y| <= |s| && s[q..q + |x| + |y|] == x + y
    ensures s[q..q + |x|] == x && s[q + |x|..q + |x| + |y|] == y
  {
    var w := s[q..q + |x| + |y|];
    forall i | 0 <= i < |x| ensures s[q..q + |x|][i] == x[i] {
      assert s[q + i] == w[i];
    }
    forall i | 0 <= i < |y| ensures s[q + |x|..q + |x| + |y|][i] == y[i] {
      assert s[q + |x| + i] == w[|x| + i];
    }
  }

  /** A slice that spells `x` and a space spells `x`, with the space right after it. */
  lemma WordThenSpace(s: string, q: nat, x: string, e: nat)
    requires e == q + |x| && e < |s| && s[q..e + 1] == x + " "
    ensures s[q..e] == x && s[e] == ' '
  {
    SliceParts(s, q, x, " ");
    assert s[e] == s[e..e + 1][0];
  }

  /** The literal `lit` occurs at position `p` of `s`, ignoring ASCII case (the regex `i` flag). */
  predicate MatchesAt(s: string, p: nat, lit: string) {
    p + |lit| <= |s| && Lower(s[p..p + |lit|]) == Lower(lit)
  }

  /** `\b`: a word character on exactly one side of position `p`. */
  predicate IsBoundary(s: string, p: nat)
    requires p <= |s|
  {
    (p > 0 && IsWordChar(s[p - 1])) != (p < |s| && IsWordChar(s[p]))
  }

  /** The end of the run of `\s` characters that starts at `p` (what a greedy `\s*` consumes). */
  function SkipSpaces(s: string, p: nat): (q: nat)
    requires p <= |s|
    ensures p <= q <= |s|
    ensures forall k :: p <= k < q ==> IsSpace(s[k])
    ensures q < |s| ==> !IsSpace(s[q])
    decreases |s| - p
  {
    if p < |s| && IsSpace(s[p]) then SkipSpaces(s, p + 1) else p
  }

  /** The end of the run of `\w` characters that starts at `p`. */
  function WordEnd(s: string, p: nat): (q: nat)
    requires p <= |s|
    ensures p <= q <= |s|
    ensures forall k :: p <= k < q ==> IsWordChar(s[k])
    ensures q < |s| ==> !IsWordChar(s[q])
    decreases |s| - p
  {
    if p < |s| && IsWordChar(s[p]) then WordEnd(s, p + 1) else p
  }

  /** The end of the run of digits that starts at `p`. */
  function DigitsEnd(s: string, p: nat): (q: nat)
    requires p <= |s|
    ensures p <= q <= |s|
    ensures forall k :: p <= k < q ==> IsDigit(s[k])
    ensures q < |s| ==> !IsDigit(s[q])
    decreases |s| - p
  {
    if p < |s| && IsDigit(s[p]) then DigitsEnd(s, p + 1) else p
  }

  /** `s.indexOf(c, p)`, with "not found" reported as `|s|`. */
  function FindChar(s: string, c: char, p: nat): (q: nat)
    requires p <= |s|
    ensures p <= q <= |s|
    ensures forall k :: p <= k < q ==> s[k] != c
    ensures q < |s| ==> s[q] == c
    decreases |s| - p
  {
    if p < |s| && s[p] != c then FindChar(s, c, p + 1) else p
  }

  /** The first `c` at or after `p` is the one at `r` when none comes before it. */
  lemma FindCharAt(s: string, c: char, p: nat, r: nat)
    requires p <= r < |s| && s[r] == c
    requires forall k :: p <= k < r ==> s[k] != c
    ensures FindChar(s, c, p) == r
  {
  }

  /** Decimal value of a run of digits (what `parseInt(m, 10)` gives for a `\d+` match). */
  function DigitsValue(s: string): nat
  {
    if |s| == 0 then 0
    else DigitsValue(s[..|s| - 1]) * 10 + (if IsDigit(s[|s| - 1]) then s[|s| - 1] as int - '0' as int else 0)
  }

  /** `trimStart()`. */
  function TrimStart(s: string): (r: string)
    ensures r == s[SkipSpaces(s, 0)..]
  {
    s[SkipSpaces(s, 0)..]
  }

  /** `trimEnd()`. */
  function TrimEnd(s: string): (r: string)
    ensures |r| <= |s| && r == s[..|r|]
    ensures forall k :: |r| <= k < |s| ==> IsSpace(s[k])
    ensures r == [] || !IsSpace(r[|r| - 1])
  {
    if |s| > 0 && IsSpace(s[|s| - 1]) then TrimEnd(s[..|s| - 1]) else s
  }

  /** `trim()`: the result is a slice of `s` with no space at either end, and only spaces were cut. */
  function Trim(s: string): (r: string)
    ensures SkipSpaces(s, 0) + |r| <= |s| && r == s[SkipSpaces(s, 0)..SkipSpaces(s, 0) + |r|]
    ensures forall k :: SkipSpaces(s, 0) + |r| <= k < |s| ==> IsSpace(s[k])
    ensures r == [] || (!IsSpace(r[0]) && !IsSpace(r[|r| - 1]))
  {
    var a := SkipSpaces(s, 0);
    var r := TrimEnd(s[a..]);
    assert r == s[a..a + |r|];
    r
  }

  /** A string with no whitespace at either end is its own trim. */
  lemma TrimOfTrimmed(s: string)
    requires s == [] || (!IsSpace(s[0]) && !IsSpace(s[|s| - 1]))
    ensures Trim(s) == s
  {
  }

  /** A match found at position `pos`, carrying what the pattern captured. */
  datatype Found<M> = Found(pos: nat, m: M)

  /** Leftmost search, as `RegExp.prototype.exec` with `lastIndex = k`:
      the first position at or after `k` where `at` matches. */
  function Search<M>(s: string, k: nat, at: (string, nat) -> Option<M>): (r: Option<Found<M>>)
    ensures r.Some? ==> k <= r.value.pos <= |s| && at(s, r.value.pos) == Some(r.value.m)
    ensures r.Some? ==> forall q :: k <= q < r.value.pos ==> at(s, q).None?
    ensures r.None? ==> forall q :: k <= q <= |s| ==> at(s, q).None?
    decreases |s| + 1 - k
  {
    if k > |s| then None
    else match at(s, k)
      case Some(m) => Some(Found(k, m))
      case None => Search(s, k + 1, at)
  }

  /** Searching from `k` finds the same match as searching from `j` when nothing matches in between. */
  lemma {:induction false} SearchSkip<M>(s: string, k: nat, j: nat, at: (string, nat) -> Option<M>)
    requires k <= j
    requires forall q :: k <= q < j ==> at(s, q).None?
    ensures Search(s, k, at) == Search(s, j, at)
    decreases j - k
  {
    if k < j {
      if k <= |s| {
        assert at(s, k).None?;
      }
      SearchSkip(s, k + 1, j, at);
    }
  }

  /** The first match at or after `k` is the one at `p` when nothing matches in between. */
  lemma SearchFirst<M>(s: string, k: nat, p: nat, at: (string, nat) -> Option<M>, m: M)
    requires k <= p <= |s| && at(s, p) == Some(m)
    requires forall q :: k <= q < p ==> at(s, q).None?
    ensures Search(s, k, at) == Some(Found(p, m))
  {
    SearchSkip(s, k, p, at);
  }

  /** Two matchers that agree on every position from `k` on find the same match. */
  lemma {:induction false} SearchSame<M>(s: string, k: nat, at1: (string, nat) -> Option<M>, at2: (string, nat) -> Option<M>)
    requires forall q :: k <= q <= |s| ==> at1(s, q) == at2(s, q)
    ensures Search(s, k, at1) == Search(s, k, at2)
    decreases |s| + 1 - k
  {
    if k <= |s| {
      assert at1(s, k) == at2(s, k);
      SearchSame(s, k + 1, at1, at2);
    }
  }

  /** `s.replace(/c/g, rep)`: every occurrence of one character replaced by a string. */
  function Subst(s: string, c: char, rep: string): (r: string)
    ensures c !in rep ==> c !in r
    ensures forall d :: d in r ==> d in s || d in rep
  {
    if s == [] then [] else (if s[0] == c then rep else [s[0]]) + Subst(s[1..], c, rep)
  }

  lemma {:induction false} SubstAppend(a: string, b: string, c: char, rep: string)
    ensures Subst(a + b, c, rep) == Subst(a, c, rep) + Subst(b, c, rep)
  {
    if a != [] {
      var h := if a[0] == c then rep else [a[0]];
      assert (a + b)[0] == a[0] && (a + b)[1..] == a[1..] + b;
      assert Subst(a + b, c, rep) == h + Subst(a[1..] + b, c, rep);
      assert Subst(a, c, rep) == h + Subst(a[1..], c, rep);
      SubstAppend(a[1..], b, c, rep);
    } else {
      assert a + b == b;
    }
  }

  /** A replacement of a character that does not occur changes nothing. */
  lemma {:induction false} SubstAbsent(s: string, c: char, rep: string)
    requires c !in s
    ensures Subst(s, c, rep) == s
  {
    if s != [] {
      SubstAbsent(s[1..], c, rep);
    }
  }

  lemma SubstOne(c: char, x: char, rep: string)
    ensures Subst([c], x, rep) == if c == x then rep else [c]
  {
    assert [c][1..] == [];
  }

  /** The first `sep` of `a + [sep] + b` is the one after `a` when `a` has none. */
  lemma FindAfter(a: string, sep: char, b: string)
    requires sep !in a
    ensures FindChar(a + [sep] + b, sep, 0) == |a|
  {
    var s := a + [sep] + b;
    assert s[|a|] == sep;
    assert forall k :: 0 <= k < |a| ==> s[k] == a[k];
  }

  /** A string with one separator in front of the rest splits back into its two parts. */
  lemma SplitAtSep(a: string, b: string, c: string, d: string, sep: char)
    requires sep !in a && sep !in c
    requires a + [sep] + b == c + [sep] + d
    ensures a == c && b == d
  {
    FindAfter(a, sep, b);
    FindAfter(c, sep, d);
    var s := a + [sep] + b;
    assert a == s[..|a|] && b == s[|a| + 1..];
    assert c == s[..|c|] && d == s[|c| + 1..];
  }
}
