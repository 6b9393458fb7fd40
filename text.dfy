/**
 * The three pieces of Python's str behaviour the format relies on: str.isspace,
 * str.strip() (no arguments) and str.split() (no arguments), plus the right-padding
 * a writer of the fixed-width header uses, which is what strip() undoes.
 */
module Text {

  /** Python's str.isspace for one character: the ASCII separators and the Unicode spaces. */
  predicate IsSpace(c: char) {
    c == ' ' || ('\t' <= c <= '\r') || ('\U{1C}' <= c <= '\U{1F}')
    || c == '\U{85}' || c == '\U{A0}' || c == '\U{1680}'
    || ('\U{2000}' <= c <= '\U{200A}')
    || c == '\U{2028}' || c == '\U{2029}' || c == '\U{202F}' || c == '\U{205F}' || c == '\U{3000}'
  }

  predicate IsAscii(s: string) {
    forall i :: 0 <= i < |s| ==> s[i] < '\U{80}'
  }

  predicate AllSpace(s: string) {
    forall i :: 0 <= i < |s| ==> IsSpace(s[i])
  }

  predicate NoSpace(s: string) {
    forall i :: 0 <= i < |s| ==> !IsSpace(s[i])
  }

  /** A string strip() leaves unchanged: empty, or starting and ending with a non-space. */
  predicate IsTrimmed(s: string) {
    s == [] || (!IsSpace(s[0]) && !IsSpace(s[|s| - 1]))
  }

  /**
   * str.strip(): s without its leading and trailing spaces. The result is trimmed and no
   * longer than s; StripEmpty and StripPadded say which infix it is.
   */
  function Strip(s: string): (r: string)
    ensures IsTrimmed(r) && |r| <= |s|
    decreases |s|
  {
    if s == [] then []
    else if IsSpace(s[0]) then Strip(s[1..])
    else if IsSpace(s[|s| - 1]) then Strip(s[..|s| - 1])
    else s
  }

  /** strip() gives the empty string exactly for an all-space string. */
  lemma {:induction false} StripEmpty(s: string)
    ensures Strip(s) == [] <==> AllSpace(s)
    decreases |s|
  {
    if s == [] {
    } else if IsSpace(s[0]) {
      StripEmpty(s[1..]);
      assert AllSpace(s) <==> AllSpace(s[1..]) by {
        if AllSpace(s[1..]) {
          forall i | 0 <= i < |s| ensures IsSpace(s[i]) {
            if i > 0 { assert s[i] == s[1..][i - 1]; }
          }
        }
      }
    } else {
      assert !AllSpace(s);
      if IsSpace(s[|s| - 1]) {
        StripEmpty(s[..|s| - 1]);
        assert !AllSpace(s[..|s| - 1]) by { assert s[..|s| - 1][0] == s[0]; }
      }
    }
  }

  /** strip() removes exactly the space padding around a trimmed string. */
  lemma {:induction false} StripPadded(p: string, w: string, q: string)
    requires AllSpace(p) && IsTrimmed(w) && AllSpace(q)
    ensures Strip(p + w + q) == w
    decreases |p| + |q|
  {
    var s := p + w + q;
    if p != [] {
      assert s[0] == p[0];
      assert s[1..] == p[1..] + w + q;
      StripPadded(p[1..], w, q);
    } else if w == [] {
      assert s == q;
      StripEmpty(s);
    } else if q != [] {
      assert s == w + q;
      assert s[0] == w[0];
      assert s[|s| - 1] == q[|q| - 1];
      assert s[..|s| - 1] == [] + w + q[..|q| - 1];
      StripPadded([], w, q[..|q| - 1]);
    } else {
      assert s == w;
    }
  }

  /** strip() is idempotent: stripping a field twice, as the grouping does, changes nothing. */
  lemma StripIdempotent(s: string)
    ensures Strip(Strip(s)) == Strip(s)
  {
    StripPadded([], Strip(s), []);
    assert [] + Strip(s) + [] == Strip(s);
  }

  function Spaces(n: nat): (r: string)
    ensures |r| == n && AllSpace(r)
  {
    seq(n, _ => ' ')
  }

  /** The field text left-justified in a column of the given width. */
  function PadRight(s: string, width: nat): (r: string)
    requires |s| <= width
    ensures |r| == width && r[..|s|] == s && AllSpace(r[|s|..])
  {
    s + Spaces(width - |s|)
  }

  /** strip() undoes PadRight on a trimmed text. */
  lemma StripPadRight(s: string, width: nat)
    requires IsTrimmed(s) && |s| <= width
    ensures Strip(PadRight(s, width)) == s
  {
    var r := PadRight(s, width);
    assert r == [] + s + r[|s|..];
    StripPadded([], s, r[|s|..]);
  }

  /** Python's s[:n]. */
  function Prefix(s: string, n: nat): (r: string)
    ensures |r| == if |s| <= n then |s| else n
    ensures r == s[..|r|]
  {
    if |s| <= n then s else s[..n]
  }

  /** The length of the non-space run that starts s. */
  function WordLength(s: string): (n: nat)
    ensures n <= |s| && NoSpace(s[..n])
    ensures n < |s| ==> IsSpace(s[n])
  {
    if s == [] || IsSpace(s[0]) then 0 else 1 + WordLength(s[1..])
  }

  /** str.split(): the maximal runs of non-space characters, left to right. */
  function Split(s: string): (tokens: seq<string>)
    ensures forall k :: 0 <= k < |tokens| ==> tokens[k] != [] && NoSpace(tokens[k])
    decreases |s|
  {
    if s == [] then []
    else if IsSpace(s[0]) then Split(s[1..])
    else
      var n := WordLength(s);
      [s[..n]] + Split(s[n..])
  }

  /** The tokens joined by single spaces, the way a writer lays out a payload line. */
  function Join(tokens: seq<string>): string {
    if tokens == [] then []
    else if |tokens| == 1 then tokens[0]
    else tokens[0] + " " + Join(tokens[1..])
  }

  lemma {:induction false} WordLengthOfWord(w: string, rest: string)
    requires NoSpace(w) && (rest == [] || IsSpace(rest[0]))
    ensures WordLength(w + rest) == |w|
    decreases |w|
  {
    if w == [] {
      assert w + rest == rest;
    } else {
      assert (w + rest)[1..] == w[1..] + rest;
      WordLengthOfWord(w[1..], rest);
    }
  }

  /** split() undoes Join: space-free, non-empty tokens come back unchanged. */
  lemma {:induction false} SplitJoin(tokens: seq<string>)
    requires forall k :: 0 <= k < |tokens| ==> tokens[k] != [] && NoSpace(tokens[k])
    ensures Split(Join(tokens)) == tokens
    decreases |tokens|
  {
    if tokens == [] {
    } else if |tokens| == 1 {
      var w := tokens[0];
      WordLengthOfWord(w, []);
      assert w + [] == w;
      assert w[|w|..] == [];
    } else {
      var w := tokens[0];
      var rest := " " + Join(tokens[1..]);
      assert Join(tokens) == w + rest;
      WordLengthOfWord(w, rest);
      assert (w + rest)[..|w|] == w;
      assert (w + rest)[|w|..] == rest;
      assert rest[1..] == Join(tokens[1..]);
      SplitJoin(tokens[1..]);
    }
  }

  /**
   * A line laid out as gaps[0] tokens[0] gaps[1] ... tokens[n - 1] gaps[n]: whitespace before,
   * between and after the tokens, the way a right-justified, newline-terminated payload line is.
   */
  function Spaced(tokens: seq<string>, gaps: seq<string>): string
    requires |gaps| == |tokens| + 1
    decreases |tokens|
  {
    if tokens == [] then gaps[0] else gaps[0] + tokens[0] + Spaced(tokens[1..], gaps[1..])
  }

  /** Leading whitespace adds no token. */
  lemma {:induction false} SplitSkipsSpaces(p: string, s: string)
    requires AllSpace(p)
    ensures Split(p + s) == Split(s)
    decreases |p|
  {
    if p != [] {
      assert (p + s)[0] == p[0];
      assert (p + s)[1..] == p[1..] + s;
      SplitSkipsSpaces(p[1..], s);
    } else {
      assert p + s == s;
    }
  }

  /** A word after whitespace and before nothing or a space is the next token. */
  lemma SplitWord(p: string, w: string, q: string)
    requires AllSpace(p) && w != [] && NoSpace(w) && (q == [] || IsSpace(q[0]))
    ensures Split(p + w + q) == [w] + Split(q)
  {
    assert p + w + q == p + (w + q);
    SplitSkipsSpaces(p, w + q);
    WordLengthOfWord(w, q);
    assert (w + q)[0] == w[0];
    assert (w + q)[..|w|] == w;
    assert (w + q)[|w|..] == q;
  }

  /**
   * split() gives back the tokens of any spaced layout: whitespace of any kind and length
   * around the tokens, at least one whitespace character between neighbours.
   */
  lemma {:induction false} SplitSpaced(tokens: seq<string>, gaps: seq<string>)
    requires |gaps| == |tokens| + 1
    requires forall k :: 0 <= k < |tokens| ==> tokens[k] != [] && NoSpace(tokens[k])
    requires forall k :: 0 <= k < |gaps| ==> AllSpace(gaps[k])
    requires forall k :: 0 < k < |tokens| ==> gaps[k] != []
    ensures Split(Spaced(tokens, gaps)) == tokens
    decreases |tokens|
  {
    if tokens == [] {
      SplitBlank(gaps[0]);
    } else {
      var rest := Spaced(tokens[1..], gaps[1..]);
      if |tokens| > 1 {
        assert rest == gaps[1] + tokens[1] + Spaced(tokens[2..], gaps[2..]);
        assert rest[0] == gaps[1][0];
      }
      SplitWord(gaps[0], tokens[0], rest);
      SplitSpaced(tokens[1..], gaps[1..]);
    }
  }

  /** split() finds no token exactly in an all-space string. */
  lemma {:induction false} SplitBlank(s: string)
    ensures Split(s) == [] <==> AllSpace(s)
    decreases |s|
  {
    if s != [] && IsSpace(s[0]) {
      SplitBlank(s[1..]);
      assert AllSpace(s) <==> AllSpace(s[1..]) by {
        if AllSpace(s[1..]) {
          forall i | 0 <= i < |s| ensures IsSpace(s[i]) {
            if i > 0 { assert s[i] == s[1..][i - 1]; }
          }
        }
      }
    }
  }

  /** The first token of a word followed by nothing or by a space is that word. */
  lemma FirstWord(w: string, rest: string)
    requires w != [] && NoSpace(w) && (rest == [] || IsSpace(rest[0]))
    ensures Split(w + rest) != [] && Split(w + rest)[0] == w
  {
    WordLengthOfWord(w, rest);
    assert (w + rest)[0] == w[0];
    assert (w + rest)[..|w|] == w;
  }
}
