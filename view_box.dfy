/**
 * The `viewBox` tokenizer of `getDimensions`: the attribute value is split
 * the way JavaScript's `String.prototype.split` splits on the pattern
 * `(?:,\s*|\s+)`. A match starts at every comma (which swallows the
 * white space after it) and at every white-space character that is not
 * preceded by a separator already consumed (it swallows the whole run).
 */
module ViewBox {

  /** JavaScript's `\s`: the WhiteSpace and LineTerminator code points of ECMAScript. */
  predicate IsWhiteSpace(c: char)
  {
    || c == '\t' || c == '\n' || c == '\U{000B}' || c == '\U{000C}' || c == '\r' || c == ' '
    || c == '\U{00A0}' || c == '\U{1680}' || ('\U{2000}' <= c <= '\U{200A}')
    || c == '\U{2028}' || c == '\U{2029}' || c == '\U{202F}' || c == '\U{205F}'
    || c == '\U{3000}' || c == '\U{FEFF}'
  }

  /** A character at which the pattern can start a match. */
  predicate IsSeparatorChar(c: char)
  {
    c == ',' || IsWhiteSpace(c)
  }

  /** No character of `s` can start a match. */
  ghost predicate SeparatorFree(s: string)
  {
    forall i :: 0 <= i < |s| ==> !IsSeparatorChar(s[i])
  }

  /** Every character of `s` is white space. */
  ghost predicate AllWhiteSpace(s: string)
  {
    forall i :: 0 <= i < |s| ==> IsWhiteSpace(s[i])
  }

  /** The length of the longest white-space prefix of `s` (the greedy `\s*`). */
  function WhiteSpaceRun(s: string): (n: nat)
    ensures n <= |s| && AllWhiteSpace(s[..n])
    ensures n < |s| ==> !IsWhiteSpace(s[n])
    decreases |s|
  {
    if s != [] && IsWhiteSpace(s[0]) then
      var n := 1 + WhiteSpaceRun(s[1..]);
      assert s[..n] == [s[0]] + s[1..][..n - 1];
      n
    else 0
  }

  /** The length of the match at the start of `s`: `,\s*` is tried before `\s+`. */
  function SeparatorLength(s: string): (n: nat)
    requires |s| > 0 && IsSeparatorChar(s[0])
    ensures 1 <= n <= |s|
    ensures forall i :: 0 <= i < n ==> IsSeparatorChar(s[i])
    ensures forall i :: 0 < i < n ==> IsWhiteSpace(s[i])
    ensures n < |s| ==> !IsWhiteSpace(s[n])
  {
    if s[0] == ',' then
      var n := 1 + WhiteSpaceRun(s[1..]);
      assert forall i :: 0 < i < n ==> s[i] == s[1..][i - 1];
      n
    else WhiteSpaceRun(s)
  }

  /** The position of the first match in `s`, or `|s|` when there is none. */
  function FirstSeparator(s: string): (k: nat)
    ensures k <= |s| && SeparatorFree(s[..k])
    ensures k < |s| ==> IsSeparatorChar(s[k])
    decreases |s|
  {
    if s == [] || IsSeparatorChar(s[0]) then 0
    else
      var k := 1 + FirstSeparator(s[1..]);
      assert s[..k] == [s[0]] + s[1..][..k - 1];
      k
  }

  /** `value.split(/(?:,\s*|\s+)/)`. */
  function Split(s: string): (tokens: seq<string>)
    ensures |tokens| >= 1
    ensures forall i :: 0 <= i < |tokens| ==> SeparatorFree(tokens[i])
    decreases |s|
  {
    var k := FirstSeparator(s);
    if k == |s| then
      assert s[..k] == s;
      [s]
    else
      [s[..k]] + Split(s[k + SeparatorLength(s[k..])..])
  }

  /** The tokens joined with `sep` between each two of them. */
  function Join(tokens: seq<string>, sep: string): string
    requires |tokens| >= 1
    decreases |tokens|
  {
    if |tokens| == 1 then tokens[0] else tokens[0] + sep + Join(tokens[1..], sep)
  }

  /**
   * A separator that the pattern consumes in one match: a comma followed by
   * white space, or a non-empty run of white space.
   */
  ghost predicate IsDelimiter(sep: string)
  {
    |sep| > 0 && (if sep[0] == ',' then AllWhiteSpace(sep[1..]) else AllWhiteSpace(sep))
  }

  /** The characters of `s` that are not separator characters, in order. */
  function Strip(s: string): (r: string)
    ensures |r| <= |s| && SeparatorFree(r)
    decreases |s|
  {
    if s == [] then []
    else if IsSeparatorChar(s[0]) then Strip(s[1..])
    else [s[0]] + Strip(s[1..])
  }

  /** The tokens concatenated. */
  function Concat(tokens: seq<string>): string
    decreases |tokens|
  {
    if tokens == [] then [] else tokens[0] + Concat(tokens[1..])
  }

  lemma {:induction false} StripAppend(a: string, b: string)
    ensures Strip(a + b) == Strip(a) + Strip(b)
    decreases |a|
  {
    if a == [] {
      assert a + b == b;
    } else {
      assert (a + b)[0] == a[0];
      assert (a + b)[1..] == a[1..] + b;
      StripAppend(a[1..], b);
    }
  }

  lemma {:induction false} StripSeparatorFree(s: string)
    requires SeparatorFree(s)
    ensures Strip(s) == s
    decreases |s|
  {
    if s != [] {
      StripSeparatorFree(s[1..]);
    }
  }

  lemma {:induction false} StripSeparators(s: string)
    requires forall i :: 0 <= i < |s| ==> IsSeparatorChar(s[i])
    ensures Strip(s) == []
    decreases |s|
  {
    if s != [] {
      StripSeparators(s[1..]);
    }
  }

  /**
   * Splitting loses exactly the separator characters: the tokens,
   * concatenated, are the value with every comma and white-space
   * character removed.
   */
  lemma {:induction false} SplitDropsOnlySeparators(s: string)
    ensures Concat(Split(s)) == Strip(s)
    decreases |s|
  {
    var k := FirstSeparator(s);
    if k == |s| {
      SplitWhole(s);
      StripSeparatorFree(s);
      assert Concat([s]) == s + Concat([]);
    } else {
      var n := SeparatorLength(s[k..]);
      var rest := s[k + n..];
      var tokens := Split(s);
      SplitUnfold(s);
      assert tokens[0] == s[..k] && tokens[1..] == Split(rest);
      SplitDropsOnlySeparators(rest);
      StripAroundSeparator(s, k, n);
      assert Concat(tokens) == tokens[0] + Concat(tokens[1..]);
    }
  }

  /** A value with no match is a single token. */
  lemma {:induction false} SplitWhole(s: string)
    requires FirstSeparator(s) == |s|
    ensures Split(s) == [s] && SeparatorFree(s)
  {
    assert s[..|s|] == s;
  }

  /** Split when there is a first match at `FirstSeparator(s)`. */
  lemma {:induction false} SplitUnfold(s: string)
    requires FirstSeparator(s) < |s|
    ensures Split(s) == [s[..FirstSeparator(s)]]
      + Split(s[FirstSeparator(s) + SeparatorLength(s[FirstSeparator(s)..])..])
  {
  }

  lemma {:induction false} StripAroundSeparator(s: string, k: nat, n: nat)
    requires k == FirstSeparator(s) < |s| && n == SeparatorLength(s[k..])
    ensures Strip(s) == s[..k] + Strip(s[k + n..])
  {
    var pre, mid, rest := s[..k], s[k..k + n], s[k + n..];
    assert s == (pre + mid) + rest;
    StripAppend(pre + mid, rest);
    StripAppend(pre, mid);
    StripSeparatorFree(pre);
    MatchIsSeparators(s[k..], n);
    assert s[k..][..n] == mid;
    StripSeparators(mid);
    assert Strip(pre + mid) == pre;
  }

  /** The characters of a match are all separator characters. */
  lemma MatchIsSeparators(s: string, n: nat)
    requires |s| > 0 && IsSeparatorChar(s[0]) && n == SeparatorLength(s)
    ensures forall i :: 0 <= i < |s[..n]| ==> IsSeparatorChar(s[..n][i])
  {
  }

  lemma {:induction false} WhiteSpaceRunOf(w: string, r: string)
    requires AllWhiteSpace(w)
    requires r == [] || !IsWhiteSpace(r[0])
    ensures WhiteSpaceRun(w + r) == |w|
    decreases |w|
  {
    if w != [] {
      var u := w + r;
      assert u[0] == w[0] && IsWhiteSpace(w[0]);
      assert u[1..] == w[1..] + r;
      assert AllWhiteSpace(w[1..]) by {
        forall i | 0 <= i < |w| - 1 ensures IsWhiteSpace(w[1..][i]) {
          assert w[1..][i] == w[i + 1];
        }
      }
      WhiteSpaceRunOf(w[1..], r);
    }
  }

  lemma {:induction false} FirstSeparatorOf(t: string, r: string)
    requires SeparatorFree(t)
    requires r != [] && IsSeparatorChar(r[0])
    ensures FirstSeparator(t + r) == |t|
    decreases |t|
  {
    if t != [] {
      var u := t + r;
      assert u[0] == t[0] && !IsSeparatorChar(t[0]);
      assert u[1..] == t[1..] + r;
      assert SeparatorFree(t[1..]) by {
        forall i | 0 <= i < |t| - 1 ensures !IsSeparatorChar(t[1..][i]) {
          assert t[1..][i] == t[i + 1];
        }
      }
      FirstSeparatorOf(t[1..], r);
    }
  }

  /** A delimiter followed by a character that is not a separator is consumed as one match. */
  lemma {:induction false} DelimiterLength(sep: string, rest: string)
    requires IsDelimiter(sep)
    requires rest != [] && !IsSeparatorChar(rest[0])
    ensures SeparatorLength(sep + rest) == |sep|
  {
    if sep[0] == ',' {
      assert (sep + rest)[1..] == sep[1..] + rest;
      WhiteSpaceRunOf(sep[1..], rest);
    } else {
      WhiteSpaceRunOf(sep, rest);
    }
  }

  /**
   * Round trip: non-empty tokens without separator characters, joined by
   * one delimiter (", ", ",", " ", "\t", ...), split back into the same tokens.
   */
  lemma {:induction false} SplitJoin(tokens: seq<string>, sep: string)
    requires |tokens| >= 1 && IsDelimiter(sep)
    requires forall i :: 0 <= i < |tokens| ==> |tokens[i]| > 0 && SeparatorFree(tokens[i])
    ensures Split(Join(tokens, sep)) == tokens
    decreases |tokens|
  {
    if |tokens| == 1 {
      SplitSeparatorFree(tokens[0]);
    } else {
      SplitJoin(tokens[1..], sep);
      JoinStartsWith(tokens[1..], sep);
      SplitAfterToken(tokens[0], sep, Join(tokens[1..], sep));
      assert tokens == [tokens[0]] + tokens[1..];
    }
  }

  /** A value without separator characters is a single token. */
  lemma {:induction false} SplitSeparatorFree(t: string)
    requires SeparatorFree(t)
    ensures Split(t) == [t]
  {
    var k := FirstSeparator(t);
    assert k == |t| by {
      if k < |t| {
        assert false;
      }
    }
    assert t[..k] == t;
  }

  /** A token, one delimiter, then the rest: the token comes first, the rest is split on its own. */
  lemma {:induction false} SplitAfterToken(t: string, sep: string, rest: string)
    requires SeparatorFree(t) && IsDelimiter(sep)
    requires rest != [] && !IsSeparatorChar(rest[0])
    ensures Split(t + sep + rest) == [t] + Split(rest)
  {
    var s := t + sep + rest;
    assert s == t + (sep + rest);
    FirstSeparatorOf(t, sep + rest);
    DelimiterLength(sep, rest);
    assert s[|t|..] == sep + rest;
    assert s[|t| + |sep|..] == rest;
    assert s[..|t|] == t;
    SplitUnfold(s);
  }

  lemma {:induction false} JoinStartsWith(tokens: seq<string>, sep: string)
    requires |tokens| >= 1 && |tokens[0]| > 0
    ensures Join(tokens, sep) != [] && Join(tokens, sep)[0] == tokens[0][0]
  {
  }

  /**
   * A value that starts with a separator character (leading white space, or
   * a leading comma) yields an empty first token, so every later token moves
   * one place to the right.
   */
  lemma {:induction false} LeadingSeparator(s: string)
    requires |s| > 0 && IsSeparatorChar(s[0])
    ensures |Split(s)| >= 2 && Split(s)[0] == ""
    ensures Split(s)[1..] == Split(s[SeparatorLength(s)..])
  {
    assert FirstSeparator(s) == 0;
    assert s[0..] == s;
  }

  /**
   * White space before a comma is a match of its own, so `a ,b` (or `a` and
   * `b` with any white space before the comma) yields an empty token between
   * `a` and `b`.
   */
  lemma {:induction false} SpaceBeforeComma(a: string, w: string, b: string)
    requires |a| > 0 && SeparatorFree(a) && |b| > 0 && SeparatorFree(b)
    requires |w| > 0 && AllWhiteSpace(w)
    ensures Split(a + w + ("," + b)) == [a, "", b]
  {
    SplitAfterWhiteSpace(a, w, "," + b);
    LeadingComma(b);
  }

  /** White space alone is a match too, even when a comma follows it. */
  lemma {:induction false} SplitAfterWhiteSpace(t: string, w: string, rest: string)
    requires SeparatorFree(t) && |w| > 0 && AllWhiteSpace(w)
    requires rest != [] && !IsWhiteSpace(rest[0])
    ensures Split(t + w + rest) == [t] + Split(rest)
  {
    var s := t + w + rest;
    assert s == t + (w + rest);
    FirstSeparatorOf(t, w + rest);
    WhiteSpaceRunOf(w, rest);
    assert s[|t|..] == w + rest;
    assert s[|t| + |w|..] == rest;
    assert s[..|t|] == t;
    SplitUnfold(s);
  }

  lemma {:induction false} LeadingComma(b: string)
    requires |b| > 0 && SeparatorFree(b)
    ensures Split("," + b) == ["", b]
  {
    var r := "," + b;
    WhiteSpaceRunOf("", b);
    assert r[1..] == "" + b == b;
    LeadingSeparator(r);
    assert Split(b) == [b] by { SplitJoin([b], " "); }
  }
}
