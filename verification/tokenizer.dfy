/**
 The tokenizer of the word counter: Rust's `str::split_whitespace`, which
 splits a line into the maximal runs of non-whitespace characters and drops
 the empty pieces between adjacent whitespace characters.
 */
module Tokenizer {

  /** Rust's `char::is_whitespace`: the code points with the Unicode
      `White_Space` property (U+0009..U+000D, space, NEL, NBSP, OGHAM SPACE
      MARK, U+2000..U+200A, the line and paragraph separators, NNBSP, MMSP and
      the ideographic space). */
  predicate IsWhitespace(c: char)
    // On ASCII these are tab, LF, VT, FF, CR and space; unlike
    // `is_ascii_whitespace`, vertical tab (U+000B) is included.
    ensures c as int < 0x80 ==>
      (IsWhitespace(c) <==> c as int in {0x09, 0x0A, 0x0B, 0x0C, 0x0D, 0x20})
    // No code point above the ideographic space is whitespace.
    ensures IsWhitespace(c) ==> c as int <= 0x3000
  {
    var n := c as int;
    || (0x09 <= n <= 0x0D)
    || n == 0x20
    || n == 0x85
    || n == 0xA0
    || n == 0x1680
    || (0x2000 <= n <= 0x200A)
    || n == 0x2028
    || n == 0x2029
    || n == 0x202F
    || n == 0x205F
    || n == 0x3000
  }

  /** True iff `s` holds no whitespace character. */
  predicate NoWhitespace(s: string) {
    forall i :: 0 <= i < |s| ==> !IsWhitespace(s[i])
  }

  /** True iff every character of `s` is whitespace (vacuously for ""). */
  ghost predicate AllWhitespace(s: string) {
    forall i :: 0 <= i < |s| ==> IsWhitespace(s[i])
  }

  /** What `split_whitespace` may yield: a non-empty string without whitespace. */
  predicate IsToken(t: string) {
    |t| > 0 && NoWhitespace(t)
  }

  /** Length of the longest whitespace-free prefix of `s`. */
  function WordLength(s: string): (n: nat)
    ensures n <= |s|
    ensures NoWhitespace(s[..n])
    ensures n < |s| ==> IsWhitespace(s[n])
  {
    if |s| == 0 || IsWhitespace(s[0]) then 0
    else
      var m := WordLength(s[1..]);
      assert s[..m + 1] == [s[0]] + s[1..][..m];
      1 + m
  }

  /** `input.split_whitespace()`: skip whitespace, take the maximal run of
      non-whitespace characters as a token, repeat. */
  function Tokenize(s: string): (ts: seq<string>)
    ensures forall i :: 0 <= i < |ts| ==> IsToken(ts[i])
    decreases |s|
  {
    if |s| == 0 then []
    else if IsWhitespace(s[0]) then Tokenize(s[1..])
    else
      var n := WordLength(s);
      [s[..n]] + Tokenize(s[n..])
  }

  // ---------------------------------------------------------------------
  // Reference definition: the standard library implements
  // `split_whitespace` as `split(char::is_whitespace).filter(|s| !s.is_empty())`.
  // ---------------------------------------------------------------------

  /** `s.split(char::is_whitespace)`: the pieces between successive
      whitespace characters, empty pieces included; n whitespace characters
      give n + 1 pieces. */
  ghost function SplitOnWhitespace(s: string): (ps: seq<string>)
    ensures |ps| >= 1
    ensures forall i :: 0 <= i < |ps| ==> NoWhitespace(ps[i])
    decreases |s|
  {
    var n := WordLength(s);
    if n == |s| then [s] else [s[..n]] + SplitOnWhitespace(s[n + 1..])
  }

  /** `.filter(|s| !s.is_empty())` */
  ghost function NonEmpty(ps: seq<string>): seq<string> {
    if |ps| == 0 then []
    else if ps[0] == "" then NonEmpty(ps[1..])
    else [ps[0]] + NonEmpty(ps[1..])
  }

  /** A whitespace-led string tokenizes like its tail. */
  lemma TokenizeSkipsWhitespace(s: string)
    requires |s| > 0 && IsWhitespace(s[0])
    ensures Tokenize(s) == Tokenize(s[1..])
  {
  }

  /** The recursive tokenizer agrees with the standard library's
      implementation of `split_whitespace`. */
  lemma {:induction false} TokenizeIsSplitFiltered(s: string)
    ensures Tokenize(s) == NonEmpty(SplitOnWhitespace(s))
    decreases |s|
  {
    var n := WordLength(s);
    if |s| == 0 {
    } else if IsWhitespace(s[0]) {
      assert n == 0;
      TokenizeIsSplitFiltered(s[1..]);
      var ps := SplitOnWhitespace(s);
      assert ps == [""] + SplitOnWhitespace(s[1..]);
      assert ps[1..] == SplitOnWhitespace(s[1..]);
    } else if n == |s| {
      assert s[..n] == s;
      assert s[n..] == [];
    } else {
      TokenizeSkipsWhitespace(s[n..]);
      assert s[n..][1..] == s[n + 1..];
      TokenizeIsSplitFiltered(s[n + 1..]);
      var ps := SplitOnWhitespace(s);
      assert ps[0] == s[..n] && ps[0] != "";
      assert ps[1..] == SplitOnWhitespace(s[n + 1..]);
    }
  }

  // ---------------------------------------------------------------------
  // Content: the tokens are exactly the non-whitespace characters, in order.
  // ---------------------------------------------------------------------

  /** The characters of `s` that are not whitespace, in order. */
  ghost function RemoveWhitespace(s: string): string {
    if |s| == 0 then ""
    else if IsWhitespace(s[0]) then RemoveWhitespace(s[1..])
    else [s[0]] + RemoveWhitespace(s[1..])
  }

  /** The tokens laid end to end. */
  ghost function Concat(ts: seq<string>): string {
    if |ts| == 0 then "" else ts[0] + Concat(ts[1..])
  }

  lemma {:induction false} RemoveWhitespaceAppend(a: string, b: string)
    ensures RemoveWhitespace(a + b) == RemoveWhitespace(a) + RemoveWhitespace(b)
    decreases |a|
  {
    if |a| == 0 {
      assert a + b == b;
    } else {
      assert (a + b)[1..] == a[1..] + b;
      RemoveWhitespaceAppend(a[1..], b);
    }
  }

  lemma {:induction false} RemoveWhitespaceOfWord(w: string)
    requires NoWhitespace(w)
    ensures RemoveWhitespace(w) == w
    decreases |w|
  {
    if |w| > 0 {
      RemoveWhitespaceOfWord(w[1..]);
    }
  }

  /** Tokenizing loses and invents no character other than whitespace. */
  lemma {:induction false} TokensCoverNonWhitespace(s: string)
    ensures Concat(Tokenize(s)) == RemoveWhitespace(s)
    decreases |s|
  {
    if |s| == 0 {
    } else if IsWhitespace(s[0]) {
      TokensCoverNonWhitespace(s[1..]);
    } else {
      var n := WordLength(s);
      var ts := Tokenize(s);
      assert ts[0] == s[..n] && ts[1..] == Tokenize(s[n..]);
      TokensCoverNonWhitespace(s[n..]);
      assert s == s[..n] + s[n..];
      RemoveWhitespaceAppend(s[..n], s[n..]);
      RemoveWhitespaceOfWord(s[..n]);
    }
  }

  /** Empty or all-whitespace input, and only that, yields no token. */
  lemma {:induction false} TokenizeEmptyIff(s: string)
    ensures Tokenize(s) == [] <==> AllWhitespace(s)
    decreases |s|
  {
    if |s| > 0 {
      if IsWhitespace(s[0]) {
        TokenizeEmptyIff(s[1..]);
        if AllWhitespace(s[1..]) {
          forall i | 0 <= i < |s| ensures IsWhitespace(s[i]) {
            if i > 0 { assert s[i] == s[1..][i - 1]; }
          }
        }
      }
    }
  }

  /** Every token but the last is followed by at least one whitespace
      character, so a line of length L holds at most (L + 1) / 2 tokens. */
  lemma {:induction false} TokenCountBound(s: string)
    ensures 2 * |Tokenize(s)| <= |s| + 1
    decreases |s|
  {
    if |s| == 0 {
    } else if IsWhitespace(s[0]) {
      TokenCountBound(s[1..]);
    } else {
      var n := WordLength(s);
      if n < |s| {
        TokenizeSkipsWhitespace(s[n..]);
        assert s[n..][1..] == s[n + 1..];
        TokenCountBound(s[n + 1..]);
      }
    }
  }

  // ---------------------------------------------------------------------
  // Inverse: joining tokens with single spaces and splitting again gives
  // the tokens back.
  // ---------------------------------------------------------------------

  /** The tokens separated by single spaces (`tokens.join(" ")`). */
  ghost function Join(ts: seq<string>): string {
    if |ts| == 0 then ""
    else if |ts| == 1 then ts[0]
    else ts[0] + " " + Join(ts[1..])
  }

  lemma {:induction false} WordLengthOfToken(t: string, r: string)
    requires NoWhitespace(t)
    requires |r| == 0 || IsWhitespace(r[0])
    ensures WordLength(t + r) == |t|
    decreases |t|
  {
    if |t| > 0 {
      assert (t + r)[1..] == t[1..] + r;
      WordLengthOfToken(t[1..], r);
    } else {
      assert t + r == r;
    }
  }

  /** A token followed by nothing or by whitespace is split off as is. */
  lemma LeadingToken(t: string, r: string)
    requires IsToken(t)
    requires |r| == 0 || IsWhitespace(r[0])
    ensures Tokenize(t + r) == [t] + Tokenize(r)
  {
    WordLengthOfToken(t, r);
    var s := t + r;
    assert s[..|t|] == t && s[|t|..] == r;
  }

  lemma {:induction false} TokenizeJoin(ts: seq<string>)
    requires forall i :: 0 <= i < |ts| ==> IsToken(ts[i])
    ensures Tokenize(Join(ts)) == ts
    decreases |ts|
  {
    if |ts| == 1 {
      LeadingToken(ts[0], "");
      assert ts[0] + "" == ts[0];
    } else if |ts| > 1 {
      var rest := " " + Join(ts[1..]);
      assert Join(ts) == ts[0] + rest;
      LeadingToken(ts[0], rest);
      TokenizeSkipsWhitespace(rest);
      assert rest[1..] == Join(ts[1..]);
      TokenizeJoin(ts[1..]);
      assert ts == [ts[0]] + ts[1..];
    }
  }
}
