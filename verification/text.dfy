/** Optional values, standing in for JavaScript's `null`/`undefined`. */
module Wrappers {
  datatype Option<+T> = None | Some(value: T)
}

/** Facts about sequences, proved once for every element type. */
module Seqs {
  lemma AppendAssoc<T>(a: seq<T>, b: seq<T>, c: seq<T>)
    ensures a + (b + c) == (a + b) + c
  {
  }

  lemma AppendEmpty<T>(a: seq<T>)
    ensures a + [] == a && [] + a == a
  {
  }

  lemma TakeSnoc<T>(s: seq<T>, i: nat)
    requires i < |s|
    ensures s[..i + 1] == s[..i] + [s[i]]
  {
  }

  lemma TakeAll<T>(s: seq<T>)
    ensures s[..|s|] == s
  {
  }

  lemma SliceJoin<T>(s: seq<T>, a: nat, b: nat, c: nat)
    requires a <= b <= c <= |s|
    ensures s[a..b] + s[b..c] == s[a..c]
  {
  }
}

/**
 * The string primitives the content script relies on: `toLowerCase` (on the
 * ASCII letters only), the `\W` class of a regular expression without the `u`
 * flag, `trim` (through the whitespace class), and `String.prototype.indexOf`
 * with a start position.
 */
module Text {

  /** Lower-cases an ASCII capital letter and leaves every other character alone. */
  function Lower(c: char): (r: char)
    ensures 'A' <= c <= 'Z' ==> 'a' <= r <= 'z' && r as int == c as int + 32
    ensures !('A' <= c <= 'Z') ==> r == c
  {
    if 'A' <= c <= 'Z' then (c as int + 32) as char else c
  }

  /** Two characters that differ at most in ASCII case: equal, or one letter in its two cases. */
  predicate SameLetter(c: char, d: char)
  {
    c == d || ('A' <= c <= 'Z' && d as int == c as int + 32) || ('A' <= d <= 'Z' && c as int == d as int + 32)
  }

  /** `toLowerCase` identifies two characters exactly when they differ at most in ASCII case. */
  lemma LowerSame(c: char, d: char)
    ensures Lower(c) == Lower(d) <==> SameLetter(c, d)
  {
  }

  /** `s.toLowerCase()`, character by character, so the length never changes. */
  function LowerStr(s: string): (r: string)
    ensures |r| == |s|
    ensures forall i :: 0 <= i < |s| ==> r[i] == Lower(s[i])
  {
    seq(|s|, i requires 0 <= i < |s| => Lower(s[i]))
  }

  /**
   * Two strings lower-case to the same string exactly when they have the same
   * length and differ at most in the ASCII case of their letters.
   */
  lemma LowerStrSame(s: string, t: string)
    ensures LowerStr(s) == LowerStr(t) <==> |s| == |t| && forall i :: 0 <= i < |s| ==> SameLetter(s[i], t[i])
  {
    if LowerStr(s) == LowerStr(t) {
      forall i | 0 <= i < |s|
        ensures SameLetter(s[i], t[i])
      {
        assert LowerStr(s)[i] == LowerStr(t)[i];
        LowerSame(s[i], t[i]);
      }
    }
    if |s| == |t| && forall i :: 0 <= i < |s| ==> SameLetter(s[i], t[i]) {
      forall i | 0 <= i < |s|
        ensures LowerStr(s)[i] == LowerStr(t)[i]
      {
        LowerSame(s[i], t[i]);
      }
    }
  }

  /** Lower-casing commutes with taking a slice. */
  lemma LowerSlice(s: string, a: nat, b: nat)
    requires a <= b <= |s|
    ensures LowerStr(s[a..b]) == LowerStr(s)[a..b]
  {
  }

  /** A character of the class `\w` when the regular expression has no `u` flag. */
  predicate IsWordChar(c: char)
  {
    ('A' <= c <= 'Z') || ('a' <= c <= 'z') || ('0' <= c <= '9') || c == '_'
  }

  /** A character `String.prototype.trim` removes: white space and line terminators. */
  predicate IsWhitespace(c: char)
  {
    c == '\t' || c == '\n' || c == '\U{000B}' || c == '\U{000C}' || c == '\r' || c == ' '
    || c == '\U{00A0}' || c == '\U{1680}' || ('\U{2000}' <= c <= '\U{200A}')
    || c == '\U{2028}' || c == '\U{2029}' || c == '\U{202F}' || c == '\U{205F}'
    || c == '\U{3000}' || c == '\U{FEFF}'
  }

  /** `s.trim()` is the empty string. */
  predicate IsBlank(s: string)
  {
    forall i :: 0 <= i < |s| ==> IsWhitespace(s[i])
  }

  /** From its `k`-th character on, `needle` agrees with `hay` read from offset `i`. */
  predicate AgreeFrom(hay: string, needle: string, i: nat, k: nat)
    requires i + |needle| <= |hay|
    decreases |needle| - k
  {
    k >= |needle| || (hay[i + k] == needle[k] && AgreeFrom(hay, needle, i, k + 1))
  }

  /** `needle` occurs in `hay` starting at offset `i`, compared character by character. */
  predicate OccursAt(hay: string, needle: string, i: int)
  {
    0 <= i && i + |needle| <= |hay| && AgreeFrom(hay, needle, i, 0)
  }

  lemma {:induction false} AgreeFromSlice(hay: string, needle: string, i: nat, k: nat)
    requires i + |needle| <= |hay| && k <= |needle|
    ensures AgreeFrom(hay, needle, i, k) <==> hay[i + k..i + |needle|] == needle[k..]
    decreases |needle| - k
  {
    if k < |needle| {
      AgreeFromSlice(hay, needle, i, k + 1);
      assert hay[i + k..i + |needle|] == [hay[i + k]] + hay[i + k + 1..i + |needle|];
      assert needle[k..] == [needle[k]] + needle[k + 1..];
    }
  }

  /** `OccursAt` is `hay.substring(i, i + needle.length) === needle`. */
  lemma OccursAtSlice(hay: string, needle: string, i: int)
    ensures OccursAt(hay, needle, i) <==> 0 <= i && i + |needle| <= |hay| && hay[i..i + |needle|] == needle
  {
    if 0 <= i && i + |needle| <= |hay| {
      AgreeFromSlice(hay, needle, i, 0);
    }
  }

  /** The search loop behind `indexOf`: the first occurrence at or after `k`, or -1. */
  function SearchFrom(hay: string, needle: string, k: nat): (r: int)
    requires k <= |hay|
    decreases |hay| - k
    ensures r == -1 || (k <= r && OccursAt(hay, needle, r))
  {
    if k + |needle| > |hay| then -1
    else if OccursAt(hay, needle, k) then k
    else SearchFrom(hay, needle, k + 1)
  }

  /** The search skips no occurrence: none lies between `k` and the result (or after `k`, on -1). */
  lemma {:induction false} SearchFromLeftmost(hay: string, needle: string, k: nat, j: int)
    requires k <= |hay| && k <= j
    requires var r := SearchFrom(hay, needle, k); r == -1 || j < r
    ensures !OccursAt(hay, needle, j)
    decreases |hay| - k
  {
    if k + |needle| <= |hay| && !OccursAt(hay, needle, k) && k < j {
      SearchFromLeftmost(hay, needle, k + 1, j);
    }
  }

  /** The start position of `indexOf`, clamped to the length of the string. */
  function Clamp(position: nat, len: nat): (r: nat)
    ensures r <= len && (r == position || (position > len && r == len))
  {
    if position < len then position else len
  }

  /**
   * `hay.indexOf(needle, position)`: the leftmost occurrence at or after the
   * clamped start position, or -1.
   */
  function IndexOf(hay: string, needle: string, position: nat): (r: int)
    ensures r == -1 || (OccursAt(hay, needle, r) && Clamp(position, |hay|) <= r)
  {
    SearchFrom(hay, needle, Clamp(position, |hay|))
  }

  /** `indexOf` returns the leftmost occurrence: none lies between the start position and the result. */
  lemma IndexOfLeftmost(hay: string, needle: string, position: nat, j: int)
    requires position <= j
    requires var r := IndexOf(hay, needle, position); r == -1 || j < r
    ensures !OccursAt(hay, needle, j)
  {
    var k := Clamp(position, |hay|);
    if k <= j {
      SearchFromLeftmost(hay, needle, k, j);
    }
  }
}
