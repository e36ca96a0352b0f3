/** The string operations the application leans on: JavaScript's `trim()`,
    `toLowerCase()`, substring search, and SQL's `ILIKE '%q%'`. */
module Text {

  /** The characters JavaScript's `String.prototype.trim` strips: the
      ECMAScript WhiteSpace and LineTerminator code points. */
  predicate IsWhite(c: char) {
    || c == '\t' || c == '\n' || c == '\U{000B}' || c == '\U{000C}' || c == '\r' || c == ' '
    || c == '\U{00A0}' || c == '\U{1680}' || ('\U{2000}' <= c <= '\U{200A}')
    || c == '\U{2028}' || c == '\U{2029}' || c == '\U{202F}' || c == '\U{205F}'
    || c == '\U{3000}' || c == '\U{FEFF}'
  }

  /** Empty, or nothing but whitespace: what `!s.trim()` tests. */
  predicate IsBlank(s: string) {
    forall i :: 0 <= i < |s| ==> IsWhite(s[i])
  }

  /** The index of the first non-whitespace character of `s` at or after `i`,
      or `|s|` when there is none. */
  function SkipWhite(s: string, i: nat): (r: nat)
    requires i <= |s|
    decreases |s| - i
    ensures i <= r <= |s|
    ensures forall k :: i <= k < r ==> IsWhite(s[k])
    ensures r == |s| || !IsWhite(s[r])
  {
    if i < |s| && IsWhite(s[i]) then SkipWhite(s, i + 1) else i
  }

  /** The index just past the last non-whitespace character of `s` before `j`,
      or `lo` when `s[lo..j]` is all whitespace. */
  function SkipWhiteBack(s: string, lo: nat, j: nat): (r: nat)
    requires lo <= j <= |s|
    decreases j - lo
    ensures lo <= r <= j
    ensures forall k :: r <= k < j ==> IsWhite(s[k])
    ensures r == lo || !IsWhite(s[r - 1])
  {
    if lo < j && IsWhite(s[j - 1]) then SkipWhiteBack(s, lo, j - 1) else j
  }

  /** `s.trim()`: `s` without its leading and trailing whitespace. */
  function Trim(s: string): (r: string)
    ensures |r| <= |s|
    ensures r == [] || (!IsWhite(r[0]) && !IsWhite(r[|r| - 1]))
  {
    var lo := SkipWhite(s, 0);
    s[lo..SkipWhiteBack(s, lo, |s|)]
  }

  /** Trimming yields the empty string exactly when the input is blank. */
  lemma TrimEmptyIffBlank(s: string)
    ensures Trim(s) == [] <==> IsBlank(s)
  {
    var lo := SkipWhite(s, 0);
    var hi := SkipWhiteBack(s, lo, |s|);
    if IsBlank(s) {
      assert lo == |s|;
    }
    if Trim(s) == [] {
      assert hi == lo;
    }
  }

  /** Whitespace around a word whose ends are not whitespace is exactly what `trim()` removes. */
  lemma TrimPadded(a: string, m: string, b: string)
    requires IsBlank(a) && IsBlank(b)
    requires m != [] && !IsWhite(m[0]) && !IsWhite(m[|m| - 1])
    ensures Trim(a + m + b) == m
  {
    var s := a + m + b;
    var lo := SkipWhite(s, 0);
    assert s[|a|] == m[0];
    assert lo == |a|;
    var hi := SkipWhiteBack(s, lo, |s|);
    assert s[|a| + |m| - 1] == m[|m| - 1];
    assert hi == |a| + |m|;
    assert s[lo..hi] == m;
  }

  /** Trimming twice is trimming once. */
  lemma TrimIdempotent(s: string)
    ensures Trim(Trim(s)) == Trim(s)
  {
    var r := Trim(s);
    if r != [] {
      TrimPadded([], r, []);
      assert [] + r + [] == r;
    }
  }

  /** `toLowerCase()` on one character, for the ASCII letters. */
  function LowerChar(c: char): char {
    if 'A' <= c <= 'Z' then (c as int + 32) as char else c
  }

  /** `s.toLowerCase()`, for the ASCII letters. */
  function Lower(s: string): (r: string)
    ensures |r| == |s|
    ensures forall i :: 0 <= i < |s| ==> r[i] == LowerChar(s[i])
  {
    seq(|s|, i requires 0 <= i < |s| => LowerChar(s[i]))
  }

  /** Lower-casing works character by character, so it distributes over concatenation. */
  lemma LowerAppend(a: string, b: string)
    ensures Lower(a + b) == Lower(a) + Lower(b)
  {
    var l, r := Lower(a + b), Lower(a) + Lower(b);
    forall i | 0 <= i < |l| ensures l[i] == r[i] {
      if i < |a| { assert (a + b)[i] == a[i]; } else { assert (a + b)[i] == b[i - |a|]; }
    }
  }

  /** Lower-casing twice is lower-casing once. */
  lemma LowerIdempotent(s: string)
    ensures Lower(Lower(s)) == Lower(s)
  {
    assert forall i :: 0 <= i < |s| ==> LowerChar(LowerChar(s[i])) == LowerChar(s[i]);
  }

  /** Lower-casing keeps every whitespace and non-whitespace character as it is. */
  lemma LowerKeepsWhite(c: char)
    ensures IsWhite(LowerChar(c)) <==> IsWhite(c)
  {
  }

  /** A string is its leading whitespace, its trimmed text and its trailing whitespace. */
  lemma TrimSplit(s: string) returns (a: string, b: string)
    ensures s == a + Trim(s) + b && IsBlank(a) && IsBlank(b)
  {
    var lo := SkipWhite(s, 0);
    var hi := SkipWhiteBack(s, lo, |s|);
    a, b := s[..lo], s[hi..];
    CutTwice(s, lo, hi);
    BlankSlice(s, 0, lo);
    BlankSlice(s, hi, |s|);
    assert a == s[0..lo];
    assert b == s[hi..|s|];
  }

  /** Cutting `s` at `lo` and `hi` splits it into three parts. */
  lemma CutTwice(s: string, lo: nat, hi: nat)
    requires lo <= hi <= |s|
    ensures s == s[..lo] + s[lo..hi] + s[hi..]
  {
    assert s[..hi] == s[..lo] + s[lo..hi];
  }

  /** A slice made of characters known to be whitespace is blank. */
  lemma BlankSlice(s: string, lo: nat, hi: nat)
    requires lo <= hi <= |s|
    requires forall i :: lo <= i < hi ==> IsWhite(s[i])
    ensures IsBlank(s[lo..hi])
  {
    forall i | 0 <= i < hi - lo ensures IsWhite(s[lo..hi][i]) { assert s[lo..hi][i] == s[lo + i]; }
  }

  lemma LowerBlank(a: string)
    requires IsBlank(a)
    ensures IsBlank(Lower(a))
  {
    forall i | 0 <= i < |a| ensures IsWhite(Lower(a)[i]) { LowerKeepsWhite(a[i]); }
  }

  /** Lower-casing a padded word lower-cases the word and keeps the padding. */
  lemma LowerPadded(a: string, t: string, b: string)
    requires IsBlank(a) && IsBlank(b) && t != [] && !IsWhite(t[0]) && !IsWhite(t[|t| - 1])
    ensures Trim(Lower(a + t + b)) == Lower(t)
  {
    LowerBlank(a);
    LowerBlank(b);
    LowerAppend(a + t, b);
    LowerAppend(a, t);
    LowerKeepsWhite(t[0]);
    LowerKeepsWhite(t[|t| - 1]);
    TrimPadded(Lower(a), Lower(t), Lower(b));
  }

  /** Lower-casing commutes with trimming. */
  lemma TrimLower(s: string)
    ensures Trim(Lower(s)) == Lower(Trim(s))
  {
    var t := Trim(s);
    if t == [] {
      TrimEmptyIffBlank(s);
      LowerBlank(s);
      TrimEmptyIffBlank(Lower(s));
    } else {
      var a, b := TrimSplit(s);
      LowerPadded(a, t, b);
    }
  }

  /** `needle` occurs in `hay` starting at index `i`. */
  predicate IsFactorAt(hay: string, needle: string, i: int)
    requires 0 <= i <= |hay| - |needle|
  {
    hay[i..i + |needle|] == needle
  }

  /** `needle` occurs in `hay` as a contiguous substring. */
  predicate Contains(hay: string, needle: string) {
    exists i :: 0 <= i <= |hay| - |needle| && IsFactorAt(hay, needle, i)
  }

  /** SQL `hay ILIKE '%' || needle || '%'`: a case-insensitive substring match. */
  predicate ILike(hay: string, needle: string) {
    Contains(Lower(hay), Lower(needle))
  }

  /** `ILIKE` ignores case on both sides, every text matches the empty pattern, and
      no text matches a pattern longer than itself. */
  lemma ILikeCaseInsensitive(hay: string, needle: string)
    ensures ILike(hay, needle) <==> ILike(Lower(hay), needle)
    ensures ILike(hay, needle) <==> ILike(hay, Lower(needle))
    ensures needle == [] ==> ILike(hay, needle)
    ensures ILike(hay, needle) ==> |needle| <= |hay|
  {
    LowerIdempotent(hay);
    LowerIdempotent(needle);
    if needle == [] {
      assert IsFactorAt(Lower(hay), Lower(needle), 0);
    }
  }

  /** `parts.join("\n")`. */
  function JoinLines(parts: seq<string>): (r: string)
    ensures parts == [] ==> r == ""
    ensures parts != [] ==> |r| >= |parts[0]| && r[..|parts[0]|] == parts[0]
    ensures |parts| >= 2 ==> |r| > |parts[0]| && r[|parts[0]|] == '\n'
    ensures parts != [] ==> var last := parts[|parts| - 1];
                            |r| >= |last| && r[|r| - |last|..] == last
  {
    if |parts| == 0 then ""
    else if |parts| == 1 then parts[0]
    else parts[0] + "\n" + JoinLines(parts[1..])
  }

  /** Joining one more part adds a newline and that part after the joined text, so
      the result is the parts in order, each pair separated by exactly one newline. */
  lemma {:induction false} JoinLinesSnoc(parts: seq<string>, x: string)
    requires parts != []
    ensures JoinLines(parts + [x]) == JoinLines(parts) + "\n" + x
    decreases |parts|
  {
    if |parts| == 1 {
      assert parts + [x] == [parts[0], x];
      assert [parts[0], x][1..] == [x];
    } else {
      assert (parts + [x])[1..] == parts[1..] + [x];
      JoinLinesSnoc(parts[1..], x);
      calc {
        JoinLines(parts + [x]);
        parts[0] + "\n" + JoinLines(parts[1..] + [x]);
        parts[0] + "\n" + (JoinLines(parts[1..]) + "\n" + x);
        (parts[0] + "\n" + JoinLines(parts[1..])) + "\n" + x;
      }
    }
  }
}
