/**
 * The JavaScript string primitives the content script relies on:
 * `trim`, `trimEnd`, `startsWith`, `substring`, `split`, `join`,
 * `includes` and a character-for-character `replace`.
 */
module Text {

  /** ECMAScript WhiteSpace and LineTerminator code points (all in the BMP). */
  predicate IsWhite(c: char)
  {
    c == '\t' || c == '\n' || c == '\U{000B}' || c == '\U{000C}' || c == '\r' ||
    c == ' ' || c == '\U{00A0}' || c == '\U{1680}' || ('\U{2000}' <= c <= '\U{200A}') ||
    c == '\U{2028}' || c == '\U{2029}' || c == '\U{202F}' || c == '\U{205F}' ||
    c == '\U{3000}' || c == '\U{FEFF}'
  }

  /** An ASCII decimal digit, the class `\d` of a regular expression. */
  predicate IsDigit(c: char)
  {
    '0' <= c <= '9'
  }

  /** `String.prototype.trimStart`: drops the leading run of white space. */
  function TrimStart(s: string): string
  {
    if s != [] && IsWhite(s[0]) then TrimStart(s[1..]) else s
  }

  /** TrimStart keeps a suffix, drops only white space, and stops at the first other character. */
  lemma {:induction false} TrimStartSpec(s: string)
    ensures var r := TrimStart(s);
      |r| <= |s| && r == s[|s| - |r|..] &&
      (forall k :: 0 <= k < |s| - |r| ==> IsWhite(s[k])) &&
      (r != [] ==> !IsWhite(r[0]))
  {
    if s != [] && IsWhite(s[0]) {
      var t := s[1..];
      TrimStartSpec(t);
      var r := TrimStart(t);
      assert t[|t| - |r|..] == s[|s| - |r|..];
      assert forall k :: 0 < k < |s| ==> s[k] == t[k - 1];
    }
  }

  /** `String.prototype.trimEnd`: drops the trailing run of white space. */
  function TrimEnd(s: string): string
  {
    if s != [] && IsWhite(s[|s| - 1]) then TrimEnd(s[..|s| - 1]) else s
  }

  /** TrimEnd keeps a prefix, drops only white space, and stops at the last other character. */
  lemma {:induction false} TrimEndSpec(s: string)
    ensures var r := TrimEnd(s);
      |r| <= |s| && r == s[..|r|] &&
      (forall k :: |r| <= k < |s| ==> IsWhite(s[k])) &&
      (r != [] ==> !IsWhite(r[|r| - 1]))
  {
    if s != [] && IsWhite(s[|s| - 1]) {
      TrimEndSpec(s[..|s| - 1]);
    }
  }

  /** `String.prototype.trim`. */
  function Trim(s: string): string
  {
    TrimEnd(TrimStart(s))
  }

  /** A string with no white space at either end. */
  predicate IsTrimmed(s: string)
  {
    s == [] || (!IsWhite(s[0]) && !IsWhite(s[|s| - 1]))
  }

  /** Trim removes exactly the white space at both ends and nothing else. */
  lemma TrimIsSlice(s: string)
    ensures exists i, j ::
      (0 <= i <= j <= |s| && Trim(s) == s[i..j] &&
       (forall k :: 0 <= k < i ==> IsWhite(s[k])) &&
       (forall k :: j <= k < |s| ==> IsWhite(s[k])))
    ensures IsTrimmed(Trim(s))
  {
    var t := TrimStart(s);
    var r := TrimEnd(t);
    TrimStartSpec(s);
    TrimEndSpec(t);
    var i := |s| - |t|;
    var j := i + |r|;
    assert t == s[i..];
    assert r == t[..|r|];
    assert r == s[i..j];
    assert forall k :: j <= k < |s| ==> s[k] == t[k - i];
  }

  /** Trim leaves nothing exactly when the string is all white space. */
  lemma TrimEmpty(s: string)
    ensures Trim(s) == [] <==> forall k :: 0 <= k < |s| ==> IsWhite(s[k])
  {
    var t := TrimStart(s);
    TrimStartSpec(s);
    TrimEndSpec(t);
    if t != [] {
      assert !IsWhite(t[0]) && t[0] == s[|s| - |t|];
    }
  }

  /** A trimmed string is left alone by Trim, TrimStart and TrimEnd. */
  lemma TrimmedFixed(s: string)
    requires IsTrimmed(s)
    ensures TrimStart(s) == s && TrimEnd(s) == s && Trim(s) == s
  {
  }

  /** `n` space characters. */
  function Spaces(n: nat): (r: string)
    ensures |r| == n && forall k :: 0 <= k < n ==> r[k] == ' '
  {
    seq(n, _ => ' ')
  }

  /** TrimEnd after padding with spaces gives back a string without trailing white space. */
  lemma {:induction false} TrimEndPadded(s: string, n: nat)
    requires s == [] || !IsWhite(s[|s| - 1])
    ensures TrimEnd(s + Spaces(n)) == s
  {
    if n > 0 {
      assert (s + Spaces(n))[..|s| + n - 1] == s + Spaces(n - 1);
      TrimEndPadded(s, n - 1);
    } else {
      assert s + Spaces(0) == s;
    }
  }

  /** Trim after padding with spaces gives back a trimmed string. */
  lemma TrimPadded(s: string, n: nat)
    requires IsTrimmed(s)
    ensures Trim(s + Spaces(n)) == s
  {
    if s == [] {
      TrimStartSpec(s + Spaces(n));
      assert TrimStart(s + Spaces(n)) == [];
    } else {
      assert TrimStart(s + Spaces(n)) == s + Spaces(n);
      TrimEndPadded(s, n);
    }
  }

  /** `String.prototype.startsWith`. */
  predicate StartsWith(s: string, prefix: string)
  {
    |prefix| <= |s| && s[..|prefix|] == prefix
  }

  /** `s` occurs in `text` starting at index `i`. */
  ghost predicate OccursAt(text: string, s: string, i: int)
  {
    0 <= i && i + |s| <= |text| && text[i..i + |s|] == s
  }

  /** `s` occurs in `text` within the index range `[lo, hi)`. */
  ghost predicate OccursWithin(text: string, s: string, lo: int, hi: int)
  {
    exists i :: OccursAt(text, s, i) && lo <= i && i + |s| <= hi
  }

  function Min(a: nat, b: nat): nat
  {
    if a <= b then a else b
  }

  /**
   * `String.prototype.substring(start, end)` for non-negative indices: both
   * are clamped to the length, and they are swapped when start exceeds end.
   */
  function Substring(s: string, start: nat, end: nat): (r: string)
    ensures |r| <= |s|
    ensures start <= end <= |s| ==> r == s[start..end]
    ensures start <= end ==> r == s[Min(start, |s|)..Min(end, |s|)]
    ensures end < start ==> r == s[Min(end, |s|)..Min(start, |s|)]
    ensures start <= end ==> OccursWithin(s, r, Min(start, |s|), Min(end, |s|))
  {
    var a := Min(start, |s|);
    var b := Min(end, |s|);
    if a <= b then
      assert OccursAt(s, s[a..b], a);
      s[a..b]
    else
      s[b..a]
  }

  /** `String.prototype.substring(start)`: the suffix from the clamped start. */
  function SubstringFrom(s: string, start: nat): (r: string)
    ensures |r| == |s| - Min(start, |s|)
    ensures r == s[|s| - |r|..]
  {
    s[Min(start, |s|)..]
  }

  /** `String.prototype.replace(/x/g, y)` for one character `x` and one character `y`. */
  function ReplaceChar(s: string, x: char, y: char): (r: string)
    ensures |r| == |s|
    ensures forall k :: 0 <= k < |s| ==> r[k] == if s[k] == x then y else s[k]
  {
    if s == [] then [] else [if s[0] == x then y else s[0]] + ReplaceChar(s[1..], x, y)
  }

  /** Index of the first `sep` in `s`, or `|s|` when there is none. */
  function IndexOf(s: string, sep: char): (r: nat)
    ensures r <= |s|
    ensures r < |s| ==> s[r] == sep
    ensures forall k :: 0 <= k < r ==> s[k] != sep
  {
    if s == [] then 0 else if s[0] == sep then 0 else 1 + IndexOf(s[1..], sep)
  }

  /**
   * `String.prototype.split(sep)` for a one-character separator: the pieces
   * between separators, so there is always one more piece than separators.
   */
  function Split(s: string, sep: char): (r: seq<string>)
    ensures |r| >= 1
    decreases |s|
  {
    var i := IndexOf(s, sep);
    if i == |s| then [s] else [s[..i]] + Split(s[i + 1..], sep)
  }

  /** `Array.prototype.join(sep)`. */
  function Join(parts: seq<string>, sep: char): string
  {
    if parts == [] then [] else if |parts| == 1 then parts[0] else parts[0] + [sep] + Join(parts[1..], sep)
  }

  /** Concatenation is associative. */
  lemma ConcatAssoc<T>(a: seq<T>, b: seq<T>, c: seq<T>)
    ensures (a + b) + c == a + (b + c)
  {
  }

  /** A slice of a suffix, or of a prefix, is a slice of the whole. */
  lemma SliceOfSlice<T>(s: seq<T>, lo: nat, n: nat, i: nat, j: nat)
    requires i <= j <= n && lo + n <= |s|
    ensures s[lo..][i..j] == s[lo + i..lo + j]
    ensures s[..lo + n][i..j] == s[i..j]
  {
  }

  /** A sequence is its part before `i`, its element at `i` and its part after. */
  lemma Around<T>(s: seq<T>, i: nat)
    requires i < |s|
    ensures s == s[..i] + [s[i]] + s[i + 1..]
  {
  }

  /** Joining a list of two or more parts puts the separator after the first. */
  lemma JoinCons(p: string, ps: seq<string>, sep: char)
    requires ps != []
    ensures Join([p] + ps, sep) == p + [sep] + Join(ps, sep)
  {
    assert ([p] + ps)[0] == p && ([p] + ps)[1..] == ps;
  }

  /** Splitting and joining again reproduces the text. */
  lemma {:induction false} JoinSplit(s: string, sep: char)
    ensures Join(Split(s, sep), sep) == s
    decreases |s|
  {
    var i := IndexOf(s, sep);
    if i < |s| {
      var rest := s[i + 1..];
      JoinSplit(rest, sep);
      assert Split(s, sep) == [s[..i]] + Split(rest, sep);
      JoinCons(s[..i], Split(rest, sep), sep);
      Around(s, i);
    }
  }

  /** No piece contains the separator. */
  lemma {:induction false} SplitPiecesSeparatorFree(s: string, sep: char)
    ensures forall j :: 0 <= j < |Split(s, sep)| ==> sep !in Split(s, sep)[j]
    decreases |s|
  {
    var i := IndexOf(s, sep);
    if i < |s| {
      SplitPiecesSeparatorFree(s[i + 1..], sep);
    }
  }

  /** Every character of the text that is not a separator lies in some piece. */
  lemma {:induction false} SplitCovers(s: string, sep: char, k: nat)
    requires k < |s| && s[k] != sep
    ensures exists j :: 0 <= j < |Split(s, sep)| && s[k] in Split(s, sep)[j]
    decreases |s|
  {
    var i := IndexOf(s, sep);
    if k < i {
      assert s[k] in Split(s, sep)[0];
    } else {
      assert i < |s|;
      SplitCovers(s[i + 1..], sep, k - i - 1);
      var j :| 0 <= j < |Split(s[i + 1..], sep)| && s[k] in Split(s[i + 1..], sep)[j];
      assert Split(s, sep)[j + 1] == Split(s[i + 1..], sep)[j];
    }
  }

  /** Every character of every piece comes from the text. */
  lemma {:induction false} SplitFromText(s: string, sep: char, j: nat, c: char)
    requires j < |Split(s, sep)| && c in Split(s, sep)[j]
    ensures c in s
    decreases |s|
  {
    var i := IndexOf(s, sep);
    if i < |s| && j > 0 {
      SplitFromText(s[i + 1..], sep, j - 1, c);
    }
  }

  /** `String.prototype.includes(s)`: some occurrence of `s` in `text` exists. */
  function Includes(text: string, s: string): (r: bool)
    ensures r <==> exists i :: OccursAt(text, s, i)
  {
    if StartsWith(text, s) then
      assert OccursAt(text, s, 0);
      true
    else if text == [] then
      assert forall i :: !OccursAt(text, s, i);
      false
    else
      var r := Includes(text[1..], s);
      assert forall i :: OccursAt(text[1..], s, i) <==> OccursAt(text, s, i + 1);
      assert forall i :: OccursAt(text, s, i) ==> i == 0 || OccursAt(text[1..], s, i - 1);
      r
  }
}
