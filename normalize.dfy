/**
 * The diacritic-insensitive search key of content.js: `normalizeString`
 * replaces each Turkish letter of a fixed table by a plain ASCII letter and
 * then lower-cases the result.
 */
module Normalize {

  /** The fixed substitution table; both dotted and dotless i fold to `i`. */
  const TurkishMap: map<char, char> := map[
    'ı' := 'i', 'I' := 'i', 'i' := 'i', 'İ' := 'i',
    'ş' := 's', 'Ş' := 's',
    'ğ' := 'g', 'Ğ' := 'g',
    'ü' := 'u', 'Ü' := 'u',
    'ö' := 'o', 'Ö' := 'o',
    'ç' := 'c', 'Ç' := 'c'
  ]

  /** The table's replacement for `c`, or `c` itself when the table has no entry. */
  function Fold(c: char): char
  {
    if c in TurkishMap then TurkishMap[c] else c
  }

  predicate IsUpperAscii(c: char)
  {
    'A' <= c <= 'Z'
  }

  /** `toLowerCase` restricted to ASCII letters; every other character is kept. */
  function LowerAscii(c: char): (r: char)
    ensures !IsUpperAscii(r)
    ensures IsUpperAscii(c) ==> r as int == c as int + 32
    ensures !IsUpperAscii(c) ==> r == c
  {
    if IsUpperAscii(c) then (c as int + 32) as char else c
  }

  /** The regular-expression replace: every table letter is replaced, nothing else. */
  function ReplaceTurkish(s: string): (r: string)
    ensures |r| == |s|
    ensures forall k :: 0 <= k < |s| ==> r[k] == Fold(s[k])
  {
    if s == [] then [] else [Fold(s[0])] + ReplaceTurkish(s[1..])
  }

  /** `String.prototype.toLowerCase` on ASCII letters. */
  function LowerCase(s: string): (r: string)
    ensures |r| == |s|
    ensures forall k :: 0 <= k < |s| ==> r[k] == LowerAscii(s[k])
  {
    if s == [] then [] else [LowerAscii(s[0])] + LowerCase(s[1..])
  }

  /** A character that normalization leaves as it is. */
  predicate IsNormalChar(c: char)
  {
    !IsUpperAscii(c) && (c in TurkishMap ==> c == 'i')
  }

  /** The folded form of every character is a normal character, and normal characters are fixed. */
  lemma NormalCharFixed(c: char)
    ensures IsNormalChar(LowerAscii(Fold(c)))
    ensures IsNormalChar(c) <==> LowerAscii(Fold(c)) == c
  {
  }

  /**
   * `normalizeString`: "" for the empty string; otherwise the table
   * substitution followed by lower-casing.  The result has the input's
   * length, and each character is the folded form of the input's character
   * at the same position.
   */
  function NormalizeString(s: string): (r: string)
    ensures |r| == |s|
    ensures forall k :: 0 <= k < |s| ==> r[k] == LowerAscii(Fold(s[k]))
  {
    if s == [] then "" else LowerCase(ReplaceTurkish(s))
  }

  /** No upper-case ASCII letter and no table letter other than `i` is left. */
  lemma NormalizeIsNormal(s: string)
    ensures forall k :: 0 <= k < |s| ==> IsNormalChar(NormalizeString(s)[k])
  {
    forall k | 0 <= k < |s| ensures IsNormalChar(NormalizeString(s)[k]) {
      NormalCharFixed(s[k]);
    }
  }

  /** Normalizing twice is the same as normalizing once. */
  lemma NormalizeIdempotent(s: string)
    ensures NormalizeString(NormalizeString(s)) == NormalizeString(s)
  {
    var n := NormalizeString(s);
    forall k | 0 <= k < |n| ensures NormalizeString(n)[k] == n[k] {
      NormalCharFixed(s[k]);
      NormalCharFixed(n[k]);
    }
  }

  /** A string is left unchanged exactly when all its characters are normal. */
  lemma NormalizeFixedPoint(s: string)
    ensures NormalizeString(s) == s <==> forall k :: 0 <= k < |s| ==> IsNormalChar(s[k])
  {
    if forall k :: 0 <= k < |s| ==> IsNormalChar(s[k]) {
      forall k | 0 <= k < |s| ensures NormalizeString(s)[k] == s[k] {
        NormalCharFixed(s[k]);
      }
    }
  }

  /** The table substitution works character by character. */
  lemma {:induction false} ReplaceTurkishConcat(a: string, b: string)
    ensures ReplaceTurkish(a + b) == ReplaceTurkish(a) + ReplaceTurkish(b)
  {
    if a == [] {
      assert a + b == b;
    } else {
      assert (a + b)[0] == a[0] && (a + b)[1..] == a[1..] + b;
      ReplaceTurkishConcat(a[1..], b);
    }
  }

  /** Lower-casing works character by character. */
  lemma {:induction false} LowerCaseConcat(a: string, b: string)
    ensures LowerCase(a + b) == LowerCase(a) + LowerCase(b)
  {
    if a == [] {
      assert a + b == b;
    } else {
      assert (a + b)[0] == a[0] && (a + b)[1..] == a[1..] + b;
      LowerCaseConcat(a[1..], b);
    }
  }

  /** Normalization works character by character, so it distributes over concatenation. */
  lemma NormalizeConcat(a: string, b: string)
    ensures NormalizeString(a + b) == NormalizeString(a) + NormalizeString(b)
  {
    if a == [] {
      assert a + b == b;
    } else if b == [] {
      assert a + b == a;
    } else {
      ReplaceTurkishConcat(a, b);
      LowerCaseConcat(ReplaceTurkish(a), ReplaceTurkish(b));
    }
  }
}
