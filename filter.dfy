/**
 * The location filter of the enhanced table: the query is normalized,
 * split at commas into trimmed non-empty terms, and a row stays visible
 * when there are no terms or when its normalized location contains one of
 * them.
 */
module Filter {
  import opened Text
  import opened Normalize
  import opened Report

  /** The trimmed pieces that are not empty, in order. */
  function NonEmptyTrimmed(pieces: seq<string>): seq<string>
  {
    if pieces == [] then []
    else (if Trim(pieces[0]) == "" then [] else [Trim(pieces[0])]) + NonEmptyTrimmed(pieces[1..])
  }

  /** The terms of a (normalized) query: comma-separated, trimmed, empty ones dropped. */
  function Terms(query: string): seq<string>
  {
    NonEmptyTrimmed(Split(query, ','))
  }

  /** Every term kept is a non-empty trimmed piece of one of the pieces. */
  lemma {:induction false} NonEmptyTrimmedSpec(pieces: seq<string>)
    ensures forall t :: t in NonEmptyTrimmed(pieces) ==>
      t != "" && IsTrimmed(t) && exists j :: 0 <= j < |pieces| && t == Trim(pieces[j])
  {
    if pieces != [] {
      NonEmptyTrimmedSpec(pieces[1..]);
      TrimIsSlice(pieces[0]);
      assert forall j :: 0 < j < |pieces| ==> pieces[j] == pieces[1..][j - 1];
    }
  }

  /** Nothing is kept exactly when every piece trims to nothing. */
  lemma {:induction false} NonEmptyTrimmedEmpty(pieces: seq<string>)
    ensures NonEmptyTrimmed(pieces) == [] <==> forall j :: 0 <= j < |pieces| ==> Trim(pieces[j]) == ""
  {
    if pieces != [] {
      NonEmptyTrimmedEmpty(pieces[1..]);
      assert forall j :: 0 < j < |pieces| ==> pieces[j] == pieces[1..][j - 1];
    }
  }

  /** Every piece that does not trim to nothing is kept, trimmed. */
  lemma {:induction false} NonEmptyTrimmedComplete(pieces: seq<string>, j: nat)
    requires j < |pieces| && Trim(pieces[j]) != ""
    ensures Trim(pieces[j]) in NonEmptyTrimmed(pieces)
  {
    if j > 0 {
      assert pieces[1..][j - 1] == pieces[j];
      NonEmptyTrimmedComplete(pieces[1..], j - 1);
    }
  }

  /** No term is empty, each is trimmed and none holds a comma. */
  lemma TermsSpec(query: string)
    ensures forall t :: t in Terms(query) ==> t != "" && IsTrimmed(t) && ',' !in t
  {
    var pieces := Split(query, ',');
    NonEmptyTrimmedSpec(pieces);
    SplitPiecesSeparatorFree(query, ',');
    forall t | t in Terms(query) ensures ',' !in t {
      var j :| 0 <= j < |pieces| && t == Trim(pieces[j]);
      TrimIsSlice(pieces[j]);
    }
  }

  /** A query has no terms exactly when it is made only of commas and white space. */
  lemma TermsEmpty(query: string)
    ensures Terms(query) == [] <==> forall k :: 0 <= k < |query| ==> query[k] == ',' || IsWhite(query[k])
  {
    var pieces := Split(query, ',');
    NonEmptyTrimmedEmpty(pieces);
    if Terms(query) == [] {
      forall k | 0 <= k < |query| && query[k] != ',' ensures IsWhite(query[k]) {
        SplitCovers(query, ',', k);
        var j :| 0 <= j < |pieces| && query[k] in pieces[j];
        TrimEmpty(pieces[j]);
      }
    } else if forall k :: 0 <= k < |query| ==> query[k] == ',' || IsWhite(query[k]) {
      SplitPiecesSeparatorFree(query, ',');
      forall j | 0 <= j < |pieces| ensures Trim(pieces[j]) == "" {
        forall i | 0 <= i < |pieces[j]| ensures IsWhite(pieces[j][i]) {
          SplitFromText(query, ',', j, pieces[j][i]);
        }
        TrimEmpty(pieces[j]);
      }
      assert false;
    }
  }

  /** Some term occurs in `key`. */
  function AnyIncluded(terms: seq<string>, key: string): (r: bool)
    ensures r <==> exists t :: t in terms && Includes(key, t)
  {
    if terms == [] then false
    else if Includes(key, terms[0]) then
      assert terms[0] in terms;
      true
    else
      var r := AnyIncluded(terms[1..], key);
      assert forall t :: t in terms[1..] ==> t in terms;
      assert forall t :: t in terms && t != terms[0] ==> t in terms[1..];
      r
  }

  /** A row with search key `key` is shown: no terms, or some term occurs in the key. */
  function Matches(terms: seq<string>, key: string): (r: bool)
    ensures r <==> terms == [] || exists t :: t in terms && Includes(key, t)
  {
    |terms| == 0 || AnyIncluded(terms, key)
  }

  /** The search key of a row: its location, normalized. */
  function SearchKey(e: Earthquake): string
  {
    NormalizeString(e.fields.location)
  }

  /**
   * The `input` handler: the visibility of every row, in table order, for the
   * raw text of the filter box.  The rows themselves are values and are left
   * as they are.
   */
  method Visibility(rows: seq<Earthquake>, rawQuery: string) returns (shown: seq<bool>)
    ensures |shown| == |rows|
    ensures forall i :: 0 <= i < |rows| ==> shown[i] == Matches(Terms(NormalizeString(rawQuery)), SearchKey(rows[i]))
  {
    var filterTerms := Terms(NormalizeString(rawQuery));
    shown := [];
    for i := 0 to |rows|
      invariant |shown| == i
      invariant forall k :: 0 <= k < i ==> shown[k] == Matches(filterTerms, SearchKey(rows[k]))
    {
      var show := true;
      if |filterTerms| > 0 {
        show := AnyIncluded(filterTerms, SearchKey(rows[i]));
      }
      assert show == Matches(filterTerms, SearchKey(rows[i]));
      shown := shown + [show];
    }
  }

  /** Commas and white space are not in the substitution table and are not letters. */
  lemma SeparatorIsNormal(c: char)
    requires c == ',' || IsWhite(c)
    ensures LowerAscii(Fold(c)) == c
  {
    assert c !in TurkishMap;
  }

  /** An empty filter box, or one with only commas and white space, shows every row. */
  lemma BlankQueryShowsAll(rawQuery: string, key: string)
    requires forall k :: 0 <= k < |rawQuery| ==> rawQuery[k] == ',' || IsWhite(rawQuery[k])
    ensures Matches(Terms(NormalizeString(rawQuery)), key)
  {
    var q := NormalizeString(rawQuery);
    forall k | 0 <= k < |q| ensures q[k] == ',' || IsWhite(q[k]) {
      SeparatorIsNormal(rawQuery[k]);
    }
    TermsEmpty(q);
  }

  /**
   * A key matches the terms of a query exactly when every comma-separated
   * piece of the query is blank, or some piece that is not blank occurs in
   * the key once trimmed.
   */
  lemma MatchesPieces(query: string, key: string)
    ensures var pieces := Split(query, ',');
      Matches(Terms(query), key) <==>
        (forall j :: 0 <= j < |pieces| ==> Trim(pieces[j]) == "") ||
        (exists j :: 0 <= j < |pieces| && Trim(pieces[j]) != "" && Includes(key, Trim(pieces[j])))
  {
    var pieces := Split(query, ',');
    NonEmptyTrimmedEmpty(pieces);
    NonEmptyTrimmedSpec(pieces);
    if Terms(query) != [] && Matches(Terms(query), key) {
      var t :| t in Terms(query) && Includes(key, t);
      var j :| 0 <= j < |pieces| && t == Trim(pieces[j]);
      assert Trim(pieces[j]) != "" && Includes(key, Trim(pieces[j]));
    }
    if exists j :: 0 <= j < |pieces| && Trim(pieces[j]) != "" && Includes(key, Trim(pieces[j])) {
      var j :| 0 <= j < |pieces| && Trim(pieces[j]) != "" && Includes(key, Trim(pieces[j]));
      NonEmptyTrimmedComplete(pieces, j);
    }
  }

  /**
   * A row is shown when any one comma-separated alternative typed in the
   * filter box, normalized and trimmed, occurs in its key.
   */
  lemma AlternativeShows(rawQuery: string, j: nat, key: string)
    requires var pieces := Split(NormalizeString(rawQuery), ',');
      j < |pieces| && Trim(pieces[j]) != "" && Includes(key, Trim(pieces[j]))
    ensures Matches(Terms(NormalizeString(rawQuery)), key)
  {
    NonEmptyTrimmedComplete(Split(NormalizeString(rawQuery), ','), j);
  }

  /** More terms never hide a row that some term already shows. */
  lemma MoreTermsShowMore(terms: seq<string>, more: seq<string>, key: string)
    requires terms != [] && Matches(terms, key)
    ensures Matches(terms + more, key)
  {
    var t :| t in terms && Includes(key, t);
    assert t in terms + more;
  }

  /** `s` occurs in `a + s + b`. */
  lemma IncludesMiddle(a: string, s: string, b: string)
    ensures Includes(a + s + b, s)
  {
    assert (a + s + b)[|a|..|a| + |s|] == s;
    assert OccursAt(a + s + b, s, |a|);
  }

  /**
   * Typing a query that normalizes like a piece of a row's location (so in
   * any ASCII case, with or without Turkish letters) shows that row, when
   * the normalized piece holds no comma and no white space at its ends.
   */
  lemma PieceOfLocationShows(e: Earthquake, a: string, piece: string, b: string, typed: string)
    requires e.fields.location == a + piece + b
    requires NormalizeString(typed) == NormalizeString(piece)
    requires piece != "" && IsTrimmed(NormalizeString(piece)) && ',' !in NormalizeString(piece)
    ensures Matches(Terms(NormalizeString(typed)), SearchKey(e))
  {
    var q := NormalizeString(piece);
    NormalizeConcat(a + piece, b);
    NormalizeConcat(a, piece);
    IncludesMiddle(NormalizeString(a), q, NormalizeString(b));
    assert forall k :: 0 <= k < |q| ==> q[k] != ',';
    assert Split(q, ',') == [q];
    TrimmedFixed(q);
    assert |q| == |piece|;
    assert [q][0] == q && [q][1..] == [];
    assert NonEmptyTrimmed([q]) == [q] + NonEmptyTrimmed([]);
  }
}
