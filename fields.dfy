/**
 * Properties of the column table of `parseData`: what a field can be, and
 * that a row laid out at the table's columns gives its fields back.
 */
module Fields {
  import opened Text
  import opened Report

  /** A trimmed field of column `c`: no white space at its ends, taken from inside the column. */
  ghost predicate ColumnField(line: string, f: string, c: Column)
  {
    IsTrimmed(f) && |f| <= c.end - c.start && OccursWithin(line, f, Min(c.start, |line|), Min(c.end, |line|))
  }

  /** A piece of a piece of `line` is a piece of `line` in the same range. */
  lemma WithinSlice(line: string, r: string, lo: int, hi: int, a: nat, b: nat)
    requires OccursWithin(line, r, lo, hi) && a <= b <= |r|
    ensures OccursWithin(line, r[a..b], lo, hi)
  {
    var i :| OccursAt(line, r, i) && lo <= i && i + |r| <= hi;
    forall k | 0 <= k < b - a ensures line[i + a..i + b][k] == r[a..b][k] {
      assert r[a + k] == line[i..i + |r|][a + k];
    }
    assert line[i + a..i + b] == r[a..b];
    assert OccursAt(line, r[a..b], i + a);
  }

  /** Trimming the slice of a column gives a trimmed field from inside the column. */
  lemma TrimmedColumn(line: string, c: Column)
    requires c.start <= c.end
    ensures ColumnField(line, Trim(Slice(line, c)), c)
  {
    var r := Slice(line, c);
    TrimIsSlice(r);
    var a, b :| 0 <= a <= b <= |r| && Trim(r) == r[a..b] &&
      (forall k :: 0 <= k < a ==> IsWhite(r[k])) && (forall k :: b <= k < |r| ==> IsWhite(r[k]));
    WithinSlice(line, r, Min(c.start, |line|), Min(c.end, |line|), a, b);
  }

  /** The location: the column without its trailing white space. */
  lemma LocationField(line: string)
    ensures var loc := TrimEnd(Slice(line, LocationCol));
      (loc == [] || !IsWhite(loc[|loc| - 1])) && |loc| <= LocationCol.end - LocationCol.start &&
      OccursWithin(line, loc, Min(LocationCol.start, |line|), Min(LocationCol.end, |line|))
  {
    var r := Slice(line, LocationCol);
    TrimEndSpec(r);
    WithinSlice(line, r, Min(LocationCol.start, |line|), Min(LocationCol.end, |line|), 0, |TrimEnd(r)|);
  }

  /** The quality: the rest of the line from position 119, trimmed. */
  lemma QualityField(line: string)
    ensures var q := Trim(SubstringFrom(line, QualityStart));
      IsTrimmed(q) && OccursWithin(line, q, Min(QualityStart, |line|), |line|)
  {
    var s := SubstringFrom(line, QualityStart);
    assert OccursAt(line, s, Min(QualityStart, |line|));
    TrimIsSlice(s);
    var a, b :| 0 <= a <= b <= |s| && Trim(s) == s[a..b] &&
      (forall k :: 0 <= k < a ==> IsWhite(s[k])) && (forall k :: b <= k < |s| ==> IsWhite(s[k]));
    WithinSlice(line, s, Min(QualityStart, |line|), |line|, a, b);
  }

  /**
   * Every field of a row is taken from its own column of the untrimmed line
   * (clamped to the line's length): the eight columns before the location are
   * trimmed at both ends, the location only at its end, and the quality is
   * the trimmed rest of the line from position 119.
   */
  lemma ExtractFieldsSpec(line: string)
    ensures var f := ExtractFields(line);
      ColumnField(line, f.date, DateCol) && ColumnField(line, f.time, TimeCol) &&
      ColumnField(line, f.lat, LatCol) && ColumnField(line, f.lon, LonCol) &&
      ColumnField(line, f.depth, DepthCol) && ColumnField(line, f.md, MdCol) &&
      ColumnField(line, f.ml, MlCol) && ColumnField(line, f.mw, MwCol)
    ensures var loc := ExtractFields(line).location;
      (loc == [] || !IsWhite(loc[|loc| - 1])) && |loc| <= LocationCol.end - LocationCol.start &&
      OccursWithin(line, loc, Min(LocationCol.start, |line|), Min(LocationCol.end, |line|))
    ensures var q := ExtractFields(line).quality;
      IsTrimmed(q) && OccursWithin(line, q, Min(QualityStart, |line|), |line|)
  {
    TrimmedColumn(line, DateCol);
    TrimmedColumn(line, TimeCol);
    TrimmedColumn(line, LatCol);
    TrimmedColumn(line, LonCol);
    TrimmedColumn(line, DepthCol);
    TrimmedColumn(line, MdCol);
    TrimmedColumn(line, MlCol);
    TrimmedColumn(line, MwCol);
    LocationField(line);
    QualityField(line);
  }

  // ---- Laying a row out ---------------------------------------------------

  /** `s` followed by spaces up to `width` characters. */
  function Pad(s: string, width: nat): (r: string)
    requires |s| <= width
    ensures |r| == width
  {
    s + Spaces(width - |s|)
  }

  /** Fields that a report row can hold at the table's columns. */
  predicate Fits(f: RowFields)
  {
    IsTrimmed(f.date) && |f.date| <= 10 && IsTrimmed(f.time) && |f.time| <= 8 &&
    IsTrimmed(f.lat) && |f.lat| <= 7 && IsTrimmed(f.lon) && |f.lon| <= 7 &&
    IsTrimmed(f.depth) && |f.depth| <= 10 && IsTrimmed(f.md) && |f.md| <= 4 &&
    IsTrimmed(f.ml) && |f.ml| <= 4 && IsTrimmed(f.mw) && |f.mw| <= 4 &&
    (f.location == [] || !IsWhite(f.location[|f.location| - 1])) && |f.location| <= 47 &&
    IsTrimmed(f.quality)
  }

  /** A report row with each field at the start of its column, padded with spaces. */
  function Layout(f: RowFields): (line: string)
    requires Fits(f)
    ensures |line| == QualityStart + |f.quality|
    ensures line[QualityStart..] == f.quality
  {
    Pad(f.date, 11) + Pad(f.time, 10) + Pad(f.lat, 10) + Pad(f.lon, 9) + Pad(f.depth, 14) +
    Pad(f.md, 5) + Pad(f.ml, 5) + Pad(f.mw, 7) + Pad(f.location, 48) + f.quality
  }

  /** The first `cw` characters of a padded cell are the field and spaces. */
  lemma PaddedColumn(line: string, start: nat, s: string, w: nat, cw: nat)
    requires |s| <= cw <= w && start + w <= |line|
    requires line[start..start + w] == Pad(s, w)
    ensures Substring(line, start, start + cw) == s + Spaces(cw - |s|)
  {
    var p := s + Spaces(cw - |s|);
    forall k | 0 <= k < cw ensures line[start + k] == p[k] {
      assert line[start + k] == Pad(s, w)[k];
    }
    assert line[start..start + cw] == p;
  }

  /** A trimmed field padded into its cell comes back out of its column. */
  lemma FieldBack(line: string, c: Column, s: string, w: nat)
    requires IsTrimmed(s) && |s| <= c.end - c.start && c.start <= c.end <= c.start + w <= |line|
    requires line[c.start..c.start + w] == Pad(s, w)
    ensures Trim(Slice(line, c)) == s
  {
    PaddedColumn(line, c.start, s, w, c.end - c.start);
    TrimPadded(s, c.end - c.start - |s|);
  }

  /** A location without trailing white space, padded into its cell, comes back out of its column. */
  lemma LocationBack(line: string, s: string)
    requires (s == [] || !IsWhite(s[|s| - 1])) && |s| <= 47 && 119 <= |line|
    requires line[71..119] == Pad(s, 48)
    ensures TrimEnd(Slice(line, LocationCol)) == s
  {
    PaddedColumn(line, 71, s, 48, 47);
    TrimEndPadded(s, 47 - |s|);
  }

  /** The cells of a laid-out row, at the positions where the columns start. */
  lemma LayoutCells(f: RowFields)
    requires Fits(f)
    ensures var line := Layout(f);
      line[0..11] == Pad(f.date, 11) && line[11..21] == Pad(f.time, 10) &&
      line[21..31] == Pad(f.lat, 10) && line[31..40] == Pad(f.lon, 9) &&
      line[40..54] == Pad(f.depth, 14) && line[54..59] == Pad(f.md, 5) &&
      line[59..64] == Pad(f.ml, 5) && line[64..71] == Pad(f.mw, 7) &&
      line[71..119] == Pad(f.location, 48) && line[119..] == f.quality
  {
  }

  /** The date, time and coordinates of a laid-out row come back out of their columns. */
  lemma LayoutFront(f: RowFields)
    requires Fits(f)
    ensures var g := ExtractFields(Layout(f));
      g.date == f.date && g.time == f.time && g.lat == f.lat && g.lon == f.lon
  {
    var line := Layout(f);
    LayoutCells(f);
    FieldBack(line, DateCol, f.date, 11);
    FieldBack(line, TimeCol, f.time, 10);
    FieldBack(line, LatCol, f.lat, 10);
    FieldBack(line, LonCol, f.lon, 9);
  }

  /** The depth and the magnitudes of a laid-out row come back out of their columns. */
  lemma LayoutMiddle(f: RowFields)
    requires Fits(f)
    ensures var g := ExtractFields(Layout(f));
      g.depth == f.depth && g.md == f.md && g.ml == f.ml && g.mw == f.mw
  {
    var line := Layout(f);
    LayoutCells(f);
    FieldBack(line, DepthCol, f.depth, 14);
    FieldBack(line, MdCol, f.md, 5);
    FieldBack(line, MlCol, f.ml, 5);
    FieldBack(line, MwCol, f.mw, 7);
  }

  /** The middle and the last part of a concatenation of three. */
  lemma ThreeParts<T>(a: seq<T>, b: seq<T>, c: seq<T>)
    ensures (a + b + c)[|a|..|a| + |b|] == b && (a + b + c)[|a| + |b|..] == c
  {
  }

  /** The location and the quality of a laid-out row come back out of the row. */
  lemma LayoutBack(f: RowFields)
    requires Fits(f)
    ensures var g := ExtractFields(Layout(f));
      g.location == f.location && g.quality == f.quality
  {
    var line := Layout(f);
    var front := Pad(f.date, 11) + Pad(f.time, 10) + Pad(f.lat, 10) + Pad(f.lon, 9) + Pad(f.depth, 14) +
      Pad(f.md, 5) + Pad(f.ml, 5) + Pad(f.mw, 7);
    ThreeParts(front, Pad(f.location, 48), f.quality);
    LocationBack(line, f.location);
    TrimmedFixed(f.quality);
  }

  /** Slicing a laid-out row at the column table gives the fields back. */
  lemma ExtractLayout(f: RowFields)
    requires Fits(f)
    ensures ExtractFields(Layout(f)) == f
  {
    LayoutFront(f);
    LayoutMiddle(f);
    LayoutBack(f);
  }
}
