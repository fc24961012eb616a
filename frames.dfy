/**
 * The table the CSV feature class holds: named columns, rows that map each
 * column to a cell, and the order-preserving row filters applied to it.
 */
module Frames {

  /** A vertex, x = longitude and y = latitude. */
  datatype Point = Point(x: real, y: real)

  /** A polygon given by its exterior ring. */
  datatype Polygon = Polygon(exterior: seq<Point>)

  /**
   * A cell of the table: a number (coordinates are numbers), a text, the
   * list of coordinates a row is converted from, or a geometry.
   */
  datatype Cell = Num(value: real) | Text(text: string) | Coordinates(values: seq<real>) | Shape(polygon: Polygon)

  /** A row maps each column name of the table to its cell. */
  type Row = map<string, Cell>

  /** The eight coordinate columns, in the order the sentinel mask compares them. */
  const CoordinateColumns: seq<string> := ["LLlat", "LLlon", "LRlat", "LRlon", "ULlat", "ULlon", "URlat", "URlon"]

  /** The column the attribute filter compares. */
  const AttributeColumn: string := "Column1"

  predicate Distinct(columns: seq<string>) {
    forall i, j :: 0 <= i < j < |columns| ==> columns[i] != columns[j]
  }

  predicate IsNumber(r: Row, column: string) {
    column in r && r[column].Num?
  }

  /** Every coordinate field of the row holds a number. */
  predicate HasCoordinates(r: Row) {
    && IsNumber(r, "LLlat") && IsNumber(r, "LLlon")
    && IsNumber(r, "LRlat") && IsNumber(r, "LRlon")
    && IsNumber(r, "ULlat") && IsNumber(r, "ULlon")
    && IsNumber(r, "URlat") && IsNumber(r, "URlon")
  }

  /** A row of a table with these columns: exactly one cell per column, numeric coordinates. */
  predicate Fits(r: Row, columns: seq<string>) {
    r.Keys == (set c | c in columns) && HasCoordinates(r)
  }

  /**
   * A table as loaded from the CSV file: distinct column names, among them the
   * eight coordinate columns and the attribute column, and rows that fit them.
   */
  predicate WellFormed(columns: seq<string>, rows: seq<Row>) {
    && Distinct(columns)
    && (forall c :: c in CoordinateColumns ==> c in columns)
    && AttributeColumn in columns
    && (forall i :: 0 <= i < |rows| ==> Fits(rows[i], columns))
  }

  /** `df[name] = ...` on the column labels: a new label goes last, an existing one stays where it is. */
  function WithColumn(columns: seq<string>, name: string): (r: seq<string>)
    ensures forall c :: c in r <==> c in columns || c == name
    ensures Distinct(columns) ==> Distinct(r)
    ensures name in columns ==> r == columns
  {
    if name in columns then columns else columns + [name]
  }

  /** `del df[name]` on the column labels: every other label, in order. */
  function WithoutColumn(columns: seq<string>, name: string): (r: seq<string>)
    ensures forall c :: c in r <==> c in columns && c != name
    ensures name !in columns ==> r == columns
  {
    if columns == [] then []
    else (if columns[0] == name then [] else [columns[0]]) + WithoutColumn(columns[1..], name)
  }

  /** Deleting a label keeps the labels distinct. */
  lemma {:induction false} WithoutColumnDistinct(columns: seq<string>, name: string)
    requires Distinct(columns)
    ensures Distinct(WithoutColumn(columns, name))
  {
    if columns != [] {
      assert Distinct(columns[1..]) by {
        forall i, j | 0 <= i < j < |columns[1..]| ensures columns[1..][i] != columns[1..][j] {
          assert columns[1..][i] == columns[i + 1] && columns[1..][j] == columns[j + 1];
        }
      }
      assert columns[0] !in columns[1..] by {
        forall k | 0 <= k < |columns[1..]| ensures columns[1..][k] != columns[0] {
          assert columns[1..][k] == columns[k + 1];
        }
      }
      WithoutColumnDistinct(columns[1..], name);
    }
  }

  /** Deleting a label that occurs once, at k, leaves the labels before and after it, in order. */
  lemma {:induction false} WithoutColumnAt(columns: seq<string>, name: string, k: nat)
    requires k < |columns| && columns[k] == name
    requires forall i :: 0 <= i < |columns| && i != k ==> columns[i] != name
    ensures WithoutColumn(columns, name) == columns[..k] + columns[k + 1..]
  {
    if k == 0 {
      assert name !in columns[1..] by {
        forall i | 0 <= i < |columns[1..]| ensures columns[1..][i] != name {
          assert columns[1..][i] == columns[i + 1];
        }
      }
    } else {
      WithoutColumnAt(columns[1..], name, k - 1);
      assert columns[1..][..k - 1] + columns[1..][k..] == (columns[..k] + columns[k + 1..])[1..];
    }
  }

  /** `df[column] = cells` on the rows: row i gets cells[i] in that column. */
  function SetCells(rows: seq<Row>, column: string, cells: seq<Cell>): (r: seq<Row>)
    requires |cells| == |rows|
    ensures |r| == |rows|
  {
    seq(|rows|, i requires 0 <= i < |rows| => rows[i][column := cells[i]])
  }

  /** `del df[column]` on the rows: every row loses its cell in that column. */
  function DropCells(rows: seq<Row>, column: string): (r: seq<Row>)
    ensures |r| == |rows|
  {
    seq(|rows|, i requires 0 <= i < |rows| => rows[i] - {column})
  }

  /** The cell of the row in that column is the number v. */
  predicate CoordinateEquals(r: Row, column: string, v: real) {
    column in r && r[column] == Num(v)
  }

  /** A row predicate of the feature class: one of the two masks it filters with. */
  datatype Criterion =
    | NoCoordinateEquals(sentinel: real)
    | AttributeEquals(target: Cell)

  /**
   * Whether a row survives. The coordinate mask keeps a row whose eight
   * coordinate fields all differ from the sentinel; the attribute mask keeps
   * a row whose attribute column equals the target.
   */
  predicate Holds(crit: Criterion, r: Row) {
    match crit
    case NoCoordinateEquals(v) =>
      && !CoordinateEquals(r, "LLlat", v) && !CoordinateEquals(r, "LLlon", v)
      && !CoordinateEquals(r, "LRlat", v) && !CoordinateEquals(r, "LRlon", v)
      && !CoordinateEquals(r, "ULlat", v) && !CoordinateEquals(r, "ULlon", v)
      && !CoordinateEquals(r, "URlat", v) && !CoordinateEquals(r, "URlon", v)
    case AttributeEquals(t) =>
      AttributeColumn in r && r[AttributeColumn] == t
  }

  /** Boolean-mask selection `df[mask]`: the rows the criterion keeps, in their original order. */
  function Filter(rows: seq<Row>, crit: Criterion): (kept: seq<Row>)
    ensures |kept| <= |rows|
    ensures forall r :: r in kept ==> r in rows && Holds(crit, r)
  {
    if rows == [] then []
    else if Holds(crit, rows[0]) then [rows[0]] + Filter(rows[1..], crit)
    else Filter(rows[1..], crit)
  }

  /** `a` is `b` with some rows left out and none reordered. */
  predicate IsSubsequence(a: seq<Row>, b: seq<Row>)
    decreases |b|
  {
    if a == [] then true
    else if b == [] then false
    else (a[0] == b[0] && IsSubsequence(a[1..], b[1..])) || IsSubsequence(a, b[1..])
  }

  /** Filtering keeps every row the criterion holds of, as often as it occurs, and no other row. */
  lemma {:induction false} FilterCounts(rows: seq<Row>, crit: Criterion, r: Row)
    ensures multiset(Filter(rows, crit))[r] == if Holds(crit, r) then multiset(rows)[r] else 0
  {
    if rows != [] {
      FilterCounts(rows[1..], crit, r);
      assert rows == [rows[0]] + rows[1..];
    }
  }

  /** Filtering only removes rows: the survivors come in their original order. */
  lemma {:induction false} FilterIsSubsequence(rows: seq<Row>, crit: Criterion)
    ensures IsSubsequence(Filter(rows, crit), rows)
  {
    if rows != [] {
      FilterIsSubsequence(rows[1..], crit);
      var kept := Filter(rows, crit);
      if Holds(crit, rows[0]) {
        assert kept[0] == rows[0] && kept[1..] == Filter(rows[1..], crit);
      }
    }
  }

  /** A row is kept exactly when it occurs in the table and the criterion holds of it. */
  lemma FilterMembership(rows: seq<Row>, crit: Criterion, r: Row)
    ensures r in Filter(rows, crit) <==> r in rows && Holds(crit, r)
  {
    FilterCounts(rows, crit, r);
    assert r in Filter(rows, crit) <==> multiset(Filter(rows, crit))[r] > 0;
    assert r in rows <==> multiset(rows)[r] > 0;
  }

  /** Filtering twice with the same criterion is filtering once. */
  lemma {:induction false} FilterIdempotent(rows: seq<Row>, crit: Criterion)
    ensures Filter(Filter(rows, crit), crit) == Filter(rows, crit)
  {
    if rows != [] {
      FilterIdempotent(rows[1..], crit);
      if Holds(crit, rows[0]) {
        var kept := Filter(rows, crit);
        assert kept[0] == rows[0] && kept[1..] == Filter(rows[1..], crit);
      }
    }
  }

  /** Two filters can be applied in either order. */
  lemma {:induction false} FilterCommutes(rows: seq<Row>, a: Criterion, b: Criterion)
    ensures Filter(Filter(rows, a), b) == Filter(Filter(rows, b), a)
  {
    if rows != [] {
      FilterCommutes(rows[1..], a, b);
      var ka, kb := Filter(rows, a), Filter(rows, b);
      if Holds(a, rows[0]) {
        assert ka[0] == rows[0] && ka[1..] == Filter(rows[1..], a);
      }
      if Holds(b, rows[0]) {
        assert kb[0] == rows[0] && kb[1..] == Filter(rows[1..], b);
      }
    }
  }

  /** Selecting rows of a well-formed table gives a well-formed table with the same columns. */
  lemma FilterWellFormed(columns: seq<string>, rows: seq<Row>, crit: Criterion)
    requires WellFormed(columns, rows)
    ensures WellFormed(columns, Filter(rows, crit))
  {
    var kept := Filter(rows, crit);
    forall i | 0 <= i < |kept| ensures Fits(kept[i], columns) {
      assert kept[i] in rows;
    }
  }

  /** No row that survives the coordinate mask for v has a coordinate field equal to v. */
  lemma SentinelFilterSound(rows: seq<Row>, v: real)
    ensures forall r, c :: r in Filter(rows, NoCoordinateEquals(v)) && c in CoordinateColumns ==> !CoordinateEquals(r, c, v)
  {
  }

  /** Every row that survives the attribute mask has the target in its attribute column. */
  lemma AttributeFilterSound(rows: seq<Row>, target: Cell)
    ensures forall r :: r in Filter(rows, AttributeEquals(target)) ==> AttributeColumn in r && r[AttributeColumn] == target
  {
  }
}
