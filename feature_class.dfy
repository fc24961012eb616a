/**
 * The CSV feature class: a table loaded from a CSV file, stripped of rows
 * with placeholder coordinates, narrowed to the rows with a given attribute,
 * and turned into one four-corner polygon per row; and `run_geo_app`, which
 * picks the database path and drives these steps to a one-line summary.
 */
module FeatureClass {
  import opened Wrappers
  import opened Strings
  import opened Paths
  import opened Frames

  /** The temporary column that holds each row's coordinate list during conversion. */
  const AllCoordsColumn: string := "allcoords"

  /** The column that receives each row's polygon. */
  const GeometryColumn: string := "geometry"

  /** The placeholder values that mark a missing coordinate, in the order they are filtered. */
  const Sentinels: seq<real> := [0.0, 9999.0]

  function Coordinate(r: Row, column: string): real
    requires IsNumber(r, column)
  {
    r[column].value
  }

  /**
   * The list the conversion stores in `allcoords` for a row: longitude before
   * latitude, corner after corner in the order LL, LR, UR, UL.
   */
  function CoordinateList(r: Row): seq<real>
    requires HasCoordinates(r)
  {
    [ Coordinate(r, "LLlon"), Coordinate(r, "LLlat"),
      Coordinate(r, "LRlon"), Coordinate(r, "LRlat"),
      Coordinate(r, "URlon"), Coordinate(r, "URlat"),
      Coordinate(r, "ULlon"), Coordinate(r, "ULlat") ]
  }

  /**
   * `zip(it, it)` for one iterator `it` over `xs`: each step draws two
   * consecutive items, so the pairs are (xs[0], xs[1]), (xs[2], xs[3]), ...;
   * an odd last item is dropped.
   */
  function ZipWithItself(xs: seq<real>): (ps: seq<Point>)
    ensures |ps| == |xs| / 2
    ensures forall k :: 0 <= k < |ps| ==> ps[k] == Point(xs[2 * k], xs[2 * k + 1])
  {
    if |xs| < 2 then [] else [Point(xs[0], xs[1])] + ZipWithItself(xs[2..])
  }

  /**
   * The exterior ring a polygon built from these vertices has: an open ring is
   * closed by repeating its first vertex, a ring already closed is kept.
   */
  function CloseRing(ps: seq<Point>): (ring: seq<Point>)
    ensures ps != [] ==> |ring| >= |ps| && ring[0] == ps[0] && ring[|ring| - 1] == ps[0]
    ensures ring[..|ps|] == ps && |ring| <= |ps| + 1
    ensures ps != [] && ps[0] == ps[|ps| - 1] ==> ring == ps
    ensures ps != [] && ps[0] != ps[|ps| - 1] ==> ring == ps + [ps[0]]
  {
    if ps != [] && ps[0] != ps[|ps| - 1] then ps + [ps[0]] else ps
  }

  /** The corners of a row's footprint, LL, LR, UR, UL, each with x = longitude and y = latitude. */
  function Corners(r: Row): seq<Point>
    requires HasCoordinates(r)
  {
    [ Point(Coordinate(r, "LLlon"), Coordinate(r, "LLlat")),
      Point(Coordinate(r, "LRlon"), Coordinate(r, "LRlat")),
      Point(Coordinate(r, "URlon"), Coordinate(r, "URlat")),
      Point(Coordinate(r, "ULlon"), Coordinate(r, "ULlat")) ]
  }

  /** The polygon a row stands for: its four corners, closed. */
  function Footprint(r: Row): Polygon
    requires HasCoordinates(r)
  {
    Polygon(CloseRing(Corners(r)))
  }

  /** Pairing the coordinate list with itself yields the four corners in order LL, LR, UR, UL, as (lon, lat). */
  lemma ZipPairsCorners(r: Row)
    requires HasCoordinates(r)
    ensures ZipWithItself(CoordinateList(r)) == Corners(r)
  {
    var ps := ZipWithItself(CoordinateList(r));
    assert |ps| == 4;
    assert ps[0] == Corners(r)[0] && ps[1] == Corners(r)[1];
    assert ps[2] == Corners(r)[2] && ps[3] == Corners(r)[3];
  }

  /**
   * A footprint's ring is closed and starts at the lower-left corner. When the
   * upper-left corner differs from the lower-left one, it is the four corners
   * followed by the lower-left again, five vertices in all; otherwise the
   * corners already close the ring and there are four.
   */
  lemma FootprintRing(r: Row)
    requires HasCoordinates(r)
    ensures var ring := Footprint(r).exterior; var c := Corners(r);
      && ring[0] == c[0] && ring[|ring| - 1] == c[0]
      && ring[..4] == c
      && (c[3] != c[0] ==> |ring| == 5 && ring == c + [c[0]])
      && (c[3] == c[0] ==> |ring| == 4)
  {
  }

  /** The worked example: corners (20,10), (21,10), (21,11), (20,11) make a five-vertex ring back to (20,10). */
  lemma FootprintExample(r: Row)
    requires HasCoordinates(r)
    requires r["LLlat"] == Num(10.0) && r["LLlon"] == Num(20.0)
    requires r["LRlat"] == Num(10.0) && r["LRlon"] == Num(21.0)
    requires r["URlat"] == Num(11.0) && r["URlon"] == Num(21.0)
    requires r["ULlat"] == Num(11.0) && r["ULlon"] == Num(20.0)
    ensures Footprint(r).exterior == [Point(20.0, 10.0), Point(21.0, 10.0), Point(21.0, 11.0), Point(20.0, 11.0), Point(20.0, 10.0)]
  {
  }

  /** The staging and geometry columns are neither coordinate columns nor the attribute column. */
  lemma ColumnNamesApart()
    ensures AllCoordsColumn != GeometryColumn
    ensures AllCoordsColumn !in CoordinateColumns && GeometryColumn !in CoordinateColumns
    ensures AllCoordsColumn != AttributeColumn && GeometryColumn != AttributeColumn
  {
    assert |AllCoordsColumn| == 9 && |GeometryColumn| == 8 && |AttributeColumn| == 7;
    assert forall c :: c in CoordinateColumns ==> |c| == 5;
  }

  /** Deleting a column from a list that has one more column at its end. */
  lemma {:induction false} WithoutColumnSnoc(columns: seq<string>, last: string, name: string)
    ensures WithoutColumn(columns + [last], name) == WithoutColumn(columns, name) + (if last == name then [] else [last])
  {
    if columns == [] {
      assert columns + [last] == [last] && [last][1..] == [];
    } else {
      var head := if columns[0] == name then [] else [columns[0]];
      assert (columns + [last])[0] == columns[0] && (columns + [last])[1..] == columns[1..] + [last];
      WithoutColumnSnoc(columns[1..], last, name);
      assert WithoutColumn(columns + [last], name) == head + WithoutColumn(columns[1..] + [last], name);
    }
  }

  /** Conversion of labels that hold neither allcoords nor geometry: geometry is appended. */
  lemma ConvertedColumnsFresh(columns: seq<string>)
    requires AllCoordsColumn !in columns && GeometryColumn !in columns
    ensures WithoutColumn(WithColumn(WithColumn(columns, AllCoordsColumn), GeometryColumn), AllCoordsColumn)
         == WithoutColumn(columns, AllCoordsColumn) + [GeometryColumn]
  {
    var A, G := AllCoordsColumn, GeometryColumn;
    assert WithColumn(WithColumn(columns, A), G) == columns + [A] + [G];
    WithoutColumnSnoc(columns + [A], G, A);
    WithoutColumnSnoc(columns, A, A);
  }

  /** Conversion of labels that already hold geometry but not allcoords: they stay as they are. */
  lemma ConvertedColumnsWithGeometry(columns: seq<string>)
    requires AllCoordsColumn !in columns && GeometryColumn in columns
    ensures WithoutColumn(WithColumn(WithColumn(columns, AllCoordsColumn), GeometryColumn), AllCoordsColumn)
         == WithoutColumn(columns, AllCoordsColumn)
  {
    var A := AllCoordsColumn;
    assert WithColumn(WithColumn(columns, A), GeometryColumn) == columns + [A];
    WithoutColumnSnoc(columns, A, A);
  }

  /** Conversion of labels that hold allcoords but not geometry: allcoords goes, geometry is appended. */
  lemma ConvertedColumnsWithStaging(columns: seq<string>)
    requires AllCoordsColumn in columns && GeometryColumn !in columns
    ensures WithoutColumn(WithColumn(WithColumn(columns, AllCoordsColumn), GeometryColumn), AllCoordsColumn)
         == WithoutColumn(columns, AllCoordsColumn) + [GeometryColumn]
  {
    assert WithColumn(WithColumn(columns, AllCoordsColumn), GeometryColumn) == columns + [GeometryColumn];
    WithoutColumnSnoc(columns, GeometryColumn, AllCoordsColumn);
  }

  /** The labels conversion leaves: the old ones without allcoords, geometry added last when it was new. */
  lemma ConvertedColumns(columns: seq<string>)
    ensures WithoutColumn(WithColumn(WithColumn(columns, AllCoordsColumn), GeometryColumn), AllCoordsColumn)
         == WithoutColumn(columns, AllCoordsColumn) + (if GeometryColumn in columns then [] else [GeometryColumn])
  {
    if AllCoordsColumn !in columns && GeometryColumn !in columns {
      ConvertedColumnsFresh(columns);
    } else if AllCoordsColumn !in columns {
      ConvertedColumnsWithGeometry(columns);
    } else if GeometryColumn !in columns {
      ConvertedColumnsWithStaging(columns);
    }
  }

  /** What the three conversion steps make of one row: stage its list, add its polygon, drop the list. */
  function ConvertRow(r: Row): Row
    requires HasCoordinates(r)
  {
    var staged := r[AllCoordsColumn := Coordinates(CoordinateList(r))];
    var shaped := staged[GeometryColumn := Shape(Polygon(CloseRing(ZipWithItself(CoordinateList(r)))))];
    shaped - {AllCoordsColumn}
  }

  /** A converted row fits the converted labels, holds its footprint and keeps every other cell. */
  lemma ConvertRowFacts(r: Row, columns: seq<string>)
    requires Fits(r, columns)
    ensures Fits(ConvertRow(r), WithoutColumn(WithColumn(WithColumn(columns, AllCoordsColumn), GeometryColumn), AllCoordsColumn))
    ensures ConvertRow(r)[GeometryColumn] == Shape(Footprint(r))
    ensures forall c :: c in r && c != GeometryColumn && c != AllCoordsColumn ==> c in ConvertRow(r) && ConvertRow(r)[c] == r[c]
  {
    ColumnNamesApart();
    ZipPairsCorners(r);
    var out := WithoutColumn(WithColumn(WithColumn(columns, AllCoordsColumn), GeometryColumn), AllCoordsColumn);
    assert ConvertRow(r).Keys == (set c | c in out);
  }

  /**
   * Converting every row of a well-formed table gives a well-formed table
   * under the converted labels, row for row: each row holds its footprint and
   * keeps every cell outside the geometry and allcoords columns.
   */
  lemma ConvertTableFacts(columns: seq<string>, rows: seq<Row>, converted: seq<Row>)
    requires WellFormed(columns, rows)
    requires |converted| == |rows|
    requires forall i :: 0 <= i < |rows| ==> HasCoordinates(rows[i]) && converted[i] == ConvertRow(rows[i])
    ensures WellFormed(WithoutColumn(WithColumn(WithColumn(columns, AllCoordsColumn), GeometryColumn), AllCoordsColumn), converted)
    ensures forall i :: 0 <= i < |converted| ==> converted[i][GeometryColumn] == Shape(Footprint(rows[i]))
    ensures forall i, c :: 0 <= i < |converted| && c in rows[i] && c != GeometryColumn && c != AllCoordsColumn ==>
              c in converted[i] && converted[i][c] == rows[i][c]
  {
    ColumnNamesApart();
    var out := WithoutColumn(WithColumn(WithColumn(columns, AllCoordsColumn), GeometryColumn), AllCoordsColumn);
    WithoutColumnDistinct(WithColumn(WithColumn(columns, AllCoordsColumn), GeometryColumn), AllCoordsColumn);
    forall i | 0 <= i < |converted|
      ensures Fits(converted[i], out) && converted[i][GeometryColumn] == Shape(Footprint(rows[i]))
      ensures forall c :: c in rows[i] && c != GeometryColumn && c != AllCoordsColumn ==> c in converted[i] && converted[i][c] == rows[i][c]
    {
      ConvertRowFacts(rows[i], columns);
    }
  }

  /** The allcoords column the first `apply` computes: each row's coordinate list. */
  function CoordinateLists(rows: seq<Row>): (lists: seq<seq<real>>)
    requires forall i :: 0 <= i < |rows| ==> HasCoordinates(rows[i])
    ensures |lists| == |rows|
  {
    seq(|rows|, i requires 0 <= i < |rows| && HasCoordinates(rows[i]) => CoordinateList(rows[i]))
  }

  /** The cells of the allcoords column. */
  function CoordinateCells(lists: seq<seq<real>>): (cells: seq<Cell>)
    ensures |cells| == |lists|
  {
    seq(|lists|, i requires 0 <= i < |lists| => Coordinates(lists[i]))
  }

  /** The geometry column the second `apply` computes: a polygon over each list, two numbers per vertex. */
  function ShapeCells(lists: seq<seq<real>>): (cells: seq<Cell>)
    ensures |cells| == |lists|
  {
    seq(|lists|, i requires 0 <= i < |lists| => Shape(Polygon(CloseRing(ZipWithItself(lists[i])))))
  }

  /** The three column operations of the conversion, applied in turn, convert each row. */
  lemma ConvertStepsAgree(rows: seq<Row>)
    requires forall i :: 0 <= i < |rows| ==> HasCoordinates(rows[i])
    ensures var lists := CoordinateLists(rows);
      var converted := DropCells(SetCells(SetCells(rows, AllCoordsColumn, CoordinateCells(lists)), GeometryColumn, ShapeCells(lists)), AllCoordsColumn);
      forall i :: 0 <= i < |rows| ==> converted[i] == ConvertRow(rows[i])
  {
  }

  /**
   * The feature class built from a CSV file. `columns` and `rows` are its data
   * frame; `crs` is None while it is a plain data frame and the declared
   * reference system once it has been converted to a geo data frame.
   */
  class CsvFeatureClass {
    const name: string
    var columns: seq<string>
    var rows: seq<Row>
    var crs: Option<string>

    ghost predicate Valid()
      reads this
    {
      WellFormed(columns, rows)
    }

    /** The feature class holding the table its CSV file was read into. */
    constructor (name: string, columns: seq<string>, rows: seq<Row>)
      requires WellFormed(columns, rows)
      ensures Valid()
      ensures this.name == name && this.columns == columns && this.rows == rows && crs == None
    {
      this.name := name;
      this.columns := columns;
      this.rows := rows;
      this.crs := None;
    }

    /** The number of rows of the data frame. */
    function FeaturesCount(): nat
      reads this
    {
      |rows|
    }

    /** Drop every row with a coordinate field equal to `value`; the other rows stay, in order. */
    method FilterOutBasedOnCoordinates(value: real)
      requires Valid()
      modifies this
      ensures Valid()
      ensures rows == Filter(old(rows), NoCoordinateEquals(value))
      ensures columns == old(columns) && crs == old(crs)
    {
      FilterWellFormed(columns, rows, NoCoordinateEquals(value));
      rows := Filter(rows, NoCoordinateEquals(value));
    }

    /** Keep only the rows whose attribute column equals `target`, in order. */
    method FilterOutBasedOnAttributes(target: Cell)
      requires Valid()
      modifies this
      ensures Valid()
      ensures rows == Filter(old(rows), AttributeEquals(target))
      ensures columns == old(columns) && crs == old(crs)
    {
      FilterWellFormed(columns, rows, AttributeEquals(target));
      rows := Filter(rows, AttributeEquals(target));
    }

    /**
     * Give every row its footprint in the geometry column and declare the
     * table in `declared`. The coordinate lists are staged in the allcoords
     * column, paired into vertices, and the staging column is deleted again;
     * every other column keeps its cells.
     */
    method ConvertDataFrameToGeoDataFrame(declared: string)
      requires Valid()
      modifies this
      ensures Valid()
      ensures |rows| == |old(rows)|
      ensures AllCoordsColumn !in columns && GeometryColumn in columns
      ensures columns == WithoutColumn(old(columns), AllCoordsColumn) + (if GeometryColumn in old(columns) then [] else [GeometryColumn])
      ensures forall i :: 0 <= i < |rows| ==> HasCoordinates(old(rows)[i]) && rows[i][GeometryColumn] == Shape(Footprint(old(rows)[i]))
      ensures forall i, c :: 0 <= i < |rows| && c in old(rows)[i] && c != GeometryColumn && c != AllCoordsColumn ==>
                c in rows[i] && rows[i][c] == old(rows)[i][c]
      ensures crs == Some(declared)
    {
      ghost var before, labels := rows, columns;
      // df['allcoords']: one coordinate list per row
      var allcoords := CoordinateLists(rows);
      SetColumn(AllCoordsColumn, CoordinateCells(allcoords));
      // df['geometry']: the polygon drawn from each row's allcoords
      SetColumn(GeometryColumn, ShapeCells(allcoords));
      // del df['allcoords']
      DeleteColumn(AllCoordsColumn);
      // the geo data frame, declared in the reference system
      crs := Some(declared);

      ConvertedColumns(labels);
      ConvertStepsAgree(before);
      ConvertTableFacts(labels, before, rows);
    }

    /** `df[column] = cells`: the column joins the labels unless present, and each row gets its cell. */
    method SetColumn(column: string, cells: seq<Cell>)
      requires |cells| == |rows|
      modifies this
      ensures columns == WithColumn(old(columns), column)
      ensures rows == SetCells(old(rows), column, cells)
      ensures crs == old(crs)
    {
      columns := WithColumn(columns, column);
      rows := SetCells(rows, column, cells);
    }

    /** `del df[column]`: the column leaves the labels and its cell leaves every row. */
    method DeleteColumn(column: string)
      modifies this
      ensures columns == WithoutColumn(old(columns), column)
      ensures rows == DropCells(old(rows), column)
      ensures crs == old(crs)
    {
      columns := WithoutColumn(columns, column);
      rows := DropCells(rows, column);
    }
  }

  /** The rows left after the coordinate filter has run once for each value of `values`, in turn. */
  function WithoutSentinels(rows: seq<Row>, values: seq<real>): seq<Row>
  {
    if values == [] then rows
    else Filter(WithoutSentinels(rows, values[..|values| - 1]), NoCoordinateEquals(values[|values| - 1]))
  }

  /** After the coordinate filter for every value of `values`, no surviving row has a coordinate equal to any of them. */
  lemma {:induction false} WithoutSentinelsSound(rows: seq<Row>, values: seq<real>)
    ensures forall r, v, c :: r in WithoutSentinels(rows, values) && v in values && c in CoordinateColumns ==> !CoordinateEquals(r, c, v)
    ensures |WithoutSentinels(rows, values)| <= |rows|
    ensures forall r :: r in WithoutSentinels(rows, values) ==> r in rows
  {
    if values != [] {
      var init := values[..|values| - 1];
      WithoutSentinelsSound(rows, init);
      SentinelFilterSound(WithoutSentinels(rows, init), values[|values| - 1]);
      assert values == init + [values[|values| - 1]];
    }
  }

  /** A row survives the coordinate filters exactly when it is in the table and none of its coordinates is one of the values. */
  lemma {:induction false} WithoutSentinelsMembership(rows: seq<Row>, values: seq<real>, r: Row)
    ensures r in WithoutSentinels(rows, values) <==> r in rows && forall v :: v in values ==> Holds(NoCoordinateEquals(v), r)
  {
    if values != [] {
      var init, last := values[..|values| - 1], values[|values| - 1];
      WithoutSentinelsMembership(rows, init, r);
      FilterMembership(WithoutSentinels(rows, init), NoCoordinateEquals(last), r);
      assert values == init + [last];
    }
  }

  /** Filtering the two sentinels in either order leaves the same table. */
  lemma SentinelOrderIrrelevant(rows: seq<Row>)
    ensures WithoutSentinels(rows, [0.0, 9999.0]) == WithoutSentinels(rows, [9999.0, 0.0])
  {
    var zero, nines := NoCoordinateEquals(0.0), NoCoordinateEquals(9999.0);
    assert [0.0, 9999.0][..1] == [0.0] && [9999.0, 0.0][..1] == [9999.0];
    assert [0.0][..0] == [] && [9999.0][..0] == [];
    assert WithoutSentinels(rows, [0.0]) == Filter(rows, zero);
    assert WithoutSentinels(rows, [9999.0]) == Filter(rows, nines);
    assert WithoutSentinels(rows, [0.0, 9999.0]) == Filter(Filter(rows, zero), nines);
    assert WithoutSentinels(rows, [9999.0, 0.0]) == Filter(Filter(rows, nines), zero);
    FilterCommutes(rows, zero, nines);
  }

  /** The rows whose footprints the pipeline builds: both sentinel filters, then the attribute filter. */
  function PipelineRows(rows: seq<Row>, target: Cell): seq<Row>
  {
    Filter(WithoutSentinels(rows, Sentinels), AttributeEquals(target))
  }

  /**
   * A row reaches the end of the pipeline exactly when it is in the loaded
   * table, no coordinate of it is 0 or 9999, and its attribute column holds
   * the target; the pipeline never adds rows.
   */
  lemma PipelineMembership(rows: seq<Row>, target: Cell, r: Row)
    ensures r in PipelineRows(rows, target) <==>
      && r in rows
      && (forall c :: c in CoordinateColumns ==> !CoordinateEquals(r, c, 0.0) && !CoordinateEquals(r, c, 9999.0))
      && AttributeColumn in r && r[AttributeColumn] == target
    ensures |PipelineRows(rows, target)| <= |rows|
  {
    WithoutSentinelsMembership(rows, Sentinels, r);
    WithoutSentinelsSound(rows, Sentinels);
    FilterMembership(WithoutSentinels(rows, Sentinels), AttributeEquals(target), r);
    assert 0.0 in Sentinels && 9999.0 in Sentinels;
    assert forall v :: v in Sentinels ==> v == 0.0 || v == 9999.0;
  }

  /** The database path `run_geo_app` goes on with: an archive is replaced by the directory it unzips to. */
  function DispatchPath(gdbPath: Path): Path {
    if Suffix(gdbPath) == ".zip" then UnzippedPath(gdbPath) else gdbPath
  }

  /** The summary `run_geo_app` returns. */
  function SummaryLine(featureClassName: string, count: nat): string {
    "csv_feature_class: " + featureClassName + ", features number: " + NatToDecimal(count)
  }

  /**
   * `run_geo_app` with the attribute target given explicitly and `unzip_file`
   * in scope. `csvColumns` and `csvRows` are the table the CSV file is read
   * into, `featureClassNames` the configured layer names, `crs` the
   * configured reference system. A summary comes back exactly when the path,
   * after an archive is replaced by its directory, has suffix ".gdb" and
   * there is a layer name; it reports the first name and the rows left by
   * the pipeline.
   */
  method RunGeoApp(gdbPath: Path, csvColumns: seq<string>, csvRows: seq<Row>, featureClassNames: seq<string>, target: Cell, crs: string)
    returns (result: Option<string>)
    requires Suffix(DispatchPath(gdbPath)) == ".gdb" && featureClassNames != [] ==> WellFormed(csvColumns, csvRows)
    ensures result.Some? <==> Suffix(DispatchPath(gdbPath)) == ".gdb" && featureClassNames != []
    ensures result.Some? ==> result.value == SummaryLine(featureClassNames[0], |PipelineRows(csvRows, target)|)
  {
    var path := gdbPath;
    if Suffix(path) == ".zip" {
      path := UnzippedPath(path);
    }
    result := None;
    if Suffix(path) == ".gdb" && featureClassNames != [] {
      var featureClassName := featureClassNames[0];
      var csvFeatureClass := new CsvFeatureClass(featureClassName, csvColumns, csvRows);
      for k := 0 to |Sentinels|
        invariant csvFeatureClass.Valid()
        invariant csvFeatureClass.rows == WithoutSentinels(csvRows, Sentinels[..k])
      {
        assert Sentinels[..k + 1][..k] == Sentinels[..k];
        csvFeatureClass.FilterOutBasedOnCoordinates(Sentinels[k]);
      }
      assert Sentinels[..|Sentinels|] == Sentinels;
      csvFeatureClass.FilterOutBasedOnAttributes(target);
      csvFeatureClass.ConvertDataFrameToGeoDataFrame(crs);
      result := Some(SummaryLine(featureClassName, csvFeatureClass.FeaturesCount()));
    }
  }

  /** Raised by Python when a name is used that is bound nowhere in scope. */
  datatype Failure = NameError(name: string)

  /**
   * `run_geo_app` as it stands. `unzip_file` is imported only by the module's
   * `__main__` block, so an archive path raises NameError at the call; and
   * the attribute filter reads a variable `value` that no scope of the
   * module binds, so a ".gdb" path raises NameError once the coordinate
   * filters are done. Otherwise the function falls through and returns None.
   */
  function RunGeoAppAsWritten(gdbPath: Path, featureClassNames: seq<string>): (r: Result<Option<string>, Failure>)
    ensures r.Ok? ==> r.value == None
    ensures r == Err(NameError("unzip_file")) <==> Suffix(gdbPath) == ".zip"
  {
    if Suffix(gdbPath) == ".zip" then Err(NameError("unzip_file"))
    else if Suffix(gdbPath) == ".gdb" && featureClassNames != [] then Err(NameError("value"))
    else Ok(None)
  }

  /**
   * Wherever the corrected `run_geo_app` produces a summary, the code as
   * written raises NameError instead; elsewhere both return None.
   */
  lemma AsWrittenNeverSummarises(gdbPath: Path, featureClassNames: seq<string>)
    ensures Suffix(DispatchPath(gdbPath)) == ".gdb" && featureClassNames != [] ==> RunGeoAppAsWritten(gdbPath, featureClassNames).Err?
    ensures !(Suffix(DispatchPath(gdbPath)) == ".gdb" && featureClassNames != []) && Suffix(gdbPath) != ".zip" ==>
              RunGeoAppAsWritten(gdbPath, featureClassNames) == Ok(None)
  {
  }

  /**
   * An archive `base.gdb.zip` unzips to a ".gdb" directory, so it is meant to
   * be summarised, but the code as written fails on `unzip_file`.
   */
  lemma ArchivedDatabase(dir: Path, base: string)
    requires base != ""
    ensures Suffix(DispatchPath(Join(dir, base + ".gdb" + ".zip"))) == ".gdb"
    ensures RunGeoAppAsWritten(Join(dir, base + ".gdb" + ".zip"), [base]) == Err(NameError("unzip_file"))
  {
    UnzippedArchive(dir, base + ".gdb");
    GdbDirectory(dir, base);
  }

  /**
   * A directory `base.gdb` is meant to be summarised, but the code as written
   * fails on `value`.
   */
  lemma DatabaseDirectory(dir: Path, base: string)
    requires base != ""
    ensures Suffix(DispatchPath(Join(dir, base + ".gdb"))) == ".gdb"
    ensures RunGeoAppAsWritten(Join(dir, base + ".gdb"), [base]) == Err(NameError("value"))
  {
    GdbDirectory(dir, base);
  }
}
