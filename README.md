# geopandas_app: a Dafny model

`geopandas_app` is a small web application. A user uploads a zipped file
geodatabase and a CSV table of rectangles. Each rectangle is given by the
latitude and longitude of its four corners.

The application does four things with the table:

- drops the rows that carry the placeholder coordinates 0 or 9999;
- keeps the rows whose `Column1` holds a chosen value;
- turns every remaining row into a polygon over its corners;
- answers with a one-line summary: the layer name and the number of features left.

This project models that core and proves properties of it:

- the CSV feature class, as a class whose data frame is updated in place;
- the `run_geo_app` driver;
- the file-name test and the upload loop of the Flask endpoint.

Modules:

- `Wrappers`: `Option` and `Result`.
- `Strings`: the parts of Python's `str` the code relies on: `rfind`, ASCII `lower`, and the decimal rendering of a count.
- `Paths`: the parts of `pathlib` the code relies on, and the directory that `unzip_file` returns.
  - A path is its list of components, so `Path('')` and `Path('.')` have none.
  - `suffix` follows pathlib's rule: the name from its last dot on, unless that dot is the name's first or last character.
- `Frames`: the data frame.
  - Column labels are a `seq<string>`; each row is a `map` from label to cell.
  - Both row masks are order-preserving filters.
- `FeatureClass`:
  - `CsvFeatureClass`, whose `columns`, `rows` and `crs` fields its methods reassign;
  - the footprint polygon of a row;
  - `run_geo_app`, with its loop over the two placeholder values.
- `Upload`:
  - `allowed_file`;
  - `upload_files`, as a method with a loop over the uploaded file names. `secure_filename` is a function parameter.

`features_count` is `CsvFeatureClass.FeaturesCount`, the number of rows. Its
meaning is stated where it is used: in the summary that `RunGeoApp`
returns.

The code as written cannot produce a summary from the web endpoint; see
"## Findings". The model therefore has two versions of `run_geo_app`:

- `RunGeoAppAsWritten` states, as a function, which exception the source raises or that it returns None.
- `RunGeoApp` is the evidently intended pipeline, and is proved against its specification (`PipelineRows`, `SummaryLine`).

## Model

| member | source | states |
|---|---|---|
| Strings.LastIndexOf | src/geopandas_app/geopandas_app.py:17 | the point where `rsplit('.', 1)` splits: -1 exactly when there is no dot, otherwise a dot with no dot after it |
| Strings.Lower | src/geopandas_app/geopandas_app.py:17 | `str.lower` on the extension, character by character with ASCII case folding; LowerIdempotent, LowerKeepsDots and LowerSuffix state its properties |
| Strings.LastDotOfLower | src/geopandas_app/geopandas_app.py:17 | lower-casing does not move the last dot |
| Strings.NatToDecimal | src/geopandas_app/feature_class.py:99 | the count in the summary is a non-empty string of digits without a leading zero |
| Strings.DecimalRoundTrip | src/geopandas_app/feature_class.py:99 | reading the rendered count back gives the count |
| Paths.SuffixStart | src/geopandas_app/feature_class.py:88 | pathlib's suffix rule: the last dot, only if it is neither the first nor the last character of the name, with no dot after it |
| Paths.Name | src/geopandas_app/feature_class.py:88 | `path.name`: the last component, or "" for a path without components; SuffixOfJoin and StemAndSuffix state it |
| Paths.Suffix | src/geopandas_app/feature_class.py:88 | `path.suffix`: the name from the position SuffixStart gives, or "" |
| Paths.Stem | src/geopandas_app/utils/tools.py:10-13 | `path.stem`: the name without its suffix; StemAndSuffix relates the two |
| Paths.Parent | src/geopandas_app/utils/tools.py:8-13 | `path.parent`: the path without its last component; a path without components is its own parent |
| Paths.Join | src/geopandas_app/geopandas_app.py:49 | `path / name` for one component; joining "" leaves the path as it is |
| Paths.UnzippedPath | src/geopandas_app/utils/tools.py:13 | the path `unzip_file` returns, parent joined with stem; UnzippedArchive states it for an archive `stem.zip` |
| Paths.StemAndSuffix | src/geopandas_app/utils/tools.py:13 | stem followed by suffix is the name; a non-empty suffix is a dot and a dot-free rest, and its stem is not empty |
| Paths.SuffixOfJoin | src/geopandas_app/geopandas_app.py:49-53 | storing `base.ext` in a folder gives a path with name `base.ext`, suffix `.ext`, stem `base` and that folder as parent |
| Paths.UnzippedArchive | src/geopandas_app/utils/tools.py:6-13 | an archive `stem.zip` has suffix ".zip" and unzips to the sibling directory `stem` |
| Paths.GdbDirectory | src/geopandas_app/feature_class.py:90 | a directory `base.gdb` has suffix ".gdb" |
| Paths.NoDotNoSuffix | src/geopandas_app/geopandas_app.py:51-54 | a name without a dot has no suffix, so it is stored as neither archive nor table |
| Frames.WithColumn | src/geopandas_app/feature_class.py:67-76 | assigning a column adds its label once, keeps the labels distinct, and reorders nothing when the label exists |
| Frames.WithoutColumn | src/geopandas_app/feature_class.py:77 | deleting a column removes exactly that label |
| Frames.WithoutColumnDistinct | src/geopandas_app/feature_class.py:77 | deleting a column keeps the labels distinct |
| Frames.WithoutColumnAt | src/geopandas_app/feature_class.py:77 | deleting a label that occurs once leaves the labels before it and after it, in their order |
| Frames.SetCells | src/geopandas_app/feature_class.py:67-76 | `df[column] = cells` on the rows: each row gets its cell; ConvertStepsAgree and ConvertRowFacts state the result |
| Frames.DropCells | src/geopandas_app/feature_class.py:77 | `del df[column]` on the rows: each row loses its cell there; ConvertStepsAgree and ConvertRowFacts state the result |
| Frames.Holds | src/geopandas_app/feature_class.py:50-62 | whether a row passes a mask: all eight coordinates differ from the value, or `Column1` equals the target; SentinelFilterSound and AttributeFilterSound state what survives |
| Frames.Filter | src/geopandas_app/feature_class.py:50-62 | mask selection returns at most the input rows, and only rows of the input that the mask holds of |
| Frames.FilterCounts | src/geopandas_app/feature_class.py:50-57 | each row the mask holds of is kept as often as it occurs, and no other row is kept |
| Frames.FilterIsSubsequence | src/geopandas_app/feature_class.py:50-57 | the kept rows come in their original order |
| Frames.FilterMembership | src/geopandas_app/feature_class.py:50-62 | a row is kept if and only if it is in the table and the mask holds of it |
| Frames.FilterIdempotent | src/geopandas_app/feature_class.py:47-57 | filtering twice with the same value is filtering once |
| Frames.FilterCommutes | src/geopandas_app/feature_class.py:95-97 | the masks can be applied in either order |
| Frames.FilterWellFormed | src/geopandas_app/feature_class.py:47-62 | selecting rows keeps a well-formed table well-formed under the same labels |
| Frames.SentinelFilterSound | src/geopandas_app/feature_class.py:47-57 | no surviving row has any of the eight coordinates equal to the value |
| Frames.AttributeFilterSound | src/geopandas_app/feature_class.py:59-62 | every surviving row has the target in `Column1` |
| FeatureClass.CoordinateList | src/geopandas_app/feature_class.py:67-75 | the eight numbers the first `apply` lists for a row, longitude before latitude, corners LL, LR, UR, UL; ZipPairsCorners pairs them into the corners |
| FeatureClass.ZipWithItself | src/geopandas_app/feature_class.py:76 | `zip(it, it)` over one iterator pairs consecutive items, (xs[2k], xs[2k+1]), and drops an odd last item |
| FeatureClass.CloseRing | src/geopandas_app/feature_class.py:76 | the polygon's ring starts with the given vertices and ends at its first vertex: an open ring gets its first vertex appended, a closed one is kept as it is |
| FeatureClass.ZipPairsCorners | src/geopandas_app/feature_class.py:67-76 | the list stored in `allcoords`, paired, gives the corners LL, LR, UR, UL as (longitude, latitude) |
| FeatureClass.FootprintRing | src/geopandas_app/feature_class.py:65-78 | the ring is closed and starts at LL; it has five vertices when UL differs from LL, and four when it does not |
| FeatureClass.FootprintExample | src/geopandas_app/feature_class.py:65-78 | the rectangle (20,10)-(21,11) gives the ring (20,10), (21,10), (21,11), (20,11), (20,10) |
| FeatureClass.ConvertedColumns | src/geopandas_app/feature_class.py:67-77 | after conversion the labels are the old ones without `allcoords`, with `geometry` appended when it was new |
| FeatureClass.ConvertRow | src/geopandas_app/feature_class.py:67-77 | what the two assignments and the delete make of one row; ConvertRowFacts states its result |
| FeatureClass.ConvertRowFacts | src/geopandas_app/feature_class.py:67-77 | a converted row fits the new labels, holds its footprint in `geometry`, and keeps every other cell |
| FeatureClass.ConvertTableFacts | src/geopandas_app/feature_class.py:65-78 | converting every row of a well-formed table gives a well-formed table, row for row |
| FeatureClass.ConvertStepsAgree | src/geopandas_app/feature_class.py:67-77 | the three column operations, applied in turn, convert each row |
| FeatureClass.CoordinateLists | src/geopandas_app/feature_class.py:67-75 | the list the first `apply` computes for each row, one per row; ConvertStepsAgree states it |
| FeatureClass.CoordinateCells | src/geopandas_app/feature_class.py:67-75 | the `allcoords` cells, row for row; ConvertStepsAgree states them |
| FeatureClass.ShapeCells | src/geopandas_app/feature_class.py:76 | the `geometry` cells, the polygon on each row's paired list, row for row; ConvertStepsAgree and FootprintRing state them |
| FeatureClass.CsvFeatureClass.constructor | src/geopandas_app/feature_class.py:19-22 | the feature class holds its name and the table its CSV file was read into, and no reference system yet |
| FeatureClass.CsvFeatureClass.FilterOutBasedOnCoordinates | src/geopandas_app/feature_class.py:47-57 | the new rows are the old rows whose eight coordinates all differ from the value, in order; labels and reference system are unchanged; the table stays well-formed |
| FeatureClass.CsvFeatureClass.FilterOutBasedOnAttributes | src/geopandas_app/feature_class.py:59-62 | the new rows are the old rows with the target in `Column1`, in order; the target is a parameter; nothing else changes |
| FeatureClass.CsvFeatureClass.ConvertDataFrameToGeoDataFrame | src/geopandas_app/feature_class.py:65-78 | same number of rows; each row i holds the footprint of old row i in `geometry` and keeps every other cell; `allcoords` is gone; the labels follow ConvertedColumns; the reference system is the declared one |
| FeatureClass.CsvFeatureClass.FeaturesCount | src/geopandas_app/feature_class.py:30-33 | `features_count`: the number of rows of the frame; RunGeoApp states the count it reports |
| FeatureClass.CsvFeatureClass.SetColumn | src/geopandas_app/feature_class.py:67-76 | column assignment: the labels gain the column, each row gets its cell |
| FeatureClass.CsvFeatureClass.DeleteColumn | src/geopandas_app/feature_class.py:77 | column deletion: the label and every row's cell in it are removed |
| FeatureClass.WithoutSentinels | src/geopandas_app/feature_class.py:95-96 | the rows left after the coordinate filter has run for each value in turn; WithoutSentinelsSound and WithoutSentinelsMembership state them |
| FeatureClass.WithoutSentinelsSound | src/geopandas_app/feature_class.py:95-96 | after the coordinate filter for each value, no surviving row has a coordinate equal to any value, and only input rows survive |
| FeatureClass.WithoutSentinelsMembership | src/geopandas_app/feature_class.py:95-96 | a row survives the loop if and only if it is in the table and no coordinate of it equals any of the values |
| FeatureClass.SentinelOrderIrrelevant | src/geopandas_app/feature_class.py:95-96 | filtering 0 then 9999 leaves the same table as 9999 then 0 |
| FeatureClass.PipelineMembership | src/geopandas_app/feature_class.py:95-97 | a row reaches the conversion if and only if it is in the table, has no coordinate 0 or 9999, and holds the target; the pipeline never adds rows |
| FeatureClass.PipelineRows | src/geopandas_app/feature_class.py:95-97 | the rows left by the two coordinate filters and the attribute filter; PipelineMembership states which, and RunGeoApp counts them |
| FeatureClass.DispatchPath | src/geopandas_app/feature_class.py:88-89 | the path `run_geo_app` goes on with: a ".zip" archive is replaced by the directory it unzips to; ArchivedDatabase states it for `base.gdb.zip` |
| FeatureClass.SummaryLine | src/geopandas_app/feature_class.py:99 | the returned summary text, with the count rendered by NatToDecimal (DecimalRoundTrip reads it back) |
| FeatureClass.RunGeoApp | src/geopandas_app/feature_class.py:85-99 | a summary comes back if and only if the path (an archive replaced by its unzipped directory) has suffix ".gdb" and a layer name is configured; it names the first layer and counts the rows PipelineRows leaves |
| FeatureClass.RunGeoAppAsWritten | src/geopandas_app/feature_class.py:85-99 | the code as written never returns a summary; it raises NameError on `unzip_file` exactly for a ".zip" path |
| FeatureClass.AsWrittenNeverSummarises | src/geopandas_app/feature_class.py:85-99 | wherever the intended driver summarises, the code as written raises; elsewhere, for a path without ".zip", both return None |
| FeatureClass.ArchivedDatabase | src/geopandas_app/feature_class.py:88-89 | an archive `base.gdb.zip` unzips to a ".gdb" directory, yet the code as written raises NameError on `unzip_file` |
| FeatureClass.DatabaseDirectory | src/geopandas_app/feature_class.py:90-97 | a directory `base.gdb` is meant to be summarised, yet the code as written raises NameError on `value` |
| Upload.AllowedFile | src/geopandas_app/geopandas_app.py:15-17 | `allowed_file`: a dot, and the lower-cased text after the last dot is "csv" or "zip"; AllowedFileByLastDot and AllowedFileSplit restate it without `rfind` |
| Upload.AllowedFileByLastDot | src/geopandas_app/geopandas_app.py:15-17 | a name is allowed if and only if some dot with no dot after it is followed by "csv" or "zip" in any case |
| Upload.AllowedFileSplit | src/geopandas_app/geopandas_app.py:15-17 | `pre.ext` with a dot-free `ext` is allowed if and only if `ext` lower-cased is "csv" or "zip" |
| Upload.AllowedFileIgnoresCase | src/geopandas_app/geopandas_app.py:17 | two names equal up to case are both allowed or both refused |
| Upload.LowerDeterminesAllowed | src/geopandas_app/geopandas_app.py:17 | a name is allowed exactly when its lower-cased form is |
| Upload.NoDotRefused | src/geopandas_app/geopandas_app.py:16 | a name without a dot is refused |
| Upload.UpperCaseTableAllowed | src/geopandas_app/geopandas_app.py:15-17 | `REPORT.CSV` is allowed |
| Upload.ZippedDatabaseAllowed | src/geopandas_app/geopandas_app.py:15-17 | `layers.gdb.zip` is allowed: only the last extension counts |
| Upload.RenamedArchiveRefused | src/geopandas_app/geopandas_app.py:15-17 | `layers.zip.txt` is refused |
| Upload.TrailingDotRefused | src/geopandas_app/geopandas_app.py:15-17 | `archive.` is refused: its extension is empty |
| Upload.Acceptable | src/geopandas_app/geopandas_app.py:47 | the test before storing: the file part is truthy (its name is not empty) and its name is allowed |
| Upload.AcceptableIsAllowed | src/geopandas_app/geopandas_app.py:47 | the presence test adds nothing to `allowed_file`, since an allowed name is never empty |
| Upload.UploadPath | src/geopandas_app/geopandas_app.py:49 | the stored file's path: the folder `file_storage` set at line 12, joined with the sanitised name; SuffixOfJoin states its name, suffix, stem and parent |
| Upload.Routes | src/geopandas_app/geopandas_app.py:47-54 | a file is stored and its stored path takes the branch for the given suffix |
| Upload.LastUploaded | src/geopandas_app/geopandas_app.py:46-54 | the path the loop last stored with a given suffix, or the empty path the handler starts from (line 31); LastUploadedEmpty, LastUploadedIsLast and UploadedArchiveSuffix state it |
| Upload.LastUploadedEmpty | src/geopandas_app/geopandas_app.py:31-54 | the path handed on for a suffix is the empty path exactly when no file is routed to it |
| Upload.LastUploadedIsLast | src/geopandas_app/geopandas_app.py:46-54 | otherwise it is the stored path of a file routed to the suffix after which no file is: a later file overwrites an earlier one |
| Upload.Saved | src/geopandas_app/geopandas_app.py:46-50 | the stored paths, one per acceptable file, in order; SavedExactly states membership both ways, SavedAllAcceptable position and count when every file is acceptable |
| Upload.Rejections | src/geopandas_app/geopandas_app.py:55-57 | the error report built by the loop; RejectionsExactly states it |
| Upload.RejectionsExactly | src/geopandas_app/geopandas_app.py:55-57 | the error report names exactly the refused files, each with "File type is not allowed" |
| Upload.SavedExactly | src/geopandas_app/geopandas_app.py:46-50 | every stored path is the upload path of an acceptable file, and every acceptable file is stored |
| Upload.SavedAllAcceptable | src/geopandas_app/geopandas_app.py:46-50 | when every file is acceptable, one path is stored per file, and the i-th is the upload path of file i's sanitised name |
| Upload.UploadedArchiveSuffix | src/geopandas_app/geopandas_app.py:31-52 | the archive path handed on is the empty path or has suffix ".zip" |
| Upload.MixedCaseArchiveNotRouted | src/geopandas_app/geopandas_app.py:47-54 | `base.ZIP` is accepted and stored, but handed on as neither the archive nor the table |
| Upload.UpperCaseArchiveExample | src/geopandas_app/geopandas_app.py:46-54 | an upload of `A.ZIP`, stored under that name, is accepted, yet neither the archive path nor the table path is set |
| Upload.HiddenArchiveNotRouted | src/geopandas_app/geopandas_app.py:47-54 | `.zip` is accepted and stored, but whether `secure_filename` strips the leading dot (giving `zip`) or keeps it, the stored path has no suffix, so it is handed on as neither |
| Upload.StatusCode | src/geopandas_app/geopandas_app.py:34-66 | the status each reply sets: 400 for both early replies, 500 for the error report and for an exception escaping the handler, 201 for results; UploadStatus states which requests get which |
| Upload.NoneNamed | src/geopandas_app/geopandas_app.py:41 | every file part has an empty name (vacuously so for none); UploadStatus states that it gives the second 400 reply |
| Upload.Reply | src/geopandas_app/geopandas_app.py:27-66 | the reply of `upload_files`: the two early checks, then the outcome of `run_geo_app` as written on the last stored archive when all files are acceptable, else the error report |
| Upload.UploadStatus | src/geopandas_app/geopandas_app.py:34-66 | for every request: 400 exactly when the file part or every name is missing; 201 exactly when all files are acceptable and no archive was stored, with results None; 500 otherwise, with NameError on `unzip_file` when an archive was stored; no reply carries a summary |
| Upload.StoreFiles | src/geopandas_app/geopandas_app.py:46-57 | the loop of `upload_files`: whether all files were acceptable, the error report, the last stored ".zip" and ".csv" paths and the stored paths are exactly AllAcceptable, Rejections, LastUploaded and Saved of the files |
| Upload.UploadFiles | src/geopandas_app/geopandas_app.py:27-66 | the loop gives the reply Reply describes; past the two early checks every acceptable file is stored, in order, even when another file makes the request fail |
| Upload.AcceptedReply | src/geopandas_app/geopandas_app.py:59-66 | an accepted request is answered with results None when no archive was stored, and with NameError on `unzip_file` (status 500) when one was |
| Upload.UploadNeverSummarises | src/geopandas_app/geopandas_app.py:59-62 | with `run_geo_app` as written, an accepted upload yields None without an archive and NameError on `unzip_file` with one, never a summary |

## Left out

- Reading the CSV file (`read_csv` with `usecols` and `;`) is left out. `RunGeoApp` receives the table it would produce. It requires that table to be well-formed: eight numeric coordinates and `Column1` in every row.
- `CSV_COLUMNS_NAMES`, `FEATURE_CLASS_NAMES` and `CRS` come from a configuration module that is not part of this model. They are parameters.
- Parsing numbers with `float` is left out: coordinates are exact reals, not binary floating point.
- `GdbFeatureClass` and the reading of the geodatabase layer (feature_class.py:80-83, 93) are file I/O. Its result is never used, so it is left out.
- Any error that this reading or the CSV reading could raise is also left out. `RunGeoAppAsWritten` therefore takes no CSV path: as written, the stored table does not change its outcome.
- Unpacking the archive, and removing an old directory first (tools.py:10-12), is file I/O. Only the returned path is modelled.
- The inside of shapely's `Polygon` is left out. Only the closure of the ring is modelled, which gives four or five vertices.
- FeatureClass.RunGeoApp: on a table that the filters leave empty it reports "features number: 0". The source likely raises there; this was not executed. On a zero-row frame, pandas' `apply` at feature_class.py:76 returns a copy of the whole frame, and assigning that frame to the single column `geometry` raises ValueError. `ConvertDataFrameToGeoDataFrame` treats an empty table like any other.
- FeatureClass.CsvFeatureClass.ConvertDataFrameToGeoDataFrame: a table with no rows is converted to an empty table with the new labels. The source likely raises ValueError there, at feature_class.py:76 (see the line above); this was not executed.
- `__repr__`, `__str__` and the `__main__` script block (feature_class.py:24-28, 101-124) are left out. That block is what binds `value` globally.
- Upload.StatusCode: an exception escaping the handler is modelled as the reply `InternalError` with status 500, Flask's answer to an unhandled exception. The body of that answer is not modelled.
- Flask left out:
  - the redirect route;
  - `jsonify`;
  - `MAX_CONTENT_LENGTH`;
  - the server start.
- `file.save` writes to disk. `UploadFiles` returns the list of stored paths instead.
- `secure_filename` is werkzeug code. It is the parameter `secure`, and its output is taken to be one path component.
- Strings.Lower: case folding covers only ASCII A-Z, not the rest of Unicode.
- FeatureClass.CsvFeatureClass.FilterOutBasedOnAttributes: it takes the target as a parameter, because the source reads a name that is bound nowhere (see Findings).
- FeatureClass.CsvFeatureClass.FeaturesCount: it has no contract of its own. The summary in `RunGeoApp` states what it counts.
- Upload.StatusCode: it has no contract of its own. UploadStatus states the status of every request.

## Findings

| source | as written | input that shows it | evidently intended | confidence | as-written member | corrected member |
|---|---|---|---|---|---|---|
| src/geopandas_app/feature_class.py:59-62 | the attribute mask compares `Column1` with a variable `value` that the method does not receive and the imported module never binds, so the call at line 97 raises NameError | `run_geo_app` on a directory `parcels.gdb` with a layer name configured | compare `Column1` with a target passed to the method | not executed | FeatureClass.RunGeoAppAsWritten (shown by FeatureClass.DatabaseDirectory) | FeatureClass.CsvFeatureClass.FilterOutBasedOnAttributes (PipelineMembership and AttributeFilterSound state its result) |
| src/geopandas_app/feature_class.py:88-89 | `unzip_file` is imported only in the `__main__` block (line 103), so an archive path raises NameError when the module is imported by the web application | `run_geo_app` on an uploaded `file_storage/parcels.gdb.zip` | unzip the archive and go on with the `.gdb` directory it holds | not executed | FeatureClass.RunGeoAppAsWritten (shown by FeatureClass.ArchivedDatabase and Upload.UploadNeverSummarises) | FeatureClass.RunGeoApp (it summarises if and only if DispatchPath gives a ".gdb" path) |
