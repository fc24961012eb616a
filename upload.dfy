/**
 * The upload endpoint of the web application: which file names it accepts,
 * where it stores them, which stored paths it hands to `run_geo_app`, and the
 * response it gives.
 */
module Upload {
  import opened Strings
  import opened Paths
  import opened Wrappers
  import FeatureClass

  /** The extensions an uploaded file may carry, compared in lower case. */
  const AllowedExtensions: set<string> := {"csv", "zip"}

  /** The message recorded for every refused file. */
  const NotAllowed: string := "File type is not allowed"

  /** The upload folder, `./file_storage`. */
  const UploadFolder: Path := Path(["file_storage"])

  /** `allowed_file`: the name has a dot, and what follows its last dot is an allowed extension in any case. */
  predicate AllowedFile(filename: string) {
    '.' in filename && Lower(filename[LastIndexOf(filename, '.') + 1..]) in AllowedExtensions
  }

  /** The dot at `i` is the last one and what follows it is an allowed extension. */
  predicate AllowedAfter(filename: string, i: int) {
    0 <= i < |filename| && filename[i] == '.' && '.' !in filename[i + 1..] && Lower(filename[i + 1..]) in AllowedExtensions
  }

  /** The same test, stated without `rfind`: some dot with no dot after it is followed by an allowed extension. */
  lemma AllowedFileByLastDot(filename: string)
    ensures AllowedFile(filename) <==> exists i :: AllowedAfter(filename, i)
  {
    if AllowedFile(filename) {
      assert AllowedAfter(filename, LastIndexOf(filename, '.'));
    }
    if exists i :: AllowedAfter(filename, i) {
      var i :| AllowedAfter(filename, i);
      LastIndexOfUnique(filename, '.', i);
    }
  }

  /** `pre.ext` with a dot-free `ext` is allowed exactly when `ext` is "csv" or "zip" in some mix of cases. */
  lemma AllowedFileSplit(pre: string, ext: string)
    requires '.' !in ext
    ensures AllowedFile(pre + "." + ext) <==> Lower(ext) == "csv" || Lower(ext) == "zip"
  {
    var f := pre + "." + ext;
    assert f[|pre|] == '.';
    assert f[|pre| + 1..] == ext;
    LastIndexOfUnique(f, '.', |pre|);
  }

  /** Whether a name is allowed depends only on its lower-cased form. */
  lemma AllowedFileIgnoresCase(f: string, g: string)
    requires Lower(f) == Lower(g)
    ensures AllowedFile(f) == AllowedFile(g)
  {
    LowerDeterminesAllowed(f);
    LowerDeterminesAllowed(g);
  }

  lemma LowerDeterminesAllowed(f: string)
    ensures AllowedFile(f) == AllowedFile(Lower(f))
  {
    LastDotOfLower(f);
    var i := LastIndexOf(f, '.');
    assert '.' in f <==> i != -1;
    assert '.' in Lower(f) <==> i != -1;
    if i != -1 {
      LowerSuffix(f, i + 1);
      LowerIdempotent(f[i + 1..]);
    }
  }

  /** A name without a dot, the empty name among them, is never allowed. */
  lemma NoDotRefused(filename: string)
    requires '.' !in filename
    ensures !AllowedFile(filename)
  {
  }

  /** An upper-case extension is accepted. */
  lemma UpperCaseTableAllowed()
    ensures AllowedFile("REPORT.CSV")
  {
    AllowedFileSplit("REPORT", "CSV");
    assert "REPORT.CSV" == "REPORT" + "." + "CSV";
    assert Lower("CSV") == "csv";
  }

  /** Only the text after the last dot counts: a zipped database is accepted. */
  lemma ZippedDatabaseAllowed()
    ensures AllowedFile("layers.gdb.zip")
  {
    AllowedFileSplit("layers.gdb", "zip");
    assert "layers.gdb.zip" == "layers.gdb" + "." + "zip";
    assert Lower("zip") == "zip";
  }

  /** Only the text after the last dot counts: an archive with a further extension is refused. */
  lemma RenamedArchiveRefused()
    ensures !AllowedFile("layers.zip.txt")
  {
    AllowedFileSplit("layers.zip", "txt");
    assert "layers.zip.txt" == "layers.zip" + "." + "txt";
    assert Lower("txt") == "txt";
  }

  /** A name ending in a dot has an empty extension and is refused. */
  lemma TrailingDotRefused()
    ensures !AllowedFile("archive.")
  {
    AllowedFileSplit("archive", "");
    assert "archive." == "archive" + "." + "";
  }

  /**
   * The test an uploaded file meets before it is stored: the file is present
   * (a file part is truthy exactly when its name is not empty) and its name is
   * allowed.
   */
  predicate Acceptable(filename: string) {
    filename != "" && AllowedFile(filename)
  }

  /** An allowed name is never empty, so the presence test never changes the outcome. */
  lemma AcceptableIsAllowed(filename: string)
    ensures Acceptable(filename) <==> AllowedFile(filename)
  {
  }

  /** Where a file is stored: the upload folder joined with the sanitised name. */
  function UploadPath(storedName: string): Path {
    Join(UploadFolder, storedName)
  }

  /** The file is stored, and its stored path has the suffix. */
  predicate Routes(f: string, secure: string -> string, suffix: string) {
    Acceptable(f) && Suffix(UploadPath(secure(f))) == suffix
  }

  /**
   * The path the loop last stored with this suffix, or the empty path `''`
   * the handler starts from when no stored file has it. `secure` stands for
   * `secure_filename`.
   */
  function LastUploaded(filenames: seq<string>, secure: string -> string, suffix: string): Path {
    if filenames == [] then Path([])
    else
      var f := filenames[|filenames| - 1];
      if Routes(f, secure, suffix) then UploadPath(secure(f))
      else LastUploaded(filenames[..|filenames| - 1], secure, suffix)
  }

  /** The path handed on for a suffix is the empty path exactly when no file is routed there. */
  lemma {:induction false} LastUploadedEmpty(filenames: seq<string>, secure: string -> string, suffix: string)
    ensures LastUploaded(filenames, secure, suffix) == Path([]) <==>
              forall i :: 0 <= i < |filenames| ==> !Routes(filenames[i], secure, suffix)
  {
    if filenames != [] {
      var n := |filenames| - 1;
      var init, last := filenames[..n], filenames[n];
      assert filenames == init + [last];
      LastUploadedEmpty(init, secure, suffix);
      if Routes(last, secure, suffix) {
        assert UploadPath(secure(last)).parts != [];
      } else {
        assert LastUploaded(filenames, secure, suffix) == LastUploaded(init, secure, suffix);
        assert forall i :: 0 <= i < n ==> filenames[i] == init[i];
      }
    }
  }

  /** File i is routed to the suffix and no later file is. */
  predicate LastRoutedAt(filenames: seq<string>, secure: string -> string, suffix: string, i: int) {
    0 <= i < |filenames| && Routes(filenames[i], secure, suffix)
    && forall j :: i < j < |filenames| ==> !Routes(filenames[j], secure, suffix)
  }

  /** Otherwise it is the stored path of the last file routed there. */
  lemma {:induction false} LastUploadedIsLast(filenames: seq<string>, secure: string -> string, suffix: string)
    requires LastUploaded(filenames, secure, suffix) != Path([])
    ensures exists i :: LastRoutedAt(filenames, secure, suffix, i)
              && LastUploaded(filenames, secure, suffix) == UploadPath(secure(filenames[i]))
  {
    var n := |filenames| - 1;
    var init, last := filenames[..n], filenames[n];
    assert filenames == init + [last];
    if Routes(last, secure, suffix) {
      assert LastRoutedAt(filenames, secure, suffix, n);
    } else {
      LastUploadedIsLast(init, secure, suffix);
      var i :| LastRoutedAt(init, secure, suffix, i)
        && LastUploaded(init, secure, suffix) == UploadPath(secure(init[i]));
      LastRoutedAtSnoc(init, last, secure, suffix, i);
      assert LastRoutedAt(filenames, secure, suffix, i) && filenames[i] == init[i];
      assert LastUploaded(filenames, secure, suffix) == LastUploaded(init, secure, suffix);
    }
  }

  /** A later file that is not routed keeps the last routed index. */
  lemma LastRoutedAtSnoc(init: seq<string>, last: string, secure: string -> string, suffix: string, i: int)
    requires LastRoutedAt(init, secure, suffix, i) && !Routes(last, secure, suffix)
    ensures LastRoutedAt(init + [last], secure, suffix, i) && (init + [last])[i] == init[i]
  {
    var all := init + [last];
    forall j | i < j < |all| ensures !Routes(all[j], secure, suffix) {
      if j < |init| {
        assert all[j] == init[j];
      } else {
        assert all[j] == last;
      }
    }
  }

  /** The paths stored, one per acceptable file, in the order of the files. */
  function Saved(filenames: seq<string>, secure: string -> string): seq<Path> {
    if filenames == [] then []
    else
      var f := filenames[|filenames| - 1];
      Saved(filenames[..|filenames| - 1], secure) + (if Acceptable(f) then [UploadPath(secure(f))] else [])
  }

  /** The error report: every refused name mapped to the refusal message. */
  function Rejections(filenames: seq<string>): map<string, string> {
    if filenames == [] then map[]
    else
      var f := filenames[|filenames| - 1];
      var earlier := Rejections(filenames[..|filenames| - 1]);
      if Acceptable(f) then earlier else earlier[f := NotAllowed]
  }

  /** The report names exactly the refused files, each with the refusal message. */
  lemma {:induction false} RejectionsExactly(filenames: seq<string>)
    ensures forall f :: f in Rejections(filenames) <==> f in filenames && !Acceptable(f)
    ensures forall f :: f in Rejections(filenames) ==> Rejections(filenames)[f] == NotAllowed
  {
    if filenames != [] {
      var init := filenames[..|filenames| - 1];
      RejectionsExactly(init);
      assert filenames == init + [filenames[|filenames| - 1]];
    }
  }

  /** Every stored path is the upload path of an acceptable file, and each acceptable file is stored. */
  lemma {:induction false} SavedExactly(filenames: seq<string>, secure: string -> string)
    ensures forall p :: p in Saved(filenames, secure) ==> exists f :: f in filenames && Acceptable(f) && p == UploadPath(secure(f))
    ensures forall f :: f in filenames && Acceptable(f) ==> UploadPath(secure(f)) in Saved(filenames, secure)
    ensures |Saved(filenames, secure)| <= |filenames|
  {
    if filenames != [] {
      var init := filenames[..|filenames| - 1];
      SavedExactly(init, secure);
      assert filenames == init + [filenames[|filenames| - 1]];
    }
  }

  /** When every file is acceptable, file i is stored at position i, under its sanitised name. */
  lemma {:induction false} SavedAllAcceptable(filenames: seq<string>, secure: string -> string)
    requires AllAcceptable(filenames)
    ensures |Saved(filenames, secure)| == |filenames|
    ensures forall i :: 0 <= i < |filenames| ==> Saved(filenames, secure)[i] == UploadPath(secure(filenames[i]))
  {
    if filenames != [] {
      var init, last := filenames[..|filenames| - 1], filenames[|filenames| - 1];
      assert filenames == init + [last];
      StoreStep(init, last, secure);
      SavedAllAcceptable(init, secure);
    }
  }

  /** The archive path handed on has suffix ".zip", or is the empty path, whose suffix is empty. */
  lemma {:induction false} UploadedArchiveSuffix(filenames: seq<string>, secure: string -> string)
    ensures Suffix(LastUploaded(filenames, secure, ".zip")) in {"", ".zip"}
    ensures LastUploaded(filenames, secure, ".zip") == Path([]) || Suffix(LastUploaded(filenames, secure, ".zip")) == ".zip"
  {
    if filenames != [] {
      UploadedArchiveSuffix(filenames[..|filenames| - 1], secure);
    }
  }

  /**
   * A file is routed as the archive or the table by the suffix of its stored
   * path, but accepted by the lower-cased text after its last dot: a name
   * `base.ZIP` (any case other than "zip"), stored under that name, is
   * accepted and stored yet handed on as neither.
   */
  lemma MixedCaseArchiveNotRouted(base: string, ext: string, secure: string -> string)
    requires base != "" && '.' !in ext && Lower(ext) == "zip" && ext != "zip"
    requires secure(base + "." + ext) == base + "." + ext
    ensures Acceptable(base + "." + ext)
    ensures Suffix(UploadPath(base + "." + ext)) == "." + ext
    ensures LastUploaded([base + "." + ext], secure, ".zip") == Path([])
    ensures LastUploaded([base + "." + ext], secure, ".csv") == Path([])
  {
    var name := base + "." + ext;
    AllowedFileSplit(base, ext);
    SuffixOfJoin(UploadFolder, name, base, ext);
    assert ("." + ext)[1..] == ext;
    assert ".zip"[1..] == "zip" && ".csv"[1..] == "csv";
    assert Lower("csv") == "csv";
    assert "." + ext != ".zip" && "." + ext != ".csv";
    assert [name][..0] == [];
  }

  /** An upload of `A.ZIP`, stored under that name, is accepted but hands on neither an archive nor a table. */
  lemma UpperCaseArchiveExample(secure: string -> string)
    requires secure("A.ZIP") == "A.ZIP"
    ensures Acceptable("A.ZIP")
    ensures LastUploaded(["A.ZIP"], secure, ".zip") == Path([])
    ensures LastUploaded(["A.ZIP"], secure, ".csv") == Path([])
  {
    assert "A.ZIP" == "A" + "." + "ZIP";
    assert Lower("ZIP") == "zip";
    MixedCaseArchiveNotRouted("A", "ZIP", secure);
  }

  /**
   * A name made of a dot and an allowed extension is accepted, yet it is
   * handed on as neither the archive nor the table. `secure_filename` strips
   * the leading dot and stores `.zip` as `zip`, which has no dot; kept as
   * `.zip` it has no suffix either, its only dot being its first character.
   */
  lemma HiddenArchiveNotRouted(ext: string, secure: string -> string)
    requires '.' !in ext && Lower(ext) in AllowedExtensions
    requires secure("." + ext) == ext || secure("." + ext) == "." + ext
    ensures Acceptable("." + ext)
    ensures Suffix(UploadPath(secure("." + ext))) == ""
    ensures LastUploaded(["." + ext], secure, ".zip") == Path([])
    ensures LastUploaded(["." + ext], secure, ".csv") == Path([])
  {
    var name := "." + ext;
    AllowedFileSplit("", ext);
    assert name == "" + "." + ext;
    if secure(name) == ext {
      NoDotNoSuffix(UploadFolder, ext);
    } else {
      assert Name(UploadPath(name)) == name;
      LastIndexOfUnique(name, '.', 0);
    }
    assert [name][..0] == [];
  }

  /**
   * The reply of the endpoint. An accepted request answers with what
   * `run_geo_app` returns; when that call raises, the exception escapes the
   * handler and the server answers with an internal error.
   */
  datatype Response =
    | NoFilePart
    | NoFilesProvided
    | Rejected(errors: map<string, string>)
    | Results(summary: Option<string>)
    | InternalError(error: FeatureClass.Failure)

  /** The HTTP status of each reply; an exception escaping the handler gives 500. */
  function StatusCode(resp: Response): int {
    match resp
    case NoFilePart => 400
    case NoFilesProvided => 400
    case Rejected(_) => 500
    case Results(_) => 201
    case InternalError(_) => 500
  }

  /** Every file of the request passes the acceptance test. */
  predicate AllAcceptable(filenames: seq<string>) {
    forall i :: 0 <= i < |filenames| ==> Acceptable(filenames[i])
  }

  /** Adding one file keeps the request acceptable exactly when that file is acceptable. */
  lemma AllAcceptableSnoc(filenames: seq<string>, f: string)
    ensures AllAcceptable(filenames + [f]) <==> AllAcceptable(filenames) && Acceptable(f)
  {
    var longer := filenames + [f];
    assert longer[|filenames|] == f;
    assert forall i :: 0 <= i < |filenames| ==> longer[i] == filenames[i];
  }

  /** No file of the request has a name. */
  predicate NoneNamed(filenames: seq<string>) {
    forall i :: 0 <= i < |filenames| ==> filenames[i] == ""
  }

  /**
   * The reply `upload_files` gives: the checks for a file part and for a named
   * file; then, when every file was acceptable, the outcome of `run_geo_app`
   * as written on the last stored archive (the stored table does not change
   * that outcome); otherwise the report of the refused names.
   * `featureClassNames` are the configured layer names.
   */
  function Reply(hasFilePart: bool, filenames: seq<string>, secure: string -> string, featureClassNames: seq<string>): Response {
    if !hasFilePart then NoFilePart
    else if NoneNamed(filenames) then NoFilesProvided
    else if AllAcceptable(filenames) then
      match FeatureClass.RunGeoAppAsWritten(LastUploaded(filenames, secure, ".zip"), featureClassNames)
      case Ok(summary) => Results(summary)
      case Err(failure) => InternalError(failure)
    else Rejected(Rejections(filenames))
  }

  /**
   * The status of every request. It is 400 exactly when the file part or
   * every file name is missing. It is 201 exactly when all files are
   * acceptable and none was stored as an archive, and then the results are
   * None. Every other request gets 500: a refused file, or an archive whose
   * unpacking raises NameError on `unzip_file`. No reply carries a summary.
   */
  lemma UploadStatus(hasFilePart: bool, filenames: seq<string>, secure: string -> string, featureClassNames: seq<string>)
    ensures var resp := Reply(hasFilePart, filenames, secure, featureClassNames);
      var uploaded := hasFilePart && !NoneNamed(filenames);
      var archive := LastUploaded(filenames, secure, ".zip");
      && (StatusCode(resp) == 400 <==> !uploaded)
      && (StatusCode(resp) == 201 <==> uploaded && AllAcceptable(filenames) && archive == Path([]))
      && (StatusCode(resp) == 201 ==> resp == Results(None))
      && (StatusCode(resp) == 500 <==> uploaded && (!AllAcceptable(filenames) || archive != Path([])))
      && (uploaded && AllAcceptable(filenames) && archive != Path([]) ==> resp == InternalError(FeatureClass.NameError("unzip_file")))
      && !(resp.Results? && resp.summary.Some?)
  {
    if hasFilePart && !NoneNamed(filenames) && AllAcceptable(filenames) {
      AcceptedReply(hasFilePart, filenames, secure, featureClassNames);
    }
  }

  /** An accepted request answers None without a stored archive, and NameError on `unzip_file` with one. */
  lemma AcceptedReply(hasFilePart: bool, filenames: seq<string>, secure: string -> string, featureClassNames: seq<string>)
    requires hasFilePart && !NoneNamed(filenames) && AllAcceptable(filenames)
    ensures Reply(hasFilePart, filenames, secure, featureClassNames) ==
      if LastUploaded(filenames, secure, ".zip") == Path([]) then Results(None) else InternalError(FeatureClass.NameError("unzip_file"))
  {
    var archive := LastUploaded(filenames, secure, ".zip");
    UploadNeverSummarises(filenames, secure, featureClassNames);
    var outcome := FeatureClass.RunGeoAppAsWritten(archive, featureClassNames);
    assert outcome == if archive == Path([]) then Ok(None) else Err(FeatureClass.NameError("unzip_file"));
    assert Reply(hasFilePart, filenames, secure, featureClassNames) ==
      if outcome.Ok? then Results(outcome.value) else InternalError(outcome.error);
  }

  /** What one more file does to the outcome of the loop. */
  lemma StoreStep(done: seq<string>, f: string, secure: string -> string)
    ensures AllAcceptable(done + [f]) <==> AllAcceptable(done) && Acceptable(f)
    ensures Rejections(done + [f]) == if Acceptable(f) then Rejections(done) else Rejections(done)[f := NotAllowed]
    ensures Saved(done + [f], secure) == Saved(done, secure) + if Acceptable(f) then [UploadPath(secure(f))] else []
    ensures forall suffix :: LastUploaded(done + [f], secure, suffix) ==
              (if Routes(f, secure, suffix) then UploadPath(secure(f)) else LastUploaded(done, secure, suffix))
  {
    AllAcceptableSnoc(done, f);
    var longer := done + [f];
    assert longer[..|longer| - 1] == done && longer[|longer| - 1] == f;
  }

  /**
   * The loop of `upload_files` over the files of the request: each acceptable
   * file is stored under its sanitised name, and the last stored ".zip" and
   * ".csv" paths are kept; each other file makes the request fail and enters
   * the error report.
   */
  method StoreFiles(filenames: seq<string>, secure: string -> string)
    returns (success: bool, errors: map<string, string>, gdbPath: Path, csvPath: Path, saved: seq<Path>)
    ensures success == AllAcceptable(filenames)
    ensures errors == Rejections(filenames)
    ensures gdbPath == LastUploaded(filenames, secure, ".zip")
    ensures csvPath == LastUploaded(filenames, secure, ".csv")
    ensures saved == Saved(filenames, secure)
  {
    errors, success := map[], true;
    gdbPath, csvPath := Path([]), Path([]);
    saved := [];
    for k := 0 to |filenames|
      invariant success == AllAcceptable(filenames[..k])
      invariant errors == Rejections(filenames[..k])
      invariant gdbPath == LastUploaded(filenames[..k], secure, ".zip")
      invariant csvPath == LastUploaded(filenames[..k], secure, ".csv")
      invariant saved == Saved(filenames[..k], secure)
    {
      var filename := filenames[k];
      assert filenames[..k + 1] == filenames[..k] + [filename];
      StoreStep(filenames[..k], filename, secure);
      if Acceptable(filename) {
        var filePath := UploadPath(secure(filename));
        saved := saved + [filePath];
        if Suffix(filePath) == ".zip" {
          gdbPath := filePath;
        } else if Suffix(filePath) == ".csv" {
          csvPath := filePath;
        }
      } else {
        success := false;
        errors := errors[filename := NotAllowed];
      }
    }
    assert filenames[..|filenames|] == filenames;
  }

  /**
   * `upload_files`. `hasFilePart` says whether the request has a `files[]`
   * part and `filenames` are the names of its files, in order; `secure`
   * stands for `secure_filename` and `featureClassNames` for the configured
   * layer names. Every acceptable file is stored, even when another file
   * makes the request fail; the reply is the one Reply describes.
   */
  method UploadFiles(hasFilePart: bool, filenames: seq<string>, secure: string -> string, featureClassNames: seq<string>)
    returns (resp: Response, saved: seq<Path>)
    ensures resp == Reply(hasFilePart, filenames, secure, featureClassNames)
    ensures saved == if hasFilePart && !NoneNamed(filenames) then Saved(filenames, secure) else []
  {
    saved := [];
    if !hasFilePart {
      return NoFilePart, saved;
    }
    if NoneNamed(filenames) {
      return NoFilesProvided, saved;
    }
    var success, errors, gdbPath, csvPath;
    success, errors, gdbPath, csvPath, saved := StoreFiles(filenames, secure);
    if success {
      // run_geo_app(gdb_path, csv_path); csv_path does not change its outcome as written
      var outcome := FeatureClass.RunGeoAppAsWritten(gdbPath, featureClassNames);
      match outcome
      case Ok(summary) => resp := Results(summary);
      case Err(failure) => resp := InternalError(failure);
    } else {
      resp := Rejected(errors);
    }
  }

  /**
   * What an accepted request yields with `run_geo_app` as written: without an
   * uploaded archive the result is None, and with one the call raises
   * NameError on `unzip_file` (so the endpoint fails with status 500).
   * Either way the reply never carries a summary.
   */
  lemma UploadNeverSummarises(filenames: seq<string>, secure: string -> string, featureClassNames: seq<string>)
    ensures var gdbPath := LastUploaded(filenames, secure, ".zip");
      FeatureClass.RunGeoAppAsWritten(gdbPath, featureClassNames) ==
        if gdbPath == Path([]) then Ok(None) else Err(FeatureClass.NameError("unzip_file"))
  {
    UploadedArchiveSuffix(filenames, secure);
  }
}
