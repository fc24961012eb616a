/**
 * The part of `pathlib` the application uses: a path's name, suffix, stem and
 * parent, joining a component, and the directory that `unzip_file` returns.
 */
module Paths {
  import opened Strings

  /**
   * A path as `pathlib` holds it after parsing: its components in order.
   * `Path('')` and `Path('.')` have no components; no component is empty
   * or contains a separator.
   */
  datatype Path = Path(parts: seq<string>)

  /** `p.name`: the final component, or "" for a path without components. */
  function Name(p: Path): string {
    if p.parts == [] then "" else p.parts[|p.parts| - 1]
  }

  /**
   * Where the suffix of a name starts: the last dot, provided it is neither the
   * first character nor the last one; -1 when the name has no suffix.
   */
  function SuffixStart(name: string): (i: int)
    ensures i == -1 || (0 < i < |name| - 1 && name[i] == '.' && '.' !in name[i + 1..])
    ensures i == -1 <==> !(0 < LastIndexOf(name, '.') < |name| - 1)
  {
    var i := LastIndexOf(name, '.');
    if 0 < i < |name| - 1 then i else -1
  }

  /** `p.suffix`: the name from its last dot on, or "" (pathlib's rule, see SuffixStart). */
  function Suffix(p: Path): string {
    var name := Name(p);
    var i := SuffixStart(name);
    if i == -1 then "" else name[i..]
  }

  /** `p.stem`: the name without its suffix. */
  function Stem(p: Path): string {
    var name := Name(p);
    var i := SuffixStart(name);
    if i == -1 then name else name[..i]
  }

  /** `p.parent`: the path without its final component; `Path('.')` is its own parent. */
  function Parent(p: Path): Path {
    if p.parts == [] then p else Path(p.parts[..|p.parts| - 1])
  }

  /** `p / component` for one component; joining "" leaves the path as it is. */
  function Join(p: Path, component: string): Path {
    if component == "" then p else Path(p.parts + [component])
  }

  /** The directory `unzip_file` extracts an archive into and returns: the archive's parent joined with its stem. */
  function UnzippedPath(zipped: Path): Path {
    Join(Parent(zipped), Stem(zipped))
  }

  /** A name is its stem followed by its suffix, and a non-empty suffix is a dot and a dot-free rest. */
  lemma StemAndSuffix(p: Path)
    ensures Stem(p) + Suffix(p) == Name(p)
    ensures Suffix(p) == "" || (|Suffix(p)| >= 2 && Suffix(p)[0] == '.' && '.' !in Suffix(p)[1..])
    ensures Suffix(p) != "" ==> Stem(p) != ""
  {
    var name := Name(p);
    var i := SuffixStart(name);
    if i != -1 {
      assert name == name[..i] + name[i..];
      assert Suffix(p)[1..] == name[i + 1..];
    }
  }

  /**
   * Joining a component `base + "." + ext`, where `base` is not empty and
   * `ext` is a non-empty dot-free text, gives a path whose suffix is
   * `"." + ext` and whose stem is `base`.
   */
  lemma SuffixOfJoin(dir: Path, name: string, base: string, ext: string)
    requires name == base + "." + ext
    requires base != "" && ext != "" && '.' !in ext
    ensures Name(Join(dir, name)) == name
    ensures Suffix(Join(dir, name)) == "." + ext
    ensures Stem(Join(dir, name)) == base
    ensures Parent(Join(dir, name)) == dir
  {
    var p := Join(dir, name);
    assert p.parts[..|p.parts| - 1] == dir.parts;
    assert name[|base|] == '.';
    assert name[|base| + 1..] == ext;
    assert name[|base|..] == "." + ext;
    assert name[..|base|] == base;
    assert LastIndexOf(name, '.') == |base|;
  }

  /** An archive `stem.zip` has suffix ".zip" and unzips to the sibling directory `stem`. */
  lemma UnzippedArchive(dir: Path, stem: string)
    requires stem != ""
    ensures Suffix(Join(dir, stem + ".zip")) == ".zip"
    ensures UnzippedPath(Join(dir, stem + ".zip")) == Join(dir, stem)
  {
    SuffixOfJoin(dir, stem + ".zip", stem, "zip");
  }

  /** A directory `base.gdb` has suffix ".gdb". */
  lemma GdbDirectory(dir: Path, base: string)
    requires base != ""
    ensures Suffix(Join(dir, base + ".gdb")) == ".gdb"
  {
    SuffixOfJoin(dir, base + ".gdb", base, "gdb");
  }

  /** A component without a dot has no suffix. */
  lemma NoDotNoSuffix(dir: Path, name: string)
    requires name != "" && '.' !in name
    ensures Suffix(Join(dir, name)) == ""
  {
    assert Name(Join(dir, name)) == name;
    assert LastIndexOf(name, '.') == -1;
  }
}
