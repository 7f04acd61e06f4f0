/**
 * The part of `pathlib.PurePosixPath` the ingestion script uses to find the
 * PDF: parsing a path string, `str()` of a path, `.parent`, the `/`
 * operator, and `os.path.isabs`.
 */
module Paths {
  import opened Text

  /** A path as pathlib holds it: rooted at "/" or not, and its components. */
  datatype Path = Path(absolute: bool, parts: seq<string>)

  /** pathlib drops empty components and "." when it parses a path. */
  predicate IsComponent(p: string) {
    p != "" && p != "." && '/' !in p
  }

  predicate Normal(p: Path) {
    forall i | 0 <= i < |p.parts| :: IsComponent(p.parts[i])
  }

  /** `os.path.isabs` on POSIX. */
  predicate IsAbs(s: string) {
    |s| > 0 && s[0] == '/'
  }

  /** The pieces of a split path that pathlib keeps, in order. */
  function Components(pieces: seq<string>): (r: seq<string>)
    ensures forall i | 0 <= i < |r| :: r[i] in pieces && r[i] != "" && r[i] != "."
  {
    if pieces == [] then []
    else (if pieces[0] == "" || pieces[0] == "." then [] else [pieces[0]]) + Components(pieces[1..])
  }

  lemma {:induction false} ComponentsKeepsComponents(pieces: seq<string>)
    requires forall i | 0 <= i < |pieces| :: IsComponent(pieces[i])
    ensures Components(pieces) == pieces
  {
    if pieces != [] {
      ComponentsKeepsComponents(pieces[1..]);
    }
  }

  /** `PurePosixPath(s)`. */
  function Parse(s: string): (p: Path)
    ensures Normal(p)
    ensures p.absolute <==> IsAbs(s)
  {
    Path(IsAbs(s), Components(SplitOn(s, '/')))
  }

  /** `str(path)`. */
  function PathString(p: Path): string {
    if p.parts == [] then (if p.absolute then "/" else ".")
    else (if p.absolute then "/" else "") + Join("/", p.parts)
  }

  /** Printing a path and parsing it again gives the same path. */
  lemma ParsePathString(p: Path)
    requires Normal(p)
    ensures Parse(PathString(p)) == p
  {
    var s := PathString(p);
    if p.parts == [] {
      if p.absolute {
        assert SplitOn(s, '/') == ["", ""];
      } else {
        assert s == "." && s[0] == '.' && s[1..] == [];
        assert SplitOn(s[1..], '/') == [""];
        assert [s[0]] + "" == ".";
        assert SplitOn(s, '/') == ["."];
      }
    } else {
      var j := Join("/", p.parts);
      SplitOnJoin(p.parts, '/');
      ComponentsKeepsComponents(p.parts);
      JoinStartsWithFirst("/", p.parts);
      assert j[0] == p.parts[0][0];
      if p.absolute {
        assert s == "/" + j;
        assert s[1..] == j;
        assert SplitOn(s, '/') == [""] + p.parts;
        assert Components([""] + p.parts) == Components(p.parts);
      } else {
        assert s == j;
      }
    }
  }

  /** `path.parent`: the root and "." are their own parents. */
  function Parent(p: Path): (r: Path)
    ensures r.absolute == p.absolute
    ensures p.parts != [] ==> r.parts + [p.parts[|p.parts| - 1]] == p.parts
    ensures p.parts == [] ==> r == p
    ensures Normal(p) ==> Normal(r)
  {
    if p.parts == [] then p else Path(p.absolute, p.parts[..|p.parts| - 1])
  }

  /** `base / rel`: an absolute right operand replaces the left one. */
  function Concat(base: Path, rel: Path): (r: Path)
    ensures rel.absolute ==> r == rel
    ensures !rel.absolute ==> r.absolute == base.absolute && |r.parts| == |base.parts| + |rel.parts|
                              && r.parts[..|base.parts|] == base.parts && r.parts[|base.parts|..] == rel.parts
    ensures Normal(base) && Normal(rel) ==> Normal(r)
  {
    if rel.absolute then rel else Path(base.absolute, base.parts + rel.parts)
  }

  /** Where the ingestion script looks for the PDF (src/ingest.py): an
      absolute setting as given, a relative one under the directory two
      levels above the script. */
  function ResolvePdfPath(setting: string, script: Path): (r: Path)
    ensures Normal(script) ==> Normal(r)
    ensures r.absolute <==> IsAbs(setting) || script.absolute
  {
    if !IsAbs(setting) then Concat(Parent(Parent(script)), Parse(setting))
    else Parse(setting)
  }

  /** An absolute PDF path is used as it is, wherever the script lives. */
  lemma ResolveAbsoluteUnchanged(pdf: Path, script: Path)
    requires Normal(pdf) && pdf.absolute
    ensures ResolvePdfPath(PathString(pdf), script) == pdf
  {
    ParsePathString(pdf);
  }

  /** A relative PDF path is taken from the directory that holds the
      script's own directory: for `<root>/src/ingest.py` it is `<root>`. */
  lemma ResolveRelativeUnderRoot(root: seq<string>, dir: string, file: string, absolute: bool, pdf: Path)
    requires Normal(pdf) && !pdf.absolute
    ensures ResolvePdfPath(PathString(pdf), Path(absolute, root + [dir, file]))
            == Path(absolute, root + pdf.parts)
  {
    ParsePathString(pdf);
    var script := Path(absolute, root + [dir, file]);
    assert Parent(script).parts == root + [dir];
    assert Parent(Parent(script)).parts == root;
  }
}
