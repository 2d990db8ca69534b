/**
 * The part of Rust's `std::path::Path` that the program relies on, for
 * `/`-separated paths: `file_name`, `file_stem` and `extension`.
 */
module RustPath {

  import opened Base
  import Text

  /** A piece of the path that `Path::components` does not turn into a root or a `.`. */
  predicate Kept(piece: string)
  {
    piece != "" && piece != "."
  }

  /** The pieces of `pieces` that are kept, in order. */
  function KeepPieces(pieces: seq<string>): (r: seq<string>)
    ensures forall k :: 0 <= k < |r| ==> Kept(r[k]) && r[k] in pieces
    ensures |r| <= |pieces|
  {
    if pieces == [] then []
    else
      var last := pieces[|pieces| - 1];
      KeepPieces(pieces[..|pieces| - 1]) + (if Kept(last) then [last] else [])
  }

  /**
   * The named components of a path, and its `..` components: separators,
   * repeated and trailing separators, and `.` components leave nothing.
   */
  function Components(path: string): seq<string>
  {
    KeepPieces(Text.Split(path, '/'))
  }

  /**
   * `Path::file_name`: the last component when it is a name, `None` when the
   * path has no components or ends in `..`.
   */
  function FileName(path: string): (r: Option<string>)
    ensures r.Some? ==> r.value != "" && r.value != "." && r.value != ".." && '/' !in r.value
  {
    var cs := Components(path);
    if cs == [] || cs[|cs| - 1] == ".." then None else Some(cs[|cs| - 1])
  }

  /** The position of the last kept piece, if any. */
  function LastKept(pieces: seq<string>): (r: Option<nat>)
    ensures r.Some? ==> r.value < |pieces| && Kept(pieces[r.value])
    ensures r.Some? ==> forall j :: r.value < j < |pieces| ==> !Kept(pieces[j])
    ensures r.None? ==> forall j :: 0 <= j < |pieces| ==> !Kept(pieces[j])
    decreases |pieces|
  {
    if pieces == [] then None
    else if Kept(pieces[|pieces| - 1]) then Some(|pieces| - 1)
    else
      var r := LastKept(pieces[..|pieces| - 1]);
      assert forall j :: 0 <= j < |pieces| - 1 ==> pieces[..|pieces| - 1][j] == pieces[j];
      r
  }

  /** The last of the kept pieces is the piece at `LastKept`. */
  lemma {:induction false} KeepPiecesLast(pieces: seq<string>)
    ensures var kept, i := KeepPieces(pieces), LastKept(pieces);
      && (kept == [] <==> i.None?)
      && (i.Some? ==> kept[|kept| - 1] == pieces[i.value])
    decreases |pieces|
  {
    if pieces != [] && !Kept(pieces[|pieces| - 1]) {
      KeepPiecesLast(pieces[..|pieces| - 1]);
    }
  }

  /**
   * The last kept piece sits at `LastKept`, and only empty and `.` pieces
   * follow it.
   */
  lemma LastKeptIsFinal(pieces: seq<string>)
    ensures var kept, i := KeepPieces(pieces), LastKept(pieces);
      kept != [] ==>
        && i.Some?
        && pieces[i.value] == kept[|kept| - 1]
        && forall j :: i.value < j < |pieces| ==> pieces[j] == "" || pieces[j] == "."
  {
    KeepPiecesLast(pieces);
    if KeepPieces(pieces) != [] {
      var i := LastKept(pieces).value;
      forall j | i < j < |pieces|
        ensures pieces[j] == "" || pieces[j] == "."
      {
        assert !Kept(pieces[j]);
      }
    }
  }

  /**
   * `Path::file_name` is the final component: a piece of the path after
   * which only empty pieces (repeated or trailing separators) and `.`
   * pieces follow.
   */
  lemma FileNameIsFinalComponent(path: string)
    ensures var pieces, i := Text.Split(path, '/'), LastKept(Text.Split(path, '/'));
      FileName(path).Some? ==>
        && i.Some?
        && pieces[i.value] == FileName(path).value
        && forall j :: i.value < j < |pieces| ==> pieces[j] == "" || pieces[j] == "."
  {
    LastKeptIsFinal(Text.Split(path, '/'));
  }

  /** The position of the last `c` in `s`. */
  function LastIndexOf(s: string, c: char): (r: Option<nat>)
    ensures r.None? <==> c !in s
    ensures r.Some? ==> r.value < |s| && s[r.value] == c && c !in s[r.value + 1..]
    decreases |s|
  {
    if s == [] then None
    else if s[|s| - 1] == c then Some(|s| - 1)
    else
      var r := LastIndexOf(s[..|s| - 1], c);
      assert r.Some? ==> s[r.value + 1..] == s[..|s| - 1][r.value + 1..] + [s[|s| - 1]];
      r
  }

  /**
   * The library's `rsplit_file_at_dot`: the part of a file name before its
   * last dot and the part after it. A name without a dot has only an
   * "after" part; `..` and a name whose only dot is its first character
   * have only a "before" part, the whole name.
   */
  function SplitAtLastDot(name: string): (Option<string>, Option<string>)
  {
    if name == ".." then (Some(name), None)
    else
      match LastIndexOf(name, '.')
      case None => (None, Some(name))
      case Some(i) => if i == 0 then (Some(name), None) else (Some(name[..i]), Some(name[i + 1..]))
  }

  /** `Path::file_stem`: the "before" part if there is one, else the "after" part. */
  function FileStem(path: string): Option<string>
  {
    match FileName(path)
    case None => None
    case Some(name) =>
      var (before, after) := SplitAtLastDot(name);
      if before.Some? then before else after
  }

  /** `Path::extension`: the "after" part, provided there is a "before" part. */
  function Extension(path: string): Option<string>
  {
    match FileName(path)
    case None => None
    case Some(name) =>
      var (before, after) := SplitAtLastDot(name);
      if before.Some? then after else None
  }

  /** `name` is `base + "." + ext` with a non-empty `base` and a dot-free `ext`. */
  predicate EndsWithExtension(name: string, ext: string)
  {
    && |name| > |ext| + 1
    && name[|name| - |ext| - 1] == '.'
    && name[|name| - |ext|..] == ext
    && '.' !in ext
  }

  /**
   * A path has extension `ext` exactly when its file name is a non-empty
   * base, a dot and `ext`, with no dot in `ext`.
   */
  lemma ExtensionIff(path: string, ext: string)
    ensures Extension(path) == Some(ext) <==>
      FileName(path).Some? && EndsWithExtension(FileName(path).value, ext)
  {
    if FileName(path).Some? {
      var name := FileName(path).value;
      if EndsWithExtension(name, ext) {
        var d := |name| - |ext| - 1;
        assert name[d + 1..] == ext;
        var li := LastIndexOf(name, '.');
        assert li.Some?;
        assert li.value == d;
      }
    }
  }

  /**
   * The stem exists exactly when the file name does, and is the file name
   * without its extension: the name is the stem, a dot and the extension
   * when there is one, and the stem is the whole name when there is none.
   */
  lemma FileStemOfName(path: string)
    ensures FileStem(path).Some? <==> FileName(path).Some?
    ensures FileStem(path).Some? ==>
      var name, stem := FileName(path).value, FileStem(path).value;
      && stem <= name
      && (stem == name || name[|stem|] == '.')
    ensures Extension(path).Some? ==>
      FileName(path).value == FileStem(path).value + "." + Extension(path).value
    ensures FileName(path).Some? && Extension(path).None? ==> FileStem(path) == FileName(path)
  {
    if FileName(path).Some? {
      var name := FileName(path).value;
      match LastIndexOf(name, '.')
      case None =>
      case Some(i) =>
        if i > 0 && name != ".." {
          assert name == name[..i] + "." + name[i + 1..];
        }
    }
  }
}
