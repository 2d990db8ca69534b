/**
 * Finding tree files, deriving their identifiers and loading the reference
 * index (the program's `io` module). Parsing a tree file is the tree
 * library's job and comes in as the function `parse`; listing a directory
 * comes in as its result.
 */
module TreeIo {

  import opened Base
  import Text
  import opened RustPath

  /** `n` ends with `suffix`. */
  predicate EndsWith(n: string, suffix: string)
  {
    |suffix| <= |n| && n[|n| - |suffix|..] == suffix
  }

  /** `is_newick`: the extension is exactly `nwk` or exactly `newick`. */
  predicate IsNewick(path: string)
  {
    var ext := Extension(path);
    ext == Some("nwk") || ext == Some("newick")
  }

  /**
   * A path is a newick file exactly when its file name ends in `.nwk` or
   * `.newick`, case-sensitively, with something before that dot.
   */
  lemma IsNewickIff(path: string)
    ensures IsNewick(path) <==>
      FileName(path).Some? &&
      var name := FileName(path).value;
      (|name| > 4 && EndsWith(name, ".nwk")) || (|name| > 7 && EndsWith(name, ".newick"))
  {
    HasExtension(path, "nwk");
    HasExtension(path, "newick");
    assert ['.'] + "nwk" == ".nwk";
    assert ['.'] + "newick" == ".newick";
  }

  /** Having the dot-free extension `ext` is ending in `"." + ext` with something before the dot. */
  lemma HasExtension(path: string, ext: string)
    requires '.' !in ext
    ensures Extension(path) == Some(ext) <==>
      FileName(path).Some? &&
      var name := FileName(path).value;
      |name| > |ext| + 1 && EndsWith(name, ['.'] + ext)
  {
    ExtensionIff(path, ext);
    if FileName(path).Some? {
      DotSuffix(FileName(path).value, ext);
    }
  }

  /** Having extension `ext` is ending in `"." + ext` with something before the dot. */
  lemma DotSuffix(name: string, ext: string)
    requires '.' !in ext
    ensures EndsWithExtension(name, ext) <==> |name| > |ext| + 1 && EndsWith(name, ['.'] + ext)
  {
    if |name| > |ext| + 1 {
      var d := |name| - |ext| - 1;
      assert name[d..] == [name[d]] + name[d + 1..];
    }
  }

  /**
   * `get_file_id`: the file stem up to its first dot. The second error
   * message is unreachable, because splitting always yields a first piece.
   */
  function GetFileId(path: string): Result<string>
  {
    var stem :- OptionContext(FileStem(path), "Could not extract ID from: " + path);
    var id :- OptionContext(Text.First(Text.Split(stem, '.')), "Could not get ID for " + path);
    Ok(id)
  }

  /**
   * The identifier is the file name up to its first dot; it fails only for
   * a path without a file name, and then always with the first message.
   */
  lemma GetFileIdSpec(path: string)
    ensures GetFileId(path).Err? <==> FileName(path).None?
    ensures GetFileId(path).Err? ==>
      GetFileId(path).error == Message("Could not extract ID from: " + path)
    ensures FileName(path).Some? ==>
      GetFileId(path) == Ok(Text.Split(FileName(path).value, '.')[0])
  {
    FileStemOfName(path);
    if FileName(path).Some? {
      var name, stem := FileName(path).value, FileStem(path).value;
      assert name[..|stem|] == stem;
      Text.FirstPieceOfPrefix(name, |stem|, '.');
    }
  }

  /** An identifier is a dot-free prefix of the file name. */
  lemma GetFileIdIsPrefix(path: string)
    requires GetFileId(path).Ok?
    ensures FileName(path).Some?
    ensures '.' !in GetFileId(path).value
    ensures GetFileId(path).value <= FileName(path).value
  {
    GetFileIdSpec(path);
    Text.FirstPiece(FileName(path).value, '.');
  }

  /** `read_tree`: parse the file first, then derive its identifier. */
  function ReadTree<T>(path: string, parse: string -> Result<T>): Result<(string, T)>
  {
    var tree :- match parse(path)
      case Ok(t) => Ok(t)
      case Err(e) => Err(Context("Could not parse newick file: " + path, e));
    var id :- GetFileId(path);
    Ok((id, tree))
  }

  /**
   * A parse failure is reported in preference to an identifier failure;
   * a parsed tree is paired with the file's identifier.
   */
  lemma ReadTreeOutcome<T>(path: string, parse: string -> Result<T>)
    ensures parse(path).Err? ==>
      ReadTree(path, parse) == Err(Context("Could not parse newick file: " + path, parse(path).error))
    ensures parse(path).Ok? && FileName(path).None? ==>
      ReadTree(path, parse) == Err(Message("Could not extract ID from: " + path))
    ensures parse(path).Ok? && FileName(path).Some? ==>
      ReadTree(path, parse) == Ok((Text.Split(FileName(path).value, '.')[0], parse(path).value))
  {
    GetFileIdSpec(path);
  }

  /** One entry of a directory listing; `Unreadable` is an entry that `read_dir` yields as an error. */
  datatype DirEntry = Entry(path: string) | Unreadable(cause: string)

  /** The paths of the readable entries that satisfy `keep`, in directory order. */
  function PathsWhere(entries: seq<DirEntry>, keep: string -> bool): seq<string>
  {
    if entries == [] then []
    else
      (if entries[0].Entry? && keep(entries[0].path) then [entries[0].path] else [])
      + PathsWhere(entries[1..], keep)
  }

  /** The `filter(is_newick)` over the readable entries, in directory order. */
  function NewickPaths(entries: seq<DirEntry>): seq<string>
  {
    PathsWhere(entries, IsNewick)
  }

  /** A path is kept exactly when it is a readable entry that satisfies `keep`. */
  lemma {:induction false} PathsWhereMembers(entries: seq<DirEntry>, keep: string -> bool, p: string)
    ensures p in PathsWhere(entries, keep) <==>
      keep(p) && exists k :: 0 <= k < |entries| && entries[k] == Entry(p)
    ensures |PathsWhere(entries, keep)| <= |entries|
  {
    if entries != [] {
      PathsWhereMembers(entries[1..], keep, p);
      if exists k :: 0 <= k < |entries| && entries[k] == Entry(p) {
        var k :| 0 <= k < |entries| && entries[k] == Entry(p);
        if k > 0 {
          assert entries[1..][k - 1] == Entry(p);
        }
      }
      if exists k :: 0 <= k < |entries[1..]| && entries[1..][k] == Entry(p) {
        var k :| 0 <= k < |entries[1..]| && entries[1..][k] == Entry(p);
        assert entries[k + 1] == Entry(p);
      }
    }
  }

  /** Filtering keeps directory order: it distributes over a split of the listing. */
  lemma {:induction false} PathsWhereAppend(a: seq<DirEntry>, b: seq<DirEntry>, keep: string -> bool)
    ensures PathsWhere(a + b, keep) == PathsWhere(a, keep) + PathsWhere(b, keep)
    decreases |a|
  {
    if a == [] {
      assert a + b == b;
    } else {
      var x, t := a[0], a[1..];
      assert a == [x] + t;
      assert a + b == [x] + (t + b);
      PathsWhereAppend(t, b, keep);
      PathsWhereCons(x, t, keep);
      PathsWhereCons(x, t + b, keep);
    }
  }

  /** Filtering a listing with a first entry. */
  lemma PathsWhereCons(x: DirEntry, t: seq<DirEntry>, keep: string -> bool)
    ensures PathsWhere([x] + t, keep) ==
      (if x.Entry? && keep(x.path) then [x.path] else []) + PathsWhere(t, keep)
  {
    assert ([x] + t)[1..] == t;
  }

  /**
   * A path is selected exactly when it is a readable entry that passes
   * `is_newick`; selection keeps directory order, entry by entry.
   */
  lemma NewickPathsSpec(entries: seq<DirEntry>, more: seq<DirEntry>, p: string)
    ensures p in NewickPaths(entries) <==>
      IsNewick(p) && exists k :: 0 <= k < |entries| && entries[k] == Entry(p)
    ensures |NewickPaths(entries)| <= |entries|
    ensures NewickPaths(entries + more) == NewickPaths(entries) + NewickPaths(more)
  {
    PathsWhereMembers(entries, IsNewick, p);
    PathsWhereAppend(entries, more, IsNewick);
  }

  /**
   * `trees_iter`: fails when the directory cannot be listed; otherwise one
   * `read_tree` result per selected path, in directory order. Unreadable
   * entries are dropped without a trace.
   */
  function TreesIter<T>(listing: Result<seq<DirEntry>>, parse: string -> Result<T>)
    : (r: Result<seq<Result<(string, T)>>>)
    ensures listing.Err? <==> r.Err?
    ensures listing.Err? ==> r.error == listing.error
    ensures r.Ok? ==>
      |r.value| == |NewickPaths(listing.value)|
      && forall k :: 0 <= k < |r.value| ==> r.value[k] == ReadTree(NewickPaths(listing.value)[k], parse)
  {
    var entries :- listing;
    var paths := NewickPaths(entries);
    Ok(seq(|paths|, k requires 0 <= k < |paths| => ReadTree(paths[k], parse)))
  }

  /** `collect::<Result<Vec<_>>>()`: all values, or the first error. */
  function Collect<X>(rs: seq<Result<X>>): Result<seq<X>>
  {
    if rs == [] then Ok([])
    else
      var x :- rs[0];
      var xs :- Collect(rs[1..]);
      Ok([x] + xs)
  }

  /** Collecting succeeds exactly when every item does, and keeps every value in order. */
  lemma {:induction false} CollectOk<X>(rs: seq<Result<X>>)
    ensures Collect(rs).Ok? <==> forall k :: 0 <= k < |rs| ==> rs[k].Ok?
    ensures Collect(rs).Ok? ==>
      |Collect(rs).value| == |rs| && forall k :: 0 <= k < |rs| ==> Collect(rs).value[k] == rs[k].value
  {
    if rs != [] {
      CollectOk(rs[1..]);
      if forall k :: 0 <= k < |rs[1..]| ==> rs[1..][k].Ok? {
        if rs[0].Ok? {
          forall k | 0 <= k < |rs| ensures rs[k].Ok? {
            if k > 0 { assert rs[k] == rs[1..][k - 1]; }
          }
        }
      } else {
        var k :| 0 <= k < |rs[1..]| && !rs[1..][k].Ok?;
        assert !rs[k + 1].Ok?;
      }
    }
  }

  /** A failed collection reports the first failing item's error. */
  lemma {:induction false} CollectFirstError<X>(rs: seq<Result<X>>)
    requires Collect(rs).Err?
    ensures exists k :: 0 <= k < |rs| && rs[k] == Err(Collect(rs).error)
                     && forall j :: 0 <= j < k ==> rs[j].Ok?
  {
    if rs[0].Ok? {
      CollectFirstError(rs[1..]);
      var k :| 0 <= k < |rs[1..]| && rs[1..][k] == Err(Collect(rs[1..]).error)
        && forall j :: 0 <= j < k ==> rs[1..][j].Ok?;
      assert rs[k + 1] == Err(Collect(rs).error);
      forall j | 0 <= j < k + 1 ensures rs[j].Ok? {
        if j > 0 { assert rs[j] == rs[1..][j - 1]; }
      }
    } else {
      assert rs[0] == Err(Collect(rs).error);
    }
  }

  /** The identifiers of a sequence of pairs. */
  function Ids<X>(pairs: seq<(string, X)>): set<string>
  {
    set k | 0 <= k < |pairs| :: pairs[k].0
  }

  /** No pair after position `j` has the identifier of pair `j`. */
  predicate LastOfItsId<X>(pairs: seq<(string, X)>, j: nat)
    requires j < |pairs|
  {
    forall i :: j < i < |pairs| ==> pairs[i].0 != pairs[j].0
  }

  /** `HashMap::extend`: insert the pairs in order, each overwriting an earlier value. */
  function InsertAll<X>(m: map<string, X>, pairs: seq<(string, X)>): map<string, X>
    decreases |pairs|
  {
    if pairs == [] then m else InsertAll(m[pairs[0].0 := pairs[0].1], pairs[1..])
  }

  /**
   * Inserting pairs adds exactly their identifiers; the value of each
   * identifier is that of its last pair; other keys keep their values.
   */
  lemma {:induction false} InsertAllSpec<X>(m: map<string, X>, pairs: seq<(string, X)>)
    ensures InsertAll(m, pairs).Keys == m.Keys + Ids(pairs)
    ensures forall j :: 0 <= j < |pairs| && LastOfItsId(pairs, j) ==>
      InsertAll(m, pairs)[pairs[j].0] == pairs[j].1
    ensures forall key :: key in m && key !in Ids(pairs) ==> InsertAll(m, pairs)[key] == m[key]
    decreases |pairs|
  {
    if pairs != [] {
      var m' := m[pairs[0].0 := pairs[0].1];
      var rest := pairs[1..];
      InsertAllSpec(m', rest);
      assert Ids(pairs) == {pairs[0].0} + Ids(rest) by {
        forall id | id in Ids(pairs) ensures id in {pairs[0].0} + Ids(rest) {
          var k :| 0 <= k < |pairs| && pairs[k].0 == id;
          if k > 0 { assert rest[k - 1].0 == id; }
        }
        forall id | id in Ids(rest) ensures id in Ids(pairs) {
          var k :| 0 <= k < |rest| && rest[k].0 == id;
          assert pairs[k + 1].0 == id;
        }
      }
      forall j | 0 <= j < |pairs| && LastOfItsId(pairs, j)
        ensures InsertAll(m, pairs)[pairs[j].0] == pairs[j].1
      {
        if j == 0 {
          assert pairs[0].0 !in Ids(rest);
        } else {
          assert rest[j - 1] == pairs[j];
          assert LastOfItsId(rest, j - 1) by {
            forall i | j - 1 < i < |rest| ensures rest[i].0 != rest[j - 1].0 {
              assert rest[i] == pairs[i + 1];
            }
          }
        }
      }
    }
  }

  /** `HashMap::from_iter`: later pairs win over earlier ones with the same identifier. */
  function FromPairs<X>(pairs: seq<(string, X)>): map<string, X>
  {
    InsertAll(map[], pairs)
  }

  /** `read_refs`: list, read every selected file, and index the trees by identifier. */
  function ReadRefs<T>(listing: Result<seq<DirEntry>>, parse: string -> Result<T>): Result<map<string, T>>
  {
    var trees :- TreesIter(listing, parse);
    var pairs :- Collect(trees);
    Ok(FromPairs(pairs))
  }

  /** Every selected file of the listing was read successfully. */
  predicate AllRead<T>(listing: Result<seq<DirEntry>>, parse: string -> Result<T>)
  {
    listing.Ok? &&
    var paths := NewickPaths(listing.value);
    forall k :: 0 <= k < |paths| ==> ReadTree(paths[k], parse).Ok?
  }

  /**
   * Loading the references succeeds exactly when the directory is listed
   * and every selected file is read; one failure fails the whole load.
   */
  lemma ReadRefsOk<T>(listing: Result<seq<DirEntry>>, parse: string -> Result<T>)
    ensures ReadRefs(listing, parse).Ok? <==> AllRead(listing, parse)
  {
    if listing.Ok? {
      CollectOk(TreesIter(listing, parse).value);
    }
  }

  /**
   * A failed load reports the listing's error, or else the error of the
   * first selected file that could not be read.
   */
  lemma ReadRefsError<T>(listing: Result<seq<DirEntry>>, parse: string -> Result<T>)
    requires ReadRefs(listing, parse).Err?
    ensures listing.Err? ==> ReadRefs(listing, parse).error == listing.error
    ensures listing.Ok? ==>
      var paths := NewickPaths(listing.value);
      exists k :: 0 <= k < |paths| && ReadTree(paths[k], parse) == Err(ReadRefs(listing, parse).error)
        && forall j :: 0 <= j < k ==> ReadTree(paths[j], parse).Ok?
  {
    if listing.Ok? {
      var paths := NewickPaths(listing.value);
      var trees := TreesIter(listing, parse).value;
      CollectFirstError(trees);
      var k :| 0 <= k < |trees| && trees[k] == Err(Collect(trees).error)
               && forall j :: 0 <= j < k ==> trees[j].Ok?;
      assert ReadTree(paths[k], parse) == Err(ReadRefs(listing, parse).error);
      assert forall j :: 0 <= j < k ==> ReadTree(paths[j], parse).Ok? by {
        forall j | 0 <= j < k ensures ReadTree(paths[j], parse).Ok? {
          assert trees[j] == ReadTree(paths[j], parse);
        }
      }
    }
  }

  /**
   * A successful load holds exactly the identifiers read, and each maps to
   * the tree of the last file in directory order that had it.
   */
  lemma ReadRefsIndex<T>(listing: Result<seq<DirEntry>>, parse: string -> Result<T>)
    requires ReadRefs(listing, parse).Ok?
    ensures listing.Ok?
    ensures var paths := NewickPaths(listing.value);
      var refs := ReadRefs(listing, parse).value;
      && (forall k :: 0 <= k < |paths| ==> ReadTree(paths[k], parse).Ok?)
      && (forall id :: id in refs <==>
           exists k :: 0 <= k < |paths| && ReadTree(paths[k], parse).value.0 == id)
      && (forall k :: 0 <= k < |paths| &&
           (forall j :: k < j < |paths| ==> ReadTree(paths[j], parse).value.0 != ReadTree(paths[k], parse).value.0)
           ==> refs[ReadTree(paths[k], parse).value.0] == ReadTree(paths[k], parse).value.1)
  {
    var paths := NewickPaths(listing.value);
    var trees := TreesIter(listing, parse).value;
    CollectOk(trees);
    var pairs := Collect(trees).value;
    InsertAllSpec(map[], pairs);
    forall k | 0 <= k < |paths| ensures pairs[k] == ReadTree(paths[k], parse).value {
    }
    forall k | 0 <= k < |paths| &&
      (forall j :: k < j < |paths| ==> ReadTree(paths[j], parse).value.0 != ReadTree(paths[k], parse).value.0)
      ensures LastOfItsId(pairs, k)
    {
    }
  }
}
