/**
 * The command-line program: the name of the output file, the loop that
 * compares every candidate tree with the reference tree of the same
 * identifier, and the summary printed once the loop is over.
 */
module Program {

  import opened Base
  import Text
  import opened RustPath
  import opened Phylo
  import TreeIo
  import Csv

  // ---------------------------------------------------------------------
  // The output file name
  // ---------------------------------------------------------------------

  /** `add_extension`: a path already ending in a `gz` extension is kept, any other gets `.gz` appended. */
  function AddExtension(path: string): string
  {
    if Extension(path) == Some("gz") then path else path + ".gz"
  }

  /**
   * Appending `.gz` gives a path whose file name is the old last piece
   * followed by `.gz`; after a trailing separator that piece is empty.
   */
  lemma AppendGzFileName(path: string)
    ensures var pieces := Text.Split(path, '/');
      FileName(path + ".gz") == Some(pieces[|pieces| - 1] + ".gz")
  {
    var pieces := Text.Split(path, '/');
    Text.SplitAppendWithoutSeparator(path, ".gz", '/');
    FileNameOfGzPiece(path + ".gz", pieces[..|pieces| - 1], pieces[|pieces| - 1]);
  }

  /** A path whose last piece ends in `.gz` has that piece as its file name. */
  lemma FileNameOfGzPiece(p: string, prefix: seq<string>, last: string)
    requires Text.Split(p, '/') == prefix + [last + ".gz"]
    ensures FileName(p) == Some(last + ".gz")
  {
    var name := last + ".gz";
    assert |name| >= 3 && name[|name| - 1] == 'z';
    assert (prefix + [name])[..|prefix|] == prefix;
  }

  /** A non-empty name followed by `.gz` is a base, a dot and the extension `gz`. */
  lemma GzName(base: string)
    requires base != []
    ensures EndsWithExtension(base + ".gz", "gz")
  {
    var name := base + ".gz";
    assert name[|name| - 2..] == "gz";
  }

  /**
   * The output path has the `gz` extension whenever the given path is not
   * empty and does not end in a separator; a path that already has it is
   * returned unchanged, and any other gets `.gz` appended.
   */
  lemma AddExtensionSpec(path: string)
    ensures Extension(path) == Some("gz") ==> AddExtension(path) == path
    ensures Extension(path) != Some("gz") ==> AddExtension(path) == path + ".gz"
    ensures path != [] && path[|path| - 1] != '/' ==> Extension(AddExtension(path)) == Some("gz")
  {
    if path != [] && path[|path| - 1] != '/' && Extension(path) != Some("gz") {
      AppendGzFileName(path);
      var pieces := Text.Split(path, '/');
      Text.LastPieceNonEmpty(path, '/');
      GzName(pieces[|pieces| - 1]);
      ExtensionIff(path + ".gz", "gz");
    }
  }

  /** Under the same condition, adding the extension a second time changes nothing. */
  lemma AddExtensionIdempotent(path: string)
    requires path != [] && path[|path| - 1] != '/'
    ensures AddExtension(AddExtension(path)) == AddExtension(path)
  {
    AddExtensionSpec(path);
  }

  /** Two separator-free pieces around one separator. */
  lemma SplitTwo(first: string, second: string)
    requires '/' !in first && '/' !in second
    ensures Text.Split(first + ['/'] + second, '/') == [first, second]
  {
    Text.SplitAtFirstSeparator(first, second, '/');
    Text.SplitWithoutSeparator(second, '/');
  }

  /** The kept pieces of a two-piece path. */
  lemma KeepTwo(first: string, second: string)
    ensures KeepPieces([first, second]) ==
      (if Kept(first) then [first] else []) + (if Kept(second) then [second] else [])
  {
    assert [first, second][..1] == [first];
    assert [first][..0] == [];
  }

  /** A trailing separator leaves the directory name as the file name. */
  lemma FileNameWithTrailingSeparator(dir: string)
    requires '/' !in dir && '.' !in dir && dir != []
    ensures FileName(dir + "/") == Some(dir)
  {
    assert dir + "/" == dir + ['/'] + [];
    SplitTwo(dir, []);
    KeepTwo(dir, []);
  }

  /** The `.gz` appended after a separator is a file name of its own. */
  lemma FileNameOfAppendedGz(dir: string)
    requires '/' !in dir && '.' !in dir && dir != []
    ensures FileName(dir + "/.gz") == Some(".gz")
  {
    assert dir + "/.gz" == dir + ['/'] + ".gz";
    SplitTwo(dir, ".gz");
    KeepTwo(dir, ".gz");
  }

  /**
   * With a trailing separator the appended `.gz` is a file name of its own,
   * a hidden file without extension, so a second application appends
   * another `.gz`.
   */
  lemma AddExtensionAfterSeparator(dir: string)
    requires '/' !in dir && '.' !in dir && dir != []
    ensures AddExtension(dir + "/") == dir + "/.gz"
    ensures AddExtension(AddExtension(dir + "/")) == dir + "/.gz.gz"
  {
    FileNameWithTrailingSeparator(dir);
    assert LastIndexOf(dir, '.') == None;
    assert Extension(dir + "/") == None;
    assert (dir + "/") + ".gz" == dir + "/.gz";
    FileNameOfAppendedGz(dir);
    assert LastIndexOf(".gz", '.') == Some(0);
    assert Extension(dir + "/.gz") == None;
    assert (dir + "/.gz") + ".gz" == dir + "/.gz.gz";
  }

  // ---------------------------------------------------------------------
  // The comparison loop
  // ---------------------------------------------------------------------

  /** A candidate as the directory iterator yields it: an identified tree, or the error reading it. */
  type Candidate<T> = Result<(string, T)>

  /**
   * The state of the loop: the rows written to the output so far after its
   * header line, the read errors kept for the summary and the identifiers
   * without a reference; or the error the program returned.
   */
  datatype Outcome =
    | Aborted(error: Error)
    | Finished(rows: seq<string>, errors: seq<Error>, notFound: seq<string>)

  /** The output line for a candidate compared with its reference. */
  function RowFor<T>(id: string, reftree: T, cmp: Comparison, engine: Engine<T>): string
  {
    Csv.FormatTreeRecord(id, engine.nLeaves(reftree), cmp)
  }

  /** One iteration of the loop. */
  function Step<T>(st: Outcome, item: Candidate<T>, refs: map<string, T>, strict: bool, engine: Engine<T>): Outcome
  {
    match st
    case Aborted(_) => st
    case Finished(rows, errors, notFound) =>
      match item
      case Err(e) => if strict then Aborted(e) else Finished(rows, errors + [e], notFound)
      case Ok((id, tree)) =>
        if id in refs then
          match engine.compareTopologies(refs[id], tree)
          case Err(e) => Aborted(e)
          case Ok(cmp) => Finished(rows + [RowFor(id, refs[id], cmp, engine)], errors, notFound)
        else Finished(rows, errors, notFound + [id])
  }

  /** The loop over `items`, starting after the header has been written. */
  function Account<T>(items: seq<Candidate<T>>, refs: map<string, T>, strict: bool, engine: Engine<T>): Outcome
    decreases |items|
  {
    if items == [] then Finished([], [], [])
    else Step(Account(items[..|items| - 1], refs, strict, engine), items[|items| - 1], refs, strict, engine)
  }

  /** One more candidate is one more step of the loop. */
  lemma AccountExtend<T>(items: seq<Candidate<T>>, i: nat, refs: map<string, T>, strict: bool, engine: Engine<T>)
    requires i < |items|
    ensures Account(items[..i + 1], refs, strict, engine) ==
      Step(Account(items[..i], refs, strict, engine), items[i], refs, strict, engine)
  {
    assert items[..i + 1][..i] == items[..i];
  }

  /** Once the loop has returned an error, later candidates change nothing. */
  lemma {:induction false} AbortIsFinal<T>(items: seq<Candidate<T>>, k: nat, refs: map<string, T>, strict: bool, engine: Engine<T>)
    requires k <= |items|
    requires Account(items[..k], refs, strict, engine).Aborted?
    ensures Account(items, refs, strict, engine) == Account(items[..k], refs, strict, engine)
    decreases |items|
  {
    if k < |items| {
      var init := items[..|items| - 1];
      assert init[..k] == items[..k];
      AbortIsFinal(init, k, refs, strict, engine);
    } else {
      assert items[..k] == items;
    }
  }

  /** A candidate that fails while the loop is running decides the outcome. */
  lemma AbortsAt<T>(items: seq<Candidate<T>>, i: nat, refs: map<string, T>, strict: bool, engine: Engine<T>)
    requires i < |items| && Fails(items[i], refs, strict, engine)
    requires Account(items[..i], refs, strict, engine).Finished?
    ensures Account(items, refs, strict, engine) == Aborted(FailureOf(items[i], refs, engine))
  {
    AccountExtend(items, i, refs, strict, engine);
    StepAborts(Account(items[..i], refs, strict, engine), items[i], refs, strict, engine);
    AbortIsFinal(items, i + 1, refs, strict, engine);
  }

  /** The candidates that make the loop return: a read error in strict mode, a failed comparison in either mode. */
  predicate Fails<T>(item: Candidate<T>, refs: map<string, T>, strict: bool, engine: Engine<T>)
  {
    match item
    case Err(_) => strict
    case Ok((id, tree)) => id in refs && engine.compareTopologies(refs[id], tree).Err?
  }

  /** The error a failing candidate makes the loop return. */
  function FailureOf<T>(item: Candidate<T>, refs: map<string, T>, engine: Engine<T>): Error
    requires Fails(item, refs, true, engine)
  {
    match item
    case Err(e) => e
    case Ok((id, tree)) => engine.compareTopologies(refs[id], tree).error
  }

  /** The row a candidate adds: one when it has a reference and compares successfully. */
  function RowOf<T>(item: Candidate<T>, refs: map<string, T>, engine: Engine<T>): seq<string>
  {
    match item
    case Err(_) => []
    case Ok((id, tree)) =>
      if id in refs && engine.compareTopologies(refs[id], tree).Ok?
      then [RowFor(id, refs[id], engine.compareTopologies(refs[id], tree).value, engine)]
      else []
  }

  /** The read error a candidate carries, if any. */
  function ErrorOf<T>(item: Candidate<T>): seq<Error>
  {
    if item.Err? then [item.error] else []
  }

  /** The identifier of a candidate read successfully without a reference. */
  function MissingOf<T>(item: Candidate<T>, refs: map<string, T>): seq<string>
  {
    if item.Ok? && item.value.0 !in refs then [item.value.0] else []
  }

  /** The rows of the candidates that have a reference and compare successfully, in input order. */
  function Rows<T>(items: seq<Candidate<T>>, refs: map<string, T>, engine: Engine<T>): seq<string>
    decreases |items|
  {
    if items == [] then []
    else Rows(items[..|items| - 1], refs, engine) + RowOf(items[|items| - 1], refs, engine)
  }

  /** The errors of the candidates that could not be read, in input order. */
  function ReadErrors<T>(items: seq<Candidate<T>>): seq<Error>
    decreases |items|
  {
    if items == [] then []
    else ReadErrors(items[..|items| - 1]) + ErrorOf(items[|items| - 1])
  }

  /** The identifiers of the candidates read successfully that have no reference, in input order. */
  function MissingIds<T>(items: seq<Candidate<T>>, refs: map<string, T>): seq<string>
    decreases |items|
  {
    if items == [] then []
    else MissingIds(items[..|items| - 1], refs) + MissingOf(items[|items| - 1], refs)
  }

  /** A candidate that does not fail adds its row, its error or its identifier. */
  lemma StepContinues<T>(rows: seq<string>, errors: seq<Error>, notFound: seq<string>,
                         item: Candidate<T>, refs: map<string, T>, strict: bool, engine: Engine<T>)
    requires !Fails(item, refs, strict, engine)
    ensures Step(Finished(rows, errors, notFound), item, refs, strict, engine) ==
      Finished(rows + RowOf(item, refs, engine), errors + ErrorOf(item), notFound + MissingOf(item, refs))
    ensures strict ==> ErrorOf(item) == []
  {
  }

  /** A candidate that fails makes the loop return its error. */
  lemma StepAborts<T>(st: Outcome, item: Candidate<T>, refs: map<string, T>, strict: bool, engine: Engine<T>)
    requires st.Finished? && Fails(item, refs, strict, engine)
    ensures Step(st, item, refs, strict, engine) == Aborted(FailureOf(item, refs, engine))
  {
  }

  /** The loop runs to its end exactly when no candidate fails. */
  lemma {:induction false} FinishedIff<T>(items: seq<Candidate<T>>, refs: map<string, T>, strict: bool, engine: Engine<T>)
    ensures Account(items, refs, strict, engine).Finished? <==>
      forall k :: 0 <= k < |items| ==> !Fails(items[k], refs, strict, engine)
    decreases |items|
  {
    if items != [] {
      var init := items[..|items| - 1];
      var last := items[|items| - 1];
      FinishedIff(init, refs, strict, engine);
      assert forall k :: 0 <= k < |init| ==> init[k] == items[k];
      var st := Account(init, refs, strict, engine);
      assert Account(items, refs, strict, engine) == Step(st, last, refs, strict, engine);
      if st.Aborted? {
        var j :| 0 <= j < |init| && Fails(init[j], refs, strict, engine);
        assert Fails(items[j], refs, strict, engine);
      } else if Fails(last, refs, strict, engine) {
        StepAborts(st, last, refs, strict, engine);
      } else {
        StepContinues(st.rows, st.errors, st.notFound, last, refs, strict, engine);
        forall k | 0 <= k < |items|
          ensures !Fails(items[k], refs, strict, engine)
        {
          if k < |init| {
            assert items[k] == init[k];
          }
        }
      }
    }
  }

  /**
   * A loop run to its end has written the rows of the
   * matched candidates, kept every read error (none can occur in strict
   * mode) and listed the identifiers without a reference.
   */
  lemma {:induction false} FinishedContents<T>(items: seq<Candidate<T>>, refs: map<string, T>, strict: bool, engine: Engine<T>)
    requires Account(items, refs, strict, engine).Finished?
    ensures Account(items, refs, strict, engine) ==
      Finished(Rows(items, refs, engine), ReadErrors(items), MissingIds(items, refs))
    ensures strict ==> ReadErrors(items) == []
    decreases |items|
  {
    if items != [] {
      var init := items[..|items| - 1];
      var last := items[|items| - 1];
      var st := Account(init, refs, strict, engine);
      assert Account(items, refs, strict, engine) == Step(st, last, refs, strict, engine);
      assert st.Finished?;
      FinishedContents(init, refs, strict, engine);
      if Fails(last, refs, strict, engine) {
        StepAborts(st, last, refs, strict, engine);
      }
      StepContinues(st.rows, st.errors, st.notFound, last, refs, strict, engine);
    }
  }

  /** The first candidate that fails decides the error the loop returns. */
  lemma FirstFailureAborts<T>(items: seq<Candidate<T>>, k: nat, refs: map<string, T>, strict: bool, engine: Engine<T>)
    requires k < |items| && Fails(items[k], refs, strict, engine)
    requires forall j :: 0 <= j < k ==> !Fails(items[j], refs, strict, engine)
    ensures Account(items, refs, strict, engine) == Aborted(FailureOf(items[k], refs, engine))
  {
    FinishedIff(items[..k], refs, strict, engine);
    AbortsAt(items, k, refs, strict, engine);
  }

  /** In strict mode the first unreadable candidate ends the run with its error, if nothing failed earlier. */
  lemma StrictStopsAtFirstError<T>(items: seq<Candidate<T>>, k: nat, refs: map<string, T>, engine: Engine<T>)
    requires k < |items| && items[k].Err?
    requires forall j :: 0 <= j < k ==> !Fails(items[j], refs, true, engine)
    ensures Account(items, refs, true, engine) == Aborted(items[k].error)
  {
    FirstFailureAborts(items, k, refs, true, engine);
  }

  /** A failed comparison ends the run with its error in either mode, if nothing failed earlier. */
  lemma ComparisonFailureAborts<T>(items: seq<Candidate<T>>, k: nat, refs: map<string, T>, strict: bool, engine: Engine<T>)
    requires k < |items| && items[k].Ok? && items[k].value.0 in refs
    requires engine.compareTopologies(refs[items[k].value.0], items[k].value.1).Err?
    requires forall j :: 0 <= j < k ==> !Fails(items[j], refs, strict, engine)
    ensures Account(items, refs, strict, engine) ==
      Aborted(engine.compareTopologies(refs[items[k].value.0], items[k].value.1).error)
  {
    FirstFailureAborts(items, k, refs, strict, engine);
  }

  /** No candidate with a reference fails to compare. */
  predicate ComparisonsSucceed<T>(items: seq<Candidate<T>>, refs: map<string, T>, engine: Engine<T>)
  {
    forall k :: 0 <= k < |items| ==> !Fails(items[k], refs, false, engine)
  }

  /** Without a failed comparison every candidate lands in exactly one of the three lists. */
  lemma {:induction false} Partition<T>(items: seq<Candidate<T>>, refs: map<string, T>, engine: Engine<T>)
    requires ComparisonsSucceed(items, refs, engine)
    ensures |Rows(items, refs, engine)| + |ReadErrors(items)| + |MissingIds(items, refs)| == |items|
    decreases |items|
  {
    if items != [] {
      var init := items[..|items| - 1];
      assert forall k :: 0 <= k < |init| ==> init[k] == items[k];
      Partition(init, refs, engine);
      assert !Fails(items[|items| - 1], refs, false, engine);
      LandsOnce(items[|items| - 1], refs, engine);
    }
  }

  /** A candidate whose comparison does not fail adds exactly one row, one error or one missing identifier. */
  lemma LandsOnce<T>(item: Candidate<T>, refs: map<string, T>, engine: Engine<T>)
    requires !Fails(item, refs, false, engine)
    ensures |RowOf(item, refs, engine)| + |ErrorOf(item)| + |MissingOf(item, refs)| == 1
  {
  }

  /**
   * In lenient mode without a failed comparison the loop runs to its end,
   * and each candidate adds exactly one row, one error or one missing
   * identifier.
   */
  lemma LenientAccounting<T>(items: seq<Candidate<T>>, refs: map<string, T>, engine: Engine<T>)
    requires ComparisonsSucceed(items, refs, engine)
    ensures var out := Account(items, refs, false, engine);
      && out.Finished?
      && |out.rows| + |out.errors| + |out.notFound| == |items|
  {
    FinishedIff(items, refs, false, engine);
    FinishedContents(items, refs, false, engine);
    Partition(items, refs, engine);
  }

  /** The missing identifiers are exactly those read successfully without a reference. */
  lemma {:induction false} MissingIdsMembers<T>(items: seq<Candidate<T>>, refs: map<string, T>, id: string)
    ensures id in MissingIds(items, refs) <==>
      id !in refs && exists k :: 0 <= k < |items| && items[k].Ok? && items[k].value.0 == id
    decreases |items|
  {
    if items != [] {
      var init := items[..|items| - 1];
      MissingIdsMembers(init, refs, id);
      if id in MissingIds(init, refs) {
        var k :| 0 <= k < |init| && init[k].Ok? && init[k].value.0 == id;
        assert items[k] == init[k];
      }
      if id !in refs && exists k :: 0 <= k < |items| && items[k].Ok? && items[k].value.0 == id {
        var k :| 0 <= k < |items| && items[k].Ok? && items[k].value.0 == id;
        if k < |init| {
          assert init[k] == items[k];
        }
      }
    }
  }

  /** `main`'s loop over the first candidate directory, after the header is written. */
  method CompareCandidates<T>(listing: Result<seq<TreeIo.DirEntry>>, parse: string -> Result<T>,
                              refs: map<string, T>, strict: bool, engine: Engine<T>)
    returns (out: Outcome)
    ensures TreeIo.TreesIter(listing, parse).Err? ==> out == Aborted(listing.error)
    ensures TreeIo.TreesIter(listing, parse).Ok? ==>
      out == Account(TreeIo.TreesIter(listing, parse).value, refs, strict, engine)
  {
    var candidates := TreeIo.TreesIter(listing, parse);
    if candidates.Err? {
      return Aborted(candidates.error);
    }
    out := CompareAll(candidates.value, refs, strict, engine);
  }

  /**
   * The loop over the candidates, run after the header line is written; it
   * returns the rows written after the header.
   */
  method CompareAll<T>(items: seq<Candidate<T>>, refs: map<string, T>, strict: bool, engine: Engine<T>)
    returns (out: Outcome)
    ensures out == Account(items, refs, strict, engine)
  {
    var rows: seq<string> := [];
    var errors: seq<Error> := [];
    var notFound: seq<string> := [];
    var i := 0;
    while i < |items|
      invariant 0 <= i <= |items|
      invariant Account(items[..i], refs, strict, engine) == Finished(rows, errors, notFound)
    {
      AccountExtend(items, i, refs, strict, engine);
      var item := items[i];
      if item.Err? {
        if strict {
          AbortsAt(items, i, refs, strict, engine);
          return Aborted(item.error);
        }
        StepContinues(rows, errors, notFound, item, refs, strict, engine);
        errors := errors + [item.error];
      } else {
        var id, tree := item.value.0, item.value.1;
        if id in refs {
          var reftree := refs[id];
          var compared := engine.compareTopologies(reftree, tree);
          if compared.Err? {
            AbortsAt(items, i, refs, strict, engine);
            return Aborted(compared.error);
          }
          StepContinues(rows, errors, notFound, item, refs, strict, engine);
          rows := rows + [RowFor(id, reftree, compared.value, engine)];
        } else {
          StepContinues(rows, errors, notFound, item, refs, strict, engine);
          notFound := notFound + [id];
        }
      }
      i := i + 1;
    }
    assert items[..i] == items;
    return Finished(rows, errors, notFound);
  }

  /** The row a candidate adds has the header's fields when its identifier holds no comma. */
  lemma RowOfMatchesHeader<T>(item: Candidate<T>, refs: map<string, T>, engine: Engine<T>)
    requires item.Ok? ==> ',' !in item.value.0
    ensures forall r :: r in RowOf(item, refs, engine) ==> |Text.Split(r, ',')| == |Csv.TreesHeader|
  {
    match item
    case Err(_) =>
    case Ok((id, tree)) =>
      if id in refs && engine.compareTopologies(refs[id], tree).Ok? {
        Csv.TreeRecordFields(id, engine.nLeaves(refs[id]), engine.compareTopologies(refs[id], tree).value);
      }
  }

  /** Each row written splits into as many fields as the header has columns, if no identifier holds a comma. */
  lemma {:induction false} RowsMatchColumns<T>(items: seq<Candidate<T>>, refs: map<string, T>, engine: Engine<T>)
    requires forall k :: 0 <= k < |items| && items[k].Ok? ==> ',' !in items[k].value.0
    ensures forall r :: r in Rows(items, refs, engine) ==> |Text.Split(r, ',')| == |Csv.TreesHeader|
    decreases |items|
  {
    if items != [] {
      var init := items[..|items| - 1];
      var last := items[|items| - 1];
      assert forall k :: 0 <= k < |init| ==> init[k] == items[k];
      RowsMatchColumns(init, refs, engine);
      RowOfMatchesHeader(last, refs, engine);
    }
  }

  /**
   * Every line written, the header and each row, splits into as many fields
   * as the header has columns, provided no identifier contains a comma.
   */
  lemma RowsMatchHeader<T>(items: seq<Candidate<T>>, refs: map<string, T>, engine: Engine<T>)
    requires forall k :: 0 <= k < |items| && items[k].Ok? ==> ',' !in items[k].value.0
    ensures forall r :: r in [Csv.HeaderString(Csv.Trees)] + Rows(items, refs, engine) ==>
      |Text.Split(r, ',')| == |Csv.TreesHeader|
  {
    Csv.HeaderFields(Csv.Trees);
    RowsMatchColumns(items, refs, engine);
  }

  // ---------------------------------------------------------------------
  // The summary
  // ---------------------------------------------------------------------

  /** At most this many missing identifiers are listed. */
  const MaxListed: nat := 10

  /** The number of lines about missing identifiers: none, or a count line, the listed ones and possibly an ellipsis. */
  function MissingHead(n: nat): nat
  {
    if n == 0 then 0 else 1 + (if n < MaxListed then n else MaxListed) + (if n > MaxListed then 1 else 0)
  }

  /**
   * The lines about missing identifiers: when there are any, their count,
   * the first `MaxListed` of them and an ellipsis line when there are more.
   */
  predicate MissingLines(notFound: seq<string>, lines: seq<string>)
  {
    var n := |notFound|;
    var listed := if n < MaxListed then n else MaxListed;
    && |lines| == MissingHead(n)
    && (n > 0 ==> lines[0] == "Could not find reference " + Text.NatToString(n) + " trees:")
    && (n > 0 ==> forall k :: 0 <= k < listed ==> lines[1 + k] == "\t- " + notFound[k])
    && (n > MaxListed ==> lines[1 + listed] == "\t- ...")
  }

  /** The lines about read errors: when there are any, a heading and every error's message. */
  predicate ErrorLines(errors: seq<Error>, lines: seq<string>)
  {
    && |lines| == (if errors == [] then 0 else 1 + |errors|)
    && (errors != [] ==> lines[0] == "There were errors reading some trees:")
    && (errors != [] ==> forall k :: 0 <= k < |errors| ==> lines[1 + k] == Display(errors[k]))
  }

  /** The summary: the lines about missing identifiers, then the lines about read errors. */
  predicate IsSummary(notFound: seq<string>, errors: seq<Error>, lines: seq<string>)
  {
    var head := MissingHead(|notFound|);
    && head <= |lines|
    && MissingLines(notFound, lines[..head])
    && ErrorLines(errors, lines[head..])
  }

  /** The description of the missing-identifier lines fixes every one of them. */
  lemma MissingLinesDetermined(notFound: seq<string>, a: seq<string>, b: seq<string>)
    requires MissingLines(notFound, a) && MissingLines(notFound, b)
    ensures a == b
  {
    var n := |notFound|;
    var listed := if n < MaxListed then n else MaxListed;
    forall i | 0 <= i < |a|
      ensures a[i] == b[i]
    {
      if i == 0 {
      } else if i <= listed {
        assert a[i] == "\t- " + notFound[i - 1];
      } else {
        assert i == 1 + listed;
      }
    }
  }

  /** The description of the error lines fixes every one of them. */
  lemma ErrorLinesDetermined(errors: seq<Error>, a: seq<string>, b: seq<string>)
    requires ErrorLines(errors, a) && ErrorLines(errors, b)
    ensures a == b
  {
    forall i | 0 <= i < |a|
      ensures a[i] == b[i]
    {
      if i > 0 {
        assert a[i] == Display(errors[i - 1]);
      }
    }
  }

  /** The description leaves no line open: it determines the summary. */
  lemma SummaryDetermined(notFound: seq<string>, errors: seq<Error>, a: seq<string>, b: seq<string>)
    requires IsSummary(notFound, errors, a) && IsSummary(notFound, errors, b)
    ensures a == b
  {
    var head := MissingHead(|notFound|);
    MissingLinesDetermined(notFound, a[..head], b[..head]);
    ErrorLinesDetermined(errors, a[head..], b[head..]);
    assert a == a[..head] + a[head..];
    assert b == b[..head] + b[head..];
  }

  /** The lines `main` prints about the missing identifiers. */
  method ListMissing(notFound: seq<string>) returns (lines: seq<string>)
    ensures MissingLines(notFound, lines)
  {
    lines := [];
    var n := |notFound|;
    var listed := if n < MaxListed then n else MaxListed;
    if n > 0 {
      lines := lines + ["Could not find reference " + Text.NatToString(n) + " trees:"];
      for k := 0 to listed
        invariant |lines| == 1 + k
        invariant lines[0] == "Could not find reference " + Text.NatToString(n) + " trees:"
        invariant forall j :: 0 <= j < k ==> lines[1 + j] == "\t- " + notFound[j]
      {
        lines := lines + ["\t- " + notFound[k]];
      }
      if n > MaxListed {
        lines := lines + ["\t- ..."];
      }
    }
  }

  /** The lines `main` prints about the read errors. */
  method ListErrors(errors: seq<Error>) returns (lines: seq<string>)
    ensures ErrorLines(errors, lines)
  {
    lines := [];
    if errors != [] {
      lines := lines + ["There were errors reading some trees:"];
      for k := 0 to |errors|
        invariant |lines| == 1 + k
        invariant lines[0] == "There were errors reading some trees:"
        invariant forall j :: 0 <= j < k ==> lines[1 + j] == Display(errors[j])
      {
        lines := lines + [Display(errors[k])];
      }
    }
  }

  /** The lines `main` prints to standard error after the loop. */
  method PrintSummary(notFound: seq<string>, errors: seq<Error>) returns (lines: seq<string>)
    ensures IsSummary(notFound, errors, lines)
  {
    var missing := ListMissing(notFound);
    var failed := ListErrors(errors);
    lines := missing + failed;
    assert lines[..|missing|] == missing;
    assert lines[|missing|..] == failed;
  }
}
