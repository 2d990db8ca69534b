# phylocompare, modelled in Dafny

phylocompare compares estimated phylogenetic trees with reference trees.
It finds trees by file name, pairs each candidate with the reference that
has the same identifier, and writes one CSV row per compared pair. This
project models the program's own logic and proves properties of that model.
The modules are:

- `Base` (base.dfy): optional values, and results with an `anyhow`-style
  error chain. An error prints only its outermost message. The module also
  defines `Num`, the library's floating-point numbers carried as the text
  they print.
- `Text` (text.dfy): `str::split` and `[&str]::join` on one character,
  with the round trips between them, and the decimal rendering of a
  `usize`, which is non-empty and all digits.
- `RustPath` (path.dfy): `Path::file_name`, `file_stem` and `extension` on
  `/`-separated paths, following the standard library's rules. The
  extension is what follows the last dot. A name with no dot has no
  extension, and neither does a name whose only dot is its first character.
- `Phylo` (phylo.dfy): the interface of the tree library. Trees are a type
  parameter. `Engine` holds the library's comparisons, leaf count and
  distance matrices as functions supplied by the caller, so every result
  holds whatever the library computes.
- `TreeIo` (io.dfy), from `src/io.rs`:
  - selecting Newick files by extension;
  - deriving a tree's identifier from its file name;
  - reading one tree, where parsing comes before the identifier;
  - iterating over a directory listing;
  - loading the reference map, which fails as a whole on any error and
    keeps the last file for a duplicated identifier.
- `Comp` (comp.dfy), from `src/comp.rs`:
  - branch records built from the three buckets the library returns;
  - distance records for every unordered pair of reference taxa, in
    lexicographic order;
  - `compare_trees`, which fills the requested parts of a record and fails
    at the first failing stage.
- `Csv` (csv.dfy), from `src/csv.rs`: header lines and records. Fields are
  joined by commas without quoting, so a record has the header's number of
  fields exactly when its identifier contains no comma.
- `Program` (program.dfy), from `src/main.rs`:
  - the output file name;
  - the loop over candidate trees, in strict and lenient mode;
  - the summary printed on standard error.

The imperative parts stay imperative. `BranchRecordsFromTrees`,
`DistanceRecordsFromTrees`, `CompareTrees`, `CompareAll`, `ListMissing`
and `ListErrors` are methods with loops or mutable state.
`CompareCandidates` and `PrintSummary` are methods that call them. Each is proved
against a specification function or predicate, and lemmas state the
properties of that specification. The pure parts of `src/io.rs` and
`src/csv.rs` are functions with lemmas.

Two facts about the program shape the model:

- The program is one sequential loop over the first candidate directory;
  there is no worker pool.
- An identifier is the file stem up to its first dot, so `.hidden.nwk`
  gives the empty identifier.

## Model

| member | source | states |
|---|---|---|
| RustPath.ExtensionIff | src/io.rs:7 | A path has extension `ext` exactly when its file name is a non-empty base, a dot, then a dot-free `ext`. |
| RustPath.FileName | src/io.rs:13-16 | A file name, when there is one, is non-empty, holds no separator and is neither `.` nor `..`. |
| RustPath.FileNameIsFinalComponent | src/io.rs:13-16 | The file name is the final component: a piece of the path followed only by empty pieces (repeated or trailing separators) and `.` pieces. |
| RustPath.FileStemOfName | src/io.rs:13-14 | The file stem exists exactly when the file name does, and is the file name without its extension. With an extension, the name is the stem, a dot and the extension. Without one, the stem is the whole name. |
| TreeIo.IsNewickIff | src/io.rs:6-9 | A path is selected exactly when its file name is longer than `.nwk` and ends in `.nwk`, or is longer than `.newick` and ends in `.newick`. The test is case-sensitive. |
| TreeIo.GetFileIdSpec | src/io.rs:12-22 | Getting an identifier fails exactly when the path has no file name. The error is then the "Could not extract ID from: " message. Otherwise the identifier is the file name up to its first dot, so the second context can never fire. |
| TreeIo.GetFileIdIsPrefix | src/io.rs:18-22 | An identifier contains no dot and is a prefix of the file name. |
| TreeIo.ReadTreeOutcome | src/io.rs:26-33 | A parse failure is reported, wrapped in "Could not parse newick file: ", even when the identifier would fail too. After a successful parse, the identifier error or the pair (identifier, tree) is returned. |
| TreeIo.PathsWhereMembers | src/io.rs:43-46 | The filtered paths are exactly the paths of readable entries that pass the test. There are never more of them than entries. |
| TreeIo.PathsWhereAppend | src/io.rs:43-46 | Filtering commutes with concatenating listings, so directory order is kept. |
| TreeIo.NewickPathsSpec | src/io.rs:43-46 | A path is kept exactly when it comes from a readable entry and has a Newick extension. Unreadable entries are dropped, and order is kept. |
| TreeIo.TreesIter | src/io.rs:42-48 | A listing error is returned unchanged. Otherwise there is one `read_tree` result per kept path, in order. |
| TreeIo.CollectOk | src/io.rs:37 | Collecting succeeds exactly when every result is `Ok`, and then yields all the values in order. |
| TreeIo.CollectFirstError | src/io.rs:37 | A failed collection returns the error of the first failing element. |
| TreeIo.InsertAllSpec | src/io.rs:38 | Building the map from pairs gives exactly the keys of the pairs, and the last pair of each key wins. Keys that no pair names keep their old values. |
| TreeIo.ReadRefsOk | src/io.rs:36-39 | Loading the references succeeds exactly when the directory is listed and every selected file is read, so no partial map is returned. |
| TreeIo.ReadRefsError | src/io.rs:36-39 | A failed load returns the listing error, or else the error of the first file that could not be read. |
| TreeIo.ReadRefsIndex | src/io.rs:36-39 | After a successful load, the map's keys are exactly the identifiers read. Each identifier maps to the tree of the last file that has it. |
| Comp.BranchRecordsFromTrees | src/comp.rs:17-51 | The library's error is returned unchanged. Otherwise there is one record per reference-only branch, then per compared-only branch, then per matched pair, each group in input order. Each record's fields come from the correct side. |
| Comp.BucketsOfPrefix | src/comp.rs:25-50 | Reading buckets back from the first n records gives the first n branches in bucket order. |
| Comp.BranchRowsDetermineBuckets | src/comp.rs:27-48 | Every record carries the id and no marker. A record has only reference fields, only compared fields, or all four fields exactly when it lies in the first, second or third group. Reading the records back gives the buckets. |
| Comp.PairsBeforeCount | src/comp.rs:72 | The pairs whose first index is below i number i(2n-i-1)/2. |
| Comp.PairsBeforeSorted | src/comp.rs:72 | The enumerated index pairs are in strictly increasing lexicographic order. |
| Comp.PairsBeforeComplete | src/comp.rs:72 | Every pair p<q with p below i is enumerated. |
| Comp.PairsSpec | src/comp.rs:72 | `combinations(2)` of n taxa enumerates exactly the index pairs p<q<n, in lexicographic order, and there are n(n-1)/2 of them. |
| Comp.GetCap | src/comp.rs:63-65 | `get_cap(n)` is the number of unordered pairs of n taxa. |
| Comp.DistanceRecordsFromTrees | src/comp.rs:67-87 | The reference matrix's error comes first, then the compared matrix's. Otherwise there is one record per index pair of the reference taxa, in lexicographic order. Each record holds both matrices' lookups for that pair, with a missing distance (the NaN sentinel) as absent. |
| Comp.DistanceRowsCoverPairs | src/comp.rs:72-84 | The number of distance records is `get_cap` of the number of taxa (none for no taxa). Every pair i<j has its record, even when a lookup finds nothing. Every record carries the id and no marker. |
| Comp.TopologyKeepsMetrics | src/comp.rs:101-111 | The conversion loses and duplicates no metric: two comparisons give the same record exactly when they are equal. The id, n_tips and marker fields are left at their defaults. |
| Comp.CompareTrees | src/comp.rs:120-161 | The first failure among the requested stages is returned, in the order topology, branches, reference matrix, compared matrix, and no partial record comes back. On success each part is present exactly when its flag is set. The topology carries the id and the reference leaf count, and the branch and distance parts are those of the two builders. |
| Csv.HeaderFields | src/csv.rs:3-19 | Each header line splits back into the columns of its kind of file. |
| Csv.TreesHeaderLiteral | src/csv.rs:3-16 | The tree header is `id,size,rf,norm_rf,rf_weight,kf_score`. |
| Csv.DistsHeaderLiteral | src/csv.rs:4-17 | Distance files and branch-length files share the header `id,ref,comp`. |
| Csv.TreeRecordFields | src/csv.rs:22-27 | A tree record with a comma-free id splits into id, size, rf, norm_rf, weighted_rf and branch_score, in the header's order. It has the header's six fields exactly when the id contains no comma. |
| Csv.ConcatSplits | src/csv.rs:24 | Five comma-free fields joined by commas split back into those fields. |
| Csv.Render | src/csv.rs:31-32 | A rendered length contains no comma, and it is empty exactly when the length is absent. |
| Csv.BranchRecordFields | src/csv.rs:30-35 | A branch record with a comma-free id splits into id, rendered reference length and rendered compared length, matching the three-column header. It has three fields exactly when the id contains no comma. |
| Csv.BranchRecordInjective | src/csv.rs:30-35 | For a comma-free id, the record determines both optional lengths. |
| Program.AppendGzFileName | src/main.rs:117-119 | Appending `.gz` to any path makes the file name the old last piece followed by `.gz` (just `.gz` after a trailing `/`). |
| Program.AddExtensionSpec | src/main.rs:113-122 | A path whose extension is `gz` is returned unchanged, and any other path gets `.gz` appended. The result has extension `gz` whenever the path is not empty and does not end in `/`. |
| Program.AddExtensionIdempotent | src/main.rs:113-122 | For a path that is not empty and does not end in `/`, applying `add_extension` twice equals applying it once. |
| Program.AddExtensionAfterSeparator | src/main.rs:113-122 | For a directory name without dots, a trailing `/` makes the appended `.gz` a hidden file name without an extension, so `dir/` gives `dir/.gz` and then `dir/.gz.gz`. |
| Program.AccountExtend | src/main.rs:70-88 | One more candidate is one more iteration of the loop. |
| Program.AbortIsFinal | src/main.rs:73-76 | Once the loop has returned an error, no later candidate changes the outcome. |
| Program.StepContinues | src/main.rs:71-87 | A candidate that does not fail adds exactly its row, its read error or its missing identifier. In strict mode it adds no error. |
| Program.StepAborts | src/main.rs:73-83 | A read error in strict mode, or a failed comparison in either mode, makes the loop return that error. |
| Program.FinishedIff | src/main.rs:70-88 | The loop runs to its end exactly when no candidate fails. |
| Program.FinishedContents | src/main.rs:70-88 | A loop that ran to its end has written, after the header, the rows of the matched candidates in order. It has kept every read error, none in strict mode, and listed the missing identifiers in order. |
| Program.AbortsAt | src/main.rs:73-83 | A candidate that fails while the loop is still running decides the outcome: its error is returned. |
| Program.FirstFailureAborts | src/main.rs:70-88 | The first failing candidate decides the error that is returned. |
| Program.StrictStopsAtFirstError | src/main.rs:73-76 | In strict mode the first unreadable candidate ends the run with its error, and later candidates are not processed. |
| Program.ComparisonFailureAborts | src/main.rs:83 | A failed comparison ends the run with its error, whether or not strict mode is set. |
| Program.Partition | src/main.rs:70-88 | Without a failed comparison, the rows, errors and missing identifiers together number exactly the candidates. |
| Program.LandsOnce | src/main.rs:71-87 | A candidate whose comparison does not fail adds exactly one row, one read error or one missing identifier. |
| Program.LenientAccounting | src/main.rs:70-88 | In lenient mode without a failed comparison, the loop finishes. Rows written, errors kept and identifiers missing sum to the number of candidates. |
| Program.MissingIdsMembers | src/main.rs:82-87 | An identifier is listed as missing exactly when some candidate was read successfully with it and it has no reference. |
| Program.CompareCandidates | src/main.rs:70-88 | A listing error of the candidate directory is returned. Otherwise the outcome is exactly the one the loop's specification gives for the candidates in order. |
| Program.CompareAll | src/main.rs:70-88 | The loop, run after the header is written, returns the error of the first failing candidate, or else the rows, errors and missing identifiers that its specification accumulates. |
| Program.RowOfMatchesHeader | src/main.rs:124-129 | A written row with a comma-free id has as many fields as `TREES_HEADER` has columns. |
| Program.RowsMatchColumns | src/main.rs:82-84 | Every row written has six comma-separated fields when no identifier contains a comma. |
| Program.RowsMatchHeader | src/main.rs:65-84 | Every written line, the header and each row, has six comma-separated fields when no identifier contains a comma. |
| Program.MissingLinesDetermined | src/main.rs:92-101 | The description of the missing-identifier lines fixes every one of them. |
| Program.ErrorLinesDetermined | src/main.rs:103-108 | The description of the error lines fixes every one of them. |
| Program.SummaryDetermined | src/main.rs:92-108 | The summary's description fixes every line, so exactly one summary fits it. |
| Program.ListMissing | src/main.rs:92-101 | If identifiers are missing, the lines are their count, the first min(n, 10) of them in order, and a `\t- ...` line exactly when n > 10; otherwise there are none. |
| Program.ListErrors | src/main.rs:103-108 | If there were read errors, the lines are a heading and every error's message in order, with no truncation; otherwise there are none. |
| Program.PrintSummary | src/main.rs:92-108 | The summary is the missing-identifier lines followed by the error lines. |
| Text.SplitJoin | src/csv.rs:16-17 | Joining comma-free fields and splitting the result gives the fields back. |
| Text.JoinSplit | src/csv.rs:16-17 | Splitting and joining again gives the original text back. |
| Text.PieceCount | src/csv.rs:24 | Splitting yields exactly one piece more than the text holds separators. |
| Text.SplitAppendWithoutSeparator | src/main.rs:117-119 | Appending separator-free text to a path extends its last piece and leaves the others alone. |
| Text.LastPieceNonEmpty | src/main.rs:117-119 | A text that does not end in the separator has a non-empty last piece. |
| Text.SplitAtFirstSeparator | src/io.rs:19 | A separator after a separator-free prefix ends the first piece there. |
| Text.FirstPiece | src/io.rs:18-20 | The first piece of a split is a separator-free prefix. When it is shorter than the text, a separator follows it. |
| Text.NatToString | src/csv.rs:24 | The decimal rendering of a size is non-empty and all digits, so it contains no comma. |

## Left out

- Tree parsing (`Tree::from_file`), `compare_topologies`,
  `compare_branch_lengths`, `distance_matrix` and `n_leaves` belong to the
  tree library. They are the functions of `Phylo.Engine` and the `parse`
  parameter, about which nothing is assumed.
- Floating-point values and their `Display` text are opaque `Num` strings.
  The NaN sentinel of a missing distance is `None`. No arithmetic on them
  is modelled.
- Filesystem and process I/O are out of scope: `metadata`, `is_dir`,
  `fs::read_dir` and `File::create` (src/main.rs:45-61), the gzip writer
  and its write and flush errors (src/main.rs:62-65, 84, 90), and standard
  error. A directory listing is a `Result` of entries given as a parameter.
  Written output and printed lines are sequences of lines without their
  newline.
- The `Serialize`, `Default` and `Debug` derivations of the record types
  are not modelled. A record's fields are the values the library returned.
- The setup in `main` is glue and is not modelled: command-line parsing
  (clap), the directory check and the reading of the references. Only the
  first candidate directory `cmp_trees[0]` is read, and the model takes
  that one directory's listing. Indexing an empty list of directories
  would panic; that is not modelled.
- The progress bar (indicatif) does not affect the outcome.
- Comp.GetCap: requires at least one taxon. At zero, `size - 1` underflows:
  a panic in a debug build, and in a release build a wrap-around whose
  product with zero is zero.
- Comp.DistanceRecordsFromTrees: does not evaluate `get_cap` for the
  capacity hint of `with_capacity` (src/comp.rs:68), so it follows the
  release build. In a debug build a reference tree without leaves panics
  there, before either distance matrix is computed; the model instead
  returns a matrix error or the records of the matrix's taxa. The same
  holds for `Comp.CompareTrees` when distances are requested.
- `usize` overflow of the size and of `get_cap` is not modelled; counts are
  unbounded naturals.
- Paths are `/`-separated strings. Non-UTF-8 paths (`to_str` returning
  `None`) and platform prefixes are not modelled.
- When the loop returns an error, the outcome is that error alone. The
  lines already written to the output file by then are not part of it.
- The constants `DISTS_HEADER` and `BRLNS_HEADER` in `src/main.rs:38-39`
  are unused and are not modelled. `format_record` in
  `src/main.rs:124-129` is identical to `format_tree_record` and is modelled
  once, as `Csv.FormatTreeRecord`. Likewise `TREES_HEADER` in
  `src/main.rs:37` has the same columns as the one in `src/csv.rs` and is
  modelled once, as `Csv.TreesHeader`, which `Program.RowsMatchHeader`
  uses.
- `src/main.rs:14` declares only `mod io;`, so `src/comp.rs` and
  `src/csv.rs` are not compiled into the program. They are modelled as
  written.
