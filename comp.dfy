/**
 * Turning the tree library's comparison results into output records (the
 * program's `comp` module): one topology record, the branch records of the
 * three buckets, and one distance record per unordered pair of taxa.
 */
module Comp {

  import opened Base
  import opened Phylo

  // ---------------------------------------------------------------------
  // Branch records
  // ---------------------------------------------------------------------

  /** One row of the branch-length comparison. */
  datatype BranchRecord = BranchRecord(
    id: string,
    refLen: Option<Num>,
    refDepth: Option<nat>,
    cmpLen: Option<Num>,
    cmpDepth: Option<nat>,
    marker: Option<string>)

  /** The record of a branch found only in the reference tree. */
  function ReferenceOnly(id: string, b: Branch): BranchRecord
  {
    BranchRecord(id, Some(b.len), Some(b.depth), None, None, None)
  }

  /** The record of a branch found only in the compared tree. */
  function ComparedOnly(id: string, b: Branch): BranchRecord
  {
    BranchRecord(id, None, None, Some(b.len), Some(b.depth), None)
  }

  /** The record of a matched pair of branches. */
  function InCommon(id: string, pair: (Branch, Branch)): BranchRecord
  {
    BranchRecord(id, Some(pair.0.len), Some(pair.0.depth), Some(pair.1.len), Some(pair.1.depth), None)
  }

  /**
   * `rows` lists the reference-only records, then the compared-only ones,
   * then the common ones, each bucket in its own order.
   */
  predicate IsBranchRows(id: string, b: Buckets, rows: seq<BranchRecord>)
  {
    var nr, nc := |b.reference|, |b.compared|;
    && |rows| == nr + nc + |b.common|
    && (forall k :: 0 <= k < nr ==> rows[k] == ReferenceOnly(id, b.reference[k]))
    && (forall k :: 0 <= k < nc ==> rows[nr + k] == ComparedOnly(id, b.compared[k]))
    && (forall k :: 0 <= k < |b.common| ==> rows[nr + nc + k] == InCommon(id, b.common[k]))
  }

  /**
   * `BranchRecord::from_trees`: compare the branch lengths and lay out one
   * record per branch of each bucket; a library failure is passed on.
   */
  method BranchRecordsFromTrees<T>(engine: Engine<T>, reftree: T, cmptree: T, includeTips: bool, id: string)
    returns (r: Result<seq<BranchRecord>>)
    ensures var b := engine.compareBranchLengths(reftree, cmptree, includeTips);
      && (b.Err? ==> r == Err(b.error))
      && (b.Ok? ==> r.Ok? && IsBranchRows(id, b.value, r.value))
  {
    var buckets :- engine.compareBranchLengths(reftree, cmptree, includeTips);
    var nr, nc := |buckets.reference|, |buckets.compared|;
    var records: seq<BranchRecord> := [];

    var i := 0;
    while i < nr
      invariant 0 <= i <= nr
      invariant |records| == i
      invariant forall k :: 0 <= k < i ==> records[k] == ReferenceOnly(id, buckets.reference[k])
    {
      records := records + [ReferenceOnly(id, buckets.reference[i])];
      i := i + 1;
    }

    i := 0;
    while i < nc
      invariant 0 <= i <= nc
      invariant |records| == nr + i
      invariant forall k :: 0 <= k < nr ==> records[k] == ReferenceOnly(id, buckets.reference[k])
      invariant forall k :: 0 <= k < i ==> records[nr + k] == ComparedOnly(id, buckets.compared[k])
    {
      records := records + [ComparedOnly(id, buckets.compared[i])];
      i := i + 1;
    }

    i := 0;
    while i < |buckets.common|
      invariant 0 <= i <= |buckets.common|
      invariant |records| == nr + nc + i
      invariant forall k :: 0 <= k < nr ==> records[k] == ReferenceOnly(id, buckets.reference[k])
      invariant forall k :: 0 <= k < nc ==> records[nr + k] == ComparedOnly(id, buckets.compared[k])
      invariant forall k :: 0 <= k < i ==> records[nr + nc + k] == InCommon(id, buckets.common[k])
    {
      records := records + [InCommon(id, buckets.common[i])];
      i := i + 1;
    }

    return Ok(records);
  }

  /** The record has reference fields and no compared fields. */
  predicate HasOnlyReference(r: BranchRecord)
  {
    r.refLen.Some? && r.refDepth.Some? && r.cmpLen.None? && r.cmpDepth.None?
  }

  /** The record has compared fields and no reference fields. */
  predicate HasOnlyCompared(r: BranchRecord)
  {
    r.refLen.None? && r.refDepth.None? && r.cmpLen.Some? && r.cmpDepth.Some?
  }

  /** The record has all four fields. */
  predicate HasBoth(r: BranchRecord)
  {
    r.refLen.Some? && r.refDepth.Some? && r.cmpLen.Some? && r.cmpDepth.Some?
  }

  /** Sorts one more record into the buckets by which of its fields are present. */
  function AddRow(bs: Buckets, r: BranchRecord): Buckets
  {
    if HasOnlyReference(r) then
      bs.(reference := bs.reference + [Branch(r.refDepth.value, r.refLen.value)])
    else if HasOnlyCompared(r) then
      bs.(compared := bs.compared + [Branch(r.cmpDepth.value, r.cmpLen.value)])
    else if HasBoth(r) then
      bs.(common := bs.common + [(Branch(r.refDepth.value, r.refLen.value), Branch(r.cmpDepth.value, r.cmpLen.value))])
    else bs
  }

  /** Reads the buckets back from a list of records, one record at a time. */
  function BucketsOf(rows: seq<BranchRecord>): Buckets
  {
    if rows == [] then Buckets([], [], [])
    else AddRow(BucketsOf(rows[..|rows| - 1]), rows[|rows| - 1])
  }

  /** What `BucketsOf` gives for the first `n` rows of a well-formed layout. */
  function BucketsPrefix(b: Buckets, n: nat): Buckets
    requires n <= |b.reference| + |b.compared| + |b.common|
  {
    var nr, nc := |b.reference|, |b.compared|;
    if n <= nr then Buckets(b.reference[..n], [], [])
    else if n <= nr + nc then Buckets(b.reference, b.compared[..n - nr], [])
    else Buckets(b.reference, b.compared, b.common[..n - nr - nc])
  }

  lemma {:induction false} BucketsOfPrefix(id: string, b: Buckets, rows: seq<BranchRecord>, n: nat)
    requires IsBranchRows(id, b, rows)
    requires n <= |rows|
    ensures BucketsOf(rows[..n]) == BucketsPrefix(b, n)
    decreases n
  {
    if n == 0 {
      assert rows[..0] == [];
    } else {
      BucketsOfPrefix(id, b, rows, n - 1);
      assert rows[..n][..n - 1] == rows[..n - 1];
      assert BucketsOf(rows[..n]) == AddRow(BucketsOf(rows[..n - 1]), rows[n - 1]);
      var nr, nc := |b.reference|, |b.compared|;
      if n <= nr {
        ReferenceStep(id, b, rows, n);
      } else if n <= nr + nc {
        ComparedStep(id, b, rows, n);
      } else {
        CommonStep(id, b, rows, n);
      }
    }
  }

  /** A reference-only record extends the reference bucket. */
  lemma ReferenceStep(id: string, b: Buckets, rows: seq<BranchRecord>, n: nat)
    requires IsBranchRows(id, b, rows)
    requires 0 < n <= |b.reference|
    ensures AddRow(BucketsPrefix(b, n - 1), rows[n - 1]) == BucketsPrefix(b, n)
  {
    assert rows[n - 1] == ReferenceOnly(id, b.reference[n - 1]);
  }

  /** A compared-only record extends the compared bucket. */
  lemma ComparedStep(id: string, b: Buckets, rows: seq<BranchRecord>, n: nat)
    requires IsBranchRows(id, b, rows)
    requires |b.reference| < n <= |b.reference| + |b.compared|
    ensures AddRow(BucketsPrefix(b, n - 1), rows[n - 1]) == BucketsPrefix(b, n)
  {
    var nr := |b.reference|;
    assert rows[nr + (n - 1 - nr)] == ComparedOnly(id, b.compared[n - 1 - nr]);
    assert b.compared[..n - nr] == b.compared[..n - 1 - nr] + [b.compared[n - 1 - nr]];
    if n - 1 == nr {
      assert b.reference[..nr] == b.reference;
    }
  }

  /** A record with both sides extends the common bucket. */
  lemma CommonStep(id: string, b: Buckets, rows: seq<BranchRecord>, n: nat)
    requires IsBranchRows(id, b, rows)
    requires |b.reference| + |b.compared| < n <= |rows|
    ensures AddRow(BucketsPrefix(b, n - 1), rows[n - 1]) == BucketsPrefix(b, n)
  {
    var nr, nc := |b.reference|, |b.compared|;
    assert rows[nr + nc + (n - 1 - nr - nc)] == InCommon(id, b.common[n - 1 - nr - nc]);
    assert b.common[..n - nr - nc] == b.common[..n - 1 - nr - nc] + [b.common[n - 1 - nr - nc]];
    if n - 1 == nr + nc {
      assert b.compared[..nc] == b.compared;
      if nc == 0 {
        assert b.reference[..nr] == b.reference;
      }
    }
  }

  /** The fields present in one record say which bucket it came from. */
  lemma BranchRowAt(id: string, b: Buckets, rows: seq<BranchRecord>, k: nat)
    requires IsBranchRows(id, b, rows) && k < |rows|
    ensures rows[k].id == id && rows[k].marker.None?
    ensures HasOnlyReference(rows[k]) <==> k < |b.reference|
    ensures HasOnlyCompared(rows[k]) <==> |b.reference| <= k < |b.reference| + |b.compared|
    ensures HasBoth(rows[k]) <==> |b.reference| + |b.compared| <= k
  {
    var nr, nc := |b.reference|, |b.compared|;
    if k < nr {
      assert rows[k] == ReferenceOnly(id, b.reference[k]);
    } else if k < nr + nc {
      assert rows[k] == ComparedOnly(id, b.compared[k - nr]);
    } else {
      assert rows[k] == InCommon(id, b.common[k - nr - nc]);
    }
  }

  /**
   * The layout is lossless: every record carries the identifier and no
   * marker, its present fields say which bucket it came from, and the
   * buckets, in order, can be read back from the records alone.
   */
  lemma BranchRowsDetermineBuckets(id: string, b: Buckets, rows: seq<BranchRecord>)
    requires IsBranchRows(id, b, rows)
    ensures forall k :: 0 <= k < |rows| ==> rows[k].id == id && rows[k].marker.None?
    ensures forall k :: 0 <= k < |rows| ==>
      (HasOnlyReference(rows[k]) <==> k < |b.reference|) &&
      (HasOnlyCompared(rows[k]) <==> |b.reference| <= k < |b.reference| + |b.compared|) &&
      (HasBoth(rows[k]) <==> |b.reference| + |b.compared| <= k)
    ensures BucketsOf(rows) == b
  {
    var nr, nc := |b.reference|, |b.compared|;
    forall k | 0 <= k < |rows|
      ensures rows[k].id == id && rows[k].marker.None?
      ensures (HasOnlyReference(rows[k]) <==> k < nr)
      ensures (HasOnlyCompared(rows[k]) <==> nr <= k < nr + nc)
      ensures (HasBoth(rows[k]) <==> nr + nc <= k)
    {
      BranchRowAt(id, b, rows, k);
    }
    BucketsOfPrefix(id, b, rows, |rows|);
    assert rows[..|rows|] == rows;
    assert b.common[..|b.common|] == b.common;
    assert b.compared[..nc] == b.compared;
    assert b.reference[..nr] == b.reference;
  }

  // ---------------------------------------------------------------------
  // Distance records
  // ---------------------------------------------------------------------

  /** One row of the pairwise leaf-distance comparison; `None` is the NaN sentinel. */
  datatype DistanceRecord = DistanceRecord(
    id: string,
    refDist: Option<Num>,
    cmpDist: Option<Num>,
    marker: Option<string>)

  /** The index pairs `(i, j)` with `i < j < n`, for one fixed `i`, by increasing `j`. */
  function PairsFrom(i: nat, n: nat): seq<(nat, nat)>
    requires i < n
  {
    seq(n - i - 1, k requires 0 <= k < n - i - 1 => (i, i + 1 + k))
  }

  /** The index pairs whose first index is below `i`, in lexicographic order. */
  function PairsBefore(i: nat, n: nat): (r: seq<(nat, nat)>)
    requires i <= n
    ensures forall k :: 0 <= k < |r| ==> r[k].0 < i && r[k].0 < r[k].1 < n
    decreases i
  {
    if i == 0 then [] else PairsBefore(i - 1, n) + PairsFrom(i - 1, n)
  }

  /** `combinations(2)` over `n` positions: every pair `i < j < n`, lexicographically. */
  function Pairs(n: nat): (r: seq<(nat, nat)>)
    ensures forall k :: 0 <= k < |r| ==> r[k].0 < r[k].1 < n
  {
    PairsBefore(n, n)
  }

  /** Twice the number of pairs whose first index is below `i`. */
  lemma {:induction false} PairsBeforeCount(i: nat, n: nat)
    requires i <= n
    ensures 2 * |PairsBefore(i, n)| == i * (2 * n - i - 1)
    decreases i
  {
    if i > 0 {
      PairsBeforeCount(i - 1, n);
      var prev := |PairsBefore(i - 1, n)|;
      assert |PairsBefore(i, n)| == prev + (n - i);
      var x := 2 * n - i;
      assert 2 * prev == (i - 1) * x;
      assert (i - 1) * x == i * x - x;
      assert i * x - i == i * (x - 1);
    }
  }

  /** `get_cap`: the number of unordered pairs of `size` taxa. */
  function GetCap(size: nat): (r: nat)
    requires size >= 1
    ensures r == |Pairs(size)|
  {
    PairsBeforeCount(size, size);
    size * (size - 1) / 2
  }

  /** The strict lexicographic order on index pairs. */
  predicate LexLess(p: (nat, nat), q: (nat, nat))
  {
    p.0 < q.0 || (p.0 == q.0 && p.1 < q.1)
  }

  /** The pairs come in strictly increasing lexicographic order (so none repeats). */
  lemma {:induction false} PairsBeforeSorted(i: nat, n: nat)
    requires i <= n
    ensures forall a, b :: 0 <= a < b < |PairsBefore(i, n)| ==> LexLess(PairsBefore(i, n)[a], PairsBefore(i, n)[b])
    decreases i
  {
    if i > 0 {
      PairsBeforeSorted(i - 1, n);
      var front, row := PairsBefore(i - 1, n), PairsFrom(i - 1, n);
      var ps := front + row;
      forall a, b | 0 <= a < b < |ps| ensures LexLess(ps[a], ps[b]) {
        if b < |front| {
          assert ps[a] == front[a] && ps[b] == front[b];
        } else if a < |front| {
          assert ps[a] == front[a] && ps[b] == row[b - |front|];
          assert front[a].0 < i - 1 && row[b - |front|].0 == i - 1;
        } else {
          assert ps[a] == row[a - |front|] && ps[b] == row[b - |front|];
          assert row[a - |front|] == (i - 1, i + (a - |front|));
          assert row[b - |front|] == (i - 1, i + (b - |front|));
        }
      }
    }
  }

  /** Every pair `i < j < n` with `i` below the bound is listed. */
  lemma {:induction false} PairsBeforeComplete(i: nat, n: nat, p: nat, q: nat)
    requires i <= n
    requires p < i && p < q < n
    ensures (p, q) in PairsBefore(i, n)
    decreases i
  {
    var front, row := PairsBefore(i - 1, n), PairsFrom(i - 1, n);
    if p < i - 1 {
      PairsBeforeComplete(i - 1, n, p, q);
    } else {
      assert row[q - i] == (p, q);
    }
    assert PairsBefore(i, n) == front + row;
  }

  /**
   * `Pairs(n)` lists exactly the pairs `i < j < n`, each once, in strictly
   * increasing lexicographic order, and there are `n * (n - 1) / 2` of them.
   */
  lemma PairsSpec(n: nat)
    ensures forall p: nat, q: nat :: (p, q) in Pairs(n) <==> p < q < n
    ensures forall a, b :: 0 <= a < b < |Pairs(n)| ==> LexLess(Pairs(n)[a], Pairs(n)[b])
    ensures 2 * |Pairs(n)| == n * (n - 1)
  {
    forall p: nat, q: nat | p < q < n ensures (p, q) in Pairs(n) {
      PairsBeforeComplete(n, n, p, q);
    }
    PairsBeforeSorted(n, n);
    PairsBeforeCount(n, n);
  }

  /** The record for the taxa at positions `p.0` and `p.1` of the reference matrix. */
  function DistanceRecordAt(id: string, refDists: DistanceMatrix, cmpDists: DistanceMatrix, p: (nat, nat)): DistanceRecord
    requires p.0 < |refDists.taxa| && p.1 < |refDists.taxa|
  {
    var tip1, tip2 := refDists.taxa[p.0], refDists.taxa[p.1];
    DistanceRecord(id, refDists.get(tip1, tip2), cmpDists.get(tip1, tip2), None)
  }

  /**
   * `rows` holds one record per pair of positions in the reference taxa
   * list, in the order of `Pairs`; a distance a matrix lacks is absent.
   */
  predicate IsDistanceRows(id: string, refDists: DistanceMatrix, cmpDists: DistanceMatrix, rows: seq<DistanceRecord>)
  {
    var ps := Pairs(|refDists.taxa|);
    |rows| == |ps| && forall k :: 0 <= k < |rows| ==> rows[k] == DistanceRecordAt(id, refDists, cmpDists, ps[k])
  }

  /**
   * `DistanceRecord::from_trees`: compute both distance matrices (the
   * reference one first) and emit one record per pair of reference taxa.
   */
  method DistanceRecordsFromTrees<T>(engine: Engine<T>, reftree: T, cmptree: T, id: string)
    returns (r: Result<seq<DistanceRecord>>)
    ensures var rm, cm := engine.distanceMatrix(reftree), engine.distanceMatrix(cmptree);
      && (rm.Err? ==> r == Err(rm.error))
      && (rm.Ok? && cm.Err? ==> r == Err(cm.error))
      && (rm.Ok? && cm.Ok? ==> r.Ok? && IsDistanceRows(id, rm.value, cm.value, r.value))
  {
    var refDists :- engine.distanceMatrix(reftree);
    var cmpDists :- engine.distanceMatrix(cmptree);
    var n := |refDists.taxa|;
    var dists: seq<DistanceRecord> := [];
    var i := 0;
    while i < n
      invariant 0 <= i <= n
      invariant |dists| == |PairsBefore(i, n)|
      invariant forall k :: 0 <= k < |dists| ==>
        dists[k] == DistanceRecordAt(id, refDists, cmpDists, PairsBefore(i, n)[k])
    {
      var done := PairsBefore(i, n);
      var j := i + 1;
      while j < n
        invariant i + 1 <= j <= n
        invariant |dists| == |done| + (j - i - 1)
        invariant forall k :: 0 <= k < |dists| ==>
          dists[k] == DistanceRecordAt(id, refDists, cmpDists, (done + PairsFrom(i, n))[k])
      {
        dists := dists + [DistanceRecordAt(id, refDists, cmpDists, (i, j))];
        j := j + 1;
      }
      assert PairsBefore(i + 1, n) == done + PairsFrom(i, n);
      i := i + 1;
    }
    return Ok(dists);
  }

  /**
   * Every pair of reference taxa gets a record, whether or not the
   * matrices know its distance, and there are `get_cap(n)` records in all.
   */
  lemma DistanceRowsCoverPairs(id: string, refDists: DistanceMatrix, cmpDists: DistanceMatrix, rows: seq<DistanceRecord>)
    requires IsDistanceRows(id, refDists, cmpDists, rows)
    ensures var n := |refDists.taxa|;
      |rows| == if n == 0 then 0 else GetCap(n)
    ensures forall i: nat, j: nat :: i < j < |refDists.taxa| ==>
      DistanceRecordAt(id, refDists, cmpDists, (i, j)) in rows
    ensures forall k :: 0 <= k < |rows| ==> rows[k].id == id && rows[k].marker.None?
  {
    var n := |refDists.taxa|;
    if n == 0 {
      PairsBeforeCount(n, n);
    }
    forall i: nat, j: nat | i < j < n
      ensures DistanceRecordAt(id, refDists, cmpDists, (i, j)) in rows
    {
      DistanceRowForPair(id, refDists, cmpDists, rows, i, j);
    }
  }

  /** The record of one pair of reference taxa is among the rows. */
  lemma DistanceRowForPair(id: string, refDists: DistanceMatrix, cmpDists: DistanceMatrix, rows: seq<DistanceRecord>,
                           i: nat, j: nat)
    requires IsDistanceRows(id, refDists, cmpDists, rows)
    requires i < j < |refDists.taxa|
    ensures DistanceRecordAt(id, refDists, cmpDists, (i, j)) in rows
  {
    var n := |refDists.taxa|;
    PairsBeforeComplete(n, n, i, j);
    var ps := Pairs(n);
    assert (i, j) in ps;
    var k :| 0 <= k < |ps| && ps[k] == (i, j);
    assert rows[k] == DistanceRecordAt(id, refDists, cmpDists, ps[k]);
  }

  // ---------------------------------------------------------------------
  // Topology records and the whole comparison
  // ---------------------------------------------------------------------

  /** One row of the topology comparison. */
  datatype TopologyRecord = TopologyRecord(
    id: string,
    rf: Num,
    normRf: Num,
    weightedRf: Num,
    kfScore: Num,
    nTips: nat,
    marker: Option<string>)

  /**
   * `From<Comparison> for TopologyRecord`: the four metrics, with the
   * branch score as `kf_score`; every other field at its default.
   */
  function TopologyFromComparison(c: Comparison): TopologyRecord
  {
    TopologyRecord("", c.rf, c.normRf, c.weightedRf, c.branchScore, 0, None)
  }

  /**
   * The conversion loses and duplicates no metric: two comparisons give the
   * same record exactly when they are equal, and every field the
   * comparison does not supply is at its default.
   */
  lemma TopologyKeepsMetrics(c1: Comparison, c2: Comparison)
    ensures TopologyFromComparison(c1) == TopologyFromComparison(c2) <==> c1 == c2
    ensures var r := TopologyFromComparison(c1);
      r.id == "" && r.nTips == 0 && r.marker.None?
  {
  }

  /** Everything one comparison produced; `None` for a part that was not requested. */
  datatype ComparisonRecord = ComparisonRecord(
    topology: Option<TopologyRecord>,
    branches: Option<seq<BranchRecord>>,
    distances: Option<seq<DistanceRecord>>)

  /**
   * The error of the first requested stage that fails, stages taken in the
   * order topology, branch lengths, distances (reference matrix first).
   */
  function FirstFailure<T>(engine: Engine<T>, reftree: T, cmptree: T,
                           compareTopo: bool, compareLens: bool, compareDist: bool, includeTips: bool): Option<Error>
  {
    var t := engine.compareTopologies(reftree, cmptree);
    var b := engine.compareBranchLengths(reftree, cmptree, includeTips);
    var rm, cm := engine.distanceMatrix(reftree), engine.distanceMatrix(cmptree);
    if compareTopo && t.Err? then Some(t.error)
    else if compareLens && b.Err? then Some(b.error)
    else if compareDist && rm.Err? then Some(rm.error)
    else if compareDist && cm.Err? then Some(cm.error)
    else None
  }

  /**
   * `compare_trees`: run the requested stages in order and fill the
   * matching parts of the record. The first failing stage fails the whole
   * comparison; otherwise each part is present exactly when requested.
   */
  method CompareTrees<T>(engine: Engine<T>, id: string, reftree: T, cmptree: T,
                         compareTopo: bool, compareLens: bool, compareDist: bool, includeTips: bool)
    returns (r: Result<ComparisonRecord>)
    ensures var failure := FirstFailure(engine, reftree, cmptree, compareTopo, compareLens, compareDist, includeTips);
      failure.Some? ==> r == Err(failure.value)
    ensures FirstFailure(engine, reftree, cmptree, compareTopo, compareLens, compareDist, includeTips).None? ==>
      && r.Ok?
      && (r.value.topology.Some? <==> compareTopo)
      && (r.value.branches.Some? <==> compareLens)
      && (r.value.distances.Some? <==> compareDist)
      && (compareTopo ==>
            var c := engine.compareTopologies(reftree, cmptree).value;
            r.value.topology.value ==
              TopologyRecord(id, c.rf, c.normRf, c.weightedRf, c.branchScore, engine.nLeaves(reftree), None))
      && (compareLens ==>
            IsBranchRows(id, engine.compareBranchLengths(reftree, cmptree, includeTips).value, r.value.branches.value))
      && (compareDist ==>
            IsDistanceRows(id, engine.distanceMatrix(reftree).value, engine.distanceMatrix(cmptree).value,
                           r.value.distances.value))
  {
    var record := ComparisonRecord(None, None, None);

    if compareTopo {
      var cmp :- engine.compareTopologies(reftree, cmptree);
      var topo := TopologyFromComparison(cmp);
      topo := topo.(nTips := engine.nLeaves(reftree));
      topo := topo.(id := id);
      record := record.(topology := Some(topo));
    }

    if compareLens {
      var branches :- BranchRecordsFromTrees(engine, reftree, cmptree, includeTips, id);
      record := record.(branches := Some(branches));
    }

    if compareDist {
      var dists :- DistanceRecordsFromTrees(engine, reftree, cmptree, id);
      record := record.(distances := Some(dists));
    }

    return Ok(record);
  }
}
