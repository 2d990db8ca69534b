/**
 * The CSV rendering of comparison results: the header lines of the three
 * kinds of output file and the records of the tree and branch-length
 * comparisons. Fields are joined by commas with no quoting.
 */
module Csv {

  import opened Base
  import Text
  import opened Phylo

  /** The kinds of output file. */
  datatype CsvType = Trees | Distances | Branches

  /** The columns of a tree-comparison file. */
  const TreesHeader: seq<string> := ["id", "size", "rf", "norm_rf", "rf_weight", "kf_score"]

  /** The columns shared by the pairwise-distance and branch-length files. */
  const DistsHeader: seq<string> := ["id", "ref", "comp"]

  /** The columns of a file of the given kind. */
  function Columns(t: CsvType): seq<string>
  {
    if t.Trees? then TreesHeader else DistsHeader
  }

  /** `get_header_string`: the header line of a file, its columns joined by commas. */
  function HeaderString(t: CsvType): string
  {
    match t
    case Trees => Text.Join(TreesHeader, ',')
    case Distances | Branches => Text.Join(DistsHeader, ',')
  }

  /** A header line reads back as the columns of its kind of file. */
  lemma HeaderFields(t: CsvType)
    ensures Text.Split(HeaderString(t), ',') == Columns(t)
  {
    var cols := Columns(t);
    assert forall k :: 0 <= k < |cols| ==> ',' !in cols[k];
    Text.SplitJoin(cols, ',');
  }

  /** Joining six fields puts the separator between consecutive fields. */
  lemma JoinSix(a: string, b: string, c: string, d: string, e: string, f: string, sep: char)
    ensures Text.Join([a, b, c, d, e, f], sep) == a + [sep] + b + [sep] + c + [sep] + d + [sep] + e + [sep] + f
  {
    Text.JoinCons(e, [f], sep);
    assert [e] + [f] == [e, f];
    Text.JoinCons(d, [e, f], sep);
    assert [d] + [e, f] == [d, e, f];
    Text.JoinCons(c, [d, e, f], sep);
    assert [c] + [d, e, f] == [c, d, e, f];
    Text.JoinCons(b, [c, d, e, f], sep);
    assert [b] + [c, d, e, f] == [b, c, d, e, f];
    Text.JoinCons(a, [b, c, d, e, f], sep);
    assert [a] + [b, c, d, e, f] == [a, b, c, d, e, f];
  }

  /** Joining three fields puts the separator between consecutive fields. */
  lemma JoinThree(a: string, b: string, c: string, sep: char)
    ensures Text.Join([a, b, c], sep) == a + [sep] + b + [sep] + c
  {
    Text.JoinCons(b, [c], sep);
    assert [b] + [c] == [b, c];
    Text.JoinCons(a, [b, c], sep);
    assert [a] + [b, c] == [a, b, c];
  }

  /** The header line of a tree-comparison file, written out. */
  lemma TreesHeaderLiteral()
    ensures HeaderString(Trees) == "id,size,rf,norm_rf,rf_weight,kf_score"
  {
    JoinSix("id", "size", "rf", "norm_rf", "rf_weight", "kf_score", ',');
    // Naming the partial results keeps the solver from expanding the literal join step by step.
    assert "id" + [','] + "size" == "id,size";
    assert "id,size" + [','] + "rf" == "id,size,rf";
    assert "id,size,rf" + [','] + "norm_rf" == "id,size,rf,norm_rf";
    assert "id,size,rf,norm_rf" + [','] + "rf_weight" == "id,size,rf,norm_rf,rf_weight";
  }

  /** The distance and branch-length files share one header line, written out. */
  lemma DistsHeaderLiteral()
    ensures HeaderString(Distances) == "id,ref,comp"
    ensures HeaderString(Branches) == "id,ref,comp"
  {
    JoinThree("id", "ref", "comp", ',');
  }

  /** A tree-comparison record: identifier, tree size, then the four scores. */
  function FormatTreeRecord(id: string, size: nat, cmp: Comparison): string
  {
    id + "," + Text.NatToString(size) + "," + cmp.rf + "," + cmp.normRf + ","
      + cmp.weightedRf + "," + cmp.branchScore
  }

  /**
   * A tree record reads back as its six fields, one per column of the
   * header, exactly when the identifier holds no comma; otherwise it has
   * more fields than the header.
   */
  lemma TreeRecordFields(id: string, size: nat, cmp: Comparison)
    ensures ',' !in id ==>
      Text.Split(FormatTreeRecord(id, size, cmp), ',')
        == [id, Text.NatToString(size), cmp.rf, cmp.normRf, cmp.weightedRf, cmp.branchScore]
    ensures |Text.Split(FormatTreeRecord(id, size, cmp), ',')| == |Columns(Trees)| <==> ',' !in id
  {
    var n := Text.NatToString(size);
    var tail := n + "," + cmp.rf + "," + cmp.normRf + "," + cmp.weightedRf + "," + cmp.branchScore;
    var row := FormatTreeRecord(id, size, cmp);
    assert row == id + [','] + tail;
    assert ',' !in n by {
      assert Text.AllDigits(n);
    }
    ConcatSplits(n, cmp.rf, cmp.normRf, cmp.weightedRf, cmp.branchScore);
    if ',' !in id {
      Text.SplitAtFirstSeparator(id, tail, ',');
    } else {
      ExtraPieces(id, tail);
    }
  }

  /** A comma inside the leading field adds at least one piece to the row. */
  lemma ExtraPieces(id: string, tail: string)
    requires ',' in id
    ensures |Text.Split(id + [','] + tail, ',')| >= |Text.Split(tail, ',')| + 2
  {
    Text.PieceCount(id + [','] + tail, ',');
    Text.PieceCount(tail, ',');
    assert multiset(id + [','] + tail) == multiset(id) + multiset([',']) + multiset(tail);
  }

  /** Five comma-free fields joined by commas read back as those fields. */
  lemma ConcatSplits(a: string, b: string, c: string, d: string, e: string)
    requires ',' !in a && ',' !in b && ',' !in c && ',' !in d && ',' !in e
    ensures Text.Split(a + "," + b + "," + c + "," + d + "," + e, ',') == [a, b, c, d, e]
  {
    var de := d + [','] + e;
    var cde := c + [','] + de;
    var bcde := b + [','] + cde;
    assert a + "," + b + "," + c + "," + d + "," + e == a + [','] + bcde;
    Text.SplitWithoutSeparator(e, ',');
    Text.SplitAtFirstSeparator(d, e, ',');
    Text.SplitAtFirstSeparator(c, de, ',');
    Text.SplitAtFirstSeparator(b, cde, ',');
    Text.SplitAtFirstSeparator(a, bcde, ',');
  }

  /** A length as a field: its text, or the empty field when there is none. */
  function Render(v: Option<Num>): (r: string)
    ensures ',' !in r
    ensures r == [] <==> v.None?
  {
    match v
    case None => ""
    case Some(x) => x
  }

  /** A branch-length record: identifier, reference length, compared length. */
  function FormatBranchRecord(id: string, refLen: Option<Num>, cmpLen: Option<Num>): string
  {
    id + "," + Render(refLen) + "," + Render(cmpLen)
  }

  /**
   * A branch record with a comma-free identifier reads back as its three
   * fields, one per column, a field being empty exactly when its length is
   * missing; the lengths are recovered from the record.
   */
  lemma BranchRecordFields(id: string, refLen: Option<Num>, cmpLen: Option<Num>)
    ensures ',' !in id ==>
      var fields := Text.Split(FormatBranchRecord(id, refLen, cmpLen), ',');
      && fields == [id, Render(refLen), Render(cmpLen)]
      && |fields| == |Columns(Branches)|
    ensures |Text.Split(FormatBranchRecord(id, refLen, cmpLen), ',')| == |Columns(Branches)| <==> ',' !in id
  {
    var a, b := Render(refLen), Render(cmpLen);
    var tail := a + "," + b;
    assert FormatBranchRecord(id, refLen, cmpLen) == id + [','] + tail;
    Text.SplitWithoutSeparator(b, ',');
    Text.SplitAtFirstSeparator(a, b, ',');
    assert tail == a + [','] + b;
    if ',' !in id {
      Text.SplitAtFirstSeparator(id, tail, ',');
    } else {
      ExtraPieces(id, tail);
    }
  }

  /** Distinct lengths give distinct branch records: the record loses nothing. */
  lemma BranchRecordInjective(id: string, r1: Option<Num>, c1: Option<Num>, r2: Option<Num>, c2: Option<Num>)
    requires ',' !in id
    requires FormatBranchRecord(id, r1, c1) == FormatBranchRecord(id, r2, c2)
    ensures r1 == r2 && c1 == c2
  {
    BranchRecordFields(id, r1, c1);
    BranchRecordFields(id, r2, c2);
    assert Render(r1) == Render(r2) && Render(c1) == Render(c2);
  }
}
