/**
 * The interface of the tree library the program calls into. Trees are
 * opaque; every operation on them is a total function supplied by the
 * caller, so the model holds for whatever the library computes.
 */
module Phylo {

  import opened Base

  /** The topological comparison of two trees (the fields the program reads). */
  datatype Comparison = Comparison(rf: Num, normRf: Num, weightedRf: Num, branchScore: Num)

  /** A branch as the library reports it: its depth and its length. */
  datatype Branch = Branch(depth: nat, len: Num)

  /**
   * The result of comparing branch lengths: branches only in the reference
   * tree, branches only in the compared tree, and matched pairs
   * (reference side first).
   */
  datatype Buckets = Buckets(reference: seq<Branch>, compared: seq<Branch>, common: seq<(Branch, Branch)>)

  /**
   * A leaf-distance matrix: its list of taxa and its lookup, which may find
   * no distance for a pair.
   */
  datatype DistanceMatrix = DistanceMatrix(taxa: seq<string>, get: (string, string) -> Option<Num>)

  /** The library operations on trees of type `T`. */
  datatype Engine<!T> = Engine(
    nLeaves: T -> nat,
    compareTopologies: (T, T) -> Result<Comparison>,
    compareBranchLengths: (T, T, bool) -> Result<Buckets>,
    distanceMatrix: T -> Result<DistanceMatrix>)
}
