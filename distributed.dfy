/**
 * The MPI program's work split: rank `rank` of `size` processes fills the
 * rows of the IST table in its own slice of the vertex table. The MPI calls
 * themselves are not modelled; rank and size are parameters.
 */
module Distributed {
  import opened Permutations
  import opened Enumeration
  import opened Helpers
  import opened ParentRule

  /** The half-open row range [start, end) of the given rank. */
  datatype Slice = Slice(start: nat, end: nat)

  /**
   * vertices_per_process = numVertices / size, start = rank * that, and the
   * last rank's slice runs to numVertices, taking the remainder.
   */
  function SliceOf(numVertices: nat, size: nat, rank: nat): Slice
    requires 0 < size && rank < size
  {
    var perProcess := numVertices / size;
    var start := rank * perProcess;
    Slice(start, if rank == size - 1 then numVertices else start + perProcess)
  }

  predicate InSlice(s: Slice, v: nat)
  {
    s.start <= v < s.end
  }

  lemma MulMonotone(a: nat, b: nat, c: nat)
    requires a <= b
    ensures a * c <= b * c
  {
  }

  /** The ranks' slices of at most size * (numVertices / size) rows fit below numVertices. */
  lemma PerProcessBound(numVertices: nat, size: nat, k: nat)
    requires 0 < size && k <= size
    ensures k * (numVertices / size) <= numVertices
  {
    var q := numVertices / size;
    MulMonotone(k, size, q);
    assert size * q + numVertices % size == numVertices;
  }

  /**
   * The slices tile [0, numVertices) in rank order: rank 0 starts at 0, each
   * slice ends where the next begins, the last ends at numVertices.
   */
  lemma SliceTiling(numVertices: nat, size: nat, rank: nat)
    requires 0 < size && rank < size
    ensures SliceOf(numVertices, size, 0).start == 0
    ensures SliceOf(numVertices, size, size - 1).end == numVertices
    ensures SliceOf(numVertices, size, rank).start <= SliceOf(numVertices, size, rank).end <= numVertices
    ensures rank + 1 < size ==>
              SliceOf(numVertices, size, rank).end == SliceOf(numVertices, size, rank + 1).start
  {
    var q := numVertices / size;
    PerProcessBound(numVertices, size, rank);
    PerProcessBound(numVertices, size, rank + 1);
    assert (rank + 1) * q == rank * q + q;
  }

  /**
   * The last rank absorbs the remainder: its slice has numVertices / size +
   * numVertices % size rows, every other slice numVertices / size.
   */
  lemma SliceSizes(numVertices: nat, size: nat, rank: nat)
    requires 0 < size && rank < size
    ensures SliceOf(numVertices, size, rank).end - SliceOf(numVertices, size, rank).start ==
              numVertices / size + (if rank == size - 1 then numVertices % size else 0)
  {
    var q := numVertices / size;
    assert (size - 1) * q + q == size * q;
    assert size * q + numVertices % size == numVertices;
  }

  /** Slices of lower ranks lie wholly below those of higher ranks. */
  lemma SlicesOrdered(numVertices: nat, size: nat, r1: nat, r2: nat)
    requires 0 < size && r1 < r2 < size
    ensures SliceOf(numVertices, size, r1).end <= SliceOf(numVertices, size, r2).start
  {
    var q := numVertices / size;
    MulMonotone(r1 + 1, r2, q);
    assert (r1 + 1) * q == r1 * q + q;
  }

  /** The rank whose slice holds row v. */
  function OwnerOf(numVertices: nat, size: nat, v: nat): (r: nat)
    requires 0 < size && v < numVertices
    ensures r < size && InSlice(SliceOf(numVertices, size, r), v)
  {
    var q := numVertices / size;
    if q == 0 then
      PerProcessBound(numVertices, size, size - 1);
      size - 1
    else
      var r := if v / q < size - 1 then v / q else size - 1;
      assert r * q <= v by {
        MulMonotone(r, v / q, q);
        assert (v / q) * q + v % q == v;
      }
      assert r < size - 1 ==> v < r * q + q by {
        assert (v / q) * q + v % q == v;
      }
      r
  }

  /**
   * Every row lies in exactly one rank's slice: the slices are pairwise
   * disjoint and cover [0, numVertices).
   */
  lemma SliceMembership(numVertices: nat, size: nat, v: nat, rank: nat)
    requires 0 < size && v < numVertices && rank < size
    ensures InSlice(SliceOf(numVertices, size, rank), v) <==> rank == OwnerOf(numVertices, size, v)
  {
    var owner := OwnerOf(numVertices, size, v);
    if rank < owner {
      SlicesOrdered(numVertices, size, rank, owner);
    } else if owner < rank {
      SlicesOrdered(numVertices, size, owner, rank);
    }
  }

  /** The entry rank's table holds after its loop: the rule in its slice, -1 elsewhere. */
  function RankEntry(table: seq<seq<int>>, n: nat, size: nat, rank: nat, i: nat, t: nat): int
    requires 0 < size && rank < size && i < |table| && t + 1 < n && IsPerm(table[i], n)
  {
    if InSlice(SliceOf(|table|, size, rank), i) then ParentOf(table, n, i, t) else -1
  }

  /**
   * The per-rank tables agree with the serial one: each entry is written, with
   * the rule's value, by the one rank owning its row, and every other rank
   * leaves it -1.
   */
  lemma RanksAgreeWithSerial(table: seq<seq<int>>, n: nat, size: nat, i: nat, t: nat)
    requires 0 < size && i < |table| && t + 1 < n && IsPerm(table[i], n)
    ensures RankEntry(table, n, size, OwnerOf(|table|, size, i), i, t) == ParentOf(table, n, i, t)
    ensures forall rank :: 0 <= rank < size && rank != OwnerOf(|table|, size, i) ==>
              RankEntry(table, n, size, rank, i, t) == -1
  {
    forall rank | 0 <= rank < size && rank != OwnerOf(|table|, size, i)
      ensures RankEntry(table, n, size, rank, i, t) == -1
    {
      SliceMembership(|table|, size, i, rank);
    }
  }

  /**
   * One rank's part of the tree loop: the table is cleared to -1 for every
   * row, then only the rows of the rank's slice are filled.
   */
  method AssignRankParents(vertices: array<seq<int>>, numVertices: nat, n: nat, rank: nat, size: nat)
      returns (parent: array2<int>)
    requires numVertices <= vertices.Length && n >= 1 && 0 < size && rank < size
    requires forall k :: 0 <= k < numVertices ==> IsPerm(vertices[k], n)
    ensures fresh(parent) && parent.Length0 == numVertices && parent.Length1 == n - 1
    ensures forall i, t :: 0 <= i < numVertices && 0 <= t < n - 1 ==>
              parent[i, t] == RankEntry(vertices[..numVertices], n, size, rank, i, t)
  {
    parent := NewParentTable(numVertices, n);
    var startVertex, endVertex := RankSlice(numVertices, size, rank);
    AssignRows(parent, vertices, numVertices, n, startVertex, endVertex, vertices[..numVertices]);
  }

  /** The slice bounds as the program computes them, step by step; SliceOf is the same expression as a value. */
  method RankSlice(numVertices: nat, size: nat, rank: nat) returns (startVertex: nat, endVertex: nat)
    requires 0 < size && rank < size
    ensures Slice(startVertex, endVertex) == SliceOf(numVertices, size, rank)
    ensures startVertex <= endVertex <= numVertices
  {
    var perProcess := numVertices / size;
    startVertex := rank * perProcess;
    endVertex := if rank == size - 1 then numVertices else startVertex + perProcess;
    SliceTiling(numVertices, size, rank);
  }

  /**
   * The MPI main program on one rank for B_n: every rank holds the table
   * rank 0 generated, and fills only the rows of its own slice.
   */
  method Run(n: nat, rank: nat, size: nat) returns (vertices: array<seq<int>>, numVertices: nat, parent: array2<int>)
    requires 1 <= n <= MaxN && 0 < size && rank < size
    ensures numVertices == Factorial(n) && numVertices <= vertices.Length
    ensures vertices[..numVertices] == Vertices(n)
    ensures forall k :: 0 <= k < numVertices ==> |vertices[k]| == n && IsPerm(vertices[k], n)
    ensures parent.Length0 == numVertices && parent.Length1 == n - 1
    ensures forall i, t :: 0 <= i < numVertices && 0 <= t < n - 1 ==>
              parent[i, t] == RankEntry(vertices[..numVertices], n, size, rank, i, t)
  {
    vertices, numVertices := BuildVertexTable(n);
    VertexTable(n);
    assert forall k :: 0 <= k < numVertices ==> vertices[k] == Vertices(n)[k];
    parent := AssignRankParents(vertices, numVertices, n, rank, size);
  }
}
