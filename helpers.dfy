/**
 * The helper routines shared, line for line, by the MPI and the serial
 * program: factorial, permutation generation into the vertex table, inverse,
 * position lookup, swap of a symbol with its right neighbour, and the linear
 * reverse lookup of a vertex in the table.
 *
 * The program's globals become parameters: `n` and `num_vertices` are
 * passed as values and the vertex table `vertices` as an array whose
 * entries are the vertices' permutations.
 */
module Helpers {
  import opened Permutations
  import opened Enumeration

  /** factorial: the running product 1 * 2 * ... * x. */
  method ComputeFactorial(x: nat) returns (result: nat)
    ensures result == Factorial(x)
  {
    result := 1;
    var i := 1;
    while i <= x
      invariant 1 <= i <= x + 1
      invariant result == Factorial(i - 1)
    {
      result := result * i;
      i := i + 1;
    }
  }

  /** b agrees with a outside the index range [lo, hi). */
  ghost predicate SameOutside(a: seq<seq<int>>, b: seq<seq<int>>, lo: nat, hi: nat)
  {
    |a| == |b| && forall k :: 0 <= k < |a| && !(lo <= k < hi) ==> b[k] == a[k]
  }

  /**
   * Writing g to [mid, hi) of a table that holds f at [lo, mid) leaves f + g
   * at [lo, hi), and nothing outside [lo, hi) differs from the original.
   */
  lemma Splice(orig: seq<seq<int>>, v0: seq<seq<int>>, v1: seq<seq<int>>, lo: nat, mid: nat, hi: nat,
               f: seq<seq<int>>, g: seq<seq<int>>)
    requires lo <= mid <= hi <= |v0|
    requires SameOutside(orig, v0, lo, mid) && v0[lo..mid] == f
    requires SameOutside(v0, v1, mid, hi) && v1[mid..hi] == g
    ensures SameOutside(orig, v1, lo, hi) && v1[lo..hi] == f + g
  {
    assert v1[lo..mid] == v0[lo..mid];
    assert v1[lo..hi] == v1[lo..mid] + v1[mid..hi];
  }

  /**
   * generate_permutations: swap-and-restore backtracking over arr[start..end].
   * It writes the entries of Generated(arr, start) to vertices[index..],
   * returns the advanced index, and leaves arr as it found it.
   */
  method GeneratePermutations(arr: array<int>, start: nat, end: nat, vertices: array<seq<int>>, index: nat)
      returns (next: nat)
    requires start <= end && end + 1 == arr.Length
    requires index + Factorial(end - start + 1) <= vertices.Length
    modifies arr, vertices
    ensures arr[..] == old(arr[..])
    ensures next == index + Factorial(end - start + 1)
    ensures vertices[index..next] == Generated(old(arr[..]), start)
    ensures SameOutside(old(vertices[..]), vertices[..], index, next)
    decreases end - start, 1
  {
    ghost var a := arr[..];
    GeneratedLength(a, start);
    if start == end {
      vertices[index] := arr[..];
      next := index + 1;
      return;
    }
    next := index;
    var i := start;
    while i <= end
      invariant start <= i <= end + 1
      invariant arr[..] == a
      invariant index <= next <= vertices.Length
      invariant vertices[index..next] == Branches(a, start, i)
      invariant SameOutside(old(vertices[..]), vertices[..], index, next)
    {
      BranchesLength(a, start, i);
      RoomForBranch(index, i - start, end - start, vertices.Length);
      ghost var before, v0 := next, vertices[..];
      next := GenerateBranch(arr, start, end, i, vertices, next);
      Splice(old(vertices[..]), v0, vertices[..], index, before, next,
             Branches(a, start, i), Generated(Swap(a, start, i), start + 1));
      i := i + 1;
    }
    BranchesLength(a, start, end + 1);
  }

  /**
   * One iteration of generate_permutations' loop: exchange positions start
   * and i, recurse one level deeper, and exchange them back.
   */
  method GenerateBranch(arr: array<int>, start: nat, end: nat, i: nat, vertices: array<seq<int>>, index: nat)
      returns (next: nat)
    requires start <= i <= end && start < end && end + 1 == arr.Length
    requires index + Factorial(end - start) <= vertices.Length
    modifies arr, vertices
    ensures arr[..] == old(arr[..])
    ensures next == index + Factorial(end - start)
    ensures vertices[index..next] == Generated(Swap(old(arr[..]), start, i), start + 1)
    ensures SameOutside(old(vertices[..]), vertices[..], index, next)
    decreases end - start, 0
  {
    ghost var a := arr[..];
    var temp := arr[start];
    arr[start] := arr[i];
    arr[i] := temp;
    assert arr[..] == Swap(a, start, i);
    next := GeneratePermutations(arr, start + 1, end, vertices, index);
    temp := arr[start];
    arr[start] := arr[i];
    arr[i] := temp;
    assert arr[..] == a;
  }

  /** After k < m + 1 iterations of m! entries each, one more still fits below the bound. */
  lemma RoomForBranch(index: nat, k: nat, m: nat, bound: nat)
    requires k <= m && index + Factorial(m + 1) <= bound
    ensures index + k * Factorial(m) + Factorial(m) <= bound
  {
    var f := Factorial(m);
    assert Factorial(m + 1) == (m + 1) * f;
    assert k * f + f == (k + 1) * f;
    assert (k + 1) * f <= (m + 1) * f;
  }

  /** The main program's setup: the identity in arr, then the whole table from index 0. */
  method BuildVertexTable(n: nat) returns (vertices: array<seq<int>>, numVertices: nat)
    requires 1 <= n <= MaxN
    ensures fresh(vertices) && vertices.Length == MaxVertices
    ensures numVertices == Factorial(n) <= MaxVertices
    ensures vertices[..numVertices] == Vertices(n)
  {
    numVertices := ComputeFactorial(n);
    FactorialBound(n);
    var arr := new int[n];
    var i := 0;
    while i < n
      invariant 0 <= i <= n
      invariant forall k :: 0 <= k < i ==> arr[k] == k + 1
    {
      arr[i] := i + 1;
      i := i + 1;
    }
    assert arr[..] == Identity(n);
    vertices := new seq<int>[MaxVertices](_ => []);
    var index := GeneratePermutations(arr, 0, n - 1, vertices, 0);
    assert vertices[..numVertices] == vertices[0..index];
  }

  /** n! of the largest dimension compiled for fills the table exactly. */
  lemma FactorialBound(n: nat)
    requires n <= MaxN
    ensures Factorial(n) <= MaxVertices
  {
    assert Factorial(0) == 1;
    assert Factorial(4) == 4 * Factorial(3) == 24;
  }

  /** The array inv after the first i steps of compute_inverse's loop, starting from base. */
  function Scattered(base: seq<int>, perm: seq<int>, i: nat): (r: seq<int>)
    requires i <= |perm| && forall j :: 0 <= j < i ==> 1 <= perm[j] <= |base|
    ensures |r| == |base|
  {
    if i == 0 then base else Scattered(base, perm, i - 1)[perm[i - 1] - 1 := i]
  }

  /**
   * Scattering the positions of a permutation of 1..n leaves its inverse in
   * the first n slots, whatever the slots held before.
   */
  lemma {:induction false} ScatteredInverse(base: seq<int>, p: seq<int>, n: nat)
    requires IsPerm(p, n) && n <= |base|
    ensures Scattered(base, p, n)[..n] == Inverse(p)
  {
    ScatteredPositions(base, p, n, n);
    PermContainsAll(p, n);
    var s := Scattered(base, p, n);
    forall k | 0 <= k < n ensures s[k] == Inverse(p)[k] {
      assert k + 1 in p;
      var j :| 0 <= j < n && p[j] == k + 1;
      assert s[p[j] - 1] == j + 1;
    }
  }

  lemma {:induction false} ScatteredPositions(base: seq<int>, p: seq<int>, n: nat, i: nat)
    requires IsPerm(p, n) && n <= |base| && i <= n
    ensures forall j :: 0 <= j < i ==> Scattered(base, p, i)[p[j] - 1] == j + 1
  {
    if i > 0 {
      ScatteredPositions(base, p, n, i - 1);
      assert forall j :: 0 <= j < i - 1 ==> p[j] != p[i - 1];
    }
  }

  /**
   * compute_inverse: for i in order, inv[perm[i] - 1] := i + 1. On a
   * permutation the first n slots then hold its inverse.
   */
  method ComputeInverse(perm: seq<int>, inv: array<int>, n: nat)
    requires n <= |perm| && n <= inv.Length
    requires forall i :: 0 <= i < n ==> 1 <= perm[i] <= n
    modifies inv
    ensures inv[..] == Scattered(old(inv[..]), perm, n)
    ensures IsPerm(perm[..n], n) ==> inv[..n] == Inverse(perm[..n])
  {
    for i := 0 to n
      invariant inv[..] == Scattered(old(inv[..]), perm, i)
    {
      inv[perm[i] - 1] := i + 1;
    }
    if IsPerm(perm[..n], n) {
      ScatteredInverse(old(inv[..]), perm[..n], n);
      assert Scattered(old(inv[..]), perm, n) == Scattered(old(inv[..]), perm[..n], n) by {
        ScatteredPrefix(old(inv[..]), perm, n, n);
      }
    }
  }

  /** Only the first i symbols of perm matter for the first i steps. */
  lemma {:induction false} ScatteredPrefix(base: seq<int>, perm: seq<int>, n: nat, i: nat)
    requires i <= n <= |perm| && forall j :: 0 <= j < n ==> 1 <= perm[j] <= |base|
    ensures Scattered(base, perm, i) == Scattered(base, perm[..n], i)
  {
    if i > 0 {
      ScatteredPrefix(base, perm, n, i - 1);
    }
  }

  /** find_position: the 1-based position of the first x among inv[0..n), or -1. */
  method FindPosition(inv: array<int>, x: int, n: nat) returns (r: int)
    requires n <= inv.Length
    ensures r == PositionOf(inv[..n], x)
  {
    for i := 0 to n
      invariant x !in inv[..i]
    {
      if inv[i] == x {
        assert inv[..i] == inv[..n][..i];
        FirstIndexAt(inv[..n], x, i);
        return i + 1;
      }
      assert inv[..i + 1] == inv[..i] + [inv[i]];
    }
    return -1;
  }

  /**
   * swap_vertex: copy v, then exchange the first x found among positions
   * 0..|v|-2 with its right neighbour.
   */
  method SwapVertex(v: seq<int>, x: int) returns (result: seq<int>)
    ensures result == SwappedByValue(v, x)
  {
    result := v;
    var i := 0;
    while i < |v| - 1
      invariant 0 <= i <= if |v| == 0 then 0 else |v| - 1
      invariant x !in v[..i]
      invariant result == v
    {
      if v[i] == x {
        var temp := result[i];
        result := result[i := result[i + 1]];
        result := result[i + 1 := temp];
        assert Front(v)[..i] == v[..i];
        FirstIndexAt(Front(v), x, i);
        return;
      }
      assert v[..i + 1] == v[..i] + [v[i]];
      i := i + 1;
    }
    assert |v| > 0 ==> Front(v) == v[..i];
  }

  /**
   * find_vertex_index: the first index below numVertices whose first n
   * symbols agree with those of v, or -1 when there is none.
   */
  method FindVertexIndex(vertices: array<seq<int>>, numVertices: nat, n: nat, v: seq<int>) returns (r: int)
    requires numVertices <= vertices.Length
    requires n <= |v| && forall k :: 0 <= k < numVertices ==> n <= |vertices[k]|
    ensures -1 <= r < numVertices
    ensures r == -1 <==> forall k :: 0 <= k < numVertices ==> vertices[k][..n] != v[..n]
    ensures r >= 0 ==> vertices[r][..n] == v[..n] && forall k :: 0 <= k < r ==> vertices[k][..n] != v[..n]
    ensures |v| == n && (forall k :: 0 <= k < numVertices ==> |vertices[k]| == n) ==>
              r == IndexOf(vertices[..numVertices], v)
  {
    var i := 0;
    while i < numVertices
      invariant 0 <= i <= numVertices
      invariant forall k :: 0 <= k < i ==> vertices[k][..n] != v[..n]
    {
      var matched := true;
      var j := 0;
      while j < n
        invariant 0 <= j <= n
        invariant matched ==> vertices[i][..j] == v[..j]
        invariant !matched ==> vertices[i][..n] != v[..n]
      {
        if vertices[i][j] != v[j] {
          assert vertices[i][..n][j] != v[..n][j];
          matched := false;
          break;
        }
        assert vertices[i][..j + 1] == vertices[i][..j] + [vertices[i][j]];
        assert v[..j + 1] == v[..j] + [v[j]];
        j := j + 1;
      }
      if matched {
        r := i;
        Matches(vertices, numVertices, n, v, r);
        return;
      }
      i := i + 1;
    }
    r := -1;
    Matches(vertices, numVertices, n, v, r);
  }

  /** With full-length entries, agreeing on the first n symbols is equality. */
  lemma Matches(vertices: array<seq<int>>, numVertices: nat, n: nat, v: seq<int>, r: int)
    requires numVertices <= vertices.Length && n <= |v| && -1 <= r < numVertices
    requires forall k :: 0 <= k < numVertices ==> n <= |vertices[k]|
    requires r >= 0 ==> vertices[r][..n] == v[..n]
    requires forall k :: 0 <= k < (if r == -1 then numVertices else r) ==> vertices[k][..n] != v[..n]
    ensures |v| == n && (forall k :: 0 <= k < numVertices ==> |vertices[k]| == n) ==>
              r == IndexOf(vertices[..numVertices], v)
  {
    if |v| == n && (forall k :: 0 <= k < numVertices ==> |vertices[k]| == n) {
      var table := vertices[..numVertices];
      assert forall k :: 0 <= k < numVertices ==> table[k] == vertices[k][..n] && v == v[..n];
      if r >= 0 {
        assert table[..r] == vertices[..r];
        FirstIndexAt(table, v, r);
      }
    }
  }
}
