/**
 * The per-vertex parent rule shared by the serial and the MPI programs: for
 * tree t (0 <= t <= n - 2), the parent of a vertex depends on its last symbol.
 */
module ParentRule {
  import opened Permutations
  import opened Enumeration
  import opened Helpers

  datatype Option<T> = None | Some(value: T)

  /**
   * The parent index the loop body writes for vertex i of table in tree t,
   * branch for branch: Case 1 (last symbol n) looks at the position of t + 1
   * in the inverse and, unless it is n, swaps symbol t + 1; its other branch
   * is the root self-loop; Case 2 (last symbol t + 1) swaps symbol n; any
   * other vertex gets -1.
   */
  function ParentOf(table: seq<seq<int>>, n: nat, i: nat, t: nat): int
    requires i < |table| && t + 1 < n && IsPerm(table[i], n)
  {
    var v := table[i];
    if v[n - 1] == n then
      var posT := PositionOf(Inverse(v), t + 1);
      if posT != n then IndexOf(table, SwappedByValue(v, t + 1))
      else if i == 0 then i
      else -1
    else if v[n - 1] == t + 1 then IndexOf(table, SwappedByValue(v, n))
    else -1
  }

  /**
   * The rule on the vertex alone: the permutation its parent must be, or
   * None when Case 3 leaves it without one.
   */
  function ParentVertex(v: seq<int>, n: nat, t: nat): Option<seq<int>>
    requires |v| == n && t + 1 < n
  {
    if v[n - 1] == n then Some(SwappedByValue(v, t + 1))
    else if v[n - 1] == t + 1 then Some(SwappedByValue(v, n))
    else None
  }

  /**
   * The position the program finds for t + 1 in the inverse is v[t], which is
   * never n when n is the last symbol: the self-loop branch is dead.
   */
  lemma RootBranchUnreachable(v: seq<int>, n: nat, t: nat)
    requires IsPerm(v, n) && t + 1 < n
    ensures PositionOf(Inverse(v), t + 1) == v[t]
    ensures v[n - 1] == n ==> PositionOf(Inverse(v), t + 1) != n
  {
    PositionInInverse(v, n, t + 1);
    assert v[t] != v[n - 1];
  }

  /**
   * The entry written for vertex i is the index of the vertex the rule names,
   * whatever i is: the dead branch never fires.
   */
  lemma ParentCases(table: seq<seq<int>>, n: nat, i: nat, t: nat)
    requires i < |table| && t + 1 < n && IsPerm(table[i], n)
    ensures ParentOf(table, n, i, t) ==
              match ParentVertex(table[i], n, t)
              case None => -1
              case Some(u) => IndexOf(table, u)
  {
    RootBranchUnreachable(table[i], n, t);
  }

  /** Two positions holding the same vertex get the same entry. */
  lemma ParentIgnoresIndex(table: seq<seq<int>>, n: nat, i: nat, j: nat, t: nat)
    requires i < |table| && j < |table| && t + 1 < n && IsPerm(table[i], n)
    requires table[i] == table[j]
    ensures ParentOf(table, n, i, t) == ParentOf(table, n, j, t)
  {
    ParentCases(table, n, i, t);
    ParentCases(table, n, j, t);
  }

  /**
   * When the rule names a parent, that parent is a neighbour of v in the
   * bubble-sort network: a permutation one adjacent transposition away.
   */
  lemma ParentVertexIsNeighbour(v: seq<int>, n: nat, t: nat)
    requires IsPerm(v, n) && t + 1 < n
    ensures ParentVertex(v, n, t).None? <==> v[n - 1] != n && v[n - 1] != t + 1
    ensures ParentVertex(v, n, t).Some? ==>
              IsPerm(ParentVertex(v, n, t).value, n) && Adjacent(ParentVertex(v, n, t).value, v)
  {
    if v[n - 1] == n {
      SwapNeighbour(v, n, t + 1, ParentVertex(v, n, t).value);
    } else if v[n - 1] == t + 1 {
      SwapNeighbour(v, n, n, ParentVertex(v, n, t).value);
    }
  }

  /** Swapping any symbol other than the last one gives a neighbouring permutation. */
  lemma SwapNeighbour(v: seq<int>, n: nat, x: int, u: seq<int>)
    requires IsPerm(v, n) && 1 <= x <= n && v[n - 1] != x && u == SwappedByValue(v, x)
    ensures IsPerm(u, n) && Adjacent(u, v)
  {
    InFront(v, n, x);
    SwappedByValueIsNeighbour(v, n, x);
  }

  /** A symbol of 1..n that is not last in a permutation lies among its first n - 1 positions. */
  lemma InFront(v: seq<int>, n: nat, x: int)
    requires IsPerm(v, n) && 1 <= x <= n && v[n - 1] != x
    ensures x in Front(v)
  {
    PermContainsAll(v, n);
    assert x in v;
    var k :| 0 <= k < n && v[k] == x;
    assert Front(v)[k] == x;
  }

  /** Every permutation of 1..n sits at its own index of the vertex table. */
  lemma VertexLookup(n: nat, p: seq<int>)
    requires n >= 1 && IsPerm(p, n)
    ensures 0 <= IndexOf(Vertices(n), p) < Factorial(n)
    ensures Vertices(n)[IndexOf(Vertices(n), p)] == p
  {
    VertexTable(n);
  }

  /**
   * Over the table the program builds: an entry is -1 exactly when the last
   * symbol is neither n nor t + 1, and otherwise the index of a neighbour,
   * never the vertex itself.
   */
  lemma ParentInTable(n: nat, i: nat, t: nat)
    requires n >= 1 && i < Factorial(n) && t + 1 < n
    ensures VertexTableFacts(n, i)
    ensures ParentOf(Vertices(n), n, i, t) == -1 <==>
              Vertices(n)[i][n - 1] != n && Vertices(n)[i][n - 1] != t + 1
    ensures ParentOf(Vertices(n), n, i, t) != -1 ==>
              var r := ParentOf(Vertices(n), n, i, t);
              0 <= r < Factorial(n) && r != i &&
              Vertices(n)[r] == ParentVertex(Vertices(n)[i], n, t).value &&
              Adjacent(Vertices(n)[r], Vertices(n)[i])
  {
    VertexTable(n);
    var v := Vertices(n)[i];
    ParentCases(Vertices(n), n, i, t);
    ParentVertexIsNeighbour(v, n, t);
    if v[n - 1] == n || v[n - 1] == t + 1 {
      VertexLookup(n, ParentVertex(v, n, t).value);
    }
  }

  /** Entry i of the vertex table exists and is a permutation of 1..n. */
  predicate VertexTableFacts(n: nat, i: nat)
    requires n >= 1
  {
    i < |Vertices(n)| && IsPerm(Vertices(n)[i], n)
  }

  /**
   * In tree t the root (the identity, at index 0) gets as parent the identity
   * with positions t and t + 1 exchanged, not a self-loop.
   */
  lemma IdentityParent(n: nat, t: nat)
    requires t + 1 < n
    ensures VertexTableFacts(n, 0)
    ensures ParentOf(Vertices(n), n, 0, t) == IndexOf(Vertices(n), Transposed(Identity(n), t))
    ensures ParentOf(Vertices(n), n, 0, t) > 0
  {
    VertexTable(n);
    var id := Identity(n);
    ParentCases(Vertices(n), n, 0, t);
    assert id[t] == t + 1 && t + 1 !in id[..t];
    assert Front(id)[..t] == id[..t];
    FirstIndexAt(Front(id), t + 1, t);
    assert SwappedByValue(id, t + 1) == Transposed(id, t);
    ParentInTable(n, 0, t);
  }

  /** The level-1 calls of B_3's enumeration: the last two symbols in both orders. */
  lemma GeneratedLastTwo(x: int, y: int, z: int)
    ensures Generated([x, y, z], 1) == [[x, y, z], [x, z, y]]
  {
    var a := [x, y, z];
    assert Swap(a, 1, 1) == a && Swap(a, 1, 2) == [x, z, y];
    assert Generated(a, 2) == [a];
    assert Generated([x, z, y], 2) == [[x, z, y]];
    assert Branches(a, 1, 1) == [];
    assert Branches(a, 1, 2) == [a];
    assert Branches(a, 1, 3) == [a, [x, z, y]];
  }

  /** B_3's vertex table as the program builds it. */
  const B3: seq<seq<int>> := [[1, 2, 3], [1, 3, 2], [2, 1, 3], [2, 3, 1], [3, 2, 1], [3, 1, 2]]

  lemma VerticesB3()
    ensures Vertices(3) == B3
  {
    var id := Identity(3);
    assert id == [1, 2, 3];
    assert Swap(id, 0, 0) == [1, 2, 3] && Swap(id, 0, 1) == [2, 1, 3] && Swap(id, 0, 2) == [3, 2, 1];
    GeneratedLastTwo(1, 2, 3);
    GeneratedLastTwo(2, 1, 3);
    GeneratedLastTwo(3, 2, 1);
    assert Branches(id, 0, 1) == [[1, 2, 3], [1, 3, 2]];
    assert Branches(id, 0, 2) == [[1, 2, 3], [1, 3, 2], [2, 1, 3], [2, 3, 1]];
  }

  /** Swapping the symbol at position 1 of a vertex of B_3 with its right neighbour. */
  lemma B3Swap(x: int, y: int, z: int)
    requires x != y
    ensures SwappedByValue([x, y, z], y) == [x, z, y]
  {
    var v := [x, y, z];
    assert Front(v) == [x, y];
    assert Front(v)[..1] == [x];
    FirstIndexAt(Front(v), y, 1);
    assert Swap(v, 1, 2) == [x, z, y];
  }

  /** In tree t = 0 of B_3 the parent of (2,1,3) is (2,3,1) ... */
  lemma B3ParentOf213(table: seq<seq<int>>)
    requires table == B3
    ensures table[2] == [2, 1, 3] && table[3] == [2, 3, 1]
    ensures ParentOf(table, 3, 2, 0) == 3
  {
    B3Lookup(table, 2);
    B3Lookup(table, 3);
    ParentOf213(table);
  }

  /** The Case 1 step of B3ParentOf213 on any table holding (2,1,3) and (2,3,1) at 2 and 3. */
  lemma ParentOf213(table: seq<seq<int>>)
    requires |table| > 3 && table[2] == [2, 1, 3] && IsPerm(table[2], 3) && IndexOf(table, [2, 3, 1]) == 3
    ensures ParentOf(table, 3, 2, 0) == 3
  {
    B3Swap(2, 1, 3);
    ParentWhenLastIsN(table, 3, 2, 0, table[2], 3);
  }

  /**
   * ... and the parent of (2,3,1) is (2,1,3): the parent table of a tree can
   * hold a cycle, so it need not be a tree.
   */
  lemma B3ParentOf231(table: seq<seq<int>>)
    requires table == B3
    ensures table[2] == [2, 1, 3] && table[3] == [2, 3, 1]
    ensures ParentOf(table, 3, 3, 0) == 2
  {
    B3Lookup(table, 2);
    B3Lookup(table, 3);
    ParentOf231(table);
  }

  /** The Case 2 step of B3ParentOf231 on any table holding (2,1,3) and (2,3,1) at 2 and 3. */
  lemma ParentOf231(table: seq<seq<int>>)
    requires |table| > 3 && table[3] == [2, 3, 1] && IsPerm(table[3], 3) && IndexOf(table, [2, 1, 3]) == 2
    ensures ParentOf(table, 3, 3, 0) == 2
  {
    B3Swap(2, 3, 1);
    ParentBySwapN(table, 3, 3, 0, table[3], 2);
  }

  /** Each vertex of B_3 is a permutation, and looking it up finds its own index. */
  lemma B3Lookup(table: seq<seq<int>>, k: nat)
    requires table == B3 && k < 6
    ensures IsPerm(table[k], 3) && IndexOf(table, table[k]) == k
  {
    VerticesB3();
    VertexTable(3);
    FirstIndexOfDistinct(table, k);
  }

  /**
   * The step both cases share: swap symbol x of the vertex into u, then look u
   * up in the table.
   */
  method SwapAndLookup(vertices: array<seq<int>>, numVertices: nat, n: nat, v: seq<int>, x: int,
                       ghost table: seq<seq<int>>)
      returns (parentIndex: int)
    requires numVertices <= vertices.Length && |v| == n && table == vertices[..numVertices]
    requires forall k :: 0 <= k < numVertices ==> |vertices[k]| == n
    ensures parentIndex == IndexOf(table, SwappedByValue(v, x))
  {
    var u := SwapVertex(v, x);
    parentIndex := FindVertexIndex(vertices, numVertices, n, u);
  }

  /** The loop body's local inverse: a fresh array of n ints filled by compute_inverse. */
  method InverseOf(v: seq<int>, n: nat) returns (inv: array<int>)
    requires IsPerm(v, n)
    ensures fresh(inv) && inv.Length == n && inv[..] == Inverse(v)
  {
    inv := new int[n];
    ComputeInverse(v, inv, n);
    assert v[..n] == v && inv[..] == inv[..n];
  }

  /**
   * The loop body for vertex i and tree t: the inverse, the position of t + 1,
   * then the swap and the table lookup, as the two programs run them.
   */
  method ComputeParent(vertices: array<seq<int>>, numVertices: nat, n: nat, i: nat, t: nat,
                       ghost table: seq<seq<int>>)
      returns (parentIndex: int)
    requires numVertices <= vertices.Length && i < numVertices && t + 1 < n
    requires table == vertices[..numVertices]
    requires forall k :: 0 <= k < numVertices ==> |vertices[k]| == n
    requires IsPerm(table[i], n)
    ensures parentIndex == ParentOf(table, n, i, t)
  {
    var v := vertices[i];
    assert v == table[i];
    var vn := v[n - 1];
    parentIndex := -1;
    var inv := InverseOf(v, n);
    if vn == n {
      parentIndex := LastIsN(vertices, numVertices, n, i, t, v, inv, table);
    } else if vn == t + 1 {
      parentIndex := SwapAndLookup(vertices, numVertices, n, v, n, table);
      ParentBySwapN(table, n, i, t, v, parentIndex);
    } else {
      NoParent(table, n, i, t, v);
      parentIndex := -1;
    }
  }

  /** Case 1, the last symbol is n: look up where t + 1 sits, then swap it or stop at the root. */
  method LastIsN(vertices: array<seq<int>>, numVertices: nat, n: nat, i: nat, t: nat, v: seq<int>,
                 inv: array<int>, ghost table: seq<seq<int>>)
      returns (parentIndex: int)
    requires numVertices <= vertices.Length && i < numVertices && t + 1 < n
    requires table == vertices[..numVertices] && v == table[i]
    requires forall k :: 0 <= k < numVertices ==> |vertices[k]| == n
    requires IsPerm(v, n) && v[n - 1] == n
    requires inv.Length == n && inv[..] == Inverse(v)
    ensures parentIndex == ParentOf(table, n, i, t)
  {
    var posT := FindPosition(inv, t + 1, n);
    assert inv[..n] == inv[..];
    RootBranchUnreachable(v, n, t);
    if posT != n {
      parentIndex := SwapAndLookup(vertices, numVertices, n, v, t + 1, table);
      ParentBySwapT(table, n, i, t, v, parentIndex);
    } else {
      // the root self-loop branch: dead, since posT is v[t] and v[t] != n
      assert false;
      parentIndex := -1;
      if i == 0 {
        parentIndex := i;
      }
    }
  }

  /** Case 1 split out of ParentOf for LastIsN: the lookup of the vertex with t + 1 swapped is the entry. */
  lemma ParentBySwapT(table: seq<seq<int>>, n: nat, i: nat, t: nat, v: seq<int>, r: int)
    requires i < |table| && t + 1 < n && v == table[i] && IsPerm(v, n)
    requires v[n - 1] == n && PositionOf(Inverse(v), t + 1) != n
    requires r == IndexOf(table, SwappedByValue(v, t + 1))
    ensures r == ParentOf(table, n, i, t)
  {
  }

  /** Case 1 split out of ParentOf, needing no look at the inverse: t + 1 never sits last in it when n does in v. */
  lemma ParentWhenLastIsN(table: seq<seq<int>>, n: nat, i: nat, t: nat, v: seq<int>, r: int)
    requires i < |table| && t + 1 < n && v == table[i] && IsPerm(v, n) && v[n - 1] == n
    requires r == IndexOf(table, SwappedByValue(v, t + 1))
    ensures r == ParentOf(table, n, i, t)
  {
    RootBranchUnreachable(v, n, t);
    ParentBySwapT(table, n, i, t, v, r);
  }

  /** Case 2 split out of ParentOf for ComputeParent: the lookup of the vertex with n swapped is the entry. */
  lemma ParentBySwapN(table: seq<seq<int>>, n: nat, i: nat, t: nat, v: seq<int>, r: int)
    requires i < |table| && t + 1 < n && v == table[i] && IsPerm(v, n)
    requires v[n - 1] == t + 1
    requires r == IndexOf(table, SwappedByValue(v, n))
    ensures r == ParentOf(table, n, i, t)
  {
  }

  /** Case 3 split out of ParentOf for ComputeParent: no parent. */
  lemma NoParent(table: seq<seq<int>>, n: nat, i: nat, t: nat, v: seq<int>)
    requires i < |table| && t + 1 < n && v == table[i] && IsPerm(v, n)
    requires v[n - 1] != n && v[n - 1] != t + 1
    ensures ParentOf(table, n, i, t) == -1
  {
  }

  /**
   * The IST table both programs set up before the tree loop: numVertices rows,
   * one column per tree, every entry -1 (no parent).
   */
  method NewParentTable(numVertices: nat, n: nat) returns (parent: array2<int>)
    requires n >= 1
    ensures fresh(parent) && parent.Length0 == numVertices && parent.Length1 == n - 1
    ensures forall i, t :: 0 <= i < numVertices && 0 <= t < n - 1 ==> parent[i, t] == -1
  {
    parent := new int[numVertices, n - 1];
    for i := 0 to numVertices
      invariant forall a, b :: 0 <= a < i && 0 <= b < n - 1 ==> parent[a, b] == -1
    {
      for t := 0 to n - 1
        invariant forall a, b :: 0 <= a < i && 0 <= b < n - 1 ==> parent[a, b] == -1
        invariant forall b :: 0 <= b < t ==> parent[i, b] == -1
      {
        parent[i, t] := -1;
      }
    }
  }

  /**
   * The tree loop over t with the vertex loop over the rows [lo, hi) inside,
   * on a table still cleared to -1: each entry of those rows gets the rule's
   * value, every other row stays -1.
   */
  method AssignRows(parent: array2<int>, vertices: array<seq<int>>, numVertices: nat, n: nat,
                    lo: nat, hi: nat, ghost table: seq<seq<int>>)
    requires n >= 1 && parent.Length0 == numVertices && parent.Length1 == n - 1
    requires forall a, b :: 0 <= a < numVertices && 0 <= b < n - 1 ==> parent[a, b] == -1
    requires lo <= hi <= numVertices <= vertices.Length && table == vertices[..numVertices]
    requires forall k :: 0 <= k < numVertices ==> IsPerm(vertices[k], n)
    modifies parent
    ensures forall a, b :: 0 <= a < numVertices && 0 <= b < n - 1 ==>
              parent[a, b] == if lo <= a < hi then ParentOf(table, n, a, b) else -1
  {
    for t := 0 to n - 1
      invariant forall a, b :: 0 <= a < numVertices && 0 <= b < n - 1 ==>
                  parent[a, b] == if lo <= a < hi && b < t then ParentOf(table, n, a, b) else -1
    {
      for i := lo to hi
        invariant forall a, b :: 0 <= a < numVertices && 0 <= b < n - 1 ==>
                    parent[a, b] ==
                      if lo <= a < hi && (b < t || (b == t && a < i)) then ParentOf(table, n, a, b) else -1
      {
        var parentIndex := ComputeParent(vertices, numVertices, n, i, t, table);
        parent[i, t] := parentIndex;
      }
    }
  }
}
