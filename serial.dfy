/**
 * The serial program: build the vertex table, clear the IST table, then fill
 * every entry, tree by tree and vertex by vertex.
 */
module Serial {
  import opened Permutations
  import opened Enumeration
  import opened Helpers
  import opened ParentRule

  /**
   * The nested tree/vertex loop over the whole range [0, numVertices): every
   * entry ends up as the parent rule's value.
   */
  method AssignParents(vertices: array<seq<int>>, numVertices: nat, n: nat) returns (parent: array2<int>)
    requires numVertices <= vertices.Length && n >= 1
    requires forall k :: 0 <= k < numVertices ==> IsPerm(vertices[k], n)
    ensures fresh(parent) && parent.Length0 == numVertices && parent.Length1 == n - 1
    ensures forall i, t :: 0 <= i < numVertices && 0 <= t < n - 1 ==>
              parent[i, t] == ParentOf(vertices[..numVertices], n, i, t)
  {
    parent := NewParentTable(numVertices, n);
    AssignRows(parent, vertices, numVertices, n, 0, numVertices, vertices[..numVertices]);
  }

  /**
   * The serial main program for B_n: every entry is the parent rule's value
   * over the vertex table, so it is -1 exactly for the
   * vertices whose last symbol is neither n nor t + 1; every other entry
   * names a neighbour of the vertex in B_n other than itself, and the root's
   * parent in tree t is the identity with t + 1 and t + 2 exchanged.
   */
  method Run(n: nat) returns (vertices: array<seq<int>>, numVertices: nat, parent: array2<int>)
    requires 1 <= n <= MaxN
    ensures numVertices == Factorial(n) && numVertices <= vertices.Length
    ensures vertices[..numVertices] == Vertices(n)
    ensures forall k :: 0 <= k < numVertices ==> |vertices[k]| == n && IsPerm(vertices[k], n)
    ensures parent.Length0 == numVertices && parent.Length1 == n - 1
    ensures forall i, t :: 0 <= i < numVertices && 0 <= t < n - 1 ==>
              parent[i, t] == ParentOf(vertices[..numVertices], n, i, t)
    ensures forall i, t :: 0 <= i < numVertices && 0 <= t < n - 1 ==>
              (parent[i, t] == -1 <==> vertices[i][n - 1] != n && vertices[i][n - 1] != t + 1)
    ensures forall i, t :: 0 <= i < numVertices && 0 <= t < n - 1 && parent[i, t] != -1 ==>
              0 <= parent[i, t] < numVertices && parent[i, t] != i &&
              Adjacent(vertices[parent[i, t]], vertices[i])
    ensures forall t :: 0 <= t < n - 1 ==>
              0 < parent[0, t] < numVertices && vertices[parent[0, t]] == Transposed(Identity(n), t)
  {
    vertices, numVertices := BuildVertexTable(n);
    VertexTable(n);
    assert forall k :: 0 <= k < numVertices ==> vertices[k] == Vertices(n)[k];
    parent := AssignParents(vertices, numVertices, n);
    forall i, t | 0 <= i < numVertices && 0 <= t < n - 1
      ensures parent[i, t] == -1 <==> vertices[i][n - 1] != n && vertices[i][n - 1] != t + 1
      ensures parent[i, t] != -1 ==>
                0 <= parent[i, t] < numVertices && parent[i, t] != i &&
                Adjacent(vertices[parent[i, t]], vertices[i])
    {
      ParentInTable(n, i, t);
    }
    forall t | 0 <= t < n - 1
      ensures 0 < parent[0, t] < numVertices && vertices[parent[0, t]] == Transposed(Identity(n), t)
    {
      IdentityParent(n, t);
      SwapPreservesPerm(Identity(n), n, t, t + 1);
      VertexLookup(n, Transposed(Identity(n), t));
    }
  }
}
