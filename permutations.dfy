/**
 * Permutation algebra of the bubble-sort network B_n: permutations of 1..n
 * as sequences, the inverse permutation, linear search, the swap of a symbol
 * with its right neighbour, and the adjacency relation of B_n.
 */
module Permutations {

  /** The dimension the program is compiled for (MAX_N) and MAX_N! (MAX_VERTICES). */
  const MaxN: nat := 4
  const MaxVertices: nat := 24

  function Factorial(x: nat): (r: nat)
    ensures r >= 1
  {
    if x == 0 then 1 else x * Factorial(x - 1)
  }

  /** The identity permutation (1, 2, ..., n): the root of every tree. */
  function Identity(n: nat): seq<int>
  {
    seq(n, i => i + 1)
  }

  predicate NoDuplicates<T(==)>(s: seq<T>)
  {
    forall i, j :: 0 <= i < j < |s| ==> s[i] != s[j]
  }

  /** p is a permutation of the symbols 1..n. */
  predicate IsPerm(p: seq<int>, n: nat)
  {
    |p| == n && (forall i :: 0 <= i < n ==> 1 <= p[i] <= n) && NoDuplicates(p)
  }

  /** s with positions i and j exchanged. */
  function Swap(s: seq<int>, i: nat, j: nat): (r: seq<int>)
    requires i < |s| && j < |s|
    ensures |r| == |s|
  {
    s[i := s[j]][j := s[i]]
  }

  /** Exchanging two positions rearranges the symbols without changing them. */
  lemma SwapMultiset(s: seq<int>, i: nat, j: nat)
    requires i < |s| && j < |s|
    ensures multiset(Swap(s, i, j)) == multiset(s)
  {
  }

  /** 0-based index of the first occurrence of x in s, or -1. */
  function FirstIndex<T(==)>(s: seq<T>, x: T): (r: int)
    ensures r == -1 <==> x !in s
    ensures r != -1 ==> 0 <= r < |s| && s[r] == x && x !in s[..r]
  {
    if |s| == 0 then -1
    else if s[0] == x then 0
    else
      var k := FirstIndex(s[1..], x);
      if k == -1 then -1
      else
        assert s[..k + 1] == [s[0]] + s[1..][..k];
        k + 1
  }

  /** 1-based position of x in s, or -1 (the result convention of find_position). */
  function PositionOf(s: seq<int>, x: int): int
  {
    var k := FirstIndex(s, x);
    if k == -1 then -1 else k + 1
  }

  /** The first occurrence of x is at i when s[i] == x and x does not occur before i. */
  lemma {:induction false} FirstIndexAt<T>(s: seq<T>, x: T, i: nat)
    requires i < |s| && s[i] == x && x !in s[..i]
    ensures FirstIndex(s, x) == i
  {
    if i > 0 {
      assert s[0] == s[..i][0];
      assert s[1..][i - 1] == x;
      assert s[1..][..i - 1] == s[1..i];
      assert forall j :: 0 <= j < i - 1 ==> s[1..i][j] == s[..i][j + 1];
      FirstIndexAt(s[1..], x, i - 1);
    }
  }

  /** In a sequence without duplicates the first occurrence of s[i] is i itself. */
  lemma FirstIndexOfDistinct<T>(s: seq<T>, i: nat)
    requires NoDuplicates(s) && i < |s|
    ensures FirstIndex(s, s[i]) == i
  {
    assert forall j :: 0 <= j < i ==> s[..i][j] != s[i];
    FirstIndexAt(s, s[i], i);
  }

  lemma {:induction false} IdentityIsPerm(n: nat)
    ensures IsPerm(Identity(n), n)
  {
  }

  /**
   * Dropping the last symbol x of a permutation of 1..n and writing x where n
   * stood leaves a permutation of 1..n-1.
   */
  lemma Relabel(p: seq<int>, n: nat, j: int)
    requires IsPerm(p, n) && n > 0 && j == FirstIndex(p[..n - 1], n)
    ensures IsPerm(if j == -1 then p[..n - 1] else p[..n - 1][j := p[n - 1]], n - 1)
  {
    var x, q := p[n - 1], p[..n - 1];
    var q' := if j == -1 then q else q[j := x];
    assert forall i :: 0 <= i < n - 1 ==> q[i] == p[i];
    forall i | 0 <= i < n - 1
      ensures 1 <= q'[i] <= n - 1
    {
      assert q'[i] == p[if i == j then n - 1 else i];
      assert j != -1 ==> p[j] == n;
    }
    forall i, i' | 0 <= i < i' < n - 1
      ensures q'[i] != q'[i']
    {
      assert q'[i] == p[if i == j then n - 1 else i];
      assert q'[i'] == p[if i' == j then n - 1 else i'];
    }
  }

  /**
   * Pigeonhole: n distinct values drawn from 1..n are exactly the symbols
   * 1..n, each once.
   */
  lemma {:induction false} PermMultiset(p: seq<int>, n: nat)
    requires IsPerm(p, n)
    ensures multiset(p) == multiset(Identity(n))
    decreases n
  {
    if n == 0 {
      return;
    }
    var x, q := p[n - 1], p[..n - 1];
    var j := FirstIndex(q, n);
    var q' := if j == -1 then q else q[j := x];
    Relabel(p, n, j);
    PermMultiset(q', n - 1);
    if j == -1 {
      StepLastIsN(p, n);
    } else {
      StepSwapsN(p, n, j);
    }
  }

  /** The step when n is not among the first n - 1 symbols: then it is the last. */
  lemma StepLastIsN(p: seq<int>, n: nat)
    requires n >= 1 && IsPerm(p, n) && n !in p[..n - 1]
    requires multiset(p[..n - 1]) == multiset(Identity(n - 1))
    ensures multiset(p) == multiset(Identity(n))
  {
    var x, q := p[n - 1], p[..n - 1];
    assert p == q + [x];
    assert forall k :: 0 <= k < n - 1 ==> q[k] != x;
    assert x !in multiset(q);
    IdentityHoldsAll(n - 1);
    AppendToIdentity(q, q, x, n);
  }

  /** The identity on 1..m holds each of the symbols 1..m. */
  lemma IdentityHoldsAll(m: nat)
    ensures forall y :: 1 <= y <= m ==> y in multiset(Identity(m))
  {
    forall y | 1 <= y <= m ensures y in multiset(Identity(m)) {
      assert Identity(m)[y - 1] == y;
    }
  }

  /** The step when n sits at j < n - 1: writing the last symbol there relabels n away. */
  lemma StepSwapsN(p: seq<int>, n: nat, j: nat)
    requires n >= 1 && |p| == n && j < n - 1 && p[j] == n
    requires multiset(p[..n - 1][j := p[n - 1]]) == multiset(Identity(n - 1))
    ensures multiset(p) == multiset(Identity(n))
  {
    var x, q := p[n - 1], p[..n - 1];
    assert p == q + [x];
    UpdateMultiset(q, j, x);
    AppendToIdentity(q, q[j := x], x, n);
  }

  /** Overwriting position j with x trades one occurrence of s[j] for one of x. */
  lemma UpdateMultiset(s: seq<int>, j: nat, x: int)
    requires j < |s|
    ensures multiset(s[j := x]) + multiset{s[j]} == multiset(s) + multiset{x}
  {
    assert s == s[..j] + [s[j]] + s[j + 1..];
    assert s[j := x] == s[..j] + [x] + s[j + 1..];
  }

  /** The inductive step's bookkeeping: q + [x] counts what q' + [n] counts. */
  lemma AppendToIdentity(q: seq<int>, q': seq<int>, x: int, n: nat)
    requires n >= 1 && multiset(q') == multiset(Identity(n - 1))
    requires multiset(q') + multiset{n} == multiset(q) + multiset{x}
    ensures multiset(q + [x]) == multiset(Identity(n))
  {
    assert Identity(n) == Identity(n - 1) + [n];
  }

  lemma InIdentity(n: nat, x: int)
    requires x in Identity(n)
    ensures 1 <= x <= n
  {
  }

  /** A sequence without duplicates counts every value at most once. */
  lemma {:induction false} NoDuplicatesCount(s: seq<int>, x: int)
    requires NoDuplicates(s)
    ensures multiset(s)[x] <= 1
  {
    if |s| > 0 {
      assert s == [s[0]] + s[1..];
      assert forall j :: 0 <= j < |s| - 1 ==> s[1..][j] == s[j + 1];
      assert NoDuplicates(s[1..]);
      NoDuplicatesCount(s[1..], x);
      assert s[0] !in s[1..];
    }
  }

  /** A value at two positions is counted at least twice. */
  lemma DuplicateCount(s: seq<int>, i: nat, j: nat)
    requires i < j < |s|
    ensures s[i] == s[j] ==> multiset(s)[s[i]] >= 2
  {
    assert s == s[..j] + s[j..];
    assert s[..j][i] == s[i] && s[j..][0] == s[j];
    assert multiset(s)[s[i]] == multiset(s[..j])[s[i]] + multiset(s[j..])[s[i]];
  }

  /**
   * A sequence of length n is a permutation of 1..n exactly when it holds
   * the same multiset of symbols as the identity.
   */
  lemma PermIffMultiset(p: seq<int>, n: nat)
    requires |p| == n
    ensures IsPerm(p, n) <==> multiset(p) == multiset(Identity(n))
  {
    if IsPerm(p, n) {
      PermMultiset(p, n);
    }
    if multiset(p) == multiset(Identity(n)) {
      forall i | 0 <= i < n ensures 1 <= p[i] <= n {
        assert p[i] in multiset(Identity(n));
        InIdentity(n, p[i]);
      }
      IdentityIsPerm(n);
      forall i, j | 0 <= i < j < n ensures p[i] != p[j] {
        NoDuplicatesCount(Identity(n), p[i]);
        DuplicateCount(p, i, j);
      }
    }
  }

  /** Every symbol 1..n occurs in a permutation of 1..n. */
  lemma PermContainsAll(p: seq<int>, n: nat)
    requires IsPerm(p, n)
    ensures forall x :: 1 <= x <= n ==> x in p
  {
    PermMultiset(p, n);
    forall x | 1 <= x <= n ensures x in p {
      assert Identity(n)[x - 1] == x;
      assert x in multiset(p);
    }
  }

  lemma SwapPreservesNoDuplicates(s: seq<int>, i: nat, j: nat)
    requires NoDuplicates(s) && i < |s| && j < |s|
    ensures NoDuplicates(Swap(s, i, j))
  {
    var r := Swap(s, i, j);
    assert forall a :: 0 <= a < |s| ==> r[a] == s[if a == i then j else if a == j then i else a];
    forall a, b | 0 <= a < b < |s| ensures r[a] != r[b] {
      var a', b' := if a == i then j else if a == j then i else a, if b == i then j else if b == j then i else b;
      assert a' != b';
      if a' < b' {
        assert s[a'] != s[b'];
      } else {
        assert s[b'] != s[a'];
      }
    }
  }

  lemma SwapPreservesPerm(s: seq<int>, n: nat, i: nat, j: nat)
    requires IsPerm(s, n) && i < n && j < n
    ensures IsPerm(Swap(s, i, j), n)
  {
    SwapPreservesNoDuplicates(s, i, j);
  }

  /** The sequence that sends each symbol k + 1 to its 1-based position in p is the inverse of p. */
  lemma InverseFacts(p: seq<int>, inv: seq<int>)
    requires IsPerm(p, |p|) && |inv| == |p|
    requires forall k :: 0 <= k < |p| ==> inv[k] == PositionOf(p, k + 1)
    ensures forall i :: 0 <= i < |p| ==> inv[p[i] - 1] == i + 1
    ensures IsPerm(inv, |p|)
  {
    var n := |p|;
    PermContainsAll(p, n);
    forall i | 0 <= i < n ensures inv[p[i] - 1] == i + 1 {
      FirstIndexOfDistinct(p, i);
    }
    forall k | 0 <= k < n ensures 1 <= inv[k] <= n && p[inv[k] - 1] == k + 1 {
      assert k + 1 in p;
    }
    LeftInverseDistinct(p, inv);
  }

  /** A sequence that p sends back to the identity has no value twice. */
  lemma LeftInverseDistinct(p: seq<int>, inv: seq<int>)
    requires forall k :: 0 <= k < |inv| ==> 1 <= inv[k] <= |p| && p[inv[k] - 1] == k + 1
    ensures NoDuplicates(inv)
  {
    forall a, b | 0 <= a < b < |inv| ensures inv[a] != inv[b] {
      assert p[inv[a] - 1] == a + 1 && p[inv[b] - 1] == b + 1;
    }
  }

  /**
   * compute_inverse: the inverse maps each symbol to its 1-based position,
   * so that inv[p[i] - 1] == i + 1 for every position i.
   */
  function Inverse(p: seq<int>): (inv: seq<int>)
    requires IsPerm(p, |p|)
    ensures |inv| == |p|
  {
    seq(|p|, k => PositionOf(p, k + 1))
  }

  /** The inverse undoes p, inv[p[i] - 1] == i + 1, and is itself a permutation of 1..n. */
  lemma InverseIsInverse(p: seq<int>)
    requires IsPerm(p, |p|)
    ensures forall i :: 0 <= i < |p| ==> Inverse(p)[p[i] - 1] == i + 1
    ensures IsPerm(Inverse(p), |p|)
  {
    InverseFacts(p, Inverse(p));
  }

  /** Inverting the inverse gives back the permutation. */
  lemma InverseInvolution(p: seq<int>)
    requires IsPerm(p, |p|)
    ensures IsPerm(Inverse(p), |p|) && Inverse(Inverse(p)) == p
  {
    InverseIsInverse(p);
    forall k | 0 <= k < |p| ensures Inverse(Inverse(p))[k] == p[k] {
      InverseInvolutionAt(p, k);
    }
  }

  lemma InverseInvolutionAt(p: seq<int>, k: nat)
    requires IsPerm(p, |p|) && k < |p|
    ensures IsPerm(Inverse(p), |p|) && Inverse(Inverse(p))[k] == p[k]
  {
    var q := Inverse(p);
    InverseIsInverse(p);
    var i := p[k] - 1;
    assert q[i] == k + 1;
    FirstIndexOfDistinct(q, i);
  }

  /**
   * Looking a symbol up in the inverse yields the symbol the permutation
   * holds at that position: find_position(inverse(p), x) == p[x - 1], never -1.
   */
  lemma PositionInInverse(p: seq<int>, n: nat, x: int)
    requires IsPerm(p, n) && 1 <= x <= n
    ensures PositionOf(Inverse(p), x) == p[x - 1]
  {
    var inv := Inverse(p);
    InverseIsInverse(p);
    assert inv[p[x - 1] - 1] == x;
    FirstIndexOfDistinct(inv, p[x - 1] - 1);
  }

  /** The first n - 1 positions of v, those swap_vertex searches. */
  function Front(v: seq<int>): seq<int>
  {
    if |v| == 0 then [] else v[..|v| - 1]
  }

  /**
   * swap_vertex: exchange the first occurrence of x among the first |v| - 1
   * positions with its right neighbour; no change when there is none.
   */
  function SwappedByValue(v: seq<int>, x: int): (r: seq<int>)
    ensures |r| == |v| && multiset(r) == multiset(v)
  {
    var k := FirstIndex(Front(v), x);
    if k == -1 then v else SwapMultiset(v, k, k + 1); Swap(v, k, k + 1)
  }

  /**
   * No change when x is not among the first |v| - 1 positions; otherwise x's
   * first occurrence and its right neighbour trade places and nothing else moves.
   */
  lemma SwappedByValueFacts(v: seq<int>, x: int)
    ensures x !in Front(v) ==> SwappedByValue(v, x) == v
    ensures forall i :: 0 <= i < |v| - 1 && v[i] == x && x !in v[..i] ==>
              SwappedByValue(v, x)[i] == v[i + 1] && SwappedByValue(v, x)[i + 1] == v[i] &&
              forall j :: 0 <= j < |v| && j != i && j != i + 1 ==> SwappedByValue(v, x)[j] == v[j]
  {
    forall i | 0 <= i < |v| - 1 && v[i] == x && x !in v[..i]
      ensures FirstIndex(Front(v), x) == i
    {
      assert Front(v)[..i] == v[..i];
      FirstIndexAt(Front(v), x, i);
    }
  }

  /** u and v are adjacent in B_n: u is v with one pair of adjacent positions exchanged. */
  predicate Adjacent(u: seq<int>, v: seq<int>)
  {
    u != v && exists k :: 0 <= k < |v| - 1 && u == Transposed(v, k)
  }

  /** v with positions k and k + 1 exchanged: one edge of B_n (an alias of Swap for neighbouring positions). */
  function Transposed(v: seq<int>, k: nat): seq<int>
    requires k + 1 < |v|
  {
    Swap(v, k, k + 1)
  }

  /**
   * When x lies in the first n - 1 positions of a permutation, swapping it
   * gives a different permutation adjacent to the original in B_n.
   */
  lemma SwappedByValueIsNeighbour(v: seq<int>, n: nat, x: int)
    requires IsPerm(v, n) && x in Front(v)
    ensures IsPerm(SwappedByValue(v, x), n)
    ensures Adjacent(SwappedByValue(v, x), v)
  {
    var k := FirstIndex(Front(v), x);
    assert Front(v)[k] == v[k];
    SwapPreservesPerm(v, n, k, k + 1);
    assert Transposed(v, k)[k] == v[k + 1] != v[k];
  }

  /** Linear search for a whole permutation in a table (find_vertex_index): an alias of FirstIndex over vertices. */
  function IndexOf(table: seq<seq<int>>, v: seq<int>): int
  {
    FirstIndex(table, v)
  }
}
