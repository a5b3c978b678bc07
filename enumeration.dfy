/**
 * The vertex table of B_n: the order in which the swap-and-restore
 * backtracking of generate_permutations writes the n! permutations.
 */
module Enumeration {
  import opened Permutations

  /**
   * The entries generate_permutations(arr, start, |a| - 1, &index) writes, in
   * order, when arr holds a: at the last position the whole of a; otherwise,
   * for each i from start to the end, the entries of the recursive call on a
   * with positions start and i exchanged.
   */
  function Generated(a: seq<int>, start: nat): seq<seq<int>>
    requires start < |a|
    decreases |a| - start, 1, 0
  {
    if start == |a| - 1 then [a] else Branches(a, start, |a|)
  }

  /** The entries written by the loop iterations start..i-1 at level start. */
  function Branches(a: seq<int>, start: nat, i: nat): seq<seq<int>>
    requires start < |a| - 1 && start <= i <= |a|
    decreases |a| - start, 0, i
  {
    if i == start then []
    else Branches(a, start, i - 1) + Generated(Swap(a, start, i - 1), start + 1)
  }

  /** The vertex table the program builds: the enumeration started from the identity. */
  function Vertices(n: nat): seq<seq<int>>
    requires n >= 1
  {
    Generated(Identity(n), 0)
  }

  /** Each call at level start writes (|a| - start)! entries. */
  lemma {:induction false} GeneratedLength(a: seq<int>, start: nat)
    requires start < |a|
    ensures |Generated(a, start)| == Factorial(|a| - start)
    decreases |a| - start, 1, 0
  {
    if start < |a| - 1 {
      BranchesLength(a, start, |a|);
    }
  }

  lemma {:induction false} BranchesLength(a: seq<int>, start: nat, i: nat)
    requires start < |a| - 1 && start <= i <= |a|
    ensures |Branches(a, start, i)| == (i - start) * Factorial(|a| - start - 1)
    decreases |a| - start, 0, i
  {
    if i > start {
      var b := Swap(a, start, i - 1);
      var m, f := i - start, Factorial(|a| - start - 1);
      GeneratedLength(b, start + 1);
      assert |Generated(b, start + 1)| == f;
      BranchesLength(a, start, i - 1);
      assert |Branches(a, start, i - 1)| == (m - 1) * f;
      assert Branches(a, start, i) == Branches(a, start, i - 1) + Generated(b, start + 1);
      MulStep(m, f);
      assert |Branches(a, start, i)| == m * f;
    } else {
      assert Branches(a, start, i) == [];
    }
  }

  lemma MulStep(m: int, f: int)
    ensures (m - 1) * f + f == m * f
  {
  }

  /**
   * Every entry written at level start has the length of a, keeps a's first
   * start symbols, and is a rearrangement of a.
   */
  lemma {:induction false} GeneratedShape(a: seq<int>, start: nat)
    requires start < |a|
    ensures forall e :: e in Generated(a, start) ==>
              |e| == |a| && e[..start] == a[..start] && multiset(e) == multiset(a)
    decreases |a| - start, 1, 0
  {
    if start < |a| - 1 {
      BranchesShape(a, start, |a|);
    }
  }

  /** ... and position start of each entry of the first i - start iterations holds one of a[start..i). */
  lemma {:induction false} BranchesShape(a: seq<int>, start: nat, i: nat)
    requires start < |a| - 1 && start <= i <= |a|
    ensures forall e :: e in Branches(a, start, i) ==>
              |e| == |a| && e[..start] == a[..start] && multiset(e) == multiset(a) &&
              e[start] in a[start..i]
    decreases |a| - start, 0, i
  {
    if i > start {
      BranchesShape(a, start, i - 1);
      var b := Swap(a, start, i - 1);
      GeneratedShape(b, start + 1);
      SwapMultiset(a, start, i - 1);
      assert b[..start] == a[..start];
      forall e | e in Generated(b, start + 1)
        ensures |e| == |a| && e[..start] == a[..start] && e[start] in a[start..i]
      {
        assert e[..start] == e[..start + 1][..start];
        assert e[start] == e[..start + 1][start] == b[start] == a[i - 1];
        assert a[start..i][i - 1 - start] == a[i - 1];
      }
      forall e | e in Branches(a, start, i - 1) ensures e[start] in a[start..i] {
        assert a[start..i - 1] <= a[start..i];
      }
    }
  }

  lemma NoDuplicatesConcat<T>(x: seq<T>, y: seq<T>)
    requires NoDuplicates(x) && NoDuplicates(y)
    requires forall e :: e in x ==> e !in y
    ensures NoDuplicates(x + y)
  {
    var z := x + y;
    forall i, j | 0 <= i < j < |z| ensures z[i] != z[j] {
      if i < |x| && j >= |x| {
        assert z[i] in x && z[j] == y[j - |x|];
      }
    }
  }

  /** Starting from distinct symbols, no entry is written twice. */
  lemma {:induction false} GeneratedDistinct(a: seq<int>, start: nat)
    requires start < |a| && NoDuplicates(a)
    ensures NoDuplicates(Generated(a, start))
    decreases |a| - start, 1, 0
  {
    if start < |a| - 1 {
      BranchesDistinct(a, start, |a|);
    }
  }

  lemma {:induction false} BranchesDistinct(a: seq<int>, start: nat, i: nat)
    requires start < |a| - 1 && start <= i <= |a| && NoDuplicates(a)
    ensures NoDuplicates(Branches(a, start, i))
    decreases |a| - start, 0, i
  {
    if i > start {
      var b := Swap(a, start, i - 1);
      var x, y := Branches(a, start, i - 1), Generated(b, start + 1);
      BranchesDistinct(a, start, i - 1);
      SwapPreservesNoDuplicates(a, start, i - 1);
      GeneratedDistinct(b, start + 1);
      BranchesDisjoint(a, start, i - 1);
      NoDuplicatesConcat(x, y);
    }
  }

  /**
   * The entries of iteration j hold a[j] at position start, which no entry of
   * an earlier iteration does.
   */
  lemma BranchesDisjoint(a: seq<int>, start: nat, j: nat)
    requires start < |a| - 1 && start <= j < |a| && NoDuplicates(a)
    ensures forall e :: e in Branches(a, start, j) ==> e !in Generated(Swap(a, start, j), start + 1)
  {
    var b := Swap(a, start, j);
    BranchesShape(a, start, j);
    GeneratedShape(b, start + 1);
    forall e | e in Generated(b, start + 1) ensures e[start] == a[j] {
      assert e[start] == e[..start + 1][start] == b[start];
    }
    var earlier := a[start..j];
    assert a[j] !in earlier by {
      forall k | 0 <= k < |earlier| ensures earlier[k] != a[j] {
        assert earlier[k] == a[start + k];
      }
    }
  }

  /** An entry of the iteration exchanging start and j is among those of the first i > j iterations. */
  lemma {:induction false} BranchesContain(a: seq<int>, start: nat, j: nat, i: nat, e: seq<int>)
    requires start < |a| - 1 && start <= j < i <= |a|
    requires e in Generated(Swap(a, start, j), start + 1)
    ensures e in Branches(a, start, i)
    decreases i
  {
    if i - 1 > j {
      BranchesContain(a, start, j, i - 1, e);
    }
  }

  /**
   * Completeness: every rearrangement of a that keeps a's first start symbols
   * is written at level start.
   */
  lemma {:induction false} GeneratedComplete(a: seq<int>, start: nat, e: seq<int>)
    requires start < |a| && |e| == |a| && e[..start] == a[..start]
    requires multiset(e[start..]) == multiset(a[start..])
    ensures e in Generated(a, start)
    decreases |a| - start
  {
    assert e[start] in multiset(e[start..]) by {
      assert e[start..][0] == e[start];
    }
    var j' :| 0 <= j' < |a| - start && a[start..][j'] == e[start];
    var j := start + j';
    if start == |a| - 1 {
      assert e[start..] == [e[start]] && a[start..] == [a[start]];
      assert e == e[..start] + e[start..] && a == a[..start] + a[start..];
    } else {
      SwapStep(a, start, j, e);
      GeneratedComplete(Swap(a, start, j), start + 1, e);
      BranchesContain(a, start, j, |a|, e);
    }
  }

  /** Two rearrangements of each other that start alike stay rearrangements without their heads. */
  lemma DropHead(x: seq<int>, y: seq<int>)
    requires |x| > 0 && |y| > 0 && x[0] == y[0] && multiset(x) == multiset(y)
    ensures multiset(x[1..]) == multiset(y[1..])
  {
    assert x == [x[0]] + x[1..] && y == [y[0]] + y[1..];
    assert multiset(x[1..]) == multiset(x) - multiset{x[0]};
    assert multiset(y[1..]) == multiset(y) - multiset{y[0]};
  }

  /**
   * Exchanging start with the position j that holds e[start] gives an array
   * that agrees with e one position further.
   */
  lemma SwapStep(a: seq<int>, start: nat, j: nat, e: seq<int>)
    requires start <= j < |a| && start + 1 < |a| && |e| == |a| && e[..start] == a[..start]
    requires multiset(e[start..]) == multiset(a[start..]) && a[j] == e[start]
    ensures Swap(a, start, j)[..start + 1] == e[..start + 1]
    ensures multiset(Swap(a, start, j)[start + 1..]) == multiset(e[start + 1..])
  {
    var b := Swap(a, start, j);
    assert b[start..] == Swap(a[start..], 0, j - start);
    SwapMultiset(a[start..], 0, j - start);
    assert b[..start] == a[..start];
    assert b[..start + 1] == b[..start] + [b[start]];
    assert e[..start + 1] == e[..start] + [e[start]];
    DropHead(b[start..], e[start..]);
    assert b[start..][1..] == b[start + 1..] && e[start..][1..] == e[start + 1..];
  }

  /** The first entry written is the array as it was on entry. */
  lemma {:induction false} GeneratedFirst(a: seq<int>, start: nat)
    requires start < |a|
    ensures |Generated(a, start)| > 0 && Generated(a, start)[0] == a
    decreases |a| - start, 1, 0
  {
    if start < |a| - 1 {
      BranchesFirst(a, start, |a|);
    }
  }

  lemma {:induction false} BranchesFirst(a: seq<int>, start: nat, i: nat)
    requires start < |a| - 1 && start < i <= |a|
    ensures |Branches(a, start, i)| > 0 && Branches(a, start, i)[0] == a
    decreases |a| - start, 0, i
  {
    if i == start + 1 {
      assert Swap(a, start, start) == a;
      GeneratedFirst(a, start + 1);
    } else {
      BranchesFirst(a, start, i - 1);
    }
  }

  /**
   * The vertex table holds exactly the permutations of 1..n, n! of them,
   * each once, with the identity at index 0.
   */
  lemma VertexTable(n: nat)
    requires n >= 1
    ensures |Vertices(n)| == Factorial(n)
    ensures Vertices(n)[0] == Identity(n)
    ensures forall k :: 0 <= k < |Vertices(n)| ==> IsPerm(Vertices(n)[k], n)
    ensures NoDuplicates(Vertices(n))
    ensures forall p :: IsPerm(p, n) ==> p in Vertices(n)
  {
    var id := Identity(n);
    GeneratedLength(id, 0);
    GeneratedFirst(id, 0);
    IdentityIsPerm(n);
    GeneratedDistinct(id, 0);
    GeneratedShape(id, 0);
    forall k | 0 <= k < |Vertices(n)| ensures IsPerm(Vertices(n)[k], n) {
      var e := Vertices(n)[k];
      assert e in Generated(id, 0);
      PermIffMultiset(e, n);
    }
    forall p | IsPerm(p, n) ensures p in Vertices(n) {
      PermMultiset(p, n);
      assert p[0..] == p && id[0..] == id;
      GeneratedComplete(id, 0, p);
    }
  }
}
